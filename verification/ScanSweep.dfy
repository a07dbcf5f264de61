/**
 * The sweep that re-queues malware scans stranded at pending: `_pending_sweep_domain` and
 * `_cron_sweep_pending_scans` of spp_attachment_av_scan/models/ir_attachment.py, with the write
 * hook and the rescan action that re-arm an attachment.
 *
 * Attachments are listed by id. Every write moves an attachment's write date to the current time.
 */
module ScanSweep {
  datatype Status = Pending | Clean | Infected | Failed

  datatype Attachment = Attachment(status: Status, binary: bool, size: nat, writeDate: int, quarantined: bool,
                                   forensic: bool, model: string, attempts: nat)

  /** The sweep's parameters, as configured: any integers. */
  datatype Config = Config(minAge: int, batchSize: int, maxAttempts: int)
  {
    predicate Enabled() {
      batchSize > 0 && maxAttempts > 0
    }
  }

  const EXCLUDED_MODELS: set<string> := {"ir.ui.menu"}

  /** `_pending_sweep_domain`: stranded user content older than the cutoff. */
  predicate Stranded(a: Attachment, cutoff: int) {
    && a.status == Pending && a.binary && a.size > 0 && a.writeDate < cutoff
    && !a.quarantined && !a.forensic && a.model != "" && a.model !in EXCLUDED_MODELS
  }

  predicate Eligible(a: Attachment, cutoff: int, config: Config) {
    Stranded(a, cutoff) && a.attempts < config.maxAttempts
  }

  /** The sweep's order: oldest write first, then lowest id. */
  predicate Precedes(table: seq<Attachment>, i: nat, j: nat)
    requires i < |table| && j < |table|
  {
    table[i].writeDate < table[j].writeDate || (table[i].writeDate == table[j].writeDate && i < j)
  }

  /** The eligible attachments ahead of `i`. */
  ghost function Ahead(table: seq<Attachment>, i: nat, cutoff: int, config: Config): set<nat>
    requires i < |table|
  {
    set j: nat | j < |table| && Eligible(table[j], cutoff, config) && Precedes(table, j, i)
  }

  /** The attachments one run picks up: the eligible ones with fewer than a batch ahead of them. */
  ghost function Batch(table: seq<Attachment>, now: int, config: Config): set<nat> {
    set i: nat | i < |table| && config.Enabled() && Eligible(table[i], now - config.minAge, config)
                 && |Ahead(table, i, now - config.minAge, config)| < config.batchSize
  }

  /** An attachment after the sweep counted an attempt for it. */
  function Counted(a: Attachment, now: int): Attachment {
    a.(attempts := a.attempts + 1, writeDate := now)
  }

  ghost function Swept(table: seq<Attachment>, now: int, config: Config): seq<Attachment> {
    seq(|table|, i requires 0 <= i < |table| => if i in Batch(table, now, config) then Counted(table[i], now) else table[i])
  }

  // ----- picking a batch -----

  /** The earliest eligible attachment not yet picked. */
  method FindEarliest(table: seq<Attachment>, picked: set<nat>, cutoff: int, config: Config)
      returns (found: bool, earliest: nat)
    ensures found ==> earliest < |table| && earliest !in picked && Eligible(table[earliest], cutoff, config)
    ensures found ==> forall j: nat :: j < |table| && j !in picked && j != earliest && Eligible(table[j], cutoff, config) ==>
        Precedes(table, earliest, j)
    ensures !found ==> forall j: nat :: j < |table| && j !in picked ==> !Eligible(table[j], cutoff, config)
  {
    found, earliest := false, 0;
    for i := 0 to |table|
      invariant found ==> earliest < i && earliest !in picked && Eligible(table[earliest], cutoff, config)
      invariant found ==> forall j: nat :: j < i && j !in picked && j != earliest && Eligible(table[j], cutoff, config) ==>
          Precedes(table, earliest, j)
      invariant !found ==> forall j: nat :: j < i && j !in picked ==> !Eligible(table[j], cutoff, config)
    {
      if i !in picked && Eligible(table[i], cutoff, config) && (!found || Precedes(table, i, earliest)) {
        found, earliest := true, i;
      }
    }
  }

  /** What the search has picked so far: the earliest eligible attachments, in order. */
  ghost predicate EarliestFirst(table: seq<Attachment>, picked: seq<nat>, cutoff: int, config: Config) {
    && (forall a :: 0 <= a < |picked| ==> picked[a] < |table| && Eligible(table[picked[a]], cutoff, config))
    && (forall a, b :: 0 <= a < b < |picked| ==> Precedes(table, picked[a], picked[b]))
    && (forall a, j: nat :: 0 <= a < |picked| && j < |table| && j !in picked && Eligible(table[j], cutoff, config) ==>
          Precedes(table, picked[a], j))
  }

  /** The search of `_cron_sweep_pending_scans`: at most a batch, oldest first. */
  method Search(table: seq<Attachment>, cutoff: int, config: Config) returns (picked: seq<nat>)
    requires config.Enabled()
    ensures EarliestFirst(table, picked, cutoff, config)
    ensures |picked| <= config.batchSize
    ensures |picked| < config.batchSize ==> forall j: nat :: j < |table| && Eligible(table[j], cutoff, config) ==> j in picked
  {
    picked := [];
    while |picked| < config.batchSize
      invariant EarliestFirst(table, picked, cutoff, config)
      invariant |picked| <= config.batchSize
      decreases config.batchSize - |picked|
    {
      var found, earliest := FindEarliest(table, (set p | p in picked), cutoff, config);
      if !found {
        return;
      }
      picked := picked + [earliest];
    }
  }

  /** The first `n` picks. */
  function Picks(picked: seq<nat>, n: nat): set<nat>
    requires n <= |picked|
  {
    set j | j in picked[..n]
  }

  predicate NoRepeats(picked: seq<nat>) {
    forall a, b | 0 <= a < b < |picked| :: picked[a] != picked[b]
  }

  lemma EarliestDistinct(table: seq<Attachment>, picked: seq<nat>, cutoff: int, config: Config)
    requires EarliestFirst(table, picked, cutoff, config)
    ensures NoRepeats(picked)
  {
    forall a, b | 0 <= a < b < |picked|
      ensures picked[a] != picked[b]
    {
      assert Precedes(table, picked[a], picked[b]);
    }
  }

  lemma PicksGrow(picked: seq<nat>, n: nat)
    requires 0 < n <= |picked|
    ensures forall j :: j in Picks(picked, n) <==> j in Picks(picked, n - 1) || j == picked[n - 1]
  {
    assert picked[..n] == picked[..n - 1] + [picked[n - 1]];
  }

  lemma {:induction false} PicksCount(picked: seq<nat>, n: nat)
    requires NoRepeats(picked) && n <= |picked|
    ensures |Picks(picked, n)| == n
  {
    if n > 0 {
      var before, last := Picks(picked, n - 1), picked[n - 1];
      PicksCount(picked, n - 1);
      PicksGrow(picked, n);
      assert last !in before;
      assert Picks(picked, n) == before + {last};
    }
  }

  /** The attachments ahead of the n-th pick are the picks before it. */
  lemma PickRank(table: seq<Attachment>, picked: seq<nat>, n: nat, cutoff: int, config: Config)
    requires EarliestFirst(table, picked, cutoff, config) && n < |picked|
    ensures |Ahead(table, picked[n], cutoff, config)| == n
  {
    EarliestDistinct(table, picked, cutoff, config);
    PicksCount(picked, n);
    var ahead := Ahead(table, picked[n], cutoff, config);
    forall j
      ensures j in ahead <==> j in Picks(picked, n)
    {
      if j in ahead && j in picked {
        var a :| 0 <= a < |picked| && picked[a] == j;
        assert a < n && j in picked[..n];
      }
    }
    assert ahead == Picks(picked, n);
  }

  /** An eligible attachment is picked exactly if fewer than a batch are ahead of it. */
  lemma PickedByRank(table: seq<Attachment>, picked: seq<nat>, j: nat, cutoff: int, config: Config)
    requires EarliestFirst(table, picked, cutoff, config) && |picked| <= config.batchSize
    requires j < |table| && Eligible(table[j], cutoff, config) && (|picked| < config.batchSize ==> j in picked)
    ensures j in picked <==> |Ahead(table, j, cutoff, config)| < config.batchSize
  {
    if j in picked {
      var a :| 0 <= a < |picked| && picked[a] == j;
      PickRank(table, picked, a, cutoff, config);
    } else {
      EarliestDistinct(table, picked, cutoff, config);
      PicksCount(picked, |picked|);
      assert Picks(picked, |picked|) <= Ahead(table, j, cutoff, config);
      SubsetSize(Picks(picked, |picked|), Ahead(table, j, cutoff, config));
    }
  }

  /** The search returns exactly the batch. */
  lemma PickedIsBatch(table: seq<Attachment>, picked: seq<nat>, now: int, config: Config)
    requires config.Enabled() && EarliestFirst(table, picked, now - config.minAge, config) && |picked| <= config.batchSize
    requires |picked| < config.batchSize ==>
        forall j: nat :: j < |table| && Eligible(table[j], now - config.minAge, config) ==> j in picked
    ensures (set p | p in picked) == Batch(table, now, config)
  {
    var cutoff := now - config.minAge;
    forall j: nat
      ensures j in picked <==> j in Batch(table, now, config)
    {
      if j < |table| && Eligible(table[j], cutoff, config) {
        PickedByRank(table, picked, j, cutoff, config);
      }
    }
  }

  lemma {:induction false} SubsetSize<T>(a: set<T>, b: set<T>)
    requires a <= b
    ensures |a| <= |b|
  {
    if a != {} {
      var x :| x in a;
      SubsetSize(a - {x}, b - {x});
    }
  }

  // ----- the sweep, and what re-arms an attachment -----

  /** The write hook on new bytes: a new scan need with a fresh budget. */
  function AfterNewBytes(a: Attachment, size: nat, now: int): Attachment {
    if a.binary && size > 0 then a.(status := Pending, size := size, quarantined := false, attempts := 0, writeDate := now)
    else a.(size := size, writeDate := now)
  }

  /** `action_rescan` with a job the queue accepts: refused for quarantined, non-binary and empty attachments. */
  function AfterRescan(a: Attachment, now: int): Attachment {
    if a.quarantined || !a.binary || a.size == 0 then a else a.(status := Pending, attempts := 0, writeDate := now)
  }

  /** Jobs accepted by the queue, and the attachments with their scan state. */
  class Attachments {
    var rows: seq<Attachment>
    var jobs: seq<nat>

    constructor (rows: seq<Attachment>)
      ensures this.rows == rows && jobs == []
    {
      this.rows, jobs := rows, [];
    }

    /**
     * `_cron_sweep_pending_scans`. `broken` are the attachments whose bytes cannot be read or whose
     * job the queue refuses: they are counted like the others, but not queued.
     */
    method Sweep(now: int, config: Config, broken: set<nat>) returns (requeued: seq<nat>)
      modifies this
      ensures rows == Swept(old(rows), now, config)
      ensures jobs == old(jobs) + requeued
      ensures (set i | i in requeued) == Batch(old(rows), now, config) - broken
      ensures |requeued| <= if config.batchSize > 0 then config.batchSize else 0
    {
      requeued := [];
      if !config.Enabled() {
        assert rows == Swept(rows, now, config);
        return;
      }
      var picked := Search(rows, now - config.minAge, config);
      PickedIsBatch(rows, picked, now, config);
      ghost var before := rows;
      for n := 0 to |picked|
        invariant |rows| == |before| && jobs == old(jobs) + requeued && |requeued| <= n
        invariant forall i :: 0 <= i < |rows| ==> rows[i] == if i in picked[..n] then Counted(before[i], now) else before[i]
        invariant forall i :: i in requeued <==> i in picked[..n] && i !in broken
      {
        var i := picked[n];
        assert i !in picked[..n];
        rows := rows[i := Counted(rows[i], now)];
        assert picked[..n + 1] == picked[..n] + [i];
        if i !in broken {
          jobs := jobs + [i];
          requeued := requeued + [i];
        }
      }
      assert picked[..|picked|] == picked;
      assert forall i :: i in picked <==> i in Batch(before, now, config);
    }

    /** `write` of new bytes, with the hook's reset; the queue may refuse the job. */
    method WriteBytes(id: nat, size: nat, now: int, accepted: bool)
      requires id < |rows|
      modifies this
      ensures rows == old(rows)[id := AfterNewBytes(old(rows)[id], size, now)]
      ensures jobs == old(jobs) + if old(rows)[id].binary && size > 0 && accepted then [id] else []
    {
      var a := rows[id].(size := size, writeDate := now);
      if a.binary && a.size > 0 {
        a := a.(status := Pending, quarantined := false, attempts := 0);
        if accepted {
          jobs := jobs + [id];
        }
      }
      rows := rows[id := a];
    }

    /** `action_rescan`: a job the queue refuses raises too, and so re-arms nothing. */
    method ActionRescan(id: nat, now: int, accepted: bool) returns (refused: bool)
      requires id < |rows|
      modifies this
      ensures refused <==> old(rows)[id].quarantined || !old(rows)[id].binary || old(rows)[id].size == 0 || !accepted
      ensures rows == if refused then old(rows) else old(rows)[id := AfterRescan(old(rows)[id], now)]
      ensures jobs == old(jobs) + if refused then [] else [id]
    {
      var a, before := rows[id], rows;
      if a.quarantined || !a.binary || a.size == 0 {
        return true;
      }
      rows := rows[id := a.(status := Pending, attempts := 0, writeDate := now)];
      if !accepted {
        rows := before;
        return true;
      }
      jobs := jobs + [id];
      return false;
    }
  }

  /** What happens to attachments; times never decrease. */
  datatype Event =
    | SweepRun(now: int)
    | Arrives(a: Attachment, now: int)
    | NewBytes(id: nat, size: nat, now: int)
    | Rescan(id: nat, now: int)
    | ScanDone(id: nat, status: Status, quarantined: bool, now: int)
    | Touched(id: nat, now: int)

  function Time(e: Event): int {
    e.now
  }

  ghost function Next(table: seq<Attachment>, e: Event, config: Config): seq<Attachment> {
    match e
    case SweepRun(now) => Swept(table, now, config)
    case Arrives(a, now) => table + [a.(attempts := 0, writeDate := now)]
    case NewBytes(id, size, now) => if id < |table| then table[id := AfterNewBytes(table[id], size, now)] else table
    case Rescan(id, now) => if id < |table| then table[id := AfterRescan(table[id], now)] else table
    case ScanDone(id, status, quarantined, now) =>
      if id < |table| then table[id := table[id].(status := status, quarantined := quarantined, writeDate := now)] else table
    case Touched(id, now) => if id < |table| then table[id := table[id].(writeDate := now)] else table
  }

  ghost function Run(table: seq<Attachment>, events: seq<Event>, config: Config): seq<Attachment> {
    if events == [] then table
    else Next(Run(table, events[..|events| - 1], config), events[|events| - 1], config)
  }

  // ----- the bounds -----

  lemma PrecedesOrder(table: seq<Attachment>, i: nat, j: nat, k: nat)
    requires i < |table| && j < |table| && k < |table|
    ensures i != j ==> Precedes(table, i, j) || Precedes(table, j, i)
    ensures Precedes(table, i, j) && Precedes(table, j, k) ==> Precedes(table, i, k)
    ensures !Precedes(table, i, i)
  {
  }

  /** The last of a set of attachments in the sweep's order. */
  lemma {:induction false} LastOf(table: seq<Attachment>, ids: set<nat>) returns (last: nat)
    requires ids != {} && forall i :: i in ids ==> i < |table|
    ensures last in ids && forall i :: i in ids && i != last ==> Precedes(table, i, last)
  {
    var one: nat :| one in ids;
    if ids == {one} {
      last := one;
    } else {
      var other := LastOf(table, ids - {one});
      last := if Precedes(table, one, other) then other else one;
      forall i | i in ids && i != last
        ensures Precedes(table, i, last)
      {
        PrecedesOrder(table, i, other, last);
        PrecedesOrder(table, one, other, other);
      }
    }
  }

  /** The first of a set of attachments in the sweep's order. */
  lemma {:induction false} FirstOf(table: seq<Attachment>, ids: set<nat>) returns (first: nat)
    requires ids != {} && forall i :: i in ids ==> i < |table|
    ensures first in ids && forall i :: i in ids && i != first ==> Precedes(table, first, i)
  {
    var one: nat :| one in ids;
    if ids == {one} {
      first := one;
    } else {
      var other := FirstOf(table, ids - {one});
      first := if Precedes(table, other, one) then other else one;
      forall i | i in ids && i != first
        ensures Precedes(table, first, i)
      {
        PrecedesOrder(table, first, other, i);
        PrecedesOrder(table, one, other, other);
      }
    }
  }

  /** A run takes at most a batch, and takes something whenever anything is eligible. */
  lemma {:induction false} BatchBound(table: seq<Attachment>, now: int, config: Config)
    ensures |Batch(table, now, config)| <= if config.batchSize > 0 then config.batchSize else 0
    ensures config.Enabled() && (exists i :: 0 <= i < |table| && Eligible(table[i], now - config.minAge, config)) ==>
        Batch(table, now, config) != {}
  {
    var batch, cutoff := Batch(table, now, config), now - config.minAge;
    if batch != {} {
      var last := LastOf(table, batch);
      assert batch - {last} <= Ahead(table, last, cutoff, config);
      SubsetSize(batch - {last}, Ahead(table, last, cutoff, config));
    }
    var eligible := set i: nat | i < |table| && Eligible(table[i], cutoff, config);
    if i: nat :| i < |table| && Eligible(table[i], cutoff, config) {
      assert i in eligible;
    }
    if config.Enabled() && eligible != {} {
      var first := FirstOf(table, eligible);
      forall j | j in Ahead(table, first, cutoff, config)
        ensures false
      {
        assert j in eligible;
        PrecedesOrder(table, first, j, first);
      }
      assert Ahead(table, first, cutoff, config) == {};
      assert first in batch;
    }
  }

  /** What a run never takes: anything not waiting, empty, young, exhausted or out of scope. */
  lemma NeverTaken(table: seq<Attachment>, now: int, config: Config, id: nat)
    requires id < |table|
    requires var a := table[id];
      || a.status != Pending || !a.binary || a.size == 0 || a.quarantined || a.forensic || a.model == "" || a.model == "ir.ui.menu"
      || now - a.writeDate <= config.minAge || a.attempts >= config.maxAttempts || config.batchSize <= 0 || config.maxAttempts <= 0
    ensures id !in Batch(table, now, config) && Swept(table, now, config)[id] == table[id]
  {
  }

  /**
   * An attachment the sweep is for, condition by condition: a stored file not scanned yet, not empty,
   * last written before the cutoff, neither quarantined nor a forensic copy, on a business record, and
   * with attempts left.
   */
  ghost predicate Due(a: Attachment, cutoff: int, config: Config) {
    && a.status == Pending && a.binary && a.size > 0
    && a.writeDate < cutoff
    && !a.quarantined && !a.forensic
    && a.model != "" && a.model != "ir.ui.menu"
    && a.attempts < config.maxAttempts
  }

  /** The attachments due that were written before `id`, or at the same time with a lower id. */
  ghost function DueBefore(table: seq<Attachment>, id: nat, cutoff: int, config: Config): set<nat>
    requires id < |table|
  {
    set j: nat | j < |table| && Due(table[j], cutoff, config)
                 && (table[j].writeDate < table[id].writeDate || (table[j].writeDate == table[id].writeDate && j < id))
  }

  lemma DueIsEligible(table: seq<Attachment>, id: nat, cutoff: int, config: Config)
    requires id < |table|
    ensures Due(table[id], cutoff, config) <==> Eligible(table[id], cutoff, config)
    ensures DueBefore(table, id, cutoff, config) == Ahead(table, id, cutoff, config)
  {
  }

  /** A run takes an attachment exactly when the sweep is enabled, it is due, and fewer than a batch of those due precede it. */
  lemma TakenExactly(table: seq<Attachment>, now: int, config: Config, id: nat)
    requires id < |table|
    ensures id in Batch(table, now, config) <==>
        && config.batchSize > 0 && config.maxAttempts > 0
        && Due(table[id], now - config.minAge, config)
        && |DueBefore(table, id, now - config.minAge, config)| < config.batchSize
    ensures Swept(table, now, config)[id]
         == if id in Batch(table, now, config) then table[id].(attempts := table[id].attempts + 1, writeDate := now) else table[id]
  {
    DueIsEligible(table, id, now - config.minAge, config);
  }

  /** An attempt is followed by a pause: an attachment taken is not due again until the minimum age has passed. */
  lemma TakenRests(table: seq<Attachment>, now: int, config: Config, id: nat, later: int)
    requires id in Batch(table, now, config)
    ensures later - config.minAge <= now ==> id !in Batch(Swept(table, now, config), later, config)
    ensures later - config.minAge > now ==>
        (Due(Swept(table, now, config)[id], later - config.minAge, config) <==> table[id].attempts + 1 < config.maxAttempts)
  {
  }

  /**
   * New bytes make any stored file of a business record due again, whatever its status, quarantine and
   * attempts were; a rescan does so for a file that is neither quarantined nor empty. Both from the
   * minimum age on, as both are writes.
   */
  lemma ReArmedIsDue(a: Attachment, size: nat, now: int, cutoff: int, config: Config)
    ensures a.binary ==>
        (Due(AfterNewBytes(a, size, now), cutoff, config) <==>
          size > 0 && now < cutoff && !a.forensic && a.model != "" && a.model != "ir.ui.menu" && config.maxAttempts > 0)
    ensures AfterNewBytes(a, size, now).size == size && AfterNewBytes(a, size, now).writeDate == now
    ensures !a.binary || size == 0 ==> AfterNewBytes(a, size, now) == a.(size := size, writeDate := now)
    ensures a.binary && !a.quarantined && a.size > 0 ==>
        (Due(AfterRescan(a, now), cutoff, config) <==>
          now < cutoff && !a.forensic && a.model != "" && a.model != "ir.ui.menu" && config.maxAttempts > 0)
    ensures AfterRescan(a, now).size == a.size
    ensures !a.binary || a.quarantined || a.size == 0 ==> AfterRescan(a, now) == a
  {
  }

  /**
   * The other events write one attachment each, and every write starts the clock anew: new bytes and
   * rescans as above, the end of a scan with its verdict, and unrelated writes with nothing else. A new
   * attachment comes last, with no attempts made.
   */
  lemma WritesOne(table: seq<Attachment>, e: Event, config: Config, id: nat)
    requires !e.SweepRun? && id < |table|
    ensures Next(table, e, config)[..|table|] == if e.Arrives? then table else Next(table, e, config)
    ensures e.Arrives? ==> Next(table, e, config)[|table|..] == [e.a.(attempts := 0, writeDate := e.now)]
    ensures !e.Arrives? && e.id != id ==> Next(table, e, config)[id] == table[id]
    ensures !e.Arrives? && e.id == id ==>
      var a := table[id];
      Next(table, e, config)[id] ==
        match e
        case NewBytes(_, size, now) => AfterNewBytes(a, size, now)
        case Rescan(_, now) => AfterRescan(a, now)
        case ScanDone(_, status, quarantined, now) =>
          Attachment(status, a.binary, a.size, now, quarantined, a.forensic, a.model, a.attempts)
        case Touched(_, now) =>
          Attachment(a.status, a.binary, a.size, now, a.quarantined, a.forensic, a.model, a.attempts)
        case _ => a
  {
  }

  /** The attempts that remain for the attachments below `n`. */
  function Remaining(table: seq<Attachment>, n: nat, config: Config): nat
    requires n <= |table|
  {
    if n == 0 then 0
    else
      var left := config.maxAttempts - table[n - 1].attempts;
      Remaining(table, n - 1, config) + (if left > 0 then left else 0)
  }

  /** Counting an attempt for each of a set of attachments below the cap. */
  lemma {:induction false} RemainingPart(table: seq<Attachment>, after: seq<Attachment>, n: nat, batch: set<nat>, config: Config)
    requires n <= |table| == |after| && forall i :: i in batch ==> i < n
    requires forall i :: 0 <= i < n ==> after[i].attempts == table[i].attempts + if i in batch then 1 else 0
    requires forall i :: i in batch ==> table[i].attempts < config.maxAttempts
    ensures Remaining(after, n, config) + |batch| == Remaining(table, n, config)
  {
    if n > 0 {
      RemainingPart(table, after, n - 1, batch - {n - 1}, config);
    }
  }

  /**
   * Every run consumes one attempt of each attachment it takes, so the total of remaining attempts
   * falls by the size of the batch: it strictly decreases as long as anything is eligible.
   */
  lemma {:induction false} SweepConsumes(table: seq<Attachment>, now: int, config: Config)
    ensures Remaining(Swept(table, now, config), |table|, config) + |Batch(table, now, config)| == Remaining(table, |table|, config)
    ensures config.Enabled() && (exists i :: 0 <= i < |table| && Eligible(table[i], now - config.minAge, config)) ==>
        Remaining(Swept(table, now, config), |table|, config) < Remaining(table, |table|, config)
  {
    RemainingPart(table, Swept(table, now, config), |table|, Batch(table, now, config), config);
    BatchBound(table, now, config);
  }

  /** How many sweeps of a run take some attachment. */
  ghost function BusySweeps(table: seq<Attachment>, times: seq<int>, config: Config): nat
    decreases |times|
  {
    if times == [] then 0
    else
      (if Batch(table, times[0], config) != {} then 1 else 0) + BusySweeps(Swept(table, times[0], config), times[1..], config)
  }

  /** Sweeping alone ends: however often it runs, at most the attempts that remained are ever taken. */
  lemma {:induction false} SweepingEnds(table: seq<Attachment>, times: seq<int>, config: Config)
    ensures BusySweeps(table, times, config) <= Remaining(table, |table|, config)
    decreases |times|
  {
    if times != [] {
      SweepConsumes(table, times[0], config);
      SweepingEnds(Swept(table, times[0], config), times[1..], config);
    }
  }

  // ----- the attempt cap, over whole runs -----

  /** No attachment has more attempts than the cap. */
  ghost predicate Capped(table: seq<Attachment>, config: Config) {
    forall i :: 0 <= i < |table| ==> table[i].attempts <= if config.maxAttempts > 0 then config.maxAttempts else 0
  }

  /** An event that gives an attachment a fresh budget. */
  predicate ReArms(e: Event, id: nat) {
    (e.NewBytes? || e.Rescan?) && e.id == id
  }

  /** How often a run of events takes an attachment. */
  ghost function TimesTaken(table: seq<Attachment>, events: seq<Event>, config: Config, id: nat): nat {
    if events == [] then 0
    else
      var init, e := events[..|events| - 1], events[|events| - 1];
      TimesTaken(table, init, config, id)
        + (if e.SweepRun? && id in Batch(Run(table, init, config), e.now, config) then 1 else 0)
  }

  /** In every run of events no attachment exceeds its maximum attempts. */
  lemma {:induction false} RunCapped(table: seq<Attachment>, events: seq<Event>, config: Config)
    requires Capped(table, config)
    ensures Capped(Run(table, events, config), config)
  {
    if events != [] {
      RunCapped(table, events[..|events| - 1], config);
    }
  }

  /** Unless it is re-armed, an attachment is taken exactly as often as its attempts grow, so at most up to the cap. */
  lemma {:induction false} TakenAtMost(table: seq<Attachment>, events: seq<Event>, config: Config, id: nat)
    requires id < |table| && Capped(table, config)
    requires forall e :: e in events ==> !ReArms(e, id)
    ensures |Run(table, events, config)| >= |table|
    ensures Run(table, events, config)[id].attempts == table[id].attempts + TimesTaken(table, events, config, id)
    ensures table[id].attempts + TimesTaken(table, events, config, id) <= if config.maxAttempts > 0 then config.maxAttempts else 0
  {
    if events != [] {
      var init := events[..|events| - 1];
      TakenAtMost(table, init, config, id);
      RunCapped(table, events, config);
      assert events[|events| - 1] in events;
    }
  }

  // ----- no starvation -----

  /** An event that does not write to an attachment. */
  predicate LeavesAlone(e: Event, id: nat) {
    match e
    case SweepRun(_) => true
    case Arrives(_, _) => true
    case _ => e.id != id
  }

  /** The events happen after everything in the table was written. */
  predicate Later(table: seq<Attachment>, now: int) {
    forall i :: 0 <= i < |table| ==> table[i].writeDate <= now
  }

  /**
   * A waiting attachment only moves forward: an event on others never puts anything ahead of it,
   * and a sweep that does not take it takes a whole batch of those ahead.
   */
  lemma MovesForward(table: seq<Attachment>, e: Event, config: Config, id: nat, cutoff: int)
    requires config.Enabled() && config.minAge >= 0 && id < |table| && Later(table, Time(e)) && LeavesAlone(e, id)
    requires Eligible(table[id], cutoff, config) && cutoff <= Time(e) - config.minAge
    ensures var after := Next(table, e, config);
      && |after| >= |table| && Later(after, Time(e))
      && if e.SweepRun? && id in Batch(table, e.now, config) then true
         else
           && after[id] == table[id]
           && |Ahead(after, id, cutoff, config)| + (if e.SweepRun? then config.batchSize else 0) <= |Ahead(table, id, cutoff, config)|
  {
    var after := Next(table, e, config);
    var before := Ahead(table, id, cutoff, config);
    if e.SweepRun? {
      if id !in Batch(table, e.now, config) {
        SweepMovesForward(table, e.now, config, id, cutoff);
      }
    } else {
      assert Ahead(after, id, cutoff, config) <= before;
      SubsetSize(Ahead(after, id, cutoff, config), before);
    }
  }

  lemma {:induction false} SweepMovesForward(table: seq<Attachment>, now: int, config: Config, id: nat, cutoff: int)
    requires config.Enabled() && config.minAge >= 0 && id < |table| && Later(table, now)
    requires Eligible(table[id], cutoff, config) && cutoff <= now - config.minAge && id !in Batch(table, now, config)
    ensures |Ahead(Swept(table, now, config), id, cutoff, config)| + config.batchSize <= |Ahead(table, id, cutoff, config)|
  {
    var batch, after := Batch(table, now, config), Swept(table, now, config);
    var ahead, left := Ahead(table, id, cutoff, config), Ahead(after, id, cutoff, config);
    var wide := Ahead(table, id, now - config.minAge, config);
    assert ahead == wide;
    assert |wide| >= config.batchSize;
    BatchIsAhead(table, now, config, id);
    assert left == ahead - batch;
  }

  /** When an eligible attachment is not taken, a full batch of those ahead of it is. */
  lemma BatchIsAhead(table: seq<Attachment>, now: int, config: Config, id: nat)
    requires config.Enabled() && id < |table| && Eligible(table[id], now - config.minAge, config) && id !in Batch(table, now, config)
    ensures Batch(table, now, config) <= Ahead(table, id, now - config.minAge, config)
    ensures |Batch(table, now, config)| == config.batchSize
  {
    var batch, cutoff := Batch(table, now, config), now - config.minAge;
    var ahead := Ahead(table, id, cutoff, config);
    forall i | i in batch
      ensures i in ahead
    {
      PrecedesOrder(table, i, id, id);
      if Precedes(table, id, i) {
        AheadGrows(table, id, i, cutoff, config);
      }
    }
    BatchBound(table, now, config);
    if |batch| < config.batchSize {
      assert |ahead| >= config.batchSize;
      if ahead - batch == {} {
        forall x | x in ahead
          ensures x in batch
        {
          assert x !in ahead - batch;
        }
        SubsetSize(ahead, batch);
      }
      var first := FirstOf(table, ahead - batch);
      forall j | j in Ahead(table, first, cutoff, config)
        ensures j in batch
      {
        PrecedesOrder(table, j, first, id);
        PrecedesOrder(table, first, j, first);
      }
      SubsetSize(Ahead(table, first, cutoff, config), batch);
    }
  }

  lemma AheadGrows(table: seq<Attachment>, i: nat, j: nat, cutoff: int, config: Config)
    requires i < |table| && j < |table| && Precedes(table, i, j)
    ensures |Ahead(table, i, cutoff, config)| <= |Ahead(table, j, cutoff, config)|
  {
    SubsetSize(Ahead(table, i, cutoff, config), Ahead(table, j, cutoff, config));
  }

  /** How many attachments the sweeps among the events have room for: a batch each. */
  function Room(events: seq<Event>, batchSize: nat): nat {
    if events == [] then 0
    else Room(events[..|events| - 1], batchSize) + if events[|events| - 1].SweepRun? then batchSize else 0
  }

  /** Times of a run never decrease, start after the table's writes, and leave an attachment alone. */
  ghost predicate Undisturbed(table: seq<Attachment>, events: seq<Event>, id: nat, cutoff: int, config: Config) {
    && (forall k :: 0 <= k < |events| ==> LeavesAlone(events[k], id) && Later(table, Time(events[k])) && cutoff <= Time(events[k]) - config.minAge)
    && (forall k, l :: 0 <= k < l < |events| ==> Time(events[k]) <= Time(events[l]))
  }

  /** Since `table`, an attachment was left as it is and `lost` of those ahead of it were taken. */
  ghost predicate HeldBack(table: seq<Attachment>, after: seq<Attachment>, id: nat, lost: nat, cutoff: int, config: Config)
    requires id < |table|
  {
    |after| >= |table| && after[id] == table[id]
    && |Ahead(after, id, cutoff, config)| + lost <= |Ahead(table, id, cutoff, config)|
  }

  lemma HeldBackStep(table: seq<Attachment>, before: seq<Attachment>, e: Event, config: Config, id: nat, cutoff: int, lost: nat)
    requires id < |table| && HeldBack(table, before, id, lost, cutoff, config)
    requires config.Enabled() && config.minAge >= 0 && Later(before, Time(e)) && LeavesAlone(e, id)
    requires Eligible(table[id], cutoff, config) && cutoff <= Time(e) - config.minAge
    requires !(e.SweepRun? && id in Batch(before, e.now, config))
    ensures HeldBack(table, Next(before, e, config), id, lost + (if e.SweepRun? then config.batchSize else 0), cutoff, config)
    ensures Later(Next(before, e, config), Time(e))
  {
    MovesForward(before, e, config, id, cutoff);
  }

  /** While it is not taken, a waiting attachment loses a batch of those ahead for every sweep. */
  lemma {:induction false} Waits(table: seq<Attachment>, events: seq<Event>, config: Config, id: nat, cutoff: int)
    requires config.Enabled() && config.minAge >= 0 && id < |table| && Eligible(table[id], cutoff, config)
    requires Undisturbed(table, events, id, cutoff, config) && TimesTaken(table, events, config, id) == 0
    ensures HeldBack(table, Run(table, events, config), id, Room(events, config.batchSize), cutoff, config)
    ensures events != [] ==> Later(Run(table, events, config), Time(events[|events| - 1]))
  {
    if events != [] {
      var init, e := events[..|events| - 1], events[|events| - 1];
      UndisturbedInit(table, events, id, cutoff, config);
      RunInit(table, events, config, id);
      Waits(table, init, config, id, cutoff);
      var before := Run(table, init, config);
      LaterStill(before, if init == [] then Time(e) else Time(init[|init| - 1]), Time(e));
      HeldBackStep(table, before, e, config, id, cutoff, Room(init, config.batchSize));
    }
  }

  lemma RunInit(table: seq<Attachment>, events: seq<Event>, config: Config, id: nat)
    requires events != []
    ensures var init, e := events[..|events| - 1], events[|events| - 1];
      && Run(table, events, config) == Next(Run(table, init, config), e, config)
      && (TimesTaken(table, events, config, id) == 0 ==>
            TimesTaken(table, init, config, id) == 0 && !(e.SweepRun? && id in Batch(Run(table, init, config), e.now, config)))
  {
  }

  lemma LaterStill(table: seq<Attachment>, now: int, later: int)
    requires Later(table, now) && now <= later
    ensures Later(table, later)
  {
  }

  lemma UndisturbedInit(table: seq<Attachment>, events: seq<Event>, id: nat, cutoff: int, config: Config)
    requires events != [] && Undisturbed(table, events, id, cutoff, config)
    ensures var init, e := events[..|events| - 1], events[|events| - 1];
      && Undisturbed(table, init, id, cutoff, config)
      && LeavesAlone(e, id) && Later(table, Time(e)) && cutoff <= Time(e) - config.minAge
      && (init != [] ==> Time(init[|init| - 1]) <= Time(e))
  {
  }

  /**
   * No attachment starves: whatever else happens to others, one that is due is taken by the time
   * the sweeps that ran could hold all that were due before it, and one more.
   */
  lemma {:induction false} NoStarvation(table: seq<Attachment>, events: seq<Event>, config: Config, id: nat, cutoff: int)
    requires config.batchSize > 0 && config.minAge >= 0 && id < |table| && Due(table[id], cutoff, config)
    requires Undisturbed(table, events, id, cutoff, config)
    requires Room(events, config.batchSize) > |DueBefore(table, id, cutoff, config)|
    ensures TimesTaken(table, events, config, id) > 0
  {
    DueIsEligible(table, id, cutoff, config);
    if TimesTaken(table, events, config, id) == 0 {
      Waits(table, events, config, id, cutoff);
    }
  }
}
