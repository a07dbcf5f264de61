/**
 * Parameterized DCI methods as cached values: the sync of
 * spp_dci_indicators/models/dci_cel_fetcher.py, the rewriting of method calls in
 * cel_variable_resolver_dci.py, and `upsert_values` of spp_cel_domain/models/data_value.py.
 */
module DciMethods {
  import opened Wrappers

  datatype Method = Severity | HasEvent

  function Accessor(m: Method): string {
    match m
    case Severity => "r.dci.dr.severity"
    case HasEvent => "r.dci.crvs.has_event"
  }

  /** The fixed argument set of each method (`DCI_METHOD_ACCESSORS`). */
  function Arguments(m: Method): seq<string> {
    match m
    case Severity => ["Vision", "Hearing", "Mobility"]
    case HasEvent => ["birth", "death"]
  }

  /** What a registry answers for one person, or why there is no answer. */
  datatype Response =
    | NoIdentifier
    | Failed
    | Scores(scores: map<string, int>)
    | Events(birth: bool, death: Option<bool>)

  /** `_compute_method_values` for one argument; None is skipped. */
  function MethodValue(m: Method, arg: string, response: Response): Option<int> {
    match (m, response)
    case (Severity, Scores(scores)) => Some(if arg in scores then scores[arg] else 0)
    case (HasEvent, Events(birth, death)) =>
      if arg == "birth" then Some(if birth then 1 else 0)
      else if arg == "death" && death.Some? then Some(if death.value then 1 else 0)
      else None
    case _ => None
  }

  // ----- the cache rows -----

  /** `_hash_params`: the hash of the argument that keys a row. */
  type ParamsHash = string -> int

  datatype Key = Key(accessor: string, subject: nat, paramsHash: int)

  type Table = map<Key, int>

  /** A sync of one method: the persons, with what the registry answers for each. */
  datatype Sync = Sync(m: Method, persons: seq<nat>, responses: seq<Response>)
  {
    predicate Valid() {
      |persons| == |responses| && forall i, j | 0 <= i < j < |persons| :: persons[i] != persons[j]
    }
  }

  function RowKey(m: Method, person: nat, arg: string, hash: ParamsHash): Key {
    Key(Accessor(m), person, hash(arg))
  }

  /** The rows of the first `n` arguments for one person, put into the table. */
  function WithArguments(table: Table, m: Method, person: nat, response: Response, n: nat, hash: ParamsHash): Table
    requires n <= |Arguments(m)|
  {
    if n == 0 then table
    else
      var before := WithArguments(table, m, person, response, n - 1, hash);
      var arg := Arguments(m)[n - 1];
      match MethodValue(m, arg, response)
      case Some(value) => before[RowKey(m, person, arg, hash) := value]
      case None => before
  }

  /** The table after the first `n` persons of a sync. */
  function WithPersons(table: Table, s: Sync, n: nat, hash: ParamsHash): Table
    requires s.Valid() && n <= |s.persons|
  {
    if n == 0 then table
    else WithArguments(WithPersons(table, s, n - 1, hash), s.m, s.persons[n - 1], s.responses[n - 1], |Arguments(s.m)|, hash)
  }

  /** The cached values, as `spp.data.value` keeps them. */
  class DataValues {
    const hash: ParamsHash
    var table: Table

    constructor (hash: ParamsHash)
      ensures this.hash == hash && table == map[]
    {
      this.hash, table := hash, map[];
    }

    /** `_materialize_method_variable`: one row per person and argument, then one upsert. */
    method Materialize(s: Sync)
      requires s.Valid()
      modifies this
      ensures table == WithPersons(old(table), s, |s.persons|, hash)
    {
      var rows := table;
      for i := 0 to |s.persons|
        invariant rows == WithPersons(table, s, i, hash) && table == old(table)
      {
        ghost var before := rows;
        for k := 0 to |Arguments(s.m)|
          invariant rows == WithArguments(before, s.m, s.persons[i], s.responses[i], k, hash) && table == old(table)
        {
          var arg := Arguments(s.m)[k];
          var value := MethodValue(s.m, arg, s.responses[i]);
          if value.Some? {
            rows := rows[RowKey(s.m, s.persons[i], arg, hash) := value.value];
          }
        }
      }
      table := rows;
    }
  }

  /** What `metric(accessor, me, arg=...)` reads. */
  function Lookup(table: Table, m: Method, person: nat, arg: string, hash: ParamsHash): Option<int> {
    var key := RowKey(m, person, arg, hash);
    if key in table then Some(table[key]) else None
  }

  // ----- what a lookup returns -----

  function Run(syncs: seq<Sync>, hash: ParamsHash): Table
    requires forall s :: s in syncs ==> s.Valid()
  {
    if syncs == [] then map[]
    else WithPersons(Run(syncs[..|syncs| - 1], hash), syncs[|syncs| - 1], |syncs[|syncs| - 1].persons|, hash)
  }

  /** The value a sync fetches for a triple, if it does. */
  function Fetched(s: Sync, m: Method, person: nat, arg: string, n: nat): Option<int>
    requires s.Valid() && n <= |s.persons|
  {
    if n == 0 then None
    else if s.m == m && s.persons[n - 1] == person && arg in Arguments(m) then MethodValue(m, arg, s.responses[n - 1])
    else Fetched(s, m, person, arg, n - 1)
  }

  /** The value fetched for a triple at its last successful sync. */
  function LastFetched(syncs: seq<Sync>, m: Method, person: nat, arg: string): Option<int>
    requires forall s :: s in syncs ==> s.Valid()
  {
    if syncs == [] then None
    else
      var last := syncs[|syncs| - 1];
      if Fetched(last, m, person, arg, |last.persons|).Some? then Fetched(last, m, person, arg, |last.persons|)
      else LastFetched(syncs[..|syncs| - 1], m, person, arg)
  }

  /** The hash separates an argument from the fixed arguments of a method. */
  ghost predicate Separates(hash: ParamsHash, m: Method, arg: string) {
    forall a :: a in Arguments(m) && hash(a) == hash(arg) ==> a == arg
  }

  /** Two methods have different accessors. */
  lemma AccessorsDiffer(a: Method, b: Method)
    ensures Accessor(a) == Accessor(b) <==> a == b
  {
    assert Accessor(Severity)[6] == 'd' && Accessor(HasEvent)[6] == 'c';
  }

  /** A row put into the table is read for its own accessor, person and hash only. */
  lemma RowPut(table: Table, s: Method, p: nat, a: string, value: int, hash: ParamsHash, m: Method, person: nat, arg: string)
    ensures Lookup(table[RowKey(s, p, a, hash) := value], m, person, arg, hash)
         == if s == m && p == person && hash(a) == hash(arg) then Some(value) else Lookup(table, m, person, arg, hash)
  {
    AccessorsDiffer(s, m);
  }

  lemma WithArgument(table: Table, m: Method, person: nat, response: Response, n: nat, hash: ParamsHash)
    requires 0 < n <= |Arguments(m)|
    ensures var before, arg := WithArguments(table, m, person, response, n - 1, hash), Arguments(m)[n - 1];
      WithArguments(table, m, person, response, n, hash)
      == match MethodValue(m, arg, response)
         case Some(value) => before[RowKey(m, person, arg, hash) := value]
         case None => before
  {
  }

  /** One person's rows: the looked-up triple gets its value, every other key keeps its row. */
  lemma {:induction false} ArgumentsWritten(table: Table, s: Method, p: nat, response: Response, n: nat, hash: ParamsHash,
                                            m: Method, person: nat, arg: string)
    requires n <= |Arguments(s)| && Separates(hash, s, arg)
    ensures Lookup(WithArguments(table, s, p, response, n, hash), m, person, arg, hash)
         == if s == m && p == person && arg in Arguments(s)[..n] && MethodValue(m, arg, response).Some?
            then MethodValue(m, arg, response) else Lookup(table, m, person, arg, hash)
  {
    if n > 0 {
      ArgumentsWritten(table, s, p, response, n - 1, hash, m, person, arg);
      WithArgument(table, s, p, response, n, hash);
      var args := Arguments(s);
      var a, before := args[n - 1], WithArguments(table, s, p, response, n - 1, hash);
      assert args[..n] == args[..n - 1] + [a] && a in args;
      var value := MethodValue(s, a, response);
      if value.Some? {
        RowPut(before, s, p, a, value.value, hash, m, person, arg);
      }
    }
  }

  lemma {:induction false} PersonsWritten(table: Table, s: Sync, n: nat, hash: ParamsHash, m: Method, person: nat, arg: string)
    requires s.Valid() && n <= |s.persons| && Separates(hash, s.m, arg)
    ensures Lookup(WithPersons(table, s, n, hash), m, person, arg, hash)
         == if Fetched(s, m, person, arg, n).Some? then Fetched(s, m, person, arg, n) else Lookup(table, m, person, arg, hash)
  {
    if n > 0 {
      PersonsWritten(table, s, n - 1, hash, m, person, arg);
      var args := Arguments(s.m);
      assert args[..|args|] == args;
      ArgumentsWritten(WithPersons(table, s, n - 1, hash), s.m, s.persons[n - 1], s.responses[n - 1], |args|, hash, m, person, arg);
      if s.m == m && s.persons[n - 1] == person {
        NotFetchedYet(s, n - 1, person, m, arg);
      }
    }
  }

  lemma {:induction false} NotFetchedYet(s: Sync, n: nat, person: nat, m: Method, arg: string)
    requires s.Valid() && n <= |s.persons| && forall i :: 0 <= i < n ==> s.persons[i] != person
    ensures Fetched(s, m, person, arg, n).None?
  {
    if n > 0 {
      NotFetchedYet(s, n - 1, person, m, arg);
    }
  }

  /**
   * After any sequence of syncs a lookup returns the value fetched for that same method, person and
   * argument at its last successful sync: no other argument, person or method, and no failed fetch,
   * ever alters it. The hash must separate the argument from the fixed ones.
   */
  lemma {:induction false} LookupIsLastFetched(syncs: seq<Sync>, hash: ParamsHash, m: Method, person: nat, arg: string)
    requires forall s :: s in syncs ==> s.Valid()
    requires Separates(hash, Severity, arg) && Separates(hash, HasEvent, arg)
    ensures Lookup(Run(syncs, hash), m, person, arg, hash) == LastFetched(syncs, m, person, arg)
  {
    if syncs != [] {
      var init, last := syncs[..|syncs| - 1], syncs[|syncs| - 1];
      LookupIsLastFetched(init, hash, m, person, arg);
      PersonsWritten(Run(init, hash), last, |last.persons|, hash, m, person, arg);
    }
  }

  lemma {:induction false} FetchedAt(s: Sync, n: nat, i: nat, arg: string)
    requires s.Valid() && i < n <= |s.persons|
    ensures Fetched(s, s.m, s.persons[i], arg, n)
         == if arg in Arguments(s.m) then MethodValue(s.m, arg, s.responses[i]) else None
  {
    if i < n - 1 {
      assert s.persons[i] != s.persons[n - 1];
      FetchedAt(s, n - 1, i, arg);
    } else {
      NotFetchedYet(s, n - 1, s.persons[i], s.m, arg);
    }
  }

  /**
   * What a sync leaves for one of its persons, argument by argument: a severity of zero where the
   * registry has no score, a birth event always, a death event if the registry knows; otherwise, for
   * any other argument and without an answer, what was there before.
   */
  lemma SyncWrites(table: Table, s: Sync, i: nat, hash: ParamsHash, arg: string)
    requires s.Valid() && i < |s.persons| && Separates(hash, s.m, arg)
    ensures var before := Lookup(table, s.m, s.persons[i], arg, hash);
      Lookup(WithPersons(table, s, |s.persons|, hash), s.m, s.persons[i], arg, hash) ==
        match s.responses[i]
        case Scores(scores) =>
          if s.m == Severity && arg in {"Vision", "Hearing", "Mobility"} then Some(if arg in scores then scores[arg] else 0) else before
        case Events(birth, death) =>
          if s.m == HasEvent && arg == "birth" then Some(if birth then 1 else 0)
          else if s.m == HasEvent && arg == "death" && death != None then Some(if death == Some(true) then 1 else 0)
          else before
        case _ => before
  {
    PersonsWritten(table, s, |s.persons|, hash, s.m, s.persons[i], arg);
    FetchedAt(s, |s.persons|, i, arg);
  }

  /** The rows of one accessor are read by its own method only. */
  lemma AccessorsRead(table: Table, person: nat, arg: string, hash: ParamsHash)
    ensures Lookup(table, Severity, person, arg, hash).Some? <==> Key("r.dci.dr.severity", person, hash(arg)) in table
    ensures Lookup(table, HasEvent, person, arg, hash).Some? <==> Key("r.dci.crvs.has_event", person, hash(arg)) in table
    ensures forall value :: Lookup(table, Severity, person, arg, hash) == Some(value) ==>
        table[Key("r.dci.dr.severity", person, hash(arg))] == value
    ensures forall value :: Lookup(table, HasEvent, person, arg, hash) == Some(value) ==>
        table[Key("r.dci.crvs.has_event", person, hash(arg))] == value
  {
  }

  /** Separation is needed: two fixed arguments with one hash share a row, and the later one's value is read for both. */
  lemma CollisionReadsOther(hash: ParamsHash, person: nat)
    requires hash("Vision") == hash("Hearing") != hash("Mobility")
    ensures var s := Sync(Severity, [person], [Scores(map["Vision" := 4, "Hearing" := 1])]);
      && LastFetched([s], Severity, person, "Vision") == Some(4)
      && Lookup(Run([s], hash), Severity, person, "Vision", hash) == Some(1)
  {
    var s := Sync(Severity, [person], [Scores(map["Vision" := 4, "Hearing" := 1])]);
    assert [s][..0] == [] && Run([], hash) == map[];
    var response := s.responses[0];
    assert Fetched(s, Severity, person, "Vision", 1) == Some(4);
    var one := WithArguments(map[], Severity, person, response, 1, hash);
    var two := WithArguments(map[], Severity, person, response, 2, hash);
    var three := WithArguments(map[], Severity, person, response, 3, hash);
    assert two == one[RowKey(Severity, person, "Hearing", hash) := 1];
    assert three == two[RowKey(Severity, person, "Mobility", hash) := 0];
    assert WithPersons(map[], s, 0, hash) == map[];
    assert Run([s], hash) == three;
  }

  // ----- rewriting -----

  /** Expressions, as far as the rewriting looks at them. */
  datatype Expr =
    | Text(s: string)
    | Number(n: int)
    | MethodCall(m: Method, argument: Expr)
    | Metric(accessor: string, arg: string)
    | Operator(name: string, left: Expr, right: Expr)

  type Operators = (string, Option<int>, Option<int>) -> Option<int>

  /** An argument the rewriting recognises: a nonempty literal without quotes. */
  predicate IsPlain(e: Expr) {
    e.Text? && e.s != "" && '\'' !in e.s && '"' !in e.s
  }

  /** `_expand_dci_methods`: calls with a literal argument become metric lookups. */
  function Rewrite(e: Expr): Expr {
    match e
    case MethodCall(m, arg) => if IsPlain(arg) then Metric(Accessor(m), arg.s) else MethodCall(m, Rewrite(arg))
    case Operator(name, left, right) => Operator(name, Rewrite(left), Rewrite(right))
    case _ => e
  }

  /** The expression evaluated over the cache table; a call that was not rewritten has no value. */
  function EvalTable(e: Expr, person: nat, table: Table, hash: ParamsHash, ops: Operators): Option<int> {
    match e
    case Number(n) => Some(n)
    case Metric(accessor, arg) =>
      var key := Key(accessor, person, hash(arg));
      if key in table then Some(table[key]) else None
    case Operator(name, left, right) =>
      ops(name, EvalTable(left, person, table, hash, ops), EvalTable(right, person, table, hash, ops))
    case _ => None
  }

  /** A literal argument: not empty, and no quote inside it. */
  ghost predicate Literal(e: Expr) {
    e.Text? && |e.s| > 0 && forall i :: 0 <= i < |e.s| ==> e.s[i] != '\'' && e.s[i] != '"'
  }

  /** The expression evaluated over what the syncs fetched: a call on a literal means its last fetched value. */
  ghost function EvalFetched(e: Expr, person: nat, syncs: seq<Sync>, ops: Operators): Option<int>
    requires forall s :: s in syncs ==> s.Valid()
  {
    match e
    case Number(n) => Some(n)
    case MethodCall(m, arg) => if Literal(arg) then LastFetched(syncs, m, person, arg.s) else None
    case Operator(name, left, right) =>
      ops(name, EvalFetched(left, person, syncs, ops), EvalFetched(right, person, syncs, ops))
    case _ => None
  }

  /** An expression as authors write it: no metric lookups yet. */
  predicate Authored(e: Expr) {
    match e
    case Metric(_, _) => false
    case MethodCall(_, arg) => Authored(arg)
    case Operator(_, left, right) => Authored(left) && Authored(right)
    case _ => true
  }

  /** The hash separates all arguments from the fixed ones. */
  ghost predicate SeparatesAll(hash: ParamsHash) {
    forall m, arg :: Separates(hash, m, arg)
  }

  /** Rewriting preserves meaning: over the table after any syncs, the rewritten expression has the value of the original. */
  lemma {:induction false} RewriteMeaning(e: Expr, person: nat, syncs: seq<Sync>, hash: ParamsHash, ops: Operators)
    requires Authored(e) && SeparatesAll(hash) && forall s :: s in syncs ==> s.Valid()
    ensures EvalTable(Rewrite(e), person, Run(syncs, hash), hash, ops) == EvalFetched(e, person, syncs, ops)
  {
    match e {
      case MethodCall(m, arg) =>
        if IsPlain(arg) {
          LookupIsLastFetched(syncs, hash, m, person, arg.s);
        }
      case Operator(_, left, right) =>
        RewriteMeaning(left, person, syncs, hash, ops);
        RewriteMeaning(right, person, syncs, hash, ops);
      case _ =>
    }
  }

  /** Rewriting twice changes nothing more. */
  lemma {:induction false} RewriteIdempotent(e: Expr)
    ensures Rewrite(Rewrite(e)) == Rewrite(e)
  {
    match e {
      case MethodCall(_, arg) =>
        if !IsPlain(arg) {
          RewriteIdempotent(arg);
          assert !IsPlain(Rewrite(arg));
        }
      case Operator(_, left, right) =>
        RewriteIdempotent(left);
        RewriteIdempotent(right);
      case _ =>
    }
  }
}
