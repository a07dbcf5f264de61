/**
 * Conflict and duplicate detection between change requests of one type and registrant:
 * `_filter_by_field_conflicts`, `_detect_duplicates` and `_calculate_similarity` of
 * spp_change_request_v2/models/conflict_mixin.py, over the change sets derived in FieldMapping.
 */
module Similarity {
  import opened Wrappers
  import opened FieldMapping

  /** A change request, as detection reads it. */
  datatype Request = Request(requestType: RequestType, detail: Option<Record>, registrant: Option<Record>)
  {
    /** `_proposed_changed_fields`. */
    ghost function Changed(now: int): Option<set<Field>> {
      ChangedFields(requestType, detail, registrant, now)
    }
  }

  /** The fields compared when no change set applies, and the score that makes a duplicate. */
  datatype Config = Config(checkFields: seq<Field>, threshold: real)

  // ----- comparing two values -----

  const SPACES: set<char> := {' ', '\t', '\n', '\r'}

  function Strip(s: string): string
    decreases |s|
  {
    if s != "" && s[0] in SPACES then Strip(s[1..])
    else if s != "" && s[|s| - 1] in SPACES then Strip(s[..|s| - 1])
    else s
  }

  function Lower(s: string): string {
    seq(|s|, i requires 0 <= i < |s| => if 'A' <= s[i] <= 'Z' then s[i] - 'A' + 'a' else s[i])
  }

  /** `_normalize_field_value`. */
  function Normalize(value: Value): Value {
    match value
    case Unset => Missing
    case Text(s) => Text(Lower(Strip(s)))
    case _ => value
  }

  predicate OccursAt(s: string, t: string, i: nat)
    requires i + |s| <= |t|
  {
    t[i..i + |s|] == s
  }

  /** `s in t` for strings. */
  predicate Occurs(s: string, t: string) {
    exists i | 0 <= i <= |t| - |s| :: OccursAt(s, t, i)
  }

  /** `_are_similar`. */
  predicate AreSimilar(a: Value, b: Value) {
    a.Text? && b.Text? && (Occurs(a.s, b.s) || Occurs(b.s, a.s))
  }

  datatype Match = Exact | Close | Different

  /** A reference compares as a tuple of ids, equal to no plain number. */
  function Compare(mine: Value, other: Value): Match {
    var a, b := Normalize(mine), Normalize(other);
    if Same(a, b) && a.Ref? == b.Ref? then Exact else if AreSimilar(a, b) then Close else Different
  }

  function Points(m: Match): real {
    match m
    case Exact => 1.0
    case Close => 0.8
    case Different => 0.0
  }

  // ----- the score -----

  /** How each of the fields compares. */
  type Comparison = map<Field, Match>

  ghost function CompareAll(fields: set<Field>, mine: Record, other: Record): Comparison {
    map f | f in fields :: Compare(Get(mine, f), Get(other, f))
  }

  ghost function Matching(c: Comparison, kind: Match): set<Field> {
    set f | f in c && c[f] == kind
  }

  /** The points of a comparison, whatever the order its fields are visited in. */
  ghost function SetPoints(c: Comparison): real {
    |Matching(c, Exact)| as real + 0.8 * |Matching(c, Close)| as real
  }

  /** The similarity of a comparison: its points in percent of its fields. */
  ghost function Score(c: Comparison): real {
    Percentage(SetPoints(c), |c|)
  }

  function Percentage(points: real, total: nat): real {
    if total == 0 then 0.0 else points / total as real * 100.0
  }

  /** The fields that both requests change and both details have. */
  ghost function Comparable(mine: Request, other: Request, now: int): set<Field>
    requires mine.Changed(now).Some? && other.Changed(now).Some? && mine.detail.Some? && other.detail.Some?
  {
    mine.Changed(now).value * other.Changed(now).value * mine.detail.value.Keys * other.detail.value.Keys
  }

  /** Points over the configured list of fields; a field one detail lacks scores nothing. */
  function ListPoints(fields: seq<Field>, mine: Record, other: Record): real {
    if fields == [] then 0.0
    else
      var f := fields[|fields| - 1];
      ListPoints(fields[..|fields| - 1], mine, other)
        + (if f in mine && f in other then Points(Compare(mine[f], other[f])) else 0.0)
  }

  /** `_calculate_similarity`, with the change set derived anew for this one pair. */
  ghost function SimilarityOf(mine: Request, other: Request, config: Config, now: int): real {
    if mine.detail.None? || other.detail.None? then 0.0
    else if mine.Changed(now).Some? && other.Changed(now).Some? then
      Score(CompareAll(Comparable(mine, other, now), mine.detail.value, other.detail.value))
    else
      Percentage(ListPoints(config.checkFields, mine.detail.value, other.detail.value), |config.checkFields|)
  }

  lemma AddField(c: Comparison, f: Field, m: Match)
    requires f !in c
    ensures SetPoints(c[f := m]) == SetPoints(c) + Points(m)
  {
    assert Matching(c[f := m], m) == Matching(c, m) + {f};
    if m != Exact {
      assert Matching(c[f := m], Exact) == Matching(c, Exact);
    }
    if m != Close {
      assert Matching(c[f := m], Close) == Matching(c, Close);
    }
  }

  /** Scores a set of fields, visiting them in any order. */
  method ScoreSet(fields: set<Field>, mine: Record, other: Record) returns (score: real)
    ensures score == Score(CompareAll(fields, mine, other))
  {
    var points, left := 0.0, fields;
    ghost var done: Comparison := map[];
    while left != {}
      invariant left <= fields && done == CompareAll(fields - left, mine, other)
      invariant points == SetPoints(done)
      decreases left
    {
      var f :| f in left;
      var m := Compare(Get(mine, f), Get(other, f));
      AddField(done, f, m);
      points := points + Points(m);
      left := left - {f};
      done := done[f := m];
      assert done == CompareAll(fields - left, mine, other);
    }
    assert fields - left == fields;
    assert CompareAll(fields, mine, other).Keys == fields;
    score := Percentage(points, |fields|);
  }

  method ScoreList(fields: seq<Field>, mine: Record, other: Record) returns (score: real)
    ensures score == Percentage(ListPoints(fields, mine, other), |fields|)
  {
    var points := 0.0;
    for i := 0 to |fields|
      invariant points == ListPoints(fields[..i], mine, other)
    {
      assert fields[..i + 1][..i] == fields[..i];
      var f := fields[i];
      if f in mine && f in other {
        points := points + Points(Compare(mine[f], other[f]));
      }
    }
    assert fields[..|fields|] == fields;
    score := Percentage(points, |fields|);
  }

  /**
   * `_calculate_similarity`. The caller may pass its own change set, derived once for a whole
   * run; otherwise (`myChanged` is None) it is derived here.
   */
  method CalculateSimilarity(mine: Request, other: Request, config: Config, myChanged: Option<Option<set<Field>>>, now: int)
      returns (score: real)
    requires myChanged.Some? ==> myChanged.value == mine.Changed(now)
    ensures score == SimilarityOf(mine, other, config, now)
  {
    if mine.detail.None? || other.detail.None? {
      return 0.0;
    }
    var changed: Option<set<Field>>;
    if myChanged.Some? {
      changed := myChanged.value;
    } else {
      changed := ProposedChangedFields(mine.requestType, mine.detail, mine.registrant, now);
    }
    var otherChanged := ProposedChangedFields(other.requestType, other.detail, other.registrant, now);
    if changed.Some? && otherChanged.Some? {
      var fields := changed.value * otherChanged.value * mine.detail.value.Keys * other.detail.value.Keys;
      score := ScoreSet(fields, mine.detail.value, other.detail.value);
    } else {
      score := ScoreList(config.checkFields, mine.detail.value, other.detail.value);
    }
  }

  /** The duplicates among the candidates, as `(index, similarity)` in candidate order. */
  ghost function Duplicates(mine: Request, candidates: seq<Request>, config: Config, now: int): seq<(nat, real)> {
    if candidates == [] then []
    else
      var n := |candidates| - 1;
      var similarity := SimilarityOf(mine, candidates[n], config, now);
      var earlier := Duplicates(mine, candidates[..n], config, now);
      if similarity >= config.threshold then earlier + [(n, similarity)] else earlier
  }

  /**
   * The candidate loop of `_detect_duplicates`: the caller's change set is derived once, and the
   * outcome is the one of deriving it anew for every candidate.
   */
  method DetectDuplicates(mine: Request, candidates: seq<Request>, config: Config, now: int)
      returns (duplicates: seq<(nat, real)>, maxSimilarity: real)
    ensures duplicates == Duplicates(mine, candidates, config, now)
    ensures duplicates == [] ==> maxSimilarity == 0.0
    ensures forall d :: d in duplicates ==> d.1 <= maxSimilarity
    ensures duplicates != [] ==> exists d :: d in duplicates && d.1 == maxSimilarity
  {
    duplicates, maxSimilarity := [], 0.0;
    var changed := ProposedChangedFields(mine.requestType, mine.detail, mine.registrant, now);
    for i := 0 to |candidates|
      invariant duplicates == Duplicates(mine, candidates[..i], config, now)
      invariant duplicates == [] ==> maxSimilarity == 0.0
      invariant forall d :: d in duplicates ==> d.1 <= maxSimilarity
      invariant duplicates != [] ==> exists d :: d in duplicates && d.1 == maxSimilarity
    {
      var similarity := CalculateSimilarity(mine, candidates[i], config, Some(changed), now);
      assert candidates[..i + 1][..i] == candidates[..i];
      if similarity >= config.threshold {
        var first := duplicates == [];
        duplicates := duplicates + [(i, similarity)];
        assert duplicates[|duplicates| - 1] == (i, similarity);
        if first || similarity > maxSimilarity {
          maxSimilarity := similarity;
        }
      }
    }
    assert candidates[..|candidates|] == candidates;
  }

  // ----- what a score means -----

  /** A score lies between 0 and 100, and its ends mean all equal and nothing alike. */
  lemma ScoreBounds(c: Comparison)
    ensures 0.0 <= Score(c) <= 100.0
    ensures Score(c) == 100.0 <==> c != map[] && forall f :: f in c ==> c[f] == Exact
    ensures Score(c) == 0.0 <==> forall f :: f in c ==> c[f] == Different
  {
    var exact, close, different := Matching(c, Exact), Matching(c, Close), Matching(c, Different);
    assert exact + close + different == c.Keys;
    assert |exact + close| == |exact| + |close|;
    if c != map[] {
      PercentageBounds(SetPoints(c), |c|);
      SubsetOfSameSize(exact, c.Keys);
      SubsetOfSameSize(different, c.Keys);
      if forall f :: f in c ==> c[f] == Exact {
        assert exact == c.Keys;
      }
      if forall f :: f in c ==> c[f] == Different {
        assert different == c.Keys;
      }
    }
  }

  lemma PercentageBounds(points: real, total: nat)
    requires total > 0 && 0.0 <= points <= total as real
    ensures 0.0 <= Percentage(points, total) <= 100.0
    ensures Percentage(points, total) == 100.0 <==> points == total as real
    ensures Percentage(points, total) == 0.0 <==> points == 0.0
  {
    var share := points / total as real;
    assert share * total as real == points;
    if share > 1.0 {
      assert share * total as real > total as real;
    }
  }

  /**
   * For two requests with derived change sets the score is a percentage over the fields both
   * change: 100 exactly when every such field has the same normalized value in both and there is
   * one, 0 exactly when none of them has equal or similar values.
   */
  lemma ScoreMeaning(mine: Request, other: Request, config: Config, now: int)
    requires mine.Changed(now).Some? && other.Changed(now).Some? && mine.detail.Some? && other.detail.Some?
    ensures var score := SimilarityOf(mine, other, config, now);
      var fields := Comparable(mine, other, now);
      var how := (f: Field) => Compare(Get(mine.detail.value, f), Get(other.detail.value, f));
      && 0.0 <= score <= 100.0
      && (score == 100.0 <==> fields != {} && forall f :: f in fields ==> how(f) == Exact)
      && (score == 0.0 <==> forall f :: f in fields ==> how(f) == Different)
  {
    var c := CompareAll(Comparable(mine, other, now), mine.detail.value, other.detail.value);
    ScoreBounds(c);
    assert c.Keys == Comparable(mine, other, now);
  }

  lemma SubsetOfSameSize<T>(a: set<T>, b: set<T>)
    requires a <= b
    ensures |a| == |b| <==> a == b
  {
    assert b == a + (b - a);
  }

  lemma {:induction false} ListPointsSymmetric(fields: seq<Field>, mine: Record, other: Record)
    ensures ListPoints(fields, mine, other) == ListPoints(fields, other, mine)
  {
    if fields != [] {
      ListPointsSymmetric(fields[..|fields| - 1], mine, other);
    }
  }

  /** The score does not depend on which of the two requests runs the detection. */
  lemma SimilaritySymmetric(mine: Request, other: Request, config: Config, now: int)
    ensures SimilarityOf(mine, other, config, now) == SimilarityOf(other, mine, config, now)
  {
    if mine.detail.Some? && other.detail.Some? {
      var d, o := mine.detail.value, other.detail.value;
      ListPointsSymmetric(config.checkFields, d, o);
      if mine.Changed(now).Some? && other.Changed(now).Some? {
        var fields := Comparable(mine, other, now);
        assert Comparable(other, mine, now) == fields;
        assert CompareAll(fields, o, d) == CompareAll(fields, d, o);
      }
    }
  }

  // ----- padding -----

  /** A transform whose result does not depend on one field of the detail. */
  ghost predicate IgnoresField(transform: Transform, f: Field) {
    forall value, detail, registrant, now, v {:trigger transform(value, detail[f := v], registrant, now)} ::
      transform(value, detail[f := v], registrant, now) == transform(value, detail, registrant, now)
  }

  /** The request after its author edits one detail field. */
  function Edited(mine: Request, f: Field, v: Value): Request
    requires mine.detail.Some?
  {
    mine.(detail := Some(mine.detail.value[f := v]))
  }

  /** The other fields that an edit of one field makes reported as changed, or no longer reported. */
  ghost predicate Moves(mine: Request, f: Field, v: Value, now: int, g: Field)
    requires mine.detail.Some? && mine.Changed(now).Some?
  {
    g != f && (g in Edited(mine, f, v).Changed(now).value) != (g in mine.Changed(now).value)
  }

  /** An edit of one field leaves what detection reports for the other fields as it was. */
  ghost predicate Unmoved(mine: Request, f: Field, v: Value, now: int)
    requires mine.detail.Some?
  {
    mine.Changed(now).Some? ==> forall g :: !Moves(mine, f, v, now, g)
  }

  /** So does an edit of a field that no transform of another mapping reads. */
  lemma UnreadIsUnmoved(mine: Request, f: Field, v: Value, now: int)
    requires mine.detail.Some? && f in mine.detail.value
    requires forall m :: m in mine.requestType.mappings && m.source != f && m.expression.Some? ==>
        IgnoresField(m.expression.value, f)
    ensures Unmoved(mine, f, v, now)
  {
    if mine.Changed(now).Some? && mine.registrant.Some? {
      var detail, registrant := mine.detail.value, mine.registrant.value;
      var edited := detail[f := v];
      forall m | m in mine.requestType.mappings && m.source != f
        ensures ChangesValue(m, edited, registrant, now) == ChangesValue(m, detail, registrant, now)
        ensures Readable(m, edited, registrant) == Readable(m, detail, registrant)
      {
        if m.expression.Some? {
          var transform := m.expression.value;
          assert transform(Get(detail, m.source), detail[f := v], registrant, now)
              == transform(Get(detail, m.source), detail, registrant, now);
        }
      }
    }
  }

  /** A request that detection compares with mine: of the same type, and so with the same fields, for the same registrant. */
  ghost predicate Candidate(mine: Request, other: Request) {
    && mine.detail.Some? && other.detail.Some? && other.detail.value.Keys == mine.detail.value.Keys
    && other.requestType == mine.requestType && other.registrant == mine.registrant
  }

  /** A candidate that leaves the edited field alone. */
  ghost predicate Leaves(mine: Request, other: Request, f: Field, now: int) {
    Candidate(mine, other) && mine.Changed(now).Some? && f !in other.Changed(now).value
  }

  /** It changes a field that the edit moves. */
  ghost predicate Shares(mine: Request, other: Request, f: Field, v: Value, now: int, g: Field)
    requires mine.detail.Some? && mine.Changed(now).Some?
  {
    Leaves(mine, other, f, now) && Moves(mine, f, v, now, g) && g in other.Changed(now).value
  }

  lemma ChangedExists(r: Request, now: int, g: Field)
    requires r.Changed(now).Some? && r.detail.Some? && g in r.Changed(now).value
    ensures g in r.detail.value
  {
  }

  lemma SameCompared(mine: Request, other: Request, f: Field, v: Value, now: int)
    requires Leaves(mine, other, f, now) && f in mine.detail.value
    requires forall g :: !Shares(mine, other, f, v, now, g)
    ensures Comparable(Edited(mine, f, v), other, now) == Comparable(mine, other, now)
  {
    forall g
      ensures g in Comparable(Edited(mine, f, v), other, now) <==> g in Comparable(mine, other, now)
    {
      assert !Shares(mine, other, f, v, now, g);
    }
  }

  /** An edit leaves the score against a candidate that changes no field the edit moves. */
  lemma PaddingIgnored(mine: Request, other: Request, config: Config, f: Field, v: Value, now: int)
    requires Leaves(mine, other, f, now) && f in mine.detail.value
    requires forall g :: !Shares(mine, other, f, v, now, g)
    ensures SimilarityOf(Edited(mine, f, v), other, config, now) == SimilarityOf(mine, other, config, now)
  {
    var edited := Edited(mine, f, v);
    var fields := Comparable(mine, other, now);
    SameCompared(mine, other, f, v, now);
    assert CompareAll(fields, edited.detail.value, other.detail.value) == CompareAll(fields, mine.detail.value, other.detail.value);
  }

  /** No candidate that leaves the field alone changes a field the edit moves. */
  ghost predicate Harmless(mine: Request, f: Field, v: Value, now: int)
    requires mine.detail.Some? && mine.Changed(now).Some?
  {
    forall other, g :: !Shares(mine, other, f, v, now, g)
  }

  /**
   * What is compared, exactly: editing a field leaves the set of compared fields as it is, for every
   * candidate of the same type and registrant that leaves the field alone, if and only if no such
   * candidate can change a field that the edit moves.
   */
  lemma ComparedExact(mine: Request, f: Field, v: Value, now: int)
    requires mine.Changed(now).Some? && mine.detail.Some? && f in mine.detail.value
    ensures Harmless(mine, f, v, now) <==>
        forall other | Leaves(mine, other, f, now) :: Comparable(Edited(mine, f, v), other, now) == Comparable(mine, other, now)
  {
    if Harmless(mine, f, v, now) {
      forall other | Leaves(mine, other, f, now)
        ensures Comparable(Edited(mine, f, v), other, now) == Comparable(mine, other, now)
      {
        SameCompared(mine, other, f, v, now);
      }
    } else {
      var other, g :| Shares(mine, other, f, v, now, g);
      ChangedExists(other, now, g);
      assert (g in Comparable(Edited(mine, f, v), other, now)) != (g in Comparable(mine, other, now));
    }
  }

  /** The candidate's value of a field can be another, with the same fields changed. */
  ghost predicate Varies(other: Request, g: Field, value: Value, now: int)
    requires other.detail.Some?
  {
    Edited(other, g, value).Changed(now) == other.Changed(now)
  }

  /** It can be mine, and one quite different. */
  ghost predicate Free(mine: Request, other: Request, g: Field, now: int)
    requires mine.detail.Some? && other.detail.Some?
  {
    && Varies(other, g, Get(mine.detail.value, g), now)
    && exists value :: Varies(other, g, value, now) && Compare(Get(mine.detail.value, g), value) == Different
  }

  lemma ScoreAt(c: Comparison, d: Comparison, g: Field)
    requires c.Keys == d.Keys && g in c && c[g] == Exact && d[g] == Different
    requires forall f :: f in c && f != g ==> c[f] == d[f]
    ensures Score(c) != Score(d)
  {
    var rest := map f | f in c && f != g :: c[f];
    assert c == rest[g := Exact] && d == rest[g := Different];
    AddField(rest, g, Exact);
    AddField(rest, g, Different);
    var n := |c|;
    assert |c.Keys| == |d.Keys| && n > 0;
    PercentageDiffers(SetPoints(c), SetPoints(d), n);
  }

  lemma PercentageDiffers(a: real, b: real, n: nat)
    requires a != b && n > 0
    ensures Percentage(a, n) != Percentage(b, n)
  {
    assert a / n as real * n as real == a && b / n as real * n as real == b;
  }

  lemma SameComparable(mine: Request, other: Request, g: Field, value: Value, now: int)
    requires Candidate(mine, other) && mine.Changed(now).Some? && g in other.detail.value && Varies(other, g, value, now)
    ensures Comparable(mine, Edited(other, g, value), now) == Comparable(mine, other, now)
  {
    assert other.detail.value[g := value].Keys == other.detail.value.Keys;
  }

  /** Two rows that differ in one field, of which one has my value and the other a different one, score differently. */
  lemma RowsTell(fields: set<Field>, mine: Record, same: Record, different: Record, g: Field)
    requires Compare(Get(mine, g), Get(same, g)) == Exact && Compare(Get(mine, g), Get(different, g)) == Different
    requires forall f :: f in fields && f != g ==> Get(same, f) == Get(different, f)
    ensures Score(CompareAll(fields, mine, same)) == Score(CompareAll(fields, mine, different)) <==> g !in fields
  {
    var c, d := CompareAll(fields, mine, same), CompareAll(fields, mine, different);
    if g in fields {
      ScoreAt(c, d, g);
    } else {
      assert c == d;
    }
  }

  /** A field of the candidate tells whether it is compared: mine and a different value of it score differently. */
  lemma VaryingTells(mine: Request, other: Request, config: Config, g: Field, value: Value, now: int)
    requires Candidate(mine, other) && mine.Changed(now).Some? && g in other.Changed(now).value
    requires Varies(other, g, Get(mine.detail.value, g), now) && Varies(other, g, value, now)
    requires Compare(Get(mine.detail.value, g), value) == Different
    ensures var same, different := Edited(other, g, Get(mine.detail.value, g)), Edited(other, g, value);
      SimilarityOf(mine, same, config, now) == SimilarityOf(mine, different, config, now) <==> g !in mine.Changed(now).value
  {
    var own := Get(mine.detail.value, g);
    ChangedExists(other, now, g);
    SameComparable(mine, other, g, own, now);
    SameComparable(mine, other, g, value, now);
    RowsTell(Comparable(mine, other, now), mine.detail.value, Edited(other, g, own).detail.value, Edited(other, g, value).detail.value, g);
  }

  /**
   * The score, exactly: where the fields that an edit moves can have any value in a candidate,
   * editing a field never changes the score against a candidate that leaves the field alone if and
   * only if no such candidate can change a field that the edit moves.
   */
  lemma PaddingExact(mine: Request, config: Config, f: Field, v: Value, now: int)
    requires mine.Changed(now).Some? && mine.detail.Some? && f in mine.detail.value
    requires forall other, g | Shares(mine, other, f, v, now, g) :: Free(mine, other, g, now)
    ensures Harmless(mine, f, v, now) <==>
        forall other | Leaves(mine, other, f, now) ::
          SimilarityOf(Edited(mine, f, v), other, config, now) == SimilarityOf(mine, other, config, now)
  {
    if Harmless(mine, f, v, now) {
      forall other | Leaves(mine, other, f, now)
        ensures SimilarityOf(Edited(mine, f, v), other, config, now) == SimilarityOf(mine, other, config, now)
      {
        PaddingIgnored(mine, other, config, f, v, now);
      }
    } else {
      var other, g :| Shares(mine, other, f, v, now, g);
      assert Free(mine, other, g, now);
      var value :| Varies(other, g, value, now) && Compare(Get(mine.detail.value, g), value) == Different;
      PaddingTells(mine, other, config, f, v, g, value, now);
    }
  }

  lemma LeavesStill(mine: Request, other: Request, f: Field, g: Field, value: Value, now: int)
    requires Leaves(mine, other, f, now) && g in other.detail.value && Varies(other, g, value, now)
    ensures Leaves(mine, Edited(other, g, value), f, now)
  {
    assert other.detail.value[g := value].Keys == other.detail.value.Keys;
  }

  lemma CandidateStill(mine: Request, other: Request, f: Field, v: Value)
    requires Candidate(mine, other) && f in mine.detail.value
    ensures Candidate(Edited(mine, f, v), other)
  {
    assert mine.detail.value[f := v].Keys == mine.detail.value.Keys;
  }

  lemma PaddingTells(mine: Request, other: Request, config: Config, f: Field, v: Value, g: Field, value: Value, now: int)
    requires mine.Changed(now).Some? && mine.detail.Some? && f in mine.detail.value && Shares(mine, other, f, v, now, g)
    requires Varies(other, g, Get(mine.detail.value, g), now) && Varies(other, g, value, now)
    requires Compare(Get(mine.detail.value, g), value) == Different
    ensures exists o :: Leaves(mine, o, f, now)
              && SimilarityOf(Edited(mine, f, v), o, config, now) != SimilarityOf(mine, o, config, now)
  {
    var edited, own := Edited(mine, f, v), Get(mine.detail.value, g);
    ChangedExists(other, now, g);
    LeavesStill(mine, other, f, g, own, now);
    LeavesStill(mine, other, f, g, value, now);
    CandidateStill(mine, other, f, v);
    VaryingTells(mine, other, config, g, value, now);
    VaryingTells(edited, other, config, g, value, now);
    var same, different := Edited(other, g, own), Edited(other, g, value);
    if SimilarityOf(edited, same, config, now) != SimilarityOf(mine, same, config, now) {
    } else {
      assert SimilarityOf(edited, different, config, now) != SimilarityOf(mine, different, config, now);
    }
  }

  /** A request whose one mapping proposes the phone only while the note is unset. */
  function NoteGated(): Request {
    var gate: Transform := (value, detail, registrant, now) => if Get(detail, "note") == Unset then Some(value) else Some(Num(0));
    Request(RequestType(true, true, [Mapping("phone", None, "phone", Some(gate))]),
            Some(map["phone" := Num(7), "note" := Unset]), Some(map["phone" := Num(0)]))
  }

  /**
   * The condition can fail: when another mapping's transform reads the edited field, an edit that no
   * candidate makes takes the score against a candidate from 100 to 0.
   */
  lemma PaddingThroughTransform(config: Config, now: int)
    ensures Leaves(NoteGated(), NoteGated(), "note", now)
    ensures SimilarityOf(NoteGated(), NoteGated(), config, now) == 100.0
    ensures SimilarityOf(Edited(NoteGated(), "note", Flag), NoteGated(), config, now) == 0.0
  {
    var mine, edited := NoteGated(), Edited(NoteGated(), "note", Flag);
    var m := mine.requestType.mappings[0];
    OneMappingChanged(m, mine.detail.value, mine.registrant.value, now);
    OneMappingChanged(m, edited.detail.value, mine.registrant.value, now);
    assert mine.Changed(now) == Some({"phone"}) && edited.Changed(now) == Some({});
    assert Comparable(mine, mine, now) == {"phone"};
    ScoreMeaning(mine, mine, config, now);
    assert Comparable(edited, mine, now) == {};
    ScoreMeaning(edited, mine, config, now);
  }

  /** A request whose phone is proposed only while the consent is given, which the registrant has not. */
  function ConsentGated(): Request {
    var gate: Transform := (value, detail, registrant, now) => if Get(detail, "consent") == Flag then Some(value) else Some(Num(0));
    Request(RequestType(true, true, [Mapping("consent", None, "consent", None), Mapping("phone", None, "phone", Some(gate))]),
            Some(map["consent" := Unset, "phone" := Num(7)]), Some(map["consent" := Unset, "phone" := Num(0)]))
  }

  /**
   * A moved field alone does no harm: giving the consent moves the phone, but a candidate that leaves
   * the consent alone does not change the phone either, so no score against such a candidate changes.
   */
  lemma MovedHarmlessly(now: int)
    ensures Moves(ConsentGated(), "consent", Flag, now, "phone")
    ensures Harmless(ConsentGated(), "consent", Flag, now)
  {
    var mine, edited := ConsentGated(), Edited(ConsentGated(), "consent", Flag);
    ConsentReports(mine, now);
    ConsentReports(edited, now);
    forall other, g
      ensures !Shares(mine, other, "consent", Flag, now, g)
    {
      if Leaves(mine, other, "consent", now) {
        ConsentReports(other, now);
      }
    }
  }

  /** What is reported of such a request. */
  lemma ConsentReports(r: Request, now: int)
    requires r.requestType == ConsentGated().requestType && r.registrant == ConsentGated().registrant
    requires r.detail.Some? && r.detail.value.Keys == {"consent", "phone"}
    ensures r.Changed(now).Some?
    ensures "consent" in r.Changed(now).value <==> !Same(r.detail.value["consent"], Unset)
    ensures "phone" in r.Changed(now).value <==> r.detail.value["consent"] == Flag && !Same(r.detail.value["phone"], Num(0))
    ensures r.Changed(now).value <= {"consent", "phone"}
  {
    var ms, d, p := r.requestType.mappings, r.detail.value, r.registrant.value;
    var consent, phone := ms[0], ms[1];
    assert ms == [consent, phone];
    assert Readable(consent, d, p) && Readable(phone, d, p);
    assert ChangesValue(consent, d, p, now) <==> !Same(d["consent"], Unset);
    assert ChangesValue(phone, d, p, now) <==> d["consent"] == Flag && !Same(d["phone"], Num(0));
    assert forall m :: m in ms <==> m == consent || m == phone;
    assert consent.source == "consent" && phone.source == "phone";
  }

  lemma OneMappingChanged(m: Mapping, detail: Record, registrant: Record, now: int)
    ensures ChangedFields(RequestType(true, true, [m]), Some(detail), Some(registrant), now)
         == Some(if Readable(m, detail, registrant) && ChangesValue(m, detail, registrant, now) then {m.source} else {})
  {
    var requestType := RequestType(true, true, [m]);
    assert requestType.mappings[0] == m;
    assert forall m' :: m' in requestType.mappings <==> m' == m;
    var changed := ChangedFields(requestType, Some(detail), Some(registrant), now).value;
    if Readable(m, detail, registrant) && ChangesValue(m, detail, registrant, now) {
      assert changed == {m.source};
    } else {
      assert changed == {};
    }
  }

  // ----- field conflicts -----

  /** `_effective_conflict_fields`. */
  ghost function EffectiveFields(request: Request, conflictFields: set<Field>, now: int): set<Field> {
    match request.Changed(now)
    case None => conflictFields
    case Some(changed) => changed * conflictFields
  }

  /** Two requests conflict on a rule when both change one of its fields and both set it. */
  ghost predicate Conflicts(mine: Request, other: Request, conflictFields: set<Field>, now: int) {
    && mine.detail.Some? && other.detail.Some?
    && exists f :: f in EffectiveFields(mine, conflictFields, now) && f in EffectiveFields(other, conflictFields, now)
         && Truthy(Get(mine.detail.value, f)) && Truthy(Get(other.detail.value, f))
  }

  method EffectiveConflictFields(request: Request, conflictFields: set<Field>, now: int) returns (fields: set<Field>)
    ensures fields == EffectiveFields(request, conflictFields, now)
  {
    var proposed := ProposedChangedFields(request.requestType, request.detail, request.registrant, now);
    match proposed {
      case None => fields := conflictFields;
      case Some(changed) => fields := changed * conflictFields;
    }
  }

  /** The candidates in conflict, in candidate order. */
  ghost function Conflicting(mine: Request, candidates: seq<Request>, conflictFields: set<Field>, now: int): seq<Request> {
    if candidates == [] then []
    else
      var last := candidates[|candidates| - 1];
      Conflicting(mine, candidates[..|candidates| - 1], conflictFields, now)
        + (if Conflicts(mine, last, conflictFields, now) then [last] else [])
  }

  /** `_filter_by_field_conflicts`: a rule that names no fields matches every candidate. */
  method FilterByFieldConflicts(mine: Request, candidates: seq<Request>, conflictFields: set<Field>, now: int)
      returns (matching: seq<Request>)
    ensures matching == if conflictFields == {} then candidates else Conflicting(mine, candidates, conflictFields, now)
  {
    if conflictFields == {} {
      return candidates;
    }
    matching := [];
    if mine.detail.None? {
      NothingConflicts(mine, candidates, conflictFields, now);
      return;
    }
    var myFields := EffectiveConflictFields(mine, conflictFields, now);
    if myFields == {} {
      NothingConflicts(mine, candidates, conflictFields, now);
      return;
    }
    for i := 0 to |candidates|
      invariant matching == Conflicting(mine, candidates[..i], conflictFields, now)
    {
      assert candidates[..i + 1][..i] == candidates[..i];
      var conflict := false;
      if candidates[i].detail.Some? {
        var theirs := EffectiveConflictFields(candidates[i], conflictFields, now);
        var fields := myFields * theirs;
        var d, o := mine.detail.value, candidates[i].detail.value;
        conflict := exists f | f in fields :: f in d && f in o && Truthy(Get(d, f)) && Truthy(Get(o, f));
      }
      if conflict {
        matching := matching + [candidates[i]];
      }
    }
    assert candidates[..|candidates|] == candidates;
  }

  lemma {:induction false} NothingConflicts(mine: Request, candidates: seq<Request>, conflictFields: set<Field>, now: int)
    requires mine.detail.None? || EffectiveFields(mine, conflictFields, now) == {}
    ensures Conflicting(mine, candidates, conflictFields, now) == []
  {
    if candidates != [] {
      NothingConflicts(mine, candidates[..|candidates| - 1], conflictFields, now);
    }
  }

  /** Editing a field the rule does not name can neither hide nor make a conflict, unless it moves another field's report. */
  lemma ConflictUnaffectedByEdit(mine: Request, other: Request, conflictFields: set<Field>, f: Field, v: Value, now: int)
    requires mine.detail.Some? && f in mine.detail.value && f !in conflictFields && Unmoved(mine, f, v, now)
    ensures Conflicts(Edited(mine, f, v), other, conflictFields, now) == Conflicts(mine, other, conflictFields, now)
  {
    var edited := Edited(mine, f, v);
    forall g
      ensures g in EffectiveFields(edited, conflictFields, now) <==> g in EffectiveFields(mine, conflictFields, now)
    {
      assert mine.Changed(now).Some? ==> !Moves(mine, f, v, now, g);
    }
    assert EffectiveFields(edited, conflictFields, now) == EffectiveFields(mine, conflictFields, now);
    forall g | g in EffectiveFields(mine, conflictFields, now)
      ensures Get(edited.detail.value, g) == Get(mine.detail.value, g)
    {
    }
  }
}
