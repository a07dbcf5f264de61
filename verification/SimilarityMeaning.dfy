/**
 * What duplicate and conflict detection computes, read off the two requests: how two values compare,
 * the score as a number, and which candidates are reported.
 */
module SimilarityMeaning {
  import opened Wrappers
  import opened FieldMapping
  import opened Similarity

  // ----- comparing two values -----

  predicate IsSpace(c: char) {
    c == ' ' || c == '\t' || c == '\n' || c == '\r'
  }

  /** Trimming takes all spaces from both ends, and nothing else. */
  lemma {:induction false} Trimmed(s: string) returns (before: string, after: string)
    ensures s == before + Strip(s) + after
    ensures (forall c :: c in before ==> IsSpace(c)) && (forall c :: c in after ==> IsSpace(c))
    ensures Strip(s) != "" ==> !IsSpace(Strip(s)[0]) && !IsSpace(Strip(s)[|Strip(s)| - 1])
    decreases |s|
  {
    before, after := "", "";
    if s != "" && s[0] in SPACES {
      before, after := Trimmed(s[1..]);
      before := [s[0]] + before;
      assert s == [s[0]] + s[1..];
    } else if s != "" && s[|s| - 1] in SPACES {
      before, after := Trimmed(s[..|s| - 1]);
      after := after + [s[|s| - 1]];
      assert s == s[..|s| - 1] + [s[|s| - 1]];
    }
  }

  /** The same letter up to its case. */
  predicate SameLetter(c: char, d: char) {
    || c == d
    || ('A' <= c <= 'Z' && d as int == c as int + 32)
    || ('A' <= d <= 'Z' && c as int == d as int + 32)
  }

  predicate SameLetters(s: string, t: string) {
    |s| == |t| && forall i :: 0 <= i < |s| ==> SameLetter(s[i], t[i])
  }

  lemma LowerEqual(s: string, t: string)
    ensures Lower(s) == Lower(t) <==> SameLetters(s, t)
  {
    if Lower(s) == Lower(t) {
      forall i | 0 <= i < |s|
        ensures SameLetter(s[i], t[i])
      {
        assert Lower(s)[i] == Lower(t)[i];
      }
    }
  }

  predicate ReadsAt(s: string, t: string, i: int) {
    0 <= i <= |t| - |s| && SameLetters(s, t[i..i + |s|])
  }

  /** One text reads in the other, whatever the case. */
  ghost predicate ReadsIn(s: string, t: string) {
    exists i :: ReadsAt(s, t, i)
  }

  lemma OccursReads(s: string, t: string)
    ensures Occurs(Lower(s), Lower(t)) <==> ReadsIn(s, t)
  {
    forall i | 0 <= i <= |t| - |s|
      ensures OccursAt(Lower(s), Lower(t), i) <==> ReadsAt(s, t, i)
    {
      assert Lower(t)[i..i + |s|] == Lower(t[i..i + |s|]);
      LowerEqual(s, t[i..i + |s|]);
    }
    if Occurs(Lower(s), Lower(t)) {
      var i :| 0 <= i <= |Lower(t)| - |Lower(s)| && OccursAt(Lower(s), Lower(t), i);
      assert ReadsAt(s, t, i);
    }
    if ReadsIn(s, t) {
      var i :| ReadsAt(s, t, i);
      assert OccursAt(Lower(s), Lower(t), i);
    }
  }

  /** Two texts are equal up to case and surrounding spaces, or one then reads in the other, or they differ. */
  lemma TextsCompare(s: string, t: string)
    ensures Compare(Text(s), Text(t)) ==
        if SameLetters(Strip(s), Strip(t)) then Exact
        else if ReadsIn(Strip(s), Strip(t)) || ReadsIn(Strip(t), Strip(s)) then Close
        else Different
  {
    LowerEqual(Strip(s), Strip(t));
    OccursReads(Strip(s), Strip(t));
    OccursReads(Strip(t), Strip(s));
  }

  predicate Empty(value: Value) {
    value == Missing || value == Unset
  }

  /** Other values are equal or not: unset ones to each other, numbers by value, references to references only. */
  lemma OthersCompare(a: Value, b: Value)
    requires !a.Text? || !b.Text?
    ensures Compare(a, b) ==
        if (Empty(a) && Empty(b)) || (!Empty(a) && !Empty(b) && Same(a, b) && (a.Ref? <==> b.Ref?)) then Exact else Different
  {
  }

  // ----- the score -----

  /** The fields of a set that compare in a way. */
  ghost function Alike(fields: set<Field>, mine: Record, other: Record, how: Match): set<Field> {
    set f | f in fields && Compare(Get(mine, f), Get(other, f)) == how
  }

  lemma AlikeMatches(fields: set<Field>, mine: Record, other: Record, how: Match)
    ensures Matching(CompareAll(fields, mine, other), how) == Alike(fields, mine, other, how)
  {
    var c := CompareAll(fields, mine, other);
    forall f
      ensures f in Matching(c, how) <==> f in Alike(fields, mine, other, how)
    {
      assert f in fields ==> c[f] == Compare(Get(mine, f), Get(other, f));
    }
  }

  /** A whole point for an equal field, 0.8 for a similar one. */
  ghost function SharePoints(fields: set<Field>, mine: Record, other: Record): real {
    |Alike(fields, mine, other, Exact)| as real + 0.8 * |Alike(fields, mine, other, Close)| as real
  }

  lemma SetScore(fields: set<Field>, mine: Record, other: Record)
    ensures Score(CompareAll(fields, mine, other))
         == if fields == {} then 0.0 else SharePoints(fields, mine, other) / |fields| as real * 100.0
  {
    var c := CompareAll(fields, mine, other);
    assert c.Keys == fields;
    assert |c| == |fields|;
    AlikeMatches(fields, mine, other, Exact);
    AlikeMatches(fields, mine, other, Close);
  }

  /**
   * With derived change sets the score is the share of the fields that both requests change and both
   * details have, in percent: a whole point for an equal field, 0.8 for a similar one.
   */
  lemma DerivedScore(mine: Request, other: Request, config: Config, now: int, fields: set<Field>)
    requires mine.Changed(now).Some? && other.Changed(now).Some? && mine.detail.Some? && other.detail.Some?
    requires forall f :: f in fields <==>
        f in mine.Changed(now).value && f in other.Changed(now).value && f in mine.detail.value && f in other.detail.value
    ensures SimilarityOf(mine, other, config, now)
         == if fields == {} then 0.0 else SharePoints(fields, mine.detail.value, other.detail.value) / |fields| as real * 100.0
  {
    SharedFields(mine, other, now, fields);
    SimilarityDerived(mine, other, config, now);
    SetScore(fields, mine.detail.value, other.detail.value);
  }

  lemma SimilarityDerived(mine: Request, other: Request, config: Config, now: int)
    requires mine.Changed(now).Some? && other.Changed(now).Some? && mine.detail.Some? && other.detail.Some?
    ensures SimilarityOf(mine, other, config, now)
         == Score(CompareAll(Comparable(mine, other, now), mine.detail.value, other.detail.value))
  {
  }

  lemma SharedFields(mine: Request, other: Request, now: int, fields: set<Field>)
    requires mine.Changed(now).Some? && other.Changed(now).Some? && mine.detail.Some? && other.detail.Some?
    requires forall f :: f in fields <==>
        f in mine.Changed(now).value && f in other.Changed(now).value && f in mine.detail.value && f in other.detail.value
    ensures fields == Comparable(mine, other, now)
  {
  }

  /** Both details have the field, and it compares in a way. */
  ghost predicate At(f: Field, mine: Record, other: Record, how: Match) {
    f in mine && f in other && Compare(mine[f], other[f]) == how
  }

  /** The positions of a list whose field both details have and that compare in a way. */
  ghost function Positions(fields: seq<Field>, mine: Record, other: Record, how: Match): set<int> {
    set i | 0 <= i < |fields| && At(fields[i], mine, other, how)
  }

  lemma PositionsNext(fields: seq<Field>, mine: Record, other: Record, how: Match)
    requires fields != []
    ensures var n := |fields| - 1;
      |Positions(fields, mine, other, how)|
      == |Positions(fields[..n], mine, other, how)| + if At(fields[n], mine, other, how) then 1 else 0
  {
    var n := |fields| - 1;
    var before := Positions(fields[..n], mine, other, how);
    var after := Positions(fields, mine, other, how);
    forall i
      ensures i in after <==> i in before || (i == n && At(fields[n], mine, other, how))
    {
      if 0 <= i < n {
        assert fields[..n][i] == fields[i];
      }
    }
    assert after == if At(fields[n], mine, other, how) then before + {n} else before;
  }

  lemma {:induction false} PointsCount(fields: seq<Field>, mine: Record, other: Record)
    ensures ListPoints(fields, mine, other)
         == |Positions(fields, mine, other, Exact)| as real + 0.8 * |Positions(fields, mine, other, Close)| as real
  {
    if fields == [] {
      assert Positions(fields, mine, other, Exact) == {} && Positions(fields, mine, other, Close) == {};
    } else {
      var n := |fields| - 1;
      var init := fields[..n];
      PointsCount(init, mine, other);
      PositionsNext(fields, mine, other, Exact);
      PositionsNext(fields, mine, other, Close);
    }
  }

  /**
   * Without them, for a static type on either side, it is the share of the configured fields, on the
   * same scale; a field that either detail lacks counts against it. Without a detail it is zero.
   */
  lemma ListedScore(mine: Request, other: Request, config: Config, now: int)
    ensures mine.detail == None || other.detail == None ==> SimilarityOf(mine, other, config, now) == 0.0
    ensures mine.detail.Some? && other.detail.Some? && (mine.Changed(now) == None || other.Changed(now) == None) ==>
        var d, o, fields := mine.detail.value, other.detail.value, config.checkFields;
        SimilarityOf(mine, other, config, now)
        == if fields == [] then 0.0
           else (|Positions(fields, d, o, Exact)| as real + 0.8 * |Positions(fields, d, o, Close)| as real) / |fields| as real * 100.0
  {
    if mine.detail.Some? && other.detail.Some? {
      PointsCount(config.checkFields, mine.detail.value, other.detail.value);
    }
  }

  // ----- what is reported -----

  /** The scores that reach a threshold, with their positions. */
  function Reaching(scores: seq<real>, threshold: real): seq<(nat, real)> {
    if scores == [] then []
    else
      var n := |scores| - 1;
      Reaching(scores[..n], threshold) + if scores[n] >= threshold then [(n, scores[n])] else []
  }

  lemma {:induction false} ReachingMeaning(scores: seq<real>, threshold: real)
    ensures var found := Reaching(scores, threshold);
      && (forall i: nat, s :: (i, s) in found <==> i < |scores| && s == scores[i] && s >= threshold)
      && (forall a, b :: 0 <= a < b < |found| ==> found[a].0 < found[b].0)
  {
    if scores != [] {
      var n := |scores| - 1;
      ReachingMeaning(scores[..n], threshold);
      var earlier := Reaching(scores[..n], threshold);
      forall a | 0 <= a < |earlier|
        ensures earlier[a].0 < n
      {
        var (i, s) := earlier[a];
        assert earlier[a] == (i, s) && (i, s) in earlier;
      }
    }
  }

  /** The duplicates are the candidates whose score reaches the threshold, with that score, in candidate order. */
  lemma {:induction false} DuplicatesMeaning(mine: Request, candidates: seq<Request>, config: Config, now: int, scores: seq<real>)
    requires |scores| == |candidates| && forall i :: 0 <= i < |candidates| ==> scores[i] == SimilarityOf(mine, candidates[i], config, now)
    ensures var found := Duplicates(mine, candidates, config, now);
      && (forall i: nat, s :: (i, s) in found <==> i < |candidates| && s == scores[i] && s >= config.threshold)
      && (forall a, b :: 0 <= a < b < |found| ==> found[a].0 < found[b].0)
  {
    DuplicatesReach(mine, candidates, config, now, scores);
    ReachingMeaning(scores, config.threshold);
  }

  lemma {:induction false} DuplicatesReach(mine: Request, candidates: seq<Request>, config: Config, now: int, scores: seq<real>)
    requires |scores| == |candidates| && forall i :: 0 <= i < |candidates| ==> scores[i] == SimilarityOf(mine, candidates[i], config, now)
    ensures Duplicates(mine, candidates, config, now) == Reaching(scores, config.threshold)
  {
    if candidates != [] {
      var n := |candidates| - 1;
      DuplicatesReach(mine, candidates[..n], config, now, scores[..n]);
    }
  }

  /** A request may conflict on a field of the rule: it changes the field, or its change set is not derived, and it sets it. */
  ghost predicate Claims(request: Request, f: Field, now: int) {
    && (request.Changed(now) == None || f in request.Changed(now).value)
    && request.detail.Some? && f in request.detail.value && Truthy(request.detail.value[f])
  }

  /** Two requests conflict exactly when both claim a field of the rule. */
  lemma ConflictsMeaning(mine: Request, other: Request, conflictFields: set<Field>, now: int)
    ensures Conflicts(mine, other, conflictFields, now) <==>
        exists f :: f in conflictFields && Claims(mine, f, now) && Claims(other, f, now)
  {
    if Conflicts(mine, other, conflictFields, now) {
      var f :| f in EffectiveFields(mine, conflictFields, now) && f in EffectiveFields(other, conflictFields, now)
               && Truthy(Get(mine.detail.value, f)) && Truthy(Get(other.detail.value, f));
      assert Claims(mine, f, now) && Claims(other, f, now);
    }
    if exists f :: f in conflictFields && Claims(mine, f, now) && Claims(other, f, now) {
      var f :| f in conflictFields && Claims(mine, f, now) && Claims(other, f, now);
      assert f in EffectiveFields(mine, conflictFields, now) && f in EffectiveFields(other, conflictFields, now);
    }
  }

  lemma ConflictingOne(mine: Request, other: Request, conflictFields: set<Field>, now: int)
    ensures Conflicting(mine, [other], conflictFields, now) == if Conflicts(mine, other, conflictFields, now) then [other] else []
  {
    assert [other][..0] == [];
  }

  /** The matches are taken candidate by candidate, in order. */
  lemma {:induction false} ConflictingInOrder(mine: Request, a: seq<Request>, b: seq<Request>, conflictFields: set<Field>, now: int)
    ensures Conflicting(mine, a + b, conflictFields, now)
         == Conflicting(mine, a, conflictFields, now) + Conflicting(mine, b, conflictFields, now)
  {
    if b == [] {
      assert a + b == a;
    } else {
      var n := |b| - 1;
      var all := a + b;
      assert all[..|all| - 1] == a + b[..n] && all[|all| - 1] == b[n];
      ConflictingInOrder(mine, a, b[..n], conflictFields, now);
    }
  }
}
