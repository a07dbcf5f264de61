/**
 * Routing of a dynamic-approval change request to an approval definition:
 * `_resolve_dynamic_approval` of spp_change_request_v2/models/change_request.py.
 */
module Routing {
  import opened Wrappers

  /** What a candidate's condition comes to for the request: evaluation may fail. */
  datatype Condition = Unconditional | Evaluates(holds: bool) | Fails

  datatype Definition = Definition(id: nat, sequence: int, condition: Condition)

  /** No condition matches everything; a failing one is skipped. */
  predicate Matches(d: Definition) {
    d.condition == Unconditional || d.condition == Evaluates(true)
  }

  /** Places a definition after those of its sequence. */
  function Insert(sorted: seq<Definition>, d: Definition): (r: seq<Definition>)
    ensures multiset(r) == multiset(sorted) + multiset{d}
  {
    if sorted != [] && d.sequence < sorted[|sorted| - 1].sequence then
      assert sorted == sorted[..|sorted| - 1] + [sorted[|sorted| - 1]];
      Insert(sorted[..|sorted| - 1], d) + [sorted[|sorted| - 1]]
    else sorted + [d]
  }

  /** The candidates in sequence order, ties in list order. */
  function SortBySequence(candidates: seq<Definition>): (r: seq<Definition>)
    ensures multiset(r) == multiset(candidates)
  {
    if candidates == [] then []
    else
      assert candidates == candidates[..|candidates| - 1] + [candidates[|candidates| - 1]];
      Insert(SortBySequence(candidates[..|candidates| - 1]), candidates[|candidates| - 1])
  }

  function FirstMatch(definitions: seq<Definition>): Option<Definition> {
    if definitions == [] then None
    else if FirstMatch(definitions[..|definitions| - 1]).Some? then FirstMatch(definitions[..|definitions| - 1])
    else if Matches(definitions[|definitions| - 1]) then Some(definitions[|definitions| - 1])
    else None
  }

  /** `_resolve_dynamic_approval`, as a function of the candidates. */
  function Route(candidates: seq<Definition>): Option<Definition> {
    FirstMatch(SortBySequence(candidates))
  }

  /** `_resolve_dynamic_approval`: the first candidate in sequence order whose condition holds. */
  method ResolveDynamicApproval(selected: string, candidates: seq<Definition>) returns (winner: Option<Definition>)
    ensures winner == if selected == "" then None else Route(candidates)
  {
    if selected == "" {
      return None;
    }
    var sorted := SortBySequence(candidates);
    for i := 0 to |sorted|
      invariant FirstMatch(sorted[..i]).None?
    {
      assert sorted[..i + 1][..i] == sorted[..i];
      if Matches(sorted[i]) {
        FirstMatchStays(sorted, i + 1);
        return Some(sorted[i]);
      }
    }
    assert sorted[..|sorted|] == sorted;
    return None;
  }

  lemma {:induction false} FirstMatchStays(definitions: seq<Definition>, n: nat)
    requires n <= |definitions| && FirstMatch(definitions[..n]).Some?
    ensures FirstMatch(definitions) == FirstMatch(definitions[..n])
  {
    if n < |definitions| {
      assert definitions[..|definitions| - 1][..n] == definitions[..n];
      FirstMatchStays(definitions[..|definitions| - 1], n);
    } else {
      assert definitions[..n] == definitions;
    }
  }

  // ----- what the route is -----

  ghost predicate Sorted(definitions: seq<Definition>) {
    forall i, j :: 0 <= i < j < |definitions| ==> definitions[i].sequence <= definitions[j].sequence
  }

  /** The better of a route so far and a later candidate. */
  function Better(route: Option<Definition>, d: Definition): Option<Definition> {
    if Matches(d) && (route.None? || d.sequence < route.value.sequence) then Some(d) else route
  }

  lemma InsertKeeps(sorted: seq<Definition>, d: Definition)
    ensures forall x :: x in Insert(sorted, d) <==> x in sorted || x == d
  {
    var r := Insert(sorted, d);
    forall x
      ensures x in r <==> x in sorted || x == d
    {
      assert x in r <==> x in multiset(r);
      assert x in sorted <==> x in multiset(sorted);
    }
  }

  lemma {:induction false} InsertSorted(sorted: seq<Definition>, d: Definition)
    requires Sorted(sorted)
    ensures Sorted(Insert(sorted, d))
  {
    if sorted != [] && d.sequence < sorted[|sorted| - 1].sequence {
      var init, last := sorted[..|sorted| - 1], sorted[|sorted| - 1];
      InsertSorted(init, d);
      InsertKeeps(init, d);
      forall x | x in Insert(init, d)
        ensures x.sequence <= last.sequence
      {
        if x in init {
          var i :| 0 <= i < |init| && init[i] == x;
          assert sorted[i] == x;
        }
      }
    }
  }

  lemma FirstMatchOfMore(definitions: seq<Definition>, d: Definition)
    ensures FirstMatch(definitions + [d])
        == Then(FirstMatch(definitions), d)
  {
    assert (definitions + [d])[..|definitions|] == definitions;
  }

  /** The first match in a sequence is not later than another element of the end. */
  lemma FirstMatchBelow(sorted: seq<Definition>, bound: int)
    requires forall i :: 0 <= i < |sorted| ==> sorted[i].sequence <= bound
    ensures FirstMatch(sorted).Some? ==> FirstMatch(sorted).value.sequence <= bound
  {
    FirstMatchIn(sorted);
  }

  /** The first match of a sequence whose last definition is `last`. */
  function Then(match0: Option<Definition>, last: Definition): Option<Definition> {
    if match0.Some? then match0 else if Matches(last) then Some(last) else None
  }

  lemma InsertBelow(init: seq<Definition>, last: Definition, d: Definition)
    requires d.sequence < last.sequence
    ensures Insert(init + [last], d) == Insert(init, d) + [last]
  {
    assert (init + [last])[..|init|] == init;
  }

  lemma BetterThen(match0: Option<Definition>, d: Definition, last: Definition)
    requires d.sequence < last.sequence
    ensures Then(Better(match0, d), last) == Better(Then(match0, last), d)
  {
  }

  lemma {:induction false} InsertMatch(sorted: seq<Definition>, d: Definition)
    requires Sorted(sorted)
    ensures FirstMatch(Insert(sorted, d)) == Better(FirstMatch(sorted), d)
  {
    if sorted != [] && d.sequence < sorted[|sorted| - 1].sequence {
      var init, last := sorted[..|sorted| - 1], sorted[|sorted| - 1];
      assert sorted == init + [last];
      InsertBelow(init, last, d);
      InsertMatch(init, d);
      FirstMatchOfMore(init, last);
      FirstMatchOfMore(Insert(init, d), last);
      BetterThen(FirstMatch(init), d, last);
    } else {
      FirstMatchOfMore(sorted, d);
      FirstMatchBelow(sorted, d.sequence);
    }
  }

  lemma {:induction false} FirstMatchIn(definitions: seq<Definition>)
    ensures FirstMatch(definitions).Some? ==> FirstMatch(definitions).value in definitions && Matches(FirstMatch(definitions).value)
  {
    if definitions != [] {
      FirstMatchIn(definitions[..|definitions| - 1]);
    }
  }

  lemma {:induction false} SortSorts(candidates: seq<Definition>)
    ensures Sorted(SortBySequence(candidates))
  {
    if candidates != [] {
      SortSorts(candidates[..|candidates| - 1]);
      InsertSorted(SortBySequence(candidates[..|candidates| - 1]), candidates[|candidates| - 1]);
    }
  }

  /** Adding a candidate at the end changes the route only if it matches with a lower sequence. */
  lemma RouteOfMore(candidates: seq<Definition>, d: Definition)
    ensures Route(candidates + [d]) == Better(Route(candidates), d)
  {
    assert (candidates + [d])[..|candidates|] == candidates;
    SortSorts(candidates);
    InsertMatch(SortBySequence(candidates), d);
  }

  /** The condition of a candidate holds for the request: there is none, or it evaluates to true. */
  ghost predicate Holds(d: Definition) {
    match d.condition
    case Unconditional => true
    case Evaluates(holds) => holds
    case Fails => false
  }

  /** Every other candidate whose condition holds has a higher sequence, or the same one and is listed later. */
  ghost predicate IsFirst(candidates: seq<Definition>, i: nat)
    requires i < |candidates|
  {
    forall j :: 0 <= j < |candidates| && j != i && Holds(candidates[j]) ==>
      candidates[i].sequence < candidates[j].sequence || (candidates[i].sequence == candidates[j].sequence && i < j)
  }

  /**
   * The route is a candidate whose condition holds, of the lowest sequence among those, and of several
   * the one listed first; it exists exactly if the condition of some candidate holds.
   */
  lemma {:induction false} RouteMeaning(candidates: seq<Definition>) returns (i: nat)
    ensures Route(candidates).None? <==> forall j :: 0 <= j < |candidates| ==> !Holds(candidates[j])
    ensures Route(candidates).Some? ==>
        i < |candidates| && candidates[i] == Route(candidates).value && Holds(candidates[i]) && IsFirst(candidates, i)
  {
    i := 0;
    if candidates != [] {
      var init, last := candidates[..|candidates| - 1], candidates[|candidates| - 1];
      assert candidates == init + [last];
      i := RouteMeaning(init);
      RouteOfMore(init, last);
      if Holds(last) && (Route(init).None? || last.sequence < Route(init).value.sequence) {
        i := |init|;
      }
    }
  }

  /** The winner is a candidate, and no candidate whose condition holds has a lower sequence. */
  lemma Winner(candidates: seq<Definition>)
    ensures Route(candidates).None? <==> forall d :: d in candidates ==> !Holds(d)
    ensures Route(candidates).Some? ==>
      var winner := Route(candidates).value;
      winner in candidates && Holds(winner) && forall d :: d in candidates && Holds(d) ==> winner.sequence <= d.sequence
  {
    var i := RouteMeaning(candidates);
  }

  /** No two candidates share a sequence. */
  ghost predicate DistinctSequences(candidates: seq<Definition>) {
    forall c, d :: c in candidates && d in candidates && c.sequence == d.sequence ==> c == d
  }

  /** With distinct sequences the route does not depend on how the candidates are listed. */
  lemma OrderIrrelevant(a: seq<Definition>, b: seq<Definition>)
    requires DistinctSequences(a) && forall d :: d in a <==> d in b
    ensures Route(a) == Route(b)
  {
    Winner(a);
    Winner(b);
  }

  /** A candidate sequenced after the winner, wherever it is listed, never changes the route. */
  lemma AddAfterWinner(candidates: seq<Definition>, d: Definition, k: nat)
    requires k <= |candidates| && DistinctSequences(candidates) && Route(candidates).Some?
    requires d.sequence > Route(candidates).value.sequence
    ensures Route(candidates[..k] + [d] + candidates[k..]) == Route(candidates)
  {
    var more := candidates[..k] + [d] + candidates[k..];
    assert candidates == candidates[..k] + candidates[k..];
    assert forall x :: x in more <==> x in candidates || x == d;
    Winner(candidates);
    Winner(more);
  }
}
