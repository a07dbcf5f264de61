/**
 * External identifiers of registrants: lookups and creations of
 * spp_api_v2/services/registrant_resolver.py and its callers in group_service.py and
 * individual_service.py, and the references built from an identifier and parsed by
 * spp_api_v2/routers/dependencies.py.
 */
module Identifiers {
  import opened Wrappers

  /** A registry ID: `live` unless it was soft-removed. ID types are named by their code URI. */
  datatype RegId = RegId(holder: nat, idType: string, value: string, live: bool)

  type Identifier = (string, string)

  /** The registrants, by kind, and their IDs in order of creation. */
  datatype Registry = Registry(isGroup: seq<bool>, ids: seq<RegId>)
  {
    ghost predicate Valid() {
      forall i :: 0 <= i < |ids| ==> ids[i].holder < |isGroup|
    }
  }

  datatype Lookup = NotFound | Found(partner: nat) | Ambiguous(partners: set<nat>)

  datatype Error = IdentifierInUse(idType: string) | DuplicateType

  // ----- lookups -----

  /** A live ID of a registrant of the requested kind that carries an identifier. */
  predicate Holds(r: Registry, id: RegId, identifier: Identifier, kind: Option<bool>) {
    && id.live && (id.idType, id.value) == identifier
    && (kind.Some? ==> id.holder < |r.isGroup| && r.isGroup[id.holder] == kind.value)
  }

  function Holders(r: Registry, identifier: Identifier, kind: Option<bool>): set<nat> {
    set i | 0 <= i < |r.ids| && Holds(r, r.ids[i], identifier, kind) :: r.ids[i].holder
  }

  function Outcome(partners: set<nat>): Lookup {
    if partners == {} then NotFound
    else if p :| p in partners && partners == {p} then Found(p)
    else Ambiguous(partners)
  }

  /** `resolve_registrant`: never picks one of several. */
  function Resolve(r: Registry, identifier: Identifier, kind: Option<bool>): Lookup {
    Outcome(Holders(r, identifier, kind))
  }

  lemma OutcomeMeaning(partners: set<nat>, p: nat)
    ensures Outcome(partners).Ambiguous? ==> Outcome(partners).partners == partners
    ensures Outcome(partners) == Found(p) <==> partners == {p}
    ensures Outcome(partners) == NotFound <==> partners == {}
    ensures Outcome(partners).Ambiguous? ==> exists a, b :: a in partners && b in partners && a != b
  {
    if Outcome(partners).Ambiguous? {
      var a :| a in partners;
      assert partners != {a};
    }
  }

  lemma HoldersMeaning(r: Registry, identifier: Identifier, kind: Option<bool>, p: nat)
    ensures p in Holders(r, identifier, kind) <==>
        exists i :: 0 <= i < |r.ids| && Holds(r, r.ids[i], identifier, kind) && r.ids[i].holder == p
  {
  }

  /** A live ID of a registrant of the kind, if one is asked for, has this type and value. */
  ghost predicate IsHolder(r: Registry, identifier: Identifier, kind: Option<bool>, p: nat) {
    && (exists i :: 0 <= i < |r.ids| && r.ids[i] == RegId(p, identifier.0, identifier.1, true))
    && (kind != None ==> p < |r.isGroup| && kind == Some(r.isGroup[p]))
  }

  lemma HolderIsHeld(r: Registry, identifier: Identifier, kind: Option<bool>, p: nat)
    ensures IsHolder(r, identifier, kind, p) <==>
        exists i :: 0 <= i < |r.ids| && Holds(r, r.ids[i], identifier, kind) && r.ids[i].holder == p
  {
    if exists i :: 0 <= i < |r.ids| && Holds(r, r.ids[i], identifier, kind) && r.ids[i].holder == p {
      var i :| 0 <= i < |r.ids| && Holds(r, r.ids[i], identifier, kind) && r.ids[i].holder == p;
      assert r.ids[i] == RegId(p, identifier.0, identifier.1, true);
    }
  }

  /** What a lookup answers: the one live holder of the kind, or that there is none, or exactly those there are, if several. */
  lemma LookupMeaning(r: Registry, identifier: Identifier, kind: Option<bool>, p: nat)
    ensures Resolve(r, identifier, kind) == Found(p) <==>
        IsHolder(r, identifier, kind, p) && forall q :: IsHolder(r, identifier, kind, q) ==> q == p
    ensures Resolve(r, identifier, kind) == NotFound <==> forall q :: !IsHolder(r, identifier, kind, q)
    ensures Resolve(r, identifier, kind).Ambiguous? ==>
        && (forall q :: q in Resolve(r, identifier, kind).partners <==> IsHolder(r, identifier, kind, q))
        && exists a, b :: a != b && IsHolder(r, identifier, kind, a) && IsHolder(r, identifier, kind, b)
  {
    var partners := Holders(r, identifier, kind);
    forall q
      ensures q in partners <==> IsHolder(r, identifier, kind, q)
    {
      HoldersMeaning(r, identifier, kind, q);
      HolderIsHeld(r, identifier, kind, q);
    }
    OutcomeMeaning(partners, p);
    if IsHolder(r, identifier, kind, p) && forall q :: q in partners ==> q == p {
      assert partners == {p};
    }
  }

  // ----- batch lookups -----

  /** The key a batch answers under. */
  function Key(identifier: Identifier): string {
    identifier.0 + "|" + identifier.1
  }

  predicate Requested(r: Registry, id: RegId, identifiers: seq<Identifier>, kind: Option<bool>) {
    (id.idType, id.value) in identifiers && Holds(r, id, (id.idType, id.value), kind)
  }

  /** The holders a batch collects under a key, among the first `n` IDs. */
  function KeyHolders(r: Registry, identifiers: seq<Identifier>, kind: Option<bool>, key: string, n: nat): set<nat>
    requires n <= |r.ids|
  {
    set i | 0 <= i < n && Requested(r, r.ids[i], identifiers, kind) && Key((r.ids[i].idType, r.ids[i].value)) == key
      :: r.ids[i].holder
  }

  /** What is collected under a key so far. */
  function Slot(matches: map<string, set<nat>>, key: string): set<nat> {
    if key in matches then matches[key] else {}
  }

  function Collect(matches: map<string, set<nat>>, id: RegId): map<string, set<nat>> {
    var key := Key((id.idType, id.value));
    matches[key := Slot(matches, key) + {id.holder}]
  }

  ghost predicate NoEmptySlot(matches: map<string, set<nat>>) {
    forall key :: key in matches ==> matches[key] != {}
  }

  /** `matches` groups the holders met among the first `n` IDs by key. */
  ghost predicate Grouped(matches: map<string, set<nat>>, r: Registry, identifiers: seq<Identifier>, kind: Option<bool>, n: nat)
    requires n <= |r.ids|
  {
    NoEmptySlot(matches) && forall key :: Slot(matches, key) == KeyHolders(r, identifiers, kind, key, n)
  }

  lemma CollectSlot(matches: map<string, set<nat>>, id: RegId, key: string)
    requires NoEmptySlot(matches)
    ensures NoEmptySlot(Collect(matches, id))
    ensures Slot(Collect(matches, id), key)
        == Slot(matches, key) + (if Key((id.idType, id.value)) == key then {id.holder} else {})
  {
  }

  lemma GroupedNext(matches: map<string, set<nat>>, r: Registry, identifiers: seq<Identifier>, kind: Option<bool>, n: nat)
    requires n < |r.ids| && Grouped(matches, r, identifiers, kind, n)
    ensures Grouped(if Requested(r, r.ids[n], identifiers, kind) then Collect(matches, r.ids[n]) else matches, r, identifiers, kind, n + 1)
  {
    var after := if Requested(r, r.ids[n], identifiers, kind) then Collect(matches, r.ids[n]) else matches;
    CollectSlot(matches, r.ids[n], "");
    forall key
      ensures Slot(after, key) == KeyHolders(r, identifiers, kind, key, n + 1)
    {
      CollectSlot(matches, r.ids[n], key);
      KeyHoldersNext(r, identifiers, kind, key, n);
    }
  }

  /** `resolve_registrants`: one pass over the matching IDs, grouped by key. */
  method ResolveRegistrants(r: Registry, identifiers: seq<Identifier>, kind: Option<bool>) returns (found: map<string, Lookup>)
    ensures forall key :: key in found <==> KeyHolders(r, identifiers, kind, key, |r.ids|) != {}
    ensures forall key :: key in found ==> found[key] == Outcome(KeyHolders(r, identifiers, kind, key, |r.ids|))
  {
    var matches: map<string, set<nat>> := map[];
    for n := 0 to |r.ids|
      invariant Grouped(matches, r, identifiers, kind, n)
    {
      GroupedNext(matches, r, identifiers, kind, n);
      if Requested(r, r.ids[n], identifiers, kind) {
        matches := Collect(matches, r.ids[n]);
      }
    }
    found := map key | key in matches :: Outcome(matches[key]);
  }

  lemma KeyHoldersNext(r: Registry, identifiers: seq<Identifier>, kind: Option<bool>, key: string, n: nat)
    requires n < |r.ids|
    ensures KeyHolders(r, identifiers, kind, key, n + 1) == KeyHolders(r, identifiers, kind, key, n)
        + (if Requested(r, r.ids[n], identifiers, kind) && Key((r.ids[n].idType, r.ids[n].value)) == key then {r.ids[n].holder} else {})
  {
  }

  /** The answer of a batch for one of its identifiers. */
  function BatchAnswer(r: Registry, identifiers: seq<Identifier>, kind: Option<bool>, identifier: Identifier): Lookup {
    Outcome(KeyHolders(r, identifiers, kind, Key(identifier), |r.ids|))
  }

  /** A batch answers an identifier like a lookup of its own when no other requested one shares its key. */
  lemma BatchIsSingle(r: Registry, identifiers: seq<Identifier>, kind: Option<bool>, identifier: Identifier)
    requires identifier in identifiers
    requires forall other :: other in identifiers && Key(other) == Key(identifier) ==> other == identifier
    ensures BatchAnswer(r, identifiers, kind, identifier) == Resolve(r, identifier, kind)
  {
    assert KeyHolders(r, identifiers, kind, Key(identifier), |r.ids|) == Holders(r, identifier, kind);
  }

  /** And it must be so: two requested identifiers with one key are confused on some registry. */
  lemma BatchConfuses(identifiers: seq<Identifier>, identifier: Identifier, other: Identifier)
    requires identifier in identifiers && other in identifiers && identifier != other && Key(identifier) == Key(other)
    ensures var r := Registry([false], [RegId(0, other.0, other.1, true)]);
      && Resolve(r, identifier, None) == NotFound
      && BatchAnswer(r, identifiers, None, identifier) == Found(0)
  {
    var r := Registry([false], [RegId(0, other.0, other.1, true)]);
    assert !Holds(r, r.ids[0], identifier, None);
    assert Requested(r, r.ids[0], identifiers, None);
    assert KeyHolders(r, identifiers, None, Key(identifier), 1) == {0};
  }

  /** Keys are distinct when no ID type contains the separator. */
  lemma KeysDistinct(a: Identifier, b: Identifier)
    requires '|' !in a.0 && '|' !in b.0 && Key(a) == Key(b)
    ensures a == b
  {
    BarOfKey(a.0, a.1);
    BarOfKey(b.0, b.1);
    assert Key(a)[..|a.0|] == a.0 && Key(b)[..|b.0|] == b.0;
    assert Key(a)[|a.0| + 1..] == a.1 && Key(b)[|b.0| + 1..] == b.1;
  }

  // ----- creation -----

  /** No live ID carries the identifier, whatever the kind of its holder. */
  predicate Free(r: Registry, identifier: Identifier) {
    forall i | 0 <= i < |r.ids| :: !(r.ids[i].live && (r.ids[i].idType, r.ids[i].value) == identifier)
  }

  /** The first of some identifiers that is already in use. */
  function FirstInUse(r: Registry, identifiers: seq<Identifier>, from: nat): Option<Identifier>
    requires from <= |identifiers|
    decreases |identifiers| - from
  {
    if from == |identifiers| then None
    else if !Free(r, identifiers[from]) then Some(identifiers[from])
    else FirstInUse(r, identifiers, from + 1)
  }

  /** One live ID per type and registrant: the registry's own uniqueness index. */
  predicate DistinctTypes(identifiers: seq<Identifier>) {
    forall i, j | 0 <= i < j < |identifiers| :: identifiers[i].0 != identifiers[j].0
  }

  function NewIds(holder: nat, identifiers: seq<Identifier>): seq<RegId> {
    seq(|identifiers|, i requires 0 <= i < |identifiers| => RegId(holder, identifiers[i].0, identifiers[i].1, true))
  }

  /** Creation of a registrant with its identifiers, checked first. */
  function Create(r: Registry, isGroup: bool, identifiers: seq<Identifier>): Result<Registry, Error> {
    match FirstInUse(r, identifiers, 0)
    case Some(identifier) => Err(IdentifierInUse(identifier.0))
    case None =>
      if !DistinctTypes(identifiers) then Err(DuplicateType)
      else Ok(Registry(r.isGroup + [isGroup], r.ids + NewIds(|r.isGroup|, identifiers)))
  }

  class Registrants {
    var registry: Registry

    constructor ()
      ensures registry == Registry([], [])
    {
      registry := Registry([], []);
    }

    /** `assert_new_identifiers_free`, then the write. */
    method CreateRegistrant(isGroup: bool, identifiers: seq<Identifier>) returns (error: Option<Error>)
      modifies this
      ensures match Create(old(registry), isGroup, identifiers)
        case Ok(after) => error == None && registry == after
        case Err(e) => error == Some(e) && registry == old(registry)
    {
      for i := 0 to |identifiers|
        invariant FirstInUse(registry, identifiers, 0) == FirstInUse(registry, identifiers, i)
      {
        if !Free(registry, identifiers[i]) {
          return Some(IdentifierInUse(identifiers[i].0));
        }
      }
      if !DistinctTypes(identifiers) {
        return Some(DuplicateType);
      }
      registry := Registry(registry.isGroup + [isGroup], registry.ids + NewIds(|registry.isGroup|, identifiers));
      return None;
    }
  }

  lemma {:induction false} FirstInUseMeaning(r: Registry, identifiers: seq<Identifier>, from: nat)
    requires from <= |identifiers|
    ensures match FirstInUse(r, identifiers, from)
      case None => forall i :: from <= i < |identifiers| ==> Free(r, identifiers[i])
      case Some(identifier) =>
        exists i :: from <= i < |identifiers| && identifiers[i] == identifier && !Free(r, identifier)
                    && forall j :: from <= j < i ==> Free(r, identifiers[j])
    decreases |identifiers| - from
  {
    if from < |identifiers| && Free(r, identifiers[from]) {
      FirstInUseMeaning(r, identifiers, from + 1);
    }
  }

  /** A registrant holds the identifier, on a live ID. */
  ghost predicate InUse(r: Registry, identifier: Identifier) {
    exists p :: IsHolder(r, identifier, None, p)
  }

  lemma FreeMeaning(r: Registry, identifier: Identifier)
    ensures Free(r, identifier) <==> !InUse(r, identifier)
  {
    if !Free(r, identifier) {
      var i :| 0 <= i < |r.ids| && r.ids[i].live && (r.ids[i].idType, r.ids[i].value) == identifier;
      assert r.ids[i] == RegId(r.ids[i].holder, identifier.0, identifier.1, true);
      assert IsHolder(r, identifier, None, r.ids[i].holder);
    }
  }

  /**
   * A creation is refused with the type of the first of its identifiers in use, or else when two have
   * one type. Otherwise there is one registrant more, of the kind asked for: exactly its identifiers
   * get a holder, the new one, and every other holder stays.
   */
  lemma CreationMeaning(r: Registry, isGroup: bool, identifiers: seq<Identifier>)
    requires r.Valid()
    ensures var result := Create(r, isGroup, identifiers);
      && (result.Ok? <==>
            && (forall identifier :: identifier in identifiers ==> !InUse(r, identifier))
            && forall i, j :: 0 <= i < j < |identifiers| ==> identifiers[i].0 != identifiers[j].0)
      && (result == Err(DuplicateType) ==> forall identifier :: identifier in identifiers ==> !InUse(r, identifier))
      && (result.Err? && result.error.IdentifierInUse? ==>
            exists i :: 0 <= i < |identifiers| && result.error.idType == identifiers[i].0 && InUse(r, identifiers[i])
                        && forall j :: 0 <= j < i ==> !InUse(r, identifiers[j]))
    ensures Create(r, isGroup, identifiers).Ok? ==>
      var after := Create(r, isGroup, identifiers).value;
      && after.isGroup == r.isGroup + [isGroup] && r.ids <= after.ids
      && forall identifier, p :: IsHolder(after, identifier, None, p) <==>
           IsHolder(r, identifier, None, p) || (identifier in identifiers && p == |r.isGroup|)
  {
    forall identifier
      ensures Free(r, identifier) <==> !InUse(r, identifier)
    {
      FreeMeaning(r, identifier);
    }
    FirstInUseMeaning(r, identifiers, 0);
    var result := Create(r, isGroup, identifiers);
    if result.Ok? {
      forall identifier, p
        ensures IsHolder(result.value, identifier, None, p) <==>
          IsHolder(r, identifier, None, p) || (identifier in identifiers && p == |r.isGroup|)
      {
        CreatedHolders(r, isGroup, identifiers, identifier, p);
      }
    }
  }

  lemma CreatedHolders(r: Registry, isGroup: bool, identifiers: seq<Identifier>, identifier: Identifier, p: nat)
    requires Create(r, isGroup, identifiers).Ok?
    ensures IsHolder(Create(r, isGroup, identifiers).value, identifier, None, p) <==>
        IsHolder(r, identifier, None, p) || (identifier in identifiers && p == |r.isGroup|)
  {
    var after, n := Create(r, isGroup, identifiers).value, |r.ids|;
    var wanted := RegId(p, identifier.0, identifier.1, true);
    if IsHolder(after, identifier, None, p) {
      var i :| 0 <= i < |after.ids| && after.ids[i] == wanted;
      if i < n {
        assert r.ids[i] == wanted;
      } else {
        assert identifiers[i - n] == identifier;
      }
    }
    if IsHolder(r, identifier, None, p) {
      var i :| 0 <= i < n && r.ids[i] == wanted;
      assert after.ids[i] == wanted;
    }
    if identifier in identifiers && p == |r.isGroup| {
      var k :| 0 <= k < |identifiers| && identifiers[k] == identifier;
      assert after.ids[n + k] == wanted;
    }
  }

  /** Every identifier of a registrant just created resolves to it, as its kind and as any. */
  lemma CreatedResolves(r: Registry, isGroup: bool, identifiers: seq<Identifier>, identifier: Identifier)
    requires r.Valid() && Create(r, isGroup, identifiers).Ok? && identifier in identifiers
    ensures var after := Create(r, isGroup, identifiers).value;
      && Resolve(after, identifier, None) == Found(|r.isGroup|)
      && Resolve(after, identifier, Some(isGroup)) == Found(|r.isGroup|)
      && Resolve(after, identifier, Some(!isGroup)) == NotFound
  {
    CreationMeaning(r, isGroup, identifiers);
    var after := Create(r, isGroup, identifiers).value;
    forall kind, q | IsHolder(after, identifier, kind, q)
      ensures q == |r.isGroup|
    {
      assert IsHolder(after, identifier, None, q);
      assert !IsHolder(r, identifier, None, q) by {
        assert !InUse(r, identifier);
      }
    }
    assert IsHolder(after, identifier, None, |r.isGroup|);
    LookupMeaning(after, identifier, None, |r.isGroup|);
    LookupMeaning(after, identifier, Some(isGroup), |r.isGroup|);
    LookupMeaning(after, identifier, Some(!isGroup), |r.isGroup|);
  }

  /** Removing an ID ends what that ID held, and nothing else. */
  lemma RemovalMeaning(r: Registry, id: nat, identifier: Identifier, p: nat)
    ensures var after := Next(r, Removal(id));
      && after.isGroup == r.isGroup
      && (IsHolder(after, identifier, None, p) <==>
            exists i :: 0 <= i < |r.ids| && i != id && r.ids[i] == RegId(p, identifier.0, identifier.1, true))
  {
    var after, wanted := Next(r, Removal(id)), RegId(p, identifier.0, identifier.1, true);
    assert |after.ids| == |r.ids| && forall i :: 0 <= i < |r.ids| && i != id ==> after.ids[i] == r.ids[i];
    if exists i :: 0 <= i < |r.ids| && i != id && r.ids[i] == wanted {
      var i :| 0 <= i < |r.ids| && i != id && r.ids[i] == wanted;
      assert after.ids[i] == wanted;
    }
  }

  /** The new group of a split is created like any group; a refused write changes nothing. */
  lemma WritesMeaning(r: Registry, isGroup: bool, identifiers: seq<Identifier>)
    ensures Next(r, Split(identifiers)) == Next(r, Creation(true, identifiers))
    ensures match Create(r, isGroup, identifiers)
      case Ok(after) => Next(r, Creation(isGroup, identifiers)) == after
      case Err(_) => Next(r, Creation(isGroup, identifiers)) == r
  {
  }

  predicate SameLive(a: RegId, b: RegId) {
    a.live && b.live && a.idType == b.idType && a.value == b.value
  }

  /** Each (type, value) is live on at most one registrant. */
  ghost predicate UniqueLive(r: Registry) {
    forall i, j :: 0 <= i < j < |r.ids| && SameLive(r.ids[i], r.ids[j]) ==> r.ids[i].holder == r.ids[j].holder
  }

  /** The API's writes: creations, the new group of a split, bundles of them, and removals of an ID. */
  datatype Event =
    | Creation(isGroup: bool, identifiers: seq<Identifier>)
    | Split(identifiers: seq<Identifier>)
    | Bundle(entries: seq<(bool, seq<Identifier>)>, atomic: bool)
    | Removal(id: nat)

  /** The entries of a bundle in order; a failing entry fails an atomic bundle, and is skipped otherwise. */
  function CreateAll(r: Registry, entries: seq<(bool, seq<Identifier>)>, atomic: bool): Result<Registry, Error>
    decreases |entries|
  {
    if entries == [] then Ok(r)
    else
      match Create(r, entries[0].0, entries[0].1)
      case Ok(after) => CreateAll(after, entries[1..], atomic)
      case Err(e) => if atomic then Err(e) else CreateAll(r, entries[1..], atomic)
  }

  function Next(r: Registry, e: Event): Registry {
    match e
    case Creation(isGroup, identifiers) => Kept(r, Create(r, isGroup, identifiers))
    case Split(identifiers) => Kept(r, Create(r, true, identifiers))
    case Bundle(entries, atomic) => Kept(r, CreateAll(r, entries, atomic))
    case Removal(id) => if id < |r.ids| then r.(ids := r.ids[id := r.ids[id].(live := false)]) else r
  }

  /** A refused write leaves the registry as it was. */
  function Kept(r: Registry, result: Result<Registry, Error>): Registry {
    if result.Ok? then result.value else r
  }

  function Run(r: Registry, events: seq<Event>): Registry {
    if events == [] then r else Next(Run(r, events[..|events| - 1]), events[|events| - 1])
  }

  // ----- bundles -----

  lemma {:induction false} RunFirst(r: Registry, e: Event, events: seq<Event>)
    ensures Run(r, [e] + events) == Run(Next(r, e), events)
  {
    var all := [e] + events;
    if events == [] {
      assert all[..0] == [] && all[0] == e;
    } else {
      var n := |events| - 1;
      assert all[..|all| - 1] == [e] + events[..n] && all[|all| - 1] == events[n];
      RunFirst(r, e, events[..n]);
    }
  }

  /** The creations of a bundle, one by one. */
  function Creations(entries: seq<(bool, seq<Identifier>)>): seq<Event> {
    seq(|entries|, i requires 0 <= i < |entries| => Creation(entries[i].0, entries[i].1))
  }

  /** The registry when the i-th entry is reached, refused ones skipped. */
  function Reached(r: Registry, entries: seq<(bool, seq<Identifier>)>, i: nat): Registry
    requires i <= |entries|
  {
    Run(r, Creations(entries[..i]))
  }

  lemma {:induction false} ReachedFirst(r: Registry, entries: seq<(bool, seq<Identifier>)>, i: nat)
    requires 0 < i <= |entries|
    ensures Reached(r, entries, i) == Reached(Next(r, Creation(entries[0].0, entries[0].1)), entries[1..], i - 1)
  {
    var first := Creation(entries[0].0, entries[0].1);
    assert Creations(entries[..i]) == [first] + Creations(entries[1..][..i - 1]);
    RunFirst(r, first, Creations(entries[1..][..i - 1]));
  }

  /** Each creation of a bundle would be accepted, in order. */
  ghost predicate AllAccepted(r: Registry, entries: seq<(bool, seq<Identifier>)>) {
    forall i :: 0 <= i < |entries| ==> Create(Reached(r, entries, i), entries[i].0, entries[i].1).Ok?
  }

  lemma {:induction false} AcceptedFirst(r: Registry, entries: seq<(bool, seq<Identifier>)>, next: Registry)
    requires entries != [] && next == Next(r, Creation(entries[0].0, entries[0].1))
    ensures AllAccepted(r, entries) <==> Create(r, entries[0].0, entries[0].1).Ok? && AllAccepted(next, entries[1..])
    ensures Reached(r, entries, |entries|) == Reached(next, entries[1..], |entries| - 1)
  {
    var rest := entries[1..];
    ReachedFirst(r, entries, |entries|);
    assert Reached(r, entries, 0) == r;
    forall i | 0 <= i < |rest|
      ensures Create(Reached(r, entries, i + 1), entries[i + 1].0, entries[i + 1].1) == Create(Reached(next, rest, i), rest[i].0, rest[i].1)
    {
      ReachedFirst(r, entries, i + 1);
    }
    if AllAccepted(r, entries) {
      assert Create(Reached(r, entries, 0), entries[0].0, entries[0].1).Ok?;
      forall i | 0 <= i < |rest|
        ensures Create(Reached(next, rest, i), rest[i].0, rest[i].1).Ok?
      {
        assert Create(Reached(r, entries, i + 1), entries[i + 1].0, entries[i + 1].1).Ok?;
      }
    }
    if Create(r, entries[0].0, entries[0].1).Ok? && AllAccepted(next, rest) {
      forall i | 0 <= i < |entries|
        ensures Create(Reached(r, entries, i), entries[i].0, entries[i].1).Ok?
      {
        if i > 0 {
          assert Create(Reached(next, rest, i - 1), rest[i - 1].0, rest[i - 1].1).Ok?;
        }
      }
    }
  }

  lemma {:induction false} CreateAllFirst(r: Registry, entries: seq<(bool, seq<Identifier>)>, atomic: bool)
    requires entries != []
    ensures var created := Create(r, entries[0].0, entries[0].1);
      CreateAll(r, entries, atomic)
      == if created.Err? && atomic then Err(created.error)
         else CreateAll(Next(r, Creation(entries[0].0, entries[0].1)), entries[1..], atomic)
  {
  }

  lemma {:induction false} BatchIsRun(r: Registry, entries: seq<(bool, seq<Identifier>)>)
    ensures CreateAll(r, entries, false) == Ok(Reached(r, entries, |entries|))
    decreases |entries|
  {
    if entries != [] {
      var next := Next(r, Creation(entries[0].0, entries[0].1));
      BatchIsRun(next, entries[1..]);
      AcceptedFirst(r, entries, next);
      CreateAllFirst(r, entries, false);
    }
  }

  lemma {:induction false} AtomicIsRun(r: Registry, entries: seq<(bool, seq<Identifier>)>)
    ensures CreateAll(r, entries, true).Ok? <==> AllAccepted(r, entries)
    ensures CreateAll(r, entries, true).Ok? ==> CreateAll(r, entries, true) == Ok(Reached(r, entries, |entries|))
    decreases |entries|
  {
    if entries != [] {
      var next := Next(r, Creation(entries[0].0, entries[0].1));
      AtomicIsRun(next, entries[1..]);
      AcceptedFirst(r, entries, next);
      CreateAllFirst(r, entries, true);
    }
  }

  /**
   * A bundle that is not atomic does what its creations do one by one. An atomic one is accepted if
   * and only if each of them would be, in order, and then does the same.
   */
  lemma BundleIsRun(r: Registry, entries: seq<(bool, seq<Identifier>)>)
    ensures CreateAll(r, entries, false) == Ok(Reached(r, entries, |entries|))
    ensures CreateAll(r, entries, true).Ok? <==> AllAccepted(r, entries)
    ensures CreateAll(r, entries, true).Ok? ==> CreateAll(r, entries, true) == Ok(Reached(r, entries, |entries|))
  {
    BatchIsRun(r, entries);
    AtomicIsRun(r, entries);
  }

  lemma {:induction false} NoneInUse(r: Registry, identifiers: seq<Identifier>, from: nat)
    requires from <= |identifiers| && FirstInUse(r, identifiers, from).None?
    ensures forall i :: from <= i < |identifiers| ==> Free(r, identifiers[i])
    decreases |identifiers| - from
  {
    if from < |identifiers| {
      NoneInUse(r, identifiers, from + 1);
    }
  }

  /** A registrant has at most one live ID of a type. */
  ghost predicate OneLivePerType(r: Registry) {
    forall i, j :: 0 <= i < j < |r.ids| && r.ids[i].live && r.ids[j].live && r.ids[i].holder == r.ids[j].holder ==>
      r.ids[i].idType != r.ids[j].idType
  }

  ghost predicate Sound(r: Registry) {
    r.Valid() && UniqueLive(r) && OneLivePerType(r)
  }

  lemma CreateSound(r: Registry, isGroup: bool, identifiers: seq<Identifier>)
    requires Sound(r) && Create(r, isGroup, identifiers).Ok?
    ensures Sound(Create(r, isGroup, identifiers).value)
  {
    NoneInUse(r, identifiers, 0);
    var after := Create(r, isGroup, identifiers).value;
    var n := |r.ids|;
    forall i, k | 0 <= i < n && r.ids[i].live && 0 <= k < |identifiers|
      ensures (r.ids[i].idType, r.ids[i].value) != identifiers[k]
    {
      assert Free(r, identifiers[k]);
    }
    forall i, j | 0 <= i < j < |after.ids|
      ensures SameLive(after.ids[i], after.ids[j]) ==> after.ids[i].holder == after.ids[j].holder
      ensures after.ids[i].live && after.ids[j].live && after.ids[i].holder == after.ids[j].holder ==>
          after.ids[i].idType != after.ids[j].idType
    {
      if j < n {
        assert after.ids[i] == r.ids[i] && after.ids[j] == r.ids[j];
      } else if i < n {
        assert after.ids[i] == r.ids[i] && after.ids[j].holder == |r.isGroup|;
      } else {
        assert identifiers[i - n].0 != identifiers[j - n].0;
      }
    }
  }

  lemma {:induction false} CreateAllSound(r: Registry, entries: seq<(bool, seq<Identifier>)>, atomic: bool)
    requires Sound(r) && CreateAll(r, entries, atomic).Ok?
    ensures Sound(CreateAll(r, entries, atomic).value)
    decreases |entries|
  {
    if entries != [] {
      if Create(r, entries[0].0, entries[0].1).Ok? {
        CreateSound(r, entries[0].0, entries[0].1);
        CreateAllSound(Create(r, entries[0].0, entries[0].1).value, entries[1..], atomic);
      } else {
        CreateAllSound(r, entries[1..], atomic);
      }
    }
  }

  /**
   * Every run of creations, splits, bundles and removals keeps each live identifier on one
   * registrant, and one live ID per type on each registrant.
   */
  lemma {:induction false} RunSound(r: Registry, events: seq<Event>)
    requires Sound(r)
    ensures Sound(Run(r, events))
  {
    if events != [] {
      var before, e := Run(r, events[..|events| - 1]), events[|events| - 1];
      RunSound(r, events[..|events| - 1]);
      match e {
        case Creation(isGroup, identifiers) => if Create(before, isGroup, identifiers).Ok? { CreateSound(before, isGroup, identifiers); }
        case Split(identifiers) => if Create(before, true, identifiers).Ok? { CreateSound(before, true, identifiers); }
        case Bundle(entries, atomic) => if CreateAll(before, entries, atomic).Ok? { CreateAllSound(before, entries, atomic); }
        case Removal(_) =>
      }
    }
  }

  /** On such a registry no lookup is ever ambiguous. */
  lemma UniqueNeverAmbiguous(r: Registry, identifier: Identifier, kind: Option<bool>)
    requires UniqueLive(r)
    ensures !Resolve(r, identifier, kind).Ambiguous?
  {
    LookupMeaning(r, identifier, kind, 0);
  }

  // ----- references -----

  /** `unquote`: percent escapes become characters. */
  function Unquote(s: string): string {
    if s == "" then ""
    else if IsEscape(s) then [HexChar(s[1], s[2])] + Unquote(s[3..])
    else [s[0]] + Unquote(s[1..])
  }

  predicate IsEscape(s: string) {
    |s| >= 3 && s[0] == '%' && IsHex(s[1]) && IsHex(s[2])
  }

  predicate IsHex(c: char) {
    '0' <= c <= '9' || 'a' <= c <= 'f' || 'A' <= c <= 'F'
  }

  function HexDigit(c: char): nat
    requires IsHex(c)
    ensures HexDigit(c) < 16
  {
    if '0' <= c <= '9' then c as int - '0' as int
    else if 'a' <= c <= 'f' then c as int - 'a' as int + 10
    else c as int - 'A' as int + 10
  }

  function HexChar(a: char, b: char): char
    requires IsHex(a) && IsHex(b)
  {
    (16 * HexDigit(a) + HexDigit(b)) as char
  }

  /** A percent escape occurs somewhere. */
  predicate HasEscape(s: string) {
    s != "" && (IsEscape(s) || HasEscape(s[1..]))
  }

  /** The position of the first separator, or the length. */
  function Bar(s: string): (k: nat)
    ensures k <= |s| && (k < |s| ==> s[k] == '|') && '|' !in s[..k]
  {
    if s == "" || s[0] == '|' then 0 else 1 + Bar(s[1..])
  }

  /** The reference `_build_member` gives for an identifier. */
  function BuildReference(kind: string, identifier: Identifier): string {
    kind + "/" + Key(identifier)
  }

  /** `parse_resource_reference`: the identifier, or a client error. */
  function ParseReference(reference: string, kind: string): Option<Identifier> {
    if !(kind + "/" <= reference) then None
    else
      var s := Unquote(reference[|kind| + 1..]);
      var k := Bar(s);
      if k == |s| then None else Some((s[..k], s[k + 1..]))
  }

  const UPPER: string := "0123456789ABCDEF"
  const LOWER: string := "0123456789abcdef"

  /** A percent escape, in capitals or not, decodes to the character of its number; any other character stays. */
  lemma EscapeMeaning(n: nat, rest: string, c: char)
    requires n < 256
    ensures Unquote(['%', UPPER[n / 16], UPPER[n % 16]] + rest) == [n as char] + Unquote(rest)
    ensures Unquote(['%', LOWER[n / 16], LOWER[n % 16]] + rest) == [n as char] + Unquote(rest)
    ensures c != '%' ==> Unquote([c] + rest) == [c] + Unquote(rest)
  {
    var upper, lower := ['%', UPPER[n / 16], UPPER[n % 16]] + rest, ['%', LOWER[n / 16], LOWER[n % 16]] + rest;
    assert upper[3..] == rest && lower[3..] == rest && ([c] + rest)[1..] == rest;
    DigitMeaning(n / 16);
    DigitMeaning(n % 16);
  }

  lemma DigitMeaning(d: nat)
    requires d < 16
    ensures IsHex(UPPER[d]) && HexDigit(UPPER[d]) == d
    ensures IsHex(LOWER[d]) && HexDigit(LOWER[d]) == d
  {
  }

  /** A reference is refused exactly when it is of another kind or has no separator once decoded. */
  lemma ReferenceRefused(reference: string, kind: string)
    ensures ParseReference(reference, kind) == None <==>
        !(exists path :: reference == kind + "/" + path && '|' in Unquote(path))
  {
    if kind + "/" <= reference {
      var path := reference[|kind| + 1..];
      assert reference == kind + "/" + path;
      forall other | reference == kind + "/" + other
        ensures other == path
      {
        assert (kind + "/" + other)[|kind| + 1..] == other;
      }
    } else {
      forall other
        ensures reference != kind + "/" + other
      {
      }
    }
  }

  lemma {:induction false} UnquoteShrinks(s: string)
    ensures |Unquote(s)| <= |s|
    ensures if HasEscape(s) then |Unquote(s)| < |s| else Unquote(s) == s
  {
    if s != "" {
      if IsEscape(s) {
        UnquoteShrinks(s[3..]);
      } else {
        UnquoteShrinks(s[1..]);
      }
    }
  }

  lemma {:induction false} BarOfKey(idType: string, value: string)
    requires '|' !in idType
    ensures Bar(Key((idType, value))) == |idType|
  {
    if idType != "" {
      assert Key((idType, value))[1..] == Key((idType[1..], value));
      BarOfKey(idType[1..], value);
    }
  }

  /**
   * Building a reference and parsing it gives the identifier back if and only if its type does not
   * contain the separator and nothing in it reads as a percent escape.
   */
  lemma ReferenceRoundTrip(kind: string, identifier: Identifier)
    ensures ParseReference(BuildReference(kind, identifier), kind) == Some(identifier)
        <==> '|' !in identifier.0 && !HasEscape(Key(identifier))
  {
    var reference, key := BuildReference(kind, identifier), Key(identifier);
    assert kind + "/" <= reference && reference[|kind| + 1..] == key;
    UnquoteShrinks(key);
    var s := Unquote(key);
    if ParseReference(reference, kind) == Some(identifier) {
      assert |s| == |key|;
      assert s == key && identifier.0 == s[..Bar(s)];
    }
    if '|' !in identifier.0 && !HasEscape(key) {
      BarOfKey(identifier.0, identifier.1);
      assert key[..|identifier.0|] == identifier.0 && key[|identifier.0| + 1..] == identifier.1;
    }
  }

  /** `primary_registry_id`: the registrant's first live ID from a position on. */
  function Primary(r: Registry, partner: nat, from: nat): Option<Identifier>
    requires from <= |r.ids|
    decreases |r.ids| - from
  {
    if from == |r.ids| then None
    else if r.ids[from].holder == partner && r.ids[from].live then Some((r.ids[from].idType, r.ids[from].value))
    else Primary(r, partner, from + 1)
  }

  /** `_build_member`: a reference to the individual, or nothing if it has no live ID. */
  function MemberReference(r: Registry, partner: nat): Option<string> {
    match Primary(r, partner, 0)
    case None => None
    case Some(identifier) => Some(BuildReference("Individual", identifier))
  }

  /** The registrant's first live ID from a position on. */
  ghost predicate IsPrimary(r: Registry, partner: nat, from: nat, i: int) {
    && 0 <= from <= i < |r.ids| && r.ids[i].holder == partner && r.ids[i].live
    && forall j :: from <= j < i ==> !(r.ids[j].holder == partner && r.ids[j].live)
  }

  lemma {:induction false} PrimaryMeaning(r: Registry, partner: nat, from: nat)
    requires from <= |r.ids|
    ensures match Primary(r, partner, from)
      case None => forall i :: from <= i < |r.ids| ==> !(r.ids[i].holder == partner && r.ids[i].live)
      case Some(identifier) => exists i :: IsPrimary(r, partner, from, i) && identifier == (r.ids[i].idType, r.ids[i].value)
    decreases |r.ids| - from
  {
    if from < |r.ids| {
      if r.ids[from].holder == partner && r.ids[from].live {
        assert IsPrimary(r, partner, from, from);
      } else {
        PrimaryMeaning(r, partner, from + 1);
        if Primary(r, partner, from).Some? {
          var i :| IsPrimary(r, partner, from + 1, i)
                   && Primary(r, partner, from).value == (r.ids[i].idType, r.ids[i].value);
          assert IsPrimary(r, partner, from, i);
        }
      }
    }
  }

  /**
   * An individual is left out of a member list exactly when it has no live ID. Otherwise the
   * reference given for it names its first live ID, and resolves: to that individual if no other
   * individual holds its identifier, and never to another.
   */
  lemma MemberReferenceResolves(r: Registry, partner: nat)
    requires r.Valid() && partner < |r.isGroup| && !r.isGroup[partner]
    requires forall i :: 0 <= i < |r.ids| ==>
        '|' !in r.ids[i].idType && !HasEscape(Key((r.ids[i].idType, r.ids[i].value)))
    ensures MemberReference(r, partner) == None <==> forall i :: 0 <= i < |r.ids| ==> !(r.ids[i].holder == partner && r.ids[i].live)
    ensures MemberReference(r, partner).Some? ==>
      var parsed := ParseReference(MemberReference(r, partner).value, "Individual");
      && parsed.Some?
      && (exists i :: IsPrimary(r, partner, 0, i) && parsed == Some((r.ids[i].idType, r.ids[i].value)))
      && match Resolve(r, parsed.value, Some(false))
         case Found(p) => p == partner
         case Ambiguous(partners) => partner in partners
         case NotFound => false
  {
    PrimaryMeaning(r, partner, 0);
    if MemberReference(r, partner).Some? {
      var identifier := Primary(r, partner, 0).value;
      var i :| IsPrimary(r, partner, 0, i) && identifier == (r.ids[i].idType, r.ids[i].value);
      ReferenceRoundTrip("Individual", identifier);
      assert Holds(r, r.ids[i], identifier, Some(false));
      assert partner in Holders(r, identifier, Some(false));
    }
  }

  /** With live identifiers on one registrant each, every member reference resolves to its member. */
  lemma UniqueReferencesResolve(r: Registry, partner: nat)
    requires r.Valid() && UniqueLive(r) && partner < |r.isGroup| && !r.isGroup[partner]
    requires forall i :: 0 <= i < |r.ids| ==>
        '|' !in r.ids[i].idType && !HasEscape(Key((r.ids[i].idType, r.ids[i].value)))
    requires MemberReference(r, partner).Some?
    ensures var parsed := ParseReference(MemberReference(r, partner).value, "Individual");
      parsed.Some? && Resolve(r, parsed.value, Some(false)) == Found(partner)
  {
    MemberReferenceResolves(r, partner);
    var parsed := ParseReference(MemberReference(r, partner).value, "Individual");
    UniqueNeverAmbiguous(r, parsed.value, Some(false));
  }
}
