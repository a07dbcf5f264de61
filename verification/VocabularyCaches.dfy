/**
 * The caches in front of the vocabulary: the registry-level lookups of concept groups and codes
 * (`_get_group_uris_cached` of spp_vocabulary/models/concept_group.py, `_get_code_id_by_uri` and
 * `resolve_alias` of vocabulary_code.py), the session's `VocabularyCache` of
 * spp_cel_vocabulary/services/vocabulary_cache.py, and `code()` and `in_group()` above them.
 */
module VocabularyCaches {
  import opened Vocabulary
  import opened Wrappers

  type Uris = Option<set<string>>

  /** The uncached answer: the URIs of a group, or None for an unknown one. */
  function GroupUris(groups: map<string, set<string>>, name: string): Uris {
    if name in groups then Some(groups[name]) else None
  }

  /** Every cached answer is the uncached one. */
  ghost predicate Fresh(cache: map<string, Uris>, groups: map<string, set<string>>) {
    forall name :: name in cache ==> cache[name] == GroupUris(groups, name)
  }

  /** The URIs that a code brings to its groups. */
  function Own(code: Code): set<string> {
    {code.uri, code.referenceUri} - {""}
  }

  /** `_compute_code_uris`: the URIs of a group's codes. */
  function UrisOf(ids: set<nat>, codes: map<nat, Code>): set<string> {
    set i, uri | i in ids && i in codes && uri in Own(codes[i]) :: uri
  }

  function GroupsOf(members: map<string, set<nat>>, codes: map<nat, Code>): map<string, set<string>> {
    map name | name in members :: UrisOf(members[name], codes)
  }

  /** Another code of the group brings the URI as well. */
  ghost predicate Besides(ids: set<nat>, codes: map<nat, Code>, id: nat, uri: string) {
    exists i :: i in ids && i != id && i in codes && uri in Own(codes[i])
  }

  /** A write of a code takes no URI from the group, and brings it none, that no other code of the group has. */
  ghost predicate KeepsUris(ids: set<nat>, codes: map<nat, Code>, id: nat, code: Code)
    requires id in codes
  {
    forall uri :: (uri in Own(code)) != (uri in Own(codes[id])) ==> Besides(ids, codes, id, uri)
  }

  lemma KeepsUrisExact(ids: set<nat>, codes: map<nat, Code>, id: nat, code: Code)
    requires id in codes && id in ids
    ensures UrisOf(ids, codes[id := code]) == UrisOf(ids, codes) <==> KeepsUris(ids, codes, id, code)
  {
    var after := codes[id := code];
    forall uri
      ensures uri in UrisOf(ids, codes) <==> uri in Own(codes[id]) || Besides(ids, codes, id, uri)
      ensures uri in UrisOf(ids, after) <==> uri in Own(code) || Besides(ids, codes, id, uri)
    {
      if Besides(ids, codes, id, uri) {
        var i :| i in ids && i != id && i in codes && uri in Own(codes[i]);
        assert after[i] == codes[i];
      }
      assert after[id] == code;
    }
    if !KeepsUris(ids, codes, id, code) {
      var uri :| (uri in Own(code)) != (uri in Own(codes[id])) && !Besides(ids, codes, id, uri);
      assert (uri in UrisOf(ids, after)) != (uri in UrisOf(ids, codes));
    }
  }

  /** The URIs of a group are the URIs and reference URIs of its codes that are set. */
  lemma GroupUrisMeaning(ids: set<nat>, codes: map<nat, Code>, uri: string)
    ensures uri in UrisOf(ids, codes) <==>
        uri != "" && exists i :: i in ids && i in codes && (codes[i].uri == uri || codes[i].referenceUri == uri)
  {
    if uri != "" && exists i :: i in ids && i in codes && (codes[i].uri == uri || codes[i].referenceUri == uri) {
      var i :| i in ids && i in codes && (codes[i].uri == uri || codes[i].referenceUri == uri);
      assert uri in Own(codes[i]);
    }
  }

  lemma OtherGroups(ids: set<nat>, codes: map<nat, Code>, id: nat, code: Code)
    requires id !in ids
    ensures UrisOf(ids, codes[id := code]) == UrisOf(ids, codes)
  {
    var after := codes[id := code];
    assert forall i :: i in ids ==> (i in after <==> i in codes) && (i in codes ==> after[i] == codes[i]);
  }

  /** Concept groups and their codes with the registry's cache; only writes of groups clear it. */
  class ConceptGroups {
    var members: map<string, set<nat>>
    var codes: map<nat, Code>
    var cache: map<string, Uris>

    function Groups(): map<string, set<string>>
      reads this
    {
      GroupsOf(members, codes)
    }

    ghost predicate Valid()
      reads this
    {
      Fresh(cache, Groups())
    }

    constructor (members: map<string, set<nat>>, codes: map<nat, Code>)
      ensures Valid() && this.members == members && this.codes == codes
    {
      this.members, this.codes, cache := members, codes, map[];
    }

    method GetGroupUrisCached(name: string) returns (uris: Uris)
      requires Valid()
      modifies this`cache
      ensures Valid() && uris == GroupUris(Groups(), name)
    {
      if name in cache {
        return cache[name];
      }
      uris := GroupUris(Groups(), name);
      cache := cache[name := uris];
    }

    method WriteGroup(name: string, ids: set<nat>)
      modifies this
      ensures Valid() && members == old(members)[name := ids] && codes == old(codes)
    {
      members := members[name := ids];
      cache := map[];
    }

    /**
     * A write of a code computes the stored URIs of its groups anew, and leaves the cache as it is.
     * The cache stays right if and only if no cached group with the code loses or gains a URI.
     */
    method WriteCode(id: nat, code: Code)
      requires id in codes
      modifies this
      ensures members == old(members) && codes == old(codes)[id := code] && cache == old(cache)
      ensures old(Valid()) ==> (Valid() <==>
        forall name | name in cache && name in members && id in members[name] :: KeepsUris(members[name], old(codes), id, code))
    {
      ghost var before := codes;
      codes := codes[id := code];
      forall name | name in members
        ensures UrisOf(members[name], codes) == UrisOf(members[name], before) <==>
          (id in members[name] ==> KeepsUris(members[name], before, id, code))
      {
        if id in members[name] {
          KeepsUrisExact(members[name], before, id, code);
        } else {
          OtherGroups(members[name], before, id, code);
        }
      }
      WriteCoheres(members, before, codes, cache);
    }
  }

  /** A cache that was right stays right exactly if the URIs of its groups do. */
  lemma WriteCoheres(members: map<string, set<nat>>, before: map<nat, Code>, after: map<nat, Code>, cache: map<string, Uris>)
    ensures Fresh(cache, GroupsOf(members, before)) ==>
        (Fresh(cache, GroupsOf(members, after)) <==>
          forall name | name in cache && name in members :: UrisOf(members[name], after) == UrisOf(members[name], before))
  {
    forall name | name in cache
      ensures GroupUris(GroupsOf(members, before), name) == GroupUris(GroupsOf(members, after), name) <==>
        (name in members ==> UrisOf(members[name], after) == UrisOf(members[name], before))
    {
    }
  }

  /** The session's cache in front of the registry's. */
  class VocabularyCache {
    const source: ConceptGroups
    var groupUriCache: map<string, Uris>

    ghost predicate Valid()
      reads this, source
    {
      source.Valid() && Fresh(groupUriCache, source.Groups())
    }

    constructor (source: ConceptGroups)
      requires source.Valid()
      ensures Valid() && this.source == source
    {
      this.source, groupUriCache := source, map[];
    }

    method GetGroupUris(name: string) returns (uris: Uris)
      requires Valid()
      modifies this`groupUriCache, source`cache
      ensures Valid() && uris == GroupUris(source.Groups(), name)
      ensures name in groupUriCache && old(groupUriCache).Keys <= groupUriCache.Keys
    {
      if name in groupUriCache {
        return groupUriCache[name];
      }
      uris := source.GetGroupUrisCached(name);
      groupUriCache := groupUriCache[name := uris];
    }

    /** Membership through both caches is membership evaluated directly on the vocabulary. */
    method CheckMembership(code: Option<Code>, name: string, ghost resolved: map<string, Code>) returns (member: bool)
      requires Valid()
      modifies this`groupUriCache, source`cache
      ensures Valid() && member == DirectInGroup(code, name, Vocab(source.Groups(), resolved))
    {
      if code.None? || name == "" {
        return false;
      }
      var uris := GetGroupUris(name);
      if uris.None? || uris.value == {} {
        return false;
      }
      if code.value.uri != "" && code.value.uri in uris.value {
        return true;
      }
      if code.value.referenceUri != "" && code.value.referenceUri in uris.value {
        return true;
      }
      return false;
    }
  }

  /** Any sequence of membership questions in a session gets the answers of the vocabulary itself. */
  method AnswerSession(cache: VocabularyCache, questions: seq<(Option<Code>, string)>, ghost resolved: map<string, Code>)
      returns (answers: seq<bool>)
    requires cache.Valid()
    modifies cache`groupUriCache, cache.source`cache
    ensures |answers| == |questions|
    ensures forall i :: 0 <= i < |questions| ==>
        answers[i] == DirectInGroup(questions[i].0, questions[i].1, Vocab(cache.source.Groups(), resolved))
  {
    answers := [];
    for i := 0 to |questions|
      invariant cache.Valid() && |answers| == i
      invariant forall k :: 0 <= k < i ==>
          answers[k] == DirectInGroup(questions[k].0, questions[k].1, Vocab(cache.source.Groups(), resolved))
    {
      var member := cache.CheckMembership(questions[i].0, questions[i].1, resolved);
      answers := answers + [member];
    }
  }

  // ----- code resolution -----

  /** A row of the code table, in search order. */
  datatype CodeRow = CodeRow(uri: string, code: string, display: string, reference: string, active: bool)

  datatype Column = ByUri | ByCode | ByDisplay | ByReference

  function Cell(row: CodeRow, column: Column): string {
    match column
    case ByUri => row.uri
    case ByCode => row.code
    case ByDisplay => row.display
    case ByReference => row.reference
  }

  /** The first active row with a value in a column. */
  function FindRow(rows: seq<CodeRow>, column: Column, value: string): (found: Option<nat>)
    ensures found.Some? ==> found.value < |rows| && rows[found.value].active && Cell(rows[found.value], column) == value
    ensures found.Some? ==> forall i :: 0 <= i < found.value ==> !(rows[i].active && Cell(rows[i], column) == value)
    ensures found.None? ==> forall i :: 0 <= i < |rows| ==> !(rows[i].active && Cell(rows[i], column) == value)
  {
    if rows == [] then None
    else
      var earlier := FindRow(rows[..|rows| - 1], column, value);
      if earlier.Some? then earlier
      else if rows[|rows| - 1].active && Cell(rows[|rows| - 1], column) == value then Some(|rows| - 1)
      else None
  }

  /** `resolve_alias` without a namespace: by code, by display name, by reference. */
  function ResolveAlias(rows: seq<CodeRow>, alias: string): Option<nat> {
    if FindRow(rows, ByCode, alias).Some? then FindRow(rows, ByCode, alias)
    else if FindRow(rows, ByDisplay, alias).Some? then FindRow(rows, ByDisplay, alias)
    else FindRow(rows, ByReference, alias)
  }

  predicate IsUrn(identifier: string) {
    "urn:" <= identifier
  }

  /** `code()`, uncached. */
  function ResolveCode(rows: seq<CodeRow>, identifier: string): Option<nat> {
    if identifier == "" then None
    else if IsUrn(identifier) then FindRow(rows, ByUri, identifier)
    else ResolveAlias(rows, identifier)
  }

  /** The documented order: URI, code, label, reference. */
  function FourSteps(rows: seq<CodeRow>, identifier: string): Option<nat> {
    if identifier == "" then None
    else if FindRow(rows, ByUri, identifier).Some? then FindRow(rows, ByUri, identifier)
    else ResolveAlias(rows, identifier)
  }

  predicate Has(row: CodeRow, column: Column, value: string) {
    row.active && Cell(row, column) == value
  }

  /** Some active row has the value in the column. */
  ghost predicate Carried(rows: seq<CodeRow>, column: Column, value: string) {
    exists i :: 0 <= i < |rows| && Has(rows[i], column, value)
  }

  /** The row is the first active one with the value in the column. */
  ghost predicate IsFirst(rows: seq<CodeRow>, column: Column, value: string, k: nat) {
    && k < |rows| && Has(rows[k], column, value)
    && forall i :: 0 <= i < k ==> !Has(rows[i], column, value)
  }

  lemma FindRowExact(rows: seq<CodeRow>, column: Column, value: string, k: nat)
    ensures FindRow(rows, column, value) == Some(k) <==> IsFirst(rows, column, value, k)
    ensures FindRow(rows, column, value).None? <==> !Carried(rows, column, value)
  {
    var found := FindRow(rows, column, value);
    if found.Some? {
      assert Has(rows[found.value], column, value);
      if IsFirst(rows, column, value, k) {
        assert found.value <= k;
      }
    }
  }

  /** The row is the first by code; or, when no row has the code, by display name; or last by reference. */
  ghost predicate IsAlias(rows: seq<CodeRow>, value: string, k: nat) {
    if Carried(rows, ByCode, value) then IsFirst(rows, ByCode, value, k)
    else if Carried(rows, ByDisplay, value) then IsFirst(rows, ByDisplay, value, k)
    else IsFirst(rows, ByReference, value, k)
  }

  lemma AliasExact(rows: seq<CodeRow>, value: string, k: nat)
    ensures ResolveAlias(rows, value) == Some(k) <==> IsAlias(rows, value, k)
  {
    FindRowExact(rows, ByCode, value, k);
    FindRowExact(rows, ByDisplay, value, k);
    FindRowExact(rows, ByReference, value, k);
  }

  /** The first active row whose value of some kind is the one wanted. */
  ghost predicate Chosen(rows: seq<CodeRow>, read: CodeRow -> string, value: string, k: nat) {
    && k < |rows| && rows[k].active && read(rows[k]) == value
    && forall i :: 0 <= i < k ==> !(rows[i].active && read(rows[i]) == value)
  }

  /** No active row has the value. */
  ghost predicate Unknown(rows: seq<CodeRow>, read: CodeRow -> string, value: string) {
    forall i :: 0 <= i < |rows| ==> !(rows[i].active && read(rows[i]) == value)
  }

  lemma ChosenIsFirst(rows: seq<CodeRow>, column: Column, read: CodeRow -> string, value: string, k: nat)
    requires forall row :: Cell(row, column) == read(row)
    ensures Chosen(rows, read, value, k) <==> IsFirst(rows, column, value, k)
    ensures Unknown(rows, read, value) <==> !Carried(rows, column, value)
  {
    if Carried(rows, column, value) {
      var i :| 0 <= i < |rows| && Has(rows[i], column, value);
      assert rows[i].active && read(rows[i]) == value;
    }
    if !Unknown(rows, read, value) {
      var i :| 0 <= i < |rows| && rows[i].active && read(rows[i]) == value;
      assert Has(rows[i], column, value);
    }
  }

  /**
   * What `code()` finds: for an identifier that starts with `urn:` the first active row with that URI,
   * and no other; for any other the first with that code, or, where there is none, with that display
   * name, or, where there is none either, with that reference.
   */
  lemma CodeExact(rows: seq<CodeRow>, identifier: string, k: nat)
    requires identifier != ""
    ensures ResolveCode(rows, identifier) == Some(k) <==>
      if |identifier| >= 4 && identifier[..4] == "urn:" then Chosen(rows, (row: CodeRow) => row.uri, identifier, k)
      else if !Unknown(rows, (row: CodeRow) => row.code, identifier) then Chosen(rows, (row: CodeRow) => row.code, identifier, k)
      else if !Unknown(rows, (row: CodeRow) => row.display, identifier) then Chosen(rows, (row: CodeRow) => row.display, identifier, k)
      else Chosen(rows, (row: CodeRow) => row.reference, identifier, k)
  {
    var urn := |identifier| >= 4 && identifier[..4] == "urn:";
    assert urn <==> IsUrn(identifier);
    FindRowExact(rows, ByUri, identifier, k);
    AliasExact(rows, identifier, k);
    ChosenIsFirst(rows, ByUri, (row: CodeRow) => row.uri, identifier, k);
    ChosenIsFirst(rows, ByCode, (row: CodeRow) => row.code, identifier, k);
    ChosenIsFirst(rows, ByDisplay, (row: CodeRow) => row.display, identifier, k);
    ChosenIsFirst(rows, ByReference, (row: CodeRow) => row.reference, identifier, k);
  }

  /**
   * `code()` follows the documented order if and only if: for a URN, some active row has it as URI,
   * or none has it as code, display name or reference; and for anything else, no active row has it
   * as URI, or the first that has is also the one that its code, display name or reference finds.
   */
  lemma CodeFollowsFourSteps(rows: seq<CodeRow>, identifier: string)
    ensures ResolveCode(rows, identifier) == FourSteps(rows, identifier) <==>
      || identifier == ""
      || (if IsUrn(identifier) then
            Carried(rows, ByUri, identifier)
            || !(Carried(rows, ByCode, identifier) || Carried(rows, ByDisplay, identifier) || Carried(rows, ByReference, identifier))
          else
            !Carried(rows, ByUri, identifier)
            || exists k :: IsFirst(rows, ByUri, identifier, k) && IsAlias(rows, identifier, k))
  {
    var uri, alias := FindRow(rows, ByUri, identifier), ResolveAlias(rows, identifier);
    FindRowExact(rows, ByUri, identifier, 0);
    FindRowExact(rows, ByCode, identifier, 0);
    FindRowExact(rows, ByDisplay, identifier, 0);
    FindRowExact(rows, ByReference, identifier, 0);
    forall k: nat
      ensures uri == Some(k) <==> IsFirst(rows, ByUri, identifier, k)
      ensures alias == Some(k) <==> IsAlias(rows, identifier, k)
    {
      FindRowExact(rows, ByUri, identifier, k);
      AliasExact(rows, identifier, k);
    }
    assert uri.Some? && uri == alias ==> IsFirst(rows, ByUri, identifier, uri.value) && IsAlias(rows, identifier, uri.value);
  }

  /** The code table with its cache of URI lookups; creations and writes leave the cache as it is. */
  class Codes {
    var rows: seq<CodeRow>
    var byUri: map<string, Option<nat>>

    ghost predicate Valid()
      reads this
    {
      forall uri :: uri in byUri ==> byUri[uri] == FindRow(rows, ByUri, uri)
    }

    constructor (rows: seq<CodeRow>)
      ensures Valid() && this.rows == rows && byUri == map[]
    {
      this.rows, byUri := rows, map[];
    }

    method ResolveByUri(uri: string) returns (found: Option<nat>)
      modifies this`byUri
      ensures found == if uri in old(byUri) then old(byUri)[uri] else FindRow(rows, ByUri, uri)
      ensures byUri == old(byUri)[uri := found]
      ensures old(Valid()) ==> Valid() && found == FindRow(rows, ByUri, uri)
    {
      if uri in byUri {
        found := byUri[uri];
        byUri := byUri[uri := found];
      } else {
        found := FindRow(rows, ByUri, uri);
        byUri := byUri[uri := found];
      }
    }

    /** `code()`: while the table is unchanged the caches give the uncached answer. */
    method Code(identifier: string) returns (found: Option<nat>)
      requires Valid()
      modifies this`byUri
      ensures Valid() && found == ResolveCode(rows, identifier)
    {
      if identifier == "" {
        return None;
      }
      if IsUrn(identifier) {
        found := ResolveByUri(identifier);
      } else {
        found := ResolveAlias(rows, identifier);
      }
    }

    /** `create` leaves the cache of URI lookups as it is. */
    method Create(row: CodeRow)
      modifies this
      ensures rows == old(rows) + [row] && byUri == old(byUri)
      ensures old(Valid()) ==>
          (Valid() <==> !(row.active && row.uri in byUri && FindRow(old(rows), ByUri, row.uri).None?))
    {
      ghost var before := rows;
      rows := rows + [row];
      forall uri
        ensures FindRow(rows, ByUri, uri) == if FindRow(before, ByUri, uri).Some? then FindRow(before, ByUri, uri)
                                             else if row.active && row.uri == uri then Some(|before|) else None
      {
        FindRowOfMore(before, row, uri);
      }
    }

    /**
     * So does `write`. The cache stays right if and only if the row neither was the cached answer
     * for a URI it no longer has, nor becomes the first row of a URI that has been looked up.
     */
    method Write(index: nat, row: CodeRow)
      requires index < |rows|
      modifies this
      ensures rows == old(rows)[index := row] && byUri == old(byUri)
      ensures old(Valid()) ==> (Valid() <==> KeepsLookups(old(rows), index, row, byUri.Keys))
    {
      if forall uri :: uri in byUri ==> byUri[uri] == FindRow(rows, ByUri, uri) {
        CoherentAfterWrite(rows, index, row, byUri);
      }
      rows := rows[index := row];
    }
  }

  /** A write takes the lookup of a URI away from the row, or gives it to the row. */
  ghost predicate MovesLookup(rows: seq<CodeRow>, index: nat, row: CodeRow, uri: string)
    requires index < |rows|
  {
    || (IsFirst(rows, ByUri, uri, index) && !Has(row, ByUri, uri))
    || (Has(row, ByUri, uri) && forall i :: 0 <= i <= index ==> !Has(rows[i], ByUri, uri))
  }

  /** The row answered the lookups of its own URI, and no longer has it. */
  ghost predicate Loses(rows: seq<CodeRow>, index: nat, row: CodeRow)
    requires index < |rows|
  {
    IsFirst(rows, ByUri, rows[index].uri, index) && !Has(row, ByUri, rows[index].uri)
  }

  /** The row becomes the first active one with its new URI. */
  ghost predicate Gains(rows: seq<CodeRow>, index: nat, row: CodeRow)
    requires index < |rows|
  {
    row.active && forall i :: 0 <= i <= index ==> !Has(rows[i], ByUri, row.uri)
  }

  lemma MovesOnly(rows: seq<CodeRow>, index: nat, row: CodeRow, uri: string)
    requires index < |rows|
    ensures MovesLookup(rows, index, row, uri) <==>
        (uri == rows[index].uri && Loses(rows, index, row)) || (uri == row.uri && Gains(rows, index, row))
  {
  }

  /** No URI looked up before loses the row as its answer, or gains it. */
  ghost predicate KeepsLookups(rows: seq<CodeRow>, index: nat, row: CodeRow, looked: set<string>)
    requires index < |rows|
  {
    && !(rows[index].uri in looked && Loses(rows, index, row))
    && !(row.uri in looked && Gains(rows, index, row))
  }

  lemma CoherentAfterWrite(rows: seq<CodeRow>, index: nat, row: CodeRow, byUri: map<string, Option<nat>>)
    requires index < |rows| && forall uri :: uri in byUri ==> byUri[uri] == FindRow(rows, ByUri, uri)
    ensures KeepsLookups(rows, index, row, byUri.Keys) <==>
        forall uri :: uri in byUri ==> byUri[uri] == FindRow(rows[index := row], ByUri, uri)
  {
    var after, was := rows[index := row], rows[index].uri;
    if KeepsLookups(rows, index, row, byUri.Keys) {
      forall uri | uri in byUri
        ensures byUri[uri] == FindRow(after, ByUri, uri)
      {
        MovesOnly(rows, index, row, uri);
        LookupMoves(rows, index, row, uri);
      }
    } else {
      var uri := if was in byUri && Loses(rows, index, row) then was else row.uri;
      MovesOnly(rows, index, row, uri);
      LookupMoves(rows, index, row, uri);
      assert uri in byUri && byUri[uri] != FindRow(after, ByUri, uri);
    }
  }

  lemma LookupMoves(rows: seq<CodeRow>, index: nat, row: CodeRow, uri: string)
    requires index < |rows|
    ensures FindRow(rows[index := row], ByUri, uri) == FindRow(rows, ByUri, uri) <==> !MovesLookup(rows, index, row, uri)
  {
    var after := rows[index := row];
    var was, now := FindRow(rows, ByUri, uri), FindRow(after, ByUri, uri);
    FindRowExact(rows, ByUri, uri, index);
    FindRowExact(after, ByUri, uri, index);
    assert Has(after[index], ByUri, uri) == Has(row, ByUri, uri);
    if was.Some? {
      FindRowExact(rows, ByUri, uri, was.value);
      FindRowExact(after, ByUri, uri, was.value);
    }
    if now.Some? {
      FindRowExact(after, ByUri, uri, now.value);
      FindRowExact(rows, ByUri, uri, now.value);
      assert Has(after[now.value], ByUri, uri);
    }
  }

  lemma FindRowOfMore(rows: seq<CodeRow>, row: CodeRow, uri: string)
    ensures FindRow(rows + [row], ByUri, uri) == if FindRow(rows, ByUri, uri).Some? then FindRow(rows, ByUri, uri)
                                                 else if row.active && row.uri == uri then Some(|rows|) else None
  {
    assert (rows + [row])[..|rows|] == rows;
  }
}
