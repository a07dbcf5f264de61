/**
 * The field-mapping apply strategy of change requests and the change detection that must agree
 * with it: `_effective_mappings`, `proposed_target_value`, `mapping_changes_value` and `apply` of
 * spp_change_request_v2/strategies/field_mapping.py, and `_proposed_changed_fields` of
 * spp_change_request_v2/models/conflict_mixin.py.
 */
module FieldMapping {
  import opened Wrappers

  type Field = string

  /** A field value as the ORM reads it; `Missing` is Python's None, read from a field a record lacks. */
  datatype Value = Missing | Unset | Flag | Num(n: int) | Text(s: string) | Ref(id: nat)

  /** The value's class under Python's `==`: 0 equals False, 1 equals True and a record's id its number. */
  function Canonical(value: Value): Value {
    match value
    case Num(n) => if n == 0 then Unset else if n == 1 then Flag else value
    case Ref(id) => if id == 0 then Unset else if id == 1 then Flag else Num(id)
    case _ => value
  }

  /** Python's `==`. */
  predicate Same(a: Value, b: Value) {
    Canonical(a) == Canonical(b)
  }

  /** What the ORM stores for a written value. */
  function Stored(value: Value): Value {
    if value == Missing then Unset else value
  }

  function StoreAll(vals: Record): Record {
    map f | f in vals :: Stored(vals[f])
  }

  /** Python truthiness of a field value. */
  predicate Truthy(value: Value) {
    match value
    case Missing | Unset => false
    case Num(n) => n != 0
    case Text(s) => s != ""
    case Flag | Ref(_) => true
  }

  type Record = map<Field, Value>

  /** `getattr(record, field, None)`. */
  function Get(record: Record, field: Field): Value {
    if field in record then record[field] else Missing
  }

  /** A transform expression over value, detail, registrant and the clock; None when it cannot be evaluated. */
  type Transform = (Value, Record, Record, int) -> Option<Value>

  datatype Mapping = Mapping(source: Field, routing: Option<Field>, target: Field, expression: Option<Transform>)
  {
    function RoutingKey(): Field {
      if routing.Some? then routing.value else source
    }
  }

  /** A request type: its mappings, and whether one selected field routes the approval. */
  datatype RequestType = RequestType(dynamic: bool, fieldMapping: bool, mappings: seq<Mapping>)

  datatype ApplyError = NoDetail | NoMapping | BadTransform | UnknownTarget

  function CurrentValue(m: Mapping, registrant: Record): Value {
    Get(registrant, m.target)
  }

  /** `proposed_target_value`: None when the transform fails, which raises. */
  function ProposedValue(m: Mapping, detail: Record, registrant: Record, now: int): Option<Value> {
    var value := Get(detail, m.source);
    match m.expression
    case None => Some(value)
    case Some(transform) => transform(value, detail, registrant, now)
  }

  /** `mapping_changes_value`: a transform that cannot be evaluated counts as a change. */
  predicate ChangesValue(m: Mapping, detail: Record, registrant: Record, now: int) {
    var proposed := ProposedValue(m, detail, registrant, now);
    proposed.None? || !Same(proposed.value, CurrentValue(m, registrant))
  }

  predicate Fails(m: Mapping, detail: Record, registrant: Record, now: int) {
    ProposedValue(m, detail, registrant, now).None?
  }

  function Routed(mappings: seq<Mapping>, selected: Field): (routed: seq<Mapping>)
    ensures forall m :: m in routed <==> m in mappings && m.RoutingKey() == selected
  {
    if mappings == [] then []
    else
      var rest := Routed(mappings[..|mappings| - 1], selected);
      if mappings[|mappings| - 1].RoutingKey() == selected then rest + [mappings[|mappings| - 1]] else rest
  }

  /** `_effective_mappings`: a dynamic-approval request may only apply the field it was routed on. */
  function EffectiveMappings(requestType: RequestType, selected: Option<Field>): seq<Mapping> {
    if !requestType.dynamic then requestType.mappings
    else match selected
         case None => []
         case Some(field) => Routed(requestType.mappings, field)
  }

  // ----- apply -----

  /** The `values` dictionary built by `apply`, mapping by mapping. */
  function Values(mappings: seq<Mapping>, detail: Record, registrant: Record, now: int): Option<Record> {
    if mappings == [] then Some(map[])
    else
      var last := mappings[|mappings| - 1];
      match (Values(mappings[..|mappings| - 1], detail, registrant, now), ProposedValue(last, detail, registrant, now))
      case (Some(values), Some(value)) =>
        Some(if Same(value, CurrentValue(last, registrant)) then values else values[last.target := value])
      case _ => None
  }

  const NAME_PARTS: set<Field> := {"family_name", "given_name", "addl_name"}

  /** How `name_change` formats an individual's name from its parts. */
  type NameFormat = (Value, Value, Value) -> Value

  /** A registrant: an individual's name is regenerated when one of its parts is written. */
  class Registrant {
    const id: nat
    var fields: Record
    const isGroup: bool
    const format: NameFormat

    constructor (id: nat, fields: Record, isGroup: bool, format: NameFormat)
      ensures this.id == id && this.fields == fields && this.isGroup == isGroup && this.format == format
    {
      this.id, this.fields, this.isGroup, this.format := id, fields, isGroup, format;
    }

    /** The ORM's `write`; a field the model lacks is refused. */
    method Write(values: Record) returns (ok: bool)
      modifies this
      ensures ok <==> values.Keys <= old(fields).Keys
      ensures fields == if ok then old(fields) + StoreAll(values) else old(fields)
    {
      ok := values.Keys <= fields.Keys;
      if ok {
        fields := fields + StoreAll(values);
      }
    }

    method NameChange()
      modifies this
      ensures fields == if isGroup then old(fields) else old(fields)["name" := FormattedName(old(fields), format)]
    {
      if !isGroup {
        fields := fields["name" := FormattedName(fields, format)];
      }
    }
  }

  function FormattedName(fields: Record, format: NameFormat): Value {
    format(Get(fields, "family_name"), Get(fields, "given_name"), Get(fields, "addl_name"))
  }

  /** The registrant's fields after writing `values` and regenerating the name if needed. */
  function Updated(registrant: Record, values: Record, isGroup: bool, format: NameFormat): Record {
    var written := registrant + StoreAll(values);
    if values.Keys * NAME_PARTS == {} || isGroup then written
    else written["name" := FormattedName(written, format)]
  }

  /** The outcome of `apply`, as a value. */
  function ApplyOutcome(requestType: RequestType, selected: Option<Field>, detail: Option<Record>, registrant: Record,
                        isGroup: bool, format: NameFormat, now: int): Result<Record, ApplyError>
  {
    var mappings := EffectiveMappings(requestType, selected);
    if detail.None? then Err(NoDetail)
    else if mappings == [] then Err(NoMapping)
    else match Values(mappings, detail.value, registrant, now)
         case None => Err(BadTransform)
         case Some(values) =>
           if values.Keys <= registrant.Keys then Ok(Updated(registrant, values, isGroup, format)) else Err(UnknownTarget)
  }

  /** `apply`: copies the effective mappings to the registrant, or raises and writes nothing. */
  method Apply(requestType: RequestType, selected: Option<Field>, detail: Option<Record>, registrant: Registrant, now: int)
      returns (error: Option<ApplyError>)
    modifies registrant
    ensures var outcome := ApplyOutcome(requestType, selected, detail, old(registrant.fields), registrant.isGroup,
                                        registrant.format, now);
      match outcome
      case Ok(fields) => error == None && registrant.fields == fields
      case Err(e) => error == Some(e) && registrant.fields == old(registrant.fields)
  {
    if detail.None? {
      return Some(NoDetail);
    }
    var mappings := EffectiveMappings(requestType, selected);
    if mappings == [] {
      return Some(NoMapping);
    }
    var values: Record := map[];
    for i := 0 to |mappings|
      invariant Values(mappings[..i], detail.value, registrant.fields, now) == Some(values)
      invariant registrant.fields == old(registrant.fields)
    {
      var source := ProposedValue(mappings[i], detail.value, registrant.fields, now);
      assert mappings[..i + 1][..i] == mappings[..i];
      if source.None? {
        ValuesFailOnPrefix(mappings, i + 1, detail.value, registrant.fields, now);
        return Some(BadTransform);
      }
      if !Same(source.value, CurrentValue(mappings[i], registrant.fields)) {
        values := values[mappings[i].target := source.value];
      }
    }
    assert mappings[..|mappings|] == mappings;
    if values != map[] {
      var ok := registrant.Write(values);
      if !ok {
        return Some(UnknownTarget);
      }
      if values.Keys * NAME_PARTS != {} {
        registrant.NameChange();
      }
    } else {
      assert registrant.fields + StoreAll(values) == registrant.fields;
    }
    assert registrant.fields == Updated(old(registrant.fields), values, registrant.isGroup, registrant.format);
    return None;
  }

  lemma {:induction false} ValuesFailOnPrefix(mappings: seq<Mapping>, n: nat, detail: Record, registrant: Record, now: int)
    requires n <= |mappings| && Values(mappings[..n], detail, registrant, now).None?
    ensures Values(mappings, detail, registrant, now).None?
  {
    if n < |mappings| {
      assert mappings[..|mappings| - 1][..n] == mappings[..n];
      ValuesFailOnPrefix(mappings[..|mappings| - 1], n, detail, registrant, now);
    } else {
      assert mappings[..n] == mappings;
    }
  }

  /** Some mapping for `target` would write a different value than is stored. */
  ghost predicate SomeChange(mappings: seq<Mapping>, target: Field, detail: Record, registrant: Record, now: int) {
    exists m :: m in mappings && m.target == target && ChangesValue(m, detail, registrant, now)
  }

  /** The last mapping for a target that changes it: the one whose value is written. */
  ghost predicate IsLastChange(mappings: seq<Mapping>, i: nat, detail: Record, registrant: Record, now: int)
    requires i < |mappings|
  {
    && ChangesValue(mappings[i], detail, registrant, now)
    && forall j :: i < j < |mappings| && mappings[j].target == mappings[i].target ==>
         !ChangesValue(mappings[j], detail, registrant, now)
  }

  /** `apply` raises exactly when the transform of some effective mapping fails. */
  lemma {:induction false} ValuesFail(mappings: seq<Mapping>, detail: Record, registrant: Record, now: int)
    ensures Values(mappings, detail, registrant, now).None? <==> exists m :: m in mappings && Fails(m, detail, registrant, now)
  {
    if mappings != [] {
      var init, last := mappings[..|mappings| - 1], mappings[|mappings| - 1];
      assert mappings == init + [last];
      ValuesFail(init, detail, registrant, now);
      if Fails(last, detail, registrant, now) {
        assert last in mappings;
      }
    }
  }

  lemma SomeChangeStep(init: seq<Mapping>, last: Mapping, t: Field, detail: Record, registrant: Record, now: int)
    ensures SomeChange(init + [last], t, detail, registrant, now) <==>
        SomeChange(init, t, detail, registrant, now) || (last.target == t && ChangesValue(last, detail, registrant, now))
  {
    if last.target == t && ChangesValue(last, detail, registrant, now) {
      assert last in init + [last];
    }
    if SomeChange(init, t, detail, registrant, now) {
      var m :| m in init && m.target == t && ChangesValue(m, detail, registrant, now);
      assert m in init + [last];
    }
  }

  /**
   * What `apply` writes: a target is written exactly when one of its mappings changes it, and
   * then with a value that differs from the stored one.
   */
  lemma {:induction false} ValuesMeaning(mappings: seq<Mapping>, detail: Record, registrant: Record, now: int)
    requires Values(mappings, detail, registrant, now).Some?
    ensures var values := Values(mappings, detail, registrant, now).value;
      && (forall t :: t in values <==> SomeChange(mappings, t, detail, registrant, now))
      && (forall t :: t in values ==> !Same(values[t], Get(registrant, t)))
  {
    if mappings != [] {
      var init, last := mappings[..|mappings| - 1], mappings[|mappings| - 1];
      assert mappings == init + [last];
      ValuesMeaning(init, detail, registrant, now);
      forall t {
        SomeChangeStep(init, last, t, detail, registrant, now);
      }
    }
  }

  /** Of several mappings that change one target, the last one's proposed value is written. */
  lemma {:induction false} LastChangeWritten(mappings: seq<Mapping>, i: nat, detail: Record, registrant: Record, now: int)
    requires i < |mappings| && IsLastChange(mappings, i, detail, registrant, now)
    requires Values(mappings, detail, registrant, now).Some?
    ensures var values := Values(mappings, detail, registrant, now).value;
      mappings[i].target in values && Some(values[mappings[i].target]) == ProposedValue(mappings[i], detail, registrant, now)
  {
    var n := |mappings| - 1;
    if i < n {
      var init := mappings[..n];
      forall j | i < j < n && init[j].target == init[i].target
        ensures !ChangesValue(init[j], detail, registrant, now)
      {
        assert mappings[j] == init[j];
      }
      LastChangeWritten(init, i, detail, registrant, now);
    }
  }

  /** A mapping that is the only one into its target. */
  ghost predicate SoleTarget(mappings: seq<Mapping>, m: Mapping) {
    m in mappings && forall m' :: m' in mappings && m'.target == m.target ==> m' == m
  }

  lemma {:induction false} SoleTargetValue(mappings: seq<Mapping>, m: Mapping, detail: Record, registrant: Record, now: int)
    requires Values(mappings, detail, registrant, now).Some?
    requires forall m' :: m' in mappings && m'.target == m.target ==> m' == m
    ensures var values := Values(mappings, detail, registrant, now).value;
      m.target in values ==> Some(values[m.target]) == ProposedValue(m, detail, registrant, now)
  {
    if mappings != [] {
      var init, last := mappings[..|mappings| - 1], mappings[|mappings| - 1];
      assert mappings == init + [last];
      SoleTargetValue(init, m, detail, registrant, now);
    }
  }

  /** Apply regenerates the registrant's name: an individual one of whose name parts changes. */
  ghost predicate Renames(mappings: seq<Mapping>, detail: Record, registrant: Record, isGroup: bool, now: int) {
    !isGroup && exists part :: part in {"family_name", "given_name", "addl_name"} && SomeChange(mappings, part, detail, registrant, now)
  }

  lemma RenamesWhenWritten(mappings: seq<Mapping>, detail: Record, registrant: Record, isGroup: bool, now: int)
    requires Values(mappings, detail, registrant, now).Some?
    ensures Renames(mappings, detail, registrant, isGroup, now) <==>
        !isGroup && Values(mappings, detail, registrant, now).value.Keys * NAME_PARTS != {}
  {
    ValuesMeaning(mappings, detail, registrant, now);
    var values := Values(mappings, detail, registrant, now).value;
    if values.Keys * NAME_PARTS != {} {
      var part :| part in values.Keys * NAME_PARTS;
      assert SomeChange(mappings, part, detail, registrant, now);
    }
    if Renames(mappings, detail, registrant, isGroup, now) {
      var part :| part in {"family_name", "given_name", "addl_name"} && SomeChange(mappings, part, detail, registrant, now);
      assert part in values.Keys * NAME_PARTS;
    }
  }

  /**
   * The name after a successful apply. When a name part of an individual changes it is formatted from
   * the three parts as they are afterwards, whatever a mapping into the name itself proposes;
   * `AppliedValue` and `UntargetedKept` say that it is a field like any other in all other cases.
   */
  lemma NameRegenerated(requestType: RequestType, selected: Option<Field>, detail: Record, registrant: Record,
                        isGroup: bool, format: NameFormat, now: int)
    requires Renames(EffectiveMappings(requestType, selected), detail, registrant, isGroup, now)
    ensures var outcome := ApplyOutcome(requestType, selected, Some(detail), registrant, isGroup, format, now);
      outcome.Ok? ==>
        && "name" in outcome.value
        && outcome.value["name"]
           == format(Get(outcome.value, "family_name"), Get(outcome.value, "given_name"), Get(outcome.value, "addl_name"))
  {
    var mappings := EffectiveMappings(requestType, selected);
    if Values(mappings, detail, registrant, now).Some? {
      RenamesWhenWritten(mappings, detail, registrant, isGroup, now);
    }
  }

  /** A field after an update: the written value as stored, or what it was. */
  lemma UpdatedField(registrant: Record, values: Record, isGroup: bool, format: NameFormat, t: Field)
    requires t != "name" || isGroup || values.Keys * NAME_PARTS == {}
    ensures Get(Updated(registrant, values, isGroup, format), t) ==
        if t in values then Stored(values[t]) else Get(registrant, t)
    ensures t in Updated(registrant, values, isGroup, format) <==> t in values || t in registrant
  {
  }

  /** What such a mapping leaves in its target, written or already there. */
  lemma SoleWritten(mappings: seq<Mapping>, m: Mapping, detail: Record, registrant: Record, now: int)
    requires SoleTarget(mappings, m) && Values(mappings, detail, registrant, now).Some?
    ensures var values, proposed := Values(mappings, detail, registrant, now).value, ProposedValue(m, detail, registrant, now);
      && proposed.Some?
      && Same(Stored(proposed.value), Stored(if m.target in values then values[m.target] else Get(registrant, m.target)))
  {
    ValuesFail(mappings, detail, registrant, now);
    assert !Fails(m, detail, registrant, now);
    ValuesMeaning(mappings, detail, registrant, now);
    SoleTargetValue(mappings, m, detail, registrant, now);
    if ChangesValue(m, detail, registrant, now) {
      assert SomeChange(mappings, m.target, detail, registrant, now);
    } else {
      assert !SomeChange(mappings, m.target, detail, registrant, now);
    }
  }

  /** After a successful apply the target of such a mapping holds the proposed value, written or not. */
  lemma AppliedValue(requestType: RequestType, selected: Option<Field>, detail: Record, registrant: Record,
                     isGroup: bool, format: NameFormat, m: Mapping, now: int)
    requires SoleTarget(EffectiveMappings(requestType, selected), m)
    requires m.target != "name" || !Renames(EffectiveMappings(requestType, selected), detail, registrant, isGroup, now)
    ensures var outcome := ApplyOutcome(requestType, selected, Some(detail), registrant, isGroup, format, now);
      var proposed := ProposedValue(m, detail, registrant, now);
      outcome.Ok? ==> proposed.Some? && Same(Stored(proposed.value), Stored(Get(outcome.value, m.target)))
  {
    var mappings := EffectiveMappings(requestType, selected);
    var values := Values(mappings, detail, registrant, now);
    if values.Some? {
      SoleWritten(mappings, m, detail, registrant, now);
      RenamesWhenWritten(mappings, detail, registrant, isGroup, now);
      UpdatedField(registrant, values.value, isGroup, format, m.target);
    }
  }

  /** A field that no effective mapping changes is left alone, a regenerated name excepted. */
  lemma UntargetedKept(requestType: RequestType, selected: Option<Field>, detail: Record, registrant: Record,
                       isGroup: bool, format: NameFormat, f: Field, now: int)
    requires f != "name" || !Renames(EffectiveMappings(requestType, selected), detail, registrant, isGroup, now)
    requires forall m :: m in EffectiveMappings(requestType, selected) && m.target == f ==>
               !ChangesValue(m, detail, registrant, now)
    ensures var outcome := ApplyOutcome(requestType, selected, Some(detail), registrant, isGroup, format, now);
      outcome.Ok? ==> Get(outcome.value, f) == Get(registrant, f) && (f in outcome.value <==> f in registrant)
  {
    var mappings := EffectiveMappings(requestType, selected);
    var values := Values(mappings, detail, registrant, now);
    if mappings != [] && values.Some? {
      ValuesMeaning(mappings, detail, registrant, now);
      assert f !in values.value;
      RenamesWhenWritten(mappings, detail, registrant, isGroup, now);
      UpdatedField(registrant, values.value, isGroup, format, f);
    }
  }

  /** The mapping may be applied: on a dynamic type its routing field, or else its source, is the one selected. */
  ghost predicate TakesPart(requestType: RequestType, selected: Option<Field>, m: Mapping) {
    && m in requestType.mappings
    && (requestType.dynamic ==> selected == Some(if m.routing.Some? then m.routing.value else m.source))
  }

  lemma {:induction false} RoutedMore(init: seq<Mapping>, last: Mapping, selected: Field)
    ensures Routed(init + [last], selected) == Routed(init, selected) + if last.RoutingKey() == selected then [last] else []
  {
    var all := init + [last];
    assert all[..|all| - 1] == init && all[|all| - 1] == last;
  }

  /** Dropping the mappings routed elsewhere keeps the order of the others. */
  lemma {:induction false} RoutedParts(a: seq<Mapping>, b: seq<Mapping>, selected: Field)
    ensures Routed(a + b, selected) == Routed(a, selected) + Routed(b, selected)
  {
    if b == [] {
      assert a + b == a;
    } else {
      var init, last := b[..|b| - 1], b[|b| - 1];
      assert a + b == (a + init) + [last] && b == init + [last];
      RoutedParts(a, init, selected);
      RoutedMore(a + init, last, selected);
      RoutedMore(init, last, selected);
    }
  }

  lemma RoutedAt(mappings: seq<Mapping>, selected: Field, i: nat) returns (k: nat)
    requires i < |mappings| && mappings[i].RoutingKey() == selected
    ensures k < |Routed(mappings, selected)| && Routed(mappings, selected)[k] == mappings[i]
    ensures Routed(mappings, selected)[k + 1..] == Routed(mappings[i + 1..], selected)
  {
    var before, rest := mappings[..i], mappings[i + 1..];
    k := |Routed(before, selected)|;
    assert mappings == (before + [mappings[i]]) + rest;
    RoutedMore(before, mappings[i], selected);
    RoutedParts(before + [mappings[i]], rest, selected);
  }

  /** The refusals of apply, each with the inputs that cause it. */
  lemma RefusedExactly(requestType: RequestType, selected: Option<Field>, detail: Option<Record>, registrant: Record,
                       isGroup: bool, format: NameFormat, now: int)
    ensures var outcome := ApplyOutcome(requestType, selected, detail, registrant, isGroup, format, now);
      && (outcome == Err(NoDetail) <==> detail == None)
      && (outcome == Err(NoMapping) <==> detail != None && forall m :: !TakesPart(requestType, selected, m))
      && (outcome == Err(BadTransform) <==>
            && detail != None
            && exists m ::
                 && TakesPart(requestType, selected, m) && m.expression.Some?
                 && m.expression.value(Get(detail.value, m.source), detail.value, registrant, now) == None)
      && (outcome == Err(UnknownTarget) <==>
            && detail != None && outcome != Err(BadTransform)
            && exists m ::
                 && TakesPart(requestType, selected, m) && m.target !in registrant
                 && ChangesValue(m, detail.value, registrant, now))
  {
    if detail.Some? {
      var mappings := EffectiveMappings(requestType, selected);
      assert forall m :: m in mappings <==> TakesPart(requestType, selected, m);
      if mappings != [] {
        assert mappings[0] in mappings;
      }
      ValuesFail(mappings, detail.value, registrant, now);
      var values := Values(mappings, detail.value, registrant, now);
      if values.Some? {
        ValuesMeaning(mappings, detail.value, registrant, now);
        if !(values.value.Keys <= registrant.Keys) {
          var t :| t in values.value && t !in registrant;
          assert SomeChange(mappings, t, detail.value, registrant, now);
        }
        forall m | m in mappings && m.target !in registrant && ChangesValue(m, detail.value, registrant, now)
          ensures m.target in values.value
        {
          assert SomeChange(mappings, m.target, detail.value, registrant, now);
        }
      }
    }
  }

  /**
   * What a successful apply writes, read off the type's own mappings: the value of the detail's source
   * field, or what the transform makes of it, when it differs from the target and no later mapping that
   * takes part changes that target.
   */
  lemma WrittenExactly(requestType: RequestType, selected: Option<Field>, detail: Record, registrant: Record,
                       isGroup: bool, format: NameFormat, i: nat, now: int)
    requires ApplyOutcome(requestType, selected, Some(detail), registrant, isGroup, format, now).Ok?
    requires i < |requestType.mappings| && TakesPart(requestType, selected, requestType.mappings[i])
    requires forall j | i < j < |requestType.mappings| && requestType.mappings[j].target == requestType.mappings[i].target ::
               TakesPart(requestType, selected, requestType.mappings[j]) ==>
                 !ChangesValue(requestType.mappings[j], detail, registrant, now)
    requires requestType.mappings[i].target != "name"
          || !Renames(EffectiveMappings(requestType, selected), detail, registrant, isGroup, now)
    ensures var m := requestType.mappings[i];
      var after := ApplyOutcome(requestType, selected, Some(detail), registrant, isGroup, format, now).value;
      var source := Get(detail, m.source);
      var proposed := if m.expression == None then Some(source) else m.expression.value(source, detail, registrant, now);
      && proposed.Some?
      && (!Same(proposed.value, Get(registrant, m.target)) ==> m.target in after && after[m.target] == Stored(proposed.value))
  {
    var m, all := requestType.mappings[i], requestType.mappings;
    var mappings := EffectiveMappings(requestType, selected);
    ValuesFail(mappings, detail, registrant, now);
    assert m in mappings && !Fails(m, detail, registrant, now);
    if ChangesValue(m, detail, registrant, now) {
      var k := i;
      if requestType.dynamic {
        k := RoutedAt(all, selected.value, i);
        forall j | k < j < |mappings| && mappings[j].target == m.target
          ensures !ChangesValue(mappings[j], detail, registrant, now)
        {
          assert mappings[j] == mappings[k + 1..][j - k - 1];
          assert mappings[j] in all[i + 1..];
        }
      }
      LastChangeWritten(mappings, k, detail, registrant, now);
      RenamesWhenWritten(mappings, detail, registrant, isGroup, now);
      UpdatedField(registrant, Values(mappings, detail, registrant, now).value, isGroup, format, m.target);
    }
  }

  /** Python's `==` on these values: the same value, or numbers, flags and ids of one number. */
  lemma SameMeaning(a: Value, b: Value)
    ensures Same(a, b) <==> a == b || (Number(a).Some? && Number(a) == Number(b))
  {
  }

  function Number(value: Value): Option<int> {
    match value
    case Unset => Some(0)
    case Flag => Some(1)
    case Num(n) => Some(n)
    case Ref(id) => Some(id)
    case _ => None
  }

  // ----- detection -----

  /** Detection can read both sides of a mapping. */
  predicate Readable(m: Mapping, detail: Record, registrant: Record) {
    m.source in detail && m.target in registrant
  }

  /** `_proposed_changed_fields`: None when the whole configured field set must be considered. */
  ghost function ChangedFields(requestType: RequestType, detail: Option<Record>, registrant: Option<Record>, now: int)
      : Option<set<Field>>
  {
    if !requestType.dynamic || !requestType.fieldMapping || requestType.mappings == [] then None
    else if detail.None? || registrant.None? then Some({})
    else Some(set m | m in requestType.mappings && Readable(m, detail.value, registrant.value)
                      && ChangesValue(m, detail.value, registrant.value, now) :: m.source)
  }

  method ProposedChangedFields(requestType: RequestType, detail: Option<Record>, registrant: Option<Record>, now: int)
      returns (changed: Option<set<Field>>)
    ensures changed == ChangedFields(requestType, detail, registrant, now)
  {
    if !requestType.dynamic {
      return None;
    }
    if !requestType.fieldMapping || requestType.mappings == [] {
      return None;
    }
    if detail.None? || registrant.None? {
      return Some({});
    }
    var d, r, ms := detail.value, registrant.value, requestType.mappings;
    var fields: set<Field> := {};
    for i := 0 to |ms|
      invariant fields == set m | m in ms[..i] && Readable(m, d, r) && ChangesValue(m, d, r, now) :: m.source
    {
      assert ms[..i + 1] == ms[..i] + [ms[i]];
      if Readable(ms[i], d, r) && ChangesValue(ms[i], d, r, now) {
        fields := fields + {ms[i].source};
      }
    }
    assert ms[..|ms|] == ms;
    return Some(fields);
  }

  /**
   * What detection reports. The whole configured field set, unless the type is dynamic, writes by field
   * mapping and has mappings; otherwise nothing without a detail and a registrant, and with both exactly
   * the sources of the mappings that can be read there and whose transform fails or proposes another
   * value than the target has.
   */
  lemma ReportedExactly(requestType: RequestType, detail: Option<Record>, registrant: Option<Record>, now: int, f: Field)
    ensures var changed := ChangedFields(requestType, detail, registrant, now);
      && (changed == None <==> !(requestType.dynamic && requestType.fieldMapping && requestType.mappings != []))
      && (changed.Some? ==>
            (f in changed.value <==>
              && detail.Some? && registrant.Some?
              && exists m ::
                   && m in requestType.mappings && m.source == f && f in detail.value && m.target in registrant.value
                   && var value := detail.value[f];
                      var proposed := if m.expression == None then Some(value)
                                      else m.expression.value(value, detail.value, registrant.value, now);
                      proposed == None || !Same(proposed.value, registrant.value[m.target])))
  {
  }

  // ----- agreement -----

  /** Every mapping names fields that its records have. */
  ghost predicate Configured(mappings: seq<Mapping>, detail: Record, registrant: Record) {
    forall m :: m in mappings ==> Readable(m, detail, registrant)
  }

  /** The fields `apply` writes; the generated name is set besides. */
  ghost predicate AppliesChange(before: Record, after: Record, target: Field) {
    !Same(Get(after, target), Get(before, target))
  }

  /** A mapping proposes None, which is stored as unset: written over an unset field it changes nothing. */
  ghost predicate WritesNothing(mappings: seq<Mapping>, t: Field, detail: Record, registrant: Record, now: int) {
    Same(Get(registrant, t), Unset)
    && exists m :: m in mappings && m.target == t && ProposedValue(m, detail, registrant, now) == Some(Missing)
  }

  lemma WrittenTargetsExist(mappings: seq<Mapping>, detail: Record, registrant: Record, now: int)
    requires Values(mappings, detail, registrant, now).Some? && Configured(mappings, detail, registrant)
    ensures Values(mappings, detail, registrant, now).value.Keys <= registrant.Keys
  {
    ValuesMeaning(mappings, detail, registrant, now);
  }

  /** Every written value is what some mapping into the target proposes. */
  lemma {:induction false} WrittenByMapping(mappings: seq<Mapping>, t: Field, detail: Record, registrant: Record, now: int)
    requires Values(mappings, detail, registrant, now).Some? && t in Values(mappings, detail, registrant, now).value
    ensures exists m :: m in mappings && m.target == t
              && ProposedValue(m, detail, registrant, now) == Some(Values(mappings, detail, registrant, now).value[t])
  {
    var init, last := mappings[..|mappings| - 1], mappings[|mappings| - 1];
    var values := Values(mappings, detail, registrant, now).value;
    if last.target == t && ChangesValue(last, detail, registrant, now) {
      assert last in mappings;
    } else {
      WrittenByMapping(init, t, detail, registrant, now);
      var m :| m in init && m.target == t && ProposedValue(m, detail, registrant, now) == Some(values[t]);
      assert m in mappings;
    }
  }

  /**
   * Detection and apply agree. For a readable configuration of a dynamic type, over the routed
   * mappings: `apply` raises exactly when a routed transform fails, and then detection still
   * reports that mapping's field; otherwise a target's value changes exactly when detection
   * reports a routed mapping for it, unless one proposes None over an unset value. A regenerated
   * name is excepted.
   */
  lemma DetectionAgreesWithApply(requestType: RequestType, selected: Field, detail: Record, registrant: Record,
                                 isGroup: bool, format: NameFormat, now: int)
    requires requestType.dynamic && requestType.fieldMapping
    requires Configured(requestType.mappings, detail, registrant)
    ensures var routed := EffectiveMappings(requestType, Some(selected));
      var outcome := ApplyOutcome(requestType, Some(selected), Some(detail), registrant, isGroup, format, now);
      var changed := ChangedFields(requestType, Some(detail), Some(registrant), now);
      && (routed == [] <==> outcome == Err(NoMapping))
      && (outcome == Err(BadTransform) <==> exists m :: m in routed && Fails(m, detail, registrant, now))
      && (forall m :: m in routed && ChangesValue(m, detail, registrant, now) ==> m.source in changed.value)
      && outcome != Err(UnknownTarget)
      && (outcome.Ok? ==> forall t | t != "name" || !Renames(routed, detail, registrant, isGroup, now) ::
            && (AppliesChange(registrant, outcome.value, t) ==> SomeChange(routed, t, detail, registrant, now))
            && (SomeChange(routed, t, detail, registrant, now) ==>
                  AppliesChange(registrant, outcome.value, t) || WritesNothing(routed, t, detail, registrant, now)))
  {
    var routed := EffectiveMappings(requestType, Some(selected));
    ValuesFail(routed, detail, registrant, now);
    var values := Values(routed, detail, registrant, now);
    if values.Some? {
      ValuesMeaning(routed, detail, registrant, now);
      WrittenTargetsExist(routed, detail, registrant, now);
      RenamesWhenWritten(routed, detail, registrant, isGroup, now);
      forall t | t != "name" || !Renames(routed, detail, registrant, isGroup, now)
        ensures Get(Updated(registrant, values.value, isGroup, format), t) ==
          if t in values.value then Stored(values.value[t]) else Get(registrant, t)
        ensures t in values.value && Same(Stored(values.value[t]), Get(registrant, t)) ==>
          WritesNothing(routed, t, detail, registrant, now)
      {
        UpdatedField(registrant, values.value, isGroup, format, t);
        if t in values.value {
          WrittenByMapping(routed, t, detail, registrant, now);
        }
      }
    }
  }

  /**
   * For a direct mapping whose target exists, detection and apply agree if and only if the source
   * is a field of the detail: for a missing source detection skips the mapping, while apply
   * writes Python's None over the stored value.
   */
  lemma AgreesIffSourceExists(m: Mapping, detail: Record, registrant: Record, now: int)
    requires m.expression == None && m.target in registrant && registrant[m.target] != Missing
    ensures Values([m], detail, registrant, now).Some?
    ensures var detected := Readable(m, detail, registrant) && ChangesValue(m, detail, registrant, now);
      var written := Values([m], detail, registrant, now).value != map[];
      (detected <==> written) <==> m.source in detail
  {
    assert [m][..|[m]| - 1] == [] && Values([], detail, registrant, now) == Some(map[]);
    assert ProposedValue([m][0], detail, registrant, now).Some?;
    var values := Values([m], detail, registrant, now);
    assert values.Some?;
    if ChangesValue(m, detail, registrant, now) {
      assert m.target in values.value;
    }
  }

  lemma DetectedAlone(mappings: seq<Mapping>, m: Mapping, detail: Record, registrant: Record, now: int)
    requires m in mappings && Readable(m, detail, registrant)
    requires forall m' :: m' in mappings && m'.source == m.source ==> m' == m
    ensures m.source in (set m' | m' in mappings && Readable(m', detail, registrant)
                           && ChangesValue(m', detail, registrant, now) :: m'.source)
        <==> ChangesValue(m, detail, registrant, now)
  {
  }

  /**
   * Field by field: when no other mapping shares a routed mapping's source or target, detection
   * reports its source exactly when `apply` changes its target, or would by a None over an unset
   * value. A regenerated name is excepted.
   */
  lemma DetectedIffWritten(requestType: RequestType, selected: Field, detail: Record, registrant: Record,
                           isGroup: bool, format: NameFormat, m: Mapping, now: int)
    requires requestType.dynamic && requestType.fieldMapping
    requires m.target != "name" || !Renames(EffectiveMappings(requestType, Some(selected)), detail, registrant, isGroup, now)
    requires m in EffectiveMappings(requestType, Some(selected)) && Readable(m, detail, registrant)
    requires forall m' :: m' in requestType.mappings && (m'.source == m.source || m'.target == m.target) ==> m' == m
    requires ApplyOutcome(requestType, Some(selected), Some(detail), registrant, isGroup, format, now).Ok?
    ensures var after := ApplyOutcome(requestType, Some(selected), Some(detail), registrant, isGroup, format, now).value;
      m.source in ChangedFields(requestType, Some(detail), Some(registrant), now).value <==>
        AppliesChange(registrant, after, m.target)
        || (ProposedValue(m, detail, registrant, now) == Some(Missing) && registrant[m.target] != Missing)
  {
    var routed := EffectiveMappings(requestType, Some(selected));
    var values := Values(routed, detail, registrant, now).value;
    ValuesMeaning(routed, detail, registrant, now);
    SoleTargetValue(routed, m, detail, registrant, now);
    RenamesWhenWritten(routed, detail, registrant, isGroup, now);
    UpdatedField(registrant, values, isGroup, format, m.target);
    assert m.target in values <==> ChangesValue(m, detail, registrant, now);
    DetectedAlone(requestType.mappings, m, detail, registrant, now);
  }

  /**
   * On a dynamic type only the routed field's targets are touched: a field that no mapping with
   * the selected routing key writes keeps its value, a regenerated name excepted.
   */
  lemma OnlyRoutedTargetsChange(requestType: RequestType, selected: Option<Field>, detail: Record, registrant: Record,
                                isGroup: bool, format: NameFormat, f: Field, now: int)
    requires requestType.dynamic
    requires f != "name" || !Renames(EffectiveMappings(requestType, selected), detail, registrant, isGroup, now)
    requires forall m :: m in requestType.mappings && m.target == f ==> Some(m.RoutingKey()) != selected
    ensures var outcome := ApplyOutcome(requestType, selected, Some(detail), registrant, isGroup, format, now);
      outcome.Ok? ==> Get(outcome.value, f) == Get(registrant, f) && (f in outcome.value <==> f in registrant)
  {
    UntargetedKept(requestType, selected, detail, registrant, isGroup, format, f, now);
  }

  /**
   * Apply is refused for want of a mapping exactly when no mapping has the selected routing key;
   * a missing selection has none.
   */
  lemma RefusedWithoutRoutedMapping(requestType: RequestType, selected: Option<Field>, detail: Record,
                                    registrant: Record, isGroup: bool, format: NameFormat, now: int)
    requires requestType.dynamic
    ensures ApplyOutcome(requestType, selected, Some(detail), registrant, isGroup, format, now) == Err(NoMapping)
        <==> forall m :: m in requestType.mappings ==> Some(m.RoutingKey()) != selected
  {
    var routed := EffectiveMappings(requestType, selected);
    if routed != [] {
      assert routed[0] in routed;
    }
  }

  /**
   * A true no-op still applies: nothing is written exactly when no effective mapping changes its
   * target, and then apply succeeds with the registrant unchanged.
   */
  lemma NoOpApplies(requestType: RequestType, selected: Option<Field>, detail: Record, registrant: Record,
                    isGroup: bool, format: NameFormat, now: int)
    ensures var mappings := EffectiveMappings(requestType, selected);
      && (Values(mappings, detail, registrant, now) == Some(map[]) <==>
            forall m :: m in mappings ==> !ChangesValue(m, detail, registrant, now))
      && (Values(mappings, detail, registrant, now) == Some(map[]) && mappings != [] ==>
            ApplyOutcome(requestType, selected, Some(detail), registrant, isGroup, format, now) == Ok(registrant))
  {
    var mappings := EffectiveMappings(requestType, selected);
    var values := Values(mappings, detail, registrant, now);
    ValuesFail(mappings, detail, registrant, now);
    if values.Some? {
      ValuesMeaning(mappings, detail, registrant, now);
    }
    if values == Some(map[]) {
      assert StoreAll(map[]) == map[] && registrant + map[] == registrant;
      forall m | m in mappings ensures !ChangesValue(m, detail, registrant, now) {
        assert !SomeChange(mappings, m.target, detail, registrant, now);
      }
    } else if values.Some? {
      var t :| t in values.value;
      assert SomeChange(mappings, t, detail, registrant, now);
    }
  }
}
