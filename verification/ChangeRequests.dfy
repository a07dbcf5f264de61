/**
 * The life of a field-mapping change request: its detail rows, the freeze of its content after
 * submission and the writes that nothing freezes, the approval transitions and apply. Follows `write`, `_alters_frozen_field`,
 * `_ensure_detail`, `_check_can_submit`, `_on_approve` and `_apply_change_request` of
 * spp_change_request_v2/models/change_request.py, and `write`, `create`,
 * `_assert_content_editable`, `_sync_field_to_modify` and `prefill_from_registrant` of
 * change_request_detail_base.py.
 *
 * A raised error rolls its transaction back, so a refused operation leaves the request unchanged.
 */
module ChangeRequests {
  import opened Wrappers
  import opened FieldMapping

  datatype State = Draft | Pending | Revision | Approved | Rejected

  /** Content may be edited in draft and revision only. */
  predicate Editable(state: State) {
    state.Draft? || state.Revision?
  }

  const FIELD_TO_MODIFY: Field := "field_to_modify"

  /** `normalize_frozen_value`, up to Python's `==`: None and the empty string count as unset. */
  function Frozen(value: Value): Value {
    if value == Missing || value == Text("") then Unset else Canonical(value)
  }

  /** What is fixed by the request's type: mappings, prefill, display and blank detail row. */
  datatype Config = Config(requestType: RequestType, autoApply: bool, prefill: map<Field, Field>,
                           display: Value -> string, blank: Record)

  /** A row of the type's detail model; it points back at the request that owns it. */
  datatype DetailRow = DetailRow(owner: nat, fields: Record)

  /** The routed selection on the request, empty strings when unset. */
  datatype Selection = Selection(name: string, oldValue: string, newValue: string)

  datatype Request = Request(id: nat, config: Config, state: State, selection: Selection, detail: Option<nat>,
                             rows: map<nat, DetailRow>, partner: nat, registrant: Record, isGroup: bool,
                             format: NameFormat, applied: bool)
  {
    /** `_detail_row_belongs_to_self`. */
    predicate Owns(row: nat) {
      row in rows && rows[row].owner == id
    }

    /** `get_detail`. */
    function Detail(): Option<Record> {
      if detail.Some? && detail.value in rows then Some(rows[detail.value].fields) else None
    }

    function Selected(): Option<Field> {
      if selection.name == "" then None else Some(selection.name)
    }
  }

  /** The frozen fields a write may name. */
  datatype RequestValues = RequestValues(name: Option<string>, oldValue: Option<string>, newValue: Option<string>,
                                         detail: Option<Option<nat>>)

  datatype Error = Locked | NotAllowed | UnknownRow | UnknownField | NotSelected | AlreadyApplied | NotApproved
                 | ApplyFailed(reason: ApplyError)

  // ----- operations, as functions -----

  /** An edit changes the content only: the selection, the pointer and detail rows. */
  ghost predicate EditOf(before: Request, after: Request) {
    && after.id == before.id && after.state == before.state && after.applied == before.applied
    && after.config == before.config && after.partner == before.partner && after.registrant == before.registrant
    && after.isGroup == before.isGroup && after.format == before.format
  }

  /** `_alters_frozen_field`, over the fields a write names. */
  predicate AltersFrozen(r: Request, vals: RequestValues) {
    || (vals.name.Some? && vals.name.value != r.selection.name)
    || (vals.oldValue.Some? && vals.oldValue.value != r.selection.oldValue)
    || (vals.newValue.Some? && vals.newValue.value != r.selection.newValue)
    || (vals.detail.Some? && vals.detail.value != r.detail
        && !(r.detail.None? && vals.detail.value.Some? && r.Owns(vals.detail.value.value)))
  }

  function GetOr<T>(option: Option<T>, default: T): T {
    if option.Some? then option.value else default
  }

  /** `SPPChangeRequest.write`. */
  function WriteRequest(r: Request, vals: RequestValues): (result: Result<Request, Error>)
    ensures result.Ok? ==> EditOf(r, result.value)
  {
    if !Editable(r.state) && AltersFrozen(r, vals) then Err(Locked)
    else
      Ok(r.(selection := Selection(GetOr(vals.name, r.selection.name), GetOr(vals.oldValue, r.selection.oldValue),
                                   GetOr(vals.newValue, r.selection.newValue)),
            detail := GetOr(vals.detail, r.detail)))
  }

  /** `_protected_content_fields`: the selector and every mapped source field. */
  function Protected(config: Config): set<Field> {
    var mappings := config.requestType.mappings;
    {FIELD_TO_MODIFY}
      + if config.requestType.fieldMapping then set i | 0 <= i < |mappings| :: mappings[i].source else {}
  }

  function FieldToModify(row: Record): string {
    match Get(row, FIELD_TO_MODIFY)
    case Text(s) => s
    case _ => ""
  }

  function FirstMapping(mappings: seq<Mapping>, source: Field): Option<Mapping> {
    if mappings == [] then None
    else if mappings[0].source == source then Some(mappings[0])
    else FirstMapping(mappings[1..], source)
  }

  /** The selection that `_sync_field_to_modify` derives from a detail row. */
  function SyncedSelection(config: Config, row: Record, registrant: Record): Selection {
    var field := FieldToModify(row);
    if field == "" then Selection("", "", "")
    else
      var mapping := FirstMapping(config.requestType.mappings, field);
      Selection(field, if mapping.Some? then config.display(Get(registrant, mapping.value.target)) else "",
                config.display(Get(row, field)))
  }

  /** `_sync_field_to_modify`: only dynamic types copy the selection to the request. */
  function Sync(r: Request, row: nat): (result: Result<Request, Error>)
    requires row in r.rows
    ensures result.Ok? ==> EditOf(r, result.value)
  {
    if !r.config.requestType.dynamic then Ok(r)
    else
      var s := SyncedSelection(r.config, r.rows[row].fields, r.registrant);
      WriteRequest(r, RequestValues(Some(s.name), Some(s.oldValue), Some(s.newValue), None))
  }

  /** A write names a protected field with a different value. */
  predicate AltersContent(config: Config, row: Record, vals: Record) {
    exists f | f in Protected(config) :: f in vals && f in row && Frozen(vals[f]) != Frozen(row[f])
  }

  /** A write that names the selector, or the selected field, is followed by a sync. */
  predicate Syncs(row: Record, vals: Record) {
    FIELD_TO_MODIFY in vals || (FieldToModify(row) != "" && FieldToModify(row) in vals)
  }

  /** `write` on one of the request's own detail rows. */
  function WriteDetail(r: Request, row: nat, vals: Record): (result: Result<Request, Error>)
    ensures result.Ok? ==> EditOf(r, result.value)
  {
    if !r.Owns(row) then Err(UnknownRow)
    else
      var fields := r.rows[row].fields;
      if !Editable(r.state) && AltersContent(r.config, fields, vals) then Err(Locked)
      else if !(vals.Keys <= fields.Keys) then Err(UnknownField)
      else
        var written := r.(rows := r.rows[row := DetailRow(r.id, fields + StoreAll(vals))]);
        if Syncs(written.rows[row].fields, vals) then Sync(written, row) else Ok(written)
  }

  /** A write of `change_request_id` on one of the request's own rows; nothing guards it. */
  function MoveDetail(r: Request, row: nat, owner: nat): Result<Request, Error> {
    if r.Owns(row) then Ok(r.(rows := r.rows[row := r.rows[row].(owner := owner)])) else Err(UnknownRow)
  }

  /** `unlink` of one of the request's own rows. */
  function DeleteDetail(r: Request, row: nat): Result<Request, Error> {
    if r.Owns(row) then Ok(r.(rows := r.rows - {row})) else Err(UnknownRow)
  }

  /** `create` of a detail row for the request, under an unused id. */
  function CreateDetail(r: Request, row: nat, fields: Record): (result: Result<Request, Error>)
    ensures result.Ok? ==> EditOf(r, result.value)
  {
    if row in r.rows then Err(UnknownRow)
    else
      var created := r.(rows := r.rows[row := DetailRow(r.id, StoreAll(fields))]);
      if FieldToModify(created.rows[row].fields) != "" then Sync(created, row) else Ok(created)
  }

  /** What `prefill_from_registrant` copies: the truthy registrant values. */
  function PrefillValues(config: Config, registrant: Record): Record {
    map f | f in config.prefill && Truthy(Get(registrant, config.prefill[f])) :: Get(registrant, config.prefill[f])
  }

  /** `_ensure_detail`: creates, binds and prefills a detail row when none is bound. */
  function EnsureDetail(r: Request, row: nat): (result: Result<Request, Error>)
    ensures result.Ok? ==> EditOf(r, result.value)
  {
    if r.detail.Some? then Ok(r)
    else match CreateDetail(r, row, r.config.blank)
         case Err(e) => Err(e)
         case Ok(created) =>
           match WriteRequest(created, RequestValues(None, None, None, Some(Some(row))))
           case Err(e) => Err(e)
           case Ok(bound) =>
             var vals := PrefillValues(r.config, r.registrant);
             if vals == map[] then Ok(bound) else WriteDetail(bound, row, vals)
  }

  /** Submission; `allowed` is the outcome of the document, conflict and freeze-period checks. */
  function Submit(r: Request, allowed: bool): Result<Request, Error> {
    if !allowed || !Editable(r.state) then Err(NotAllowed)
    else if r.config.requestType.dynamic && r.selection.name == "" then Err(NotSelected)
    else Ok(r.(state := Pending))
  }

  /** `_apply_change_request`: once, and only when approved. */
  function ApplyRequest(r: Request, now: int): Result<Request, Error> {
    if r.applied then Err(AlreadyApplied)
    else if r.state != Approved then Err(NotApproved)
    else match ApplyOutcome(r.config.requestType, r.Selected(), r.Detail(), r.registrant, r.isGroup, r.format, now)
         case Ok(fields) => Ok(r.(registrant := fields, applied := true))
         case Err(e) => Err(ApplyFailed(e))
  }

  /** Approval of a pending request, applying it at once when its type says so. */
  function Approve(r: Request, now: int): Result<Request, Error> {
    if r.state != Pending then Err(NotAllowed)
    else
      var approved := r.(state := Approved);
      if r.config.autoApply then ApplyRequest(approved, now) else Ok(approved)
  }

  /** `_do_reject` does not look at the state it rejects from. */
  function Reject(r: Request): Result<Request, Error> {
    Ok(r.(state := Rejected))
  }

  function RequestRevision(r: Request): Result<Request, Error> {
    if r.state == Pending then Ok(r.(state := Revision)) else Err(NotAllowed)
  }

  function Reset(r: Request): Result<Request, Error> {
    if r.state == Rejected || r.state == Revision then Ok(r.(state := Draft)) else Err(NotAllowed)
  }

  // ----- the request as the source updates it -----

  /** An operation took effect as specified, or raised and changed nothing. */
  ghost predicate Outcome(result: Result<Request, Error>, before: Request, after: Request, error: Option<Error>) {
    match result
    case Ok(expected) => error == None && after == expected
    case Err(e) => error == Some(e) && after == before
  }

  class ChangeRequest {
    const id: nat
    var config: Config
    var partner: Registrant
    var state: State
    var selection: Selection
    var detail: Option<nat>
    var rows: map<nat, DetailRow>
    var applied: bool

    ghost function Value(): Request
      reads this, partner
    {
      Request(id, config, state, selection, detail, rows, partner.id, partner.fields, partner.isGroup, partner.format, applied)
    }

    constructor (id: nat, config: Config, partner: Registrant)
      ensures this.partner == partner
      ensures Value() == Request(id, config, Draft, Selection("", "", ""), None, map[], partner.id,
                                 partner.fields, partner.isGroup, partner.format, false)
    {
      this.id, this.config, this.partner := id, config, partner;
      state, selection, detail, rows, applied := Draft, Selection("", "", ""), None, map[], false;
    }

    method Write(vals: RequestValues) returns (error: Option<Error>)
      modifies this
      ensures Outcome(WriteRequest(old(Value()), vals), old(Value()), Value(), error)
      ensures partner == old(partner)
      ensures state == old(state) && rows == old(rows) && applied == old(applied)
    {
      if !Editable(state) {
        var moved := vals.detail.Some? && vals.detail.value != detail;
        if moved && detail.None? && vals.detail.value.Some? {
          var row := vals.detail.value.value;
          moved := !(row in rows && rows[row].owner == id);
        }
        if moved || (vals.name.Some? && vals.name.value != selection.name)
          || (vals.oldValue.Some? && vals.oldValue.value != selection.oldValue)
          || (vals.newValue.Some? && vals.newValue.value != selection.newValue)
        {
          return Some(Locked);
        }
      }
      selection := Selection(GetOr(vals.name, selection.name), GetOr(vals.oldValue, selection.oldValue),
                             GetOr(vals.newValue, selection.newValue));
      detail := GetOr(vals.detail, detail);
      return None;
    }

    method SyncFieldToModify(row: nat) returns (error: Option<Error>)
      requires row in rows
      modifies this
      ensures Outcome(Sync(old(Value()), row), old(Value()), Value(), error)
      ensures partner == old(partner)
      ensures state == old(state) && rows == old(rows) && applied == old(applied)
    {
      if !config.requestType.dynamic {
        return None;
      }
      var s := SyncedSelection(config, rows[row].fields, partner.fields);
      error := Write(RequestValues(Some(s.name), Some(s.oldValue), Some(s.newValue), None));
    }

    /** `_assert_content_editable`. */
    method AssertContentEditable(fields: Record, vals: Record) returns (locked: bool)
      ensures locked <==> !Editable(state) && AltersContent(config, fields, vals)
    {
      if Editable(state) {
        return false;
      }
      var left := Protected(config);
      while left != {}
        invariant left <= Protected(config)
        invariant forall f :: f in Protected(config) - left && f in vals && f in fields ==> Frozen(vals[f]) == Frozen(fields[f])
        decreases left
      {
        var f :| f in left;
        if f in vals && f in fields && Frozen(vals[f]) != Frozen(fields[f]) {
          return true;
        }
        left := left - {f};
      }
      return false;
    }

    method WriteRow(row: nat, vals: Record) returns (error: Option<Error>)
      modifies this
      ensures Outcome(WriteDetail(old(Value()), row, vals), old(Value()), Value(), error)
      ensures partner == old(partner)
    {
      if row !in rows || rows[row].owner != id {
        return Some(UnknownRow);
      }
      var fields := rows[row].fields;
      var locked := AssertContentEditable(fields, vals);
      if locked {
        return Some(Locked);
      }
      if !(vals.Keys <= fields.Keys) {
        return Some(UnknownField);
      }
      var before := rows;
      rows := rows[row := DetailRow(id, fields + StoreAll(vals))];
      if Syncs(rows[row].fields, vals) {
        error := SyncFieldToModify(row);
        if error.Some? {
          rows := before;
        }
      } else {
        error := None;
      }
    }

    method CreateRow(row: nat, fields: Record) returns (error: Option<Error>)
      modifies this
      ensures Outcome(CreateDetail(old(Value()), row, fields), old(Value()), Value(), error)
      ensures partner == old(partner)
      ensures state == old(state) && detail == old(detail) && applied == old(applied)
    {
      if row in rows {
        return Some(UnknownRow);
      }
      var before := rows;
      rows := rows[row := DetailRow(id, StoreAll(fields))];
      error := None;
      if FieldToModify(rows[row].fields) != "" {
        error := SyncFieldToModify(row);
        if error.Some? {
          rows := before;
        }
      }
    }

    method Ensure(row: nat) returns (error: Option<Error>)
      modifies this
      ensures Outcome(EnsureDetail(old(Value()), row), old(Value()), Value(), error)
      ensures partner == old(partner)
    {
      if detail.Some? {
        return None;
      }
      var rowsBefore, selectionBefore := rows, selection;
      error := CreateRow(row, config.blank);
      if error.Some? {
        return;
      }
      error := Write(RequestValues(None, None, None, Some(Some(row))));
      if error.None? {
        var vals := PrefillValues(config, partner.fields);
        if vals != map[] {
          error := WriteRow(row, vals);
        }
      }
      if error.Some? {
        rows, selection, detail := rowsBefore, selectionBefore, None;
      }
    }

    method MoveRow(row: nat, owner: nat) returns (error: Option<Error>)
      modifies this
      ensures Outcome(MoveDetail(old(Value()), row, owner), old(Value()), Value(), error)
      ensures partner == old(partner)
    {
      if row !in rows || rows[row].owner != id {
        return Some(UnknownRow);
      }
      rows := rows[row := rows[row].(owner := owner)];
      return None;
    }

    method DeleteRow(row: nat) returns (error: Option<Error>)
      modifies this
      ensures Outcome(DeleteDetail(old(Value()), row), old(Value()), Value(), error)
      ensures partner == old(partner)
    {
      if row !in rows || rows[row].owner != id {
        return Some(UnknownRow);
      }
      rows := rows - {row};
      return None;
    }

    /** A write of `approval_state`, from whatever state to whatever state. */
    method WriteState(value: State)
      modifies this
      ensures Value() == old(Value()).(state := value) && partner == old(partner)
    {
      state := value;
    }

    /** A write of `is_applied`. */
    method WriteApplied(value: bool)
      modifies this
      ensures Value() == old(Value()).(applied := value) && partner == old(partner)
    {
      applied := value;
    }

    /** A write of `registrant_id`, in whatever state. */
    method WriteRegistrant(registrant: Registrant)
      modifies this
      ensures Value() == old(Value()).(partner := registrant.id, registrant := registrant.fields,
                                       isGroup := registrant.isGroup, format := registrant.format)
      ensures partner == registrant
    {
      partner := registrant;
    }

    /** A write of `request_type_id`, in whatever state: the pointer now looks among the new type's rows. */
    method WriteType(requestType: Config, table: map<nat, DetailRow>)
      modifies this
      ensures Value() == old(Value()).(config := requestType, rows := table)
      ensures partner == old(partner)
    {
      config, rows := requestType, table;
    }

    method SubmitForApproval(allowed: bool) returns (error: Option<Error>)
      modifies this
      ensures Outcome(Submit(old(Value()), allowed), old(Value()), Value(), error)
      ensures partner == old(partner)
    {
      if !allowed || !Editable(state) {
        return Some(NotAllowed);
      }
      if config.requestType.dynamic && selection.name == "" {
        return Some(NotSelected);
      }
      state := Pending;
      return None;
    }

    method ActionApply(now: int) returns (error: Option<Error>)
      modifies this, partner
      ensures Outcome(ApplyRequest(old(Value()), now), old(Value()), Value(), error)
      ensures partner == old(partner)
      ensures state == old(state)
    {
      if applied {
        return Some(AlreadyApplied);
      }
      if state != Approved {
        return Some(NotApproved);
      }
      var content := if detail.Some? && detail.value in rows then Some(rows[detail.value].fields) else None;
      var failed := Apply(config.requestType, if selection.name == "" then None else Some(selection.name), content, partner, now);
      if failed.Some? {
        return Some(ApplyFailed(failed.value));
      }
      applied := true;
      return None;
    }

    method ActionApprove(now: int) returns (error: Option<Error>)
      modifies this, partner
      ensures Outcome(Approve(old(Value()), now), old(Value()), Value(), error)
      ensures partner == old(partner)
    {
      if state != Pending {
        return Some(NotAllowed);
      }
      state := Approved;
      error := None;
      if config.autoApply {
        error := ActionApply(now);
        if error.Some? {
          state := Pending;
        }
      }
    }

    method DoReject() returns (error: Option<Error>)
      modifies this
      ensures Outcome(Reject(old(Value())), old(Value()), Value(), error)
      ensures partner == old(partner)
    {
      state := Rejected;
      return None;
    }

    method DoRequestRevision() returns (error: Option<Error>)
      modifies this
      ensures Outcome(RequestRevision(old(Value())), old(Value()), Value(), error)
      ensures partner == old(partner)
    {
      if state != Pending {
        return Some(NotAllowed);
      }
      state := Revision;
      return None;
    }

    method ActionResetToDraft() returns (error: Option<Error>)
      modifies this
      ensures Outcome(Reset(old(Value())), old(Value()), Value(), error)
      ensures partner == old(partner)
    {
      if state != Rejected && state != Revision {
        return Some(NotAllowed);
      }
      state := Draft;
      return None;
    }
  }

  // ----- what the freeze keeps -----

  /** The change as submitted: the routed selection, the detail pointer and the row's fields. */
  datatype Snapshot = Snapshot(selection: Selection, detail: nat, fields: Record)

  /** The request points at a detail row of its own. */
  predicate Bound(r: Request) {
    r.detail.Some? && r.Owns(r.detail.value)
  }

  function SnapshotOf(r: Request): Snapshot
    requires Bound(r)
  {
    Snapshot(r.selection, r.detail.value, r.rows[r.detail.value].fields)
  }

  /** Two rows agree on some fields, up to the spellings of an unset value. */
  ghost predicate AgreeOn(fields: set<Field>, a: Record, b: Record) {
    forall f :: f in fields ==> Frozen(Get(a, f)) == Frozen(Get(b, f))
  }

  /** The request still holds the content of a snapshot. */
  ghost predicate Holds(r: Request, snap: Snapshot) {
    && Bound(r) && r.detail == Some(snap.detail) && r.selection == snap.selection
    && AgreeOn(Protected(r.config), r.rows[snap.detail].fields, snap.fields)
  }

  /** Of a request's change everything is kept: its type, its registrant, its selection and its content. */
  ghost predicate Kept(r: Request, after: Request) {
    && after.config == r.config && after.partner == r.partner
    && after.selection == r.selection && after.detail == r.detail && (Bound(r) ==> Bound(after))
    && (match (r.Detail(), after.Detail())
        case (Some(before), Some(now)) => AgreeOn(Protected(r.config), now, before)
        case (None, None) => true
        case _ => false)
  }

  /** Anything that can happen to a request, the registrant and other requests' rows included. */
  datatype Event =
    | EditRequest(vals: RequestValues)
    | EditRow(row: nat, fields: Record)
    | NewRow(row: nat, fields: Record)
    | MoveRow(row: nat, owner: nat)
    | DeleteRow(row: nat)
    | OpenDetail(row: nat)
    | WriteRegistrant(partner: nat, registrant: Record, isGroup: bool, format: NameFormat)
    | WriteType(config: Config, rows: map<nat, DetailRow>)
    | Submission(allowed: bool)
    | Approval(now: int) | Rejection | RevisionRequest | ResetToDraft | Application(now: int)
    | WriteState(state: State)
    | WriteApplied(applied: bool)
    | RegistrantChange(fields: Record)
    | ForeignRow(row: nat, owner: nat, fields: Record)

  ghost function Next(r: Request, e: Event): Result<Request, Error> {
    match e
    case EditRequest(vals) => WriteRequest(r, vals)
    case EditRow(row, fields) => WriteDetail(r, row, fields)
    case NewRow(row, fields) => CreateDetail(r, row, fields)
    case MoveRow(row, owner) => MoveDetail(r, row, owner)
    case DeleteRow(row) => DeleteDetail(r, row)
    case OpenDetail(row) => EnsureDetail(r, row)
    case WriteRegistrant(partner, registrant, isGroup, format) =>
      Ok(if partner == r.partner then r
         else r.(partner := partner, registrant := registrant, isGroup := isGroup, format := format))
    case WriteType(config, rows) => Ok(if config == r.config then r else r.(config := config, rows := rows))
    case Submission(allowed) => Submit(r, allowed)
    case Approval(now) => Approve(r, now)
    case Rejection => Reject(r)
    case RevisionRequest => RequestRevision(r)
    case ResetToDraft => Reset(r)
    case Application(now) => ApplyRequest(r, now)
    case WriteState(state) => Ok(r.(state := state))
    case WriteApplied(applied) => Ok(r.(applied := applied))
    case RegistrantChange(fields) => Ok(r.(registrant := fields))
    case ForeignRow(row, owner, fields) =>
      if r.Owns(row) then Err(UnknownRow) else Ok(r.(rows := r.rows[row := DetailRow(owner, fields)]))
  }

  /** The writes that alter a locked change, as no guard looks at them: the bound row, the registrant or the type. */
  ghost predicate Alters(r: Request, e: Event) {
    match e
    case MoveRow(row, owner) => r.detail == Some(row) && owner != r.id
    case DeleteRow(row) => r.detail == Some(row)
    case WriteRegistrant(partner, _, _, _) => partner != r.partner
    case WriteType(config, _) => config != r.config
    case _ => false
  }

  /** The write that no guard looks at either, and that no action makes: another state. */
  ghost predicate Lifts(r: Request, e: Event) {
    e.WriteState? && e.state != r.state
  }

  lemma DetailWriteKeeps(r: Request, row: nat, vals: Record)
    requires !Editable(r.state) && Bound(r) && WriteDetail(r, row, vals).Ok?
    ensures Kept(r, WriteDetail(r, row, vals).value)
  {
    var before, after := r.rows[row].fields, WriteDetail(r, row, vals).value.rows[row].fields;
    forall f | f in Protected(r.config)
      ensures Frozen(Get(after, f)) == Frozen(Get(before, f))
    {
      if f in vals {
        assert f in before && Frozen(vals[f]) == Frozen(before[f]);
      }
    }
  }

  lemma DetailCreateKeeps(r: Request, row: nat, fields: Record)
    requires !Editable(r.state) && Bound(r) && CreateDetail(r, row, fields).Ok?
    ensures Kept(r, CreateDetail(r, row, fields).value)
  {
  }

  /**
   * What alters a locked change: of the accepted steps from a pending, approved or rejected request
   * with a detail row of its own, exactly four, none of which is ever refused: giving the bound row to
   * another request, deleting it, writing another registrant, and writing another type.
   */
  lemma LockedKeeps(r: Request, e: Event)
    requires !Editable(r.state) && Bound(r)
    ensures Alters(r, e) || e.WriteState? ==> Next(r, e).Ok?
    ensures Next(r, e).Ok? ==> (Kept(r, Next(r, e).value) <==> !Alters(r, e))
  {
    if Next(r, e).Ok? {
      if e.EditRow? {
        DetailWriteKeeps(r, e.row, e.fields);
      } else if e.NewRow? {
        DetailCreateKeeps(r, e.row, e.fields);
      } else if e.EditRequest? {
        RequestWriteKeeps(r, e.vals);
      } else {
        OtherStepsKeep(r, e);
      }
    }
  }

  lemma RequestWriteKeeps(r: Request, vals: RequestValues)
    requires !Editable(r.state) && Bound(r) && WriteRequest(r, vals).Ok?
    ensures Kept(r, WriteRequest(r, vals).value)
  {
  }

  lemma OtherStepsKeep(r: Request, e: Event)
    requires !Editable(r.state) && Bound(r) && Next(r, e).Ok?
    requires !e.EditRow? && !e.NewRow? && !e.EditRequest?
    ensures Kept(r, Next(r, e).value) <==> !Alters(r, e)
  {
  }

  // ----- whole runs -----

  /**
   * What happened since the last submission: its type, registrant and selection, its content if
   * bound, an approval, and whether an unguarded write altered it, or moved the state.
   */
  datatype History = History(config: Option<Config>, partner: nat, selection: Selection, submitted: Option<Snapshot>,
                             approved: bool, altered: bool, lifted: bool)

  const NOTHING_YET := History(None, 0, Selection("", "", ""), None, false, false, false)

  ghost function Track(h: History, r: Request, e: Event, after: Request): History {
    match e
    case Submission(_) =>
      History(Some(after.config), after.partner, after.selection, if Bound(after) then Some(SnapshotOf(after)) else None,
              false, false, false)
    case Approval(_) => h.(approved := true)
    case _ => h.(altered := h.altered || Alters(r, e), lifted := h.lifted || Lifts(r, e))
  }

  /** A run: refused events leave the request as it is. */
  ghost function Run(r: Request, h: History, events: seq<Event>): (Request, History)
    decreases |events|
  {
    if events == [] then (r, h)
    else
      var (before, past) := Run(r, h, events[..|events| - 1]);
      var e := events[|events| - 1];
      match Next(before, e)
      case Ok(after) => (after, Track(past, before, e, after))
      case Err(_) => (before, past)
  }

  /**
   * Unless a write moved its state since the last submission, a pending or approved request has the
   * selection of that submission, and approved means approved since. Unless another unguarded write
   * altered it, it also has the type, the registrant and the content submitted, and a selection if
   * the type is dynamic.
   */
  ghost predicate Consistent(r: Request, h: History) {
    !h.lifted ==>
      && (r.state.Approved? ==> h.approved)
      && (r.state.Pending? || r.state.Approved? ==>
            && r.selection == h.selection
            && (!h.altered ==>
                  && h.config == Some(r.config) && r.partner == h.partner
                  && (r.config.requestType.dynamic ==> h.selection.name != "")
                  && (h.submitted.Some? ==> Holds(r, h.submitted.value))))
  }

  lemma HoldsAlong(r: Request, after: Request, snap: Snapshot)
    requires Holds(r, snap) && Kept(r, after)
    ensures Holds(after, snap)
  {
    var a, b := after.rows[snap.detail].fields, r.rows[snap.detail].fields;
    forall f | f in Protected(r.config)
      ensures Frozen(Get(a, f)) == Frozen(Get(snap.fields, f))
    {
      assert Frozen(Get(a, f)) == Frozen(Get(b, f));
    }
  }

  /** How an event moves the state: each has its own edge, a write of the state any, and edits, applications and the environment none. */
  ghost predicate Edge(e: Event, before: State, after: State) {
    match e
    case Submission(_) => Editable(before) && after == Pending
    case Approval(_) => before == Pending && after == Approved
    case Rejection => after == Rejected
    case RevisionRequest => before == Pending && after == Revision
    case ResetToDraft => (before == Rejected || before == Revision) && after == Draft
    case Application(_) => before == Approved && after == Approved
    case WriteState(state) => after == state
    case _ => after == before
  }

  /** Every accepted event follows its edge; a submission changes nothing else. */
  lemma StateSteps(r: Request, e: Event)
    requires Next(r, e).Ok?
    ensures Edge(e, r.state, Next(r, e).value.state)
    ensures e.Submission? ==> Next(r, e).value == r.(state := Pending) && (r.config.requestType.dynamic ==> r.selection.name != "")
    ensures !Alters(r, e) ==> Next(r, e).value.config == r.config && Next(r, e).value.partner == r.partner
  {
  }

  /** The selection is locked even for a request that is not bound to a detail. */
  lemma {:induction false} SelectionLocked(r: Request, e: Event)
    requires !Editable(r.state) && Next(r, e).Ok?
    ensures Next(r, e).value.selection == r.selection
  {
    match e {
      case OpenDetail(row) => EnsureKeepsSelection(r, row);
      case _ =>
    }
  }

  lemma EnsureKeepsSelection(r: Request, row: nat)
    requires !Editable(r.state) && EnsureDetail(r, row).Ok?
    ensures EnsureDetail(r, row).value.selection == r.selection
  {
    if r.detail.None? {
      var created := CreateDetail(r, row, r.config.blank).value;
      assert created.selection == r.selection;
    }
  }

  lemma {:induction false} StepConsistent(r: Request, h: History, e: Event)
    requires Consistent(r, h) && Next(r, e).Ok?
    ensures Consistent(Next(r, e).value, Track(h, r, e, Next(r, e).value))
  {
    StateSteps(r, e);
    var after := Next(r, e).value;
    if r.state.Pending? || r.state.Approved? {
      SelectionLocked(r, e);
      assert !e.Submission?;
      if !h.lifted && !h.altered && !Alters(r, e) && h.submitted.Some? {
        LockedKeeps(r, e);
        HoldsAlong(r, after, h.submitted.value);
      }
    }
  }

  /** Every request reachable from an editable one by any events is consistent with what happened to it. */
  lemma {:induction false} RunConsistent(r: Request, events: seq<Event>)
    requires Editable(r.state)
    ensures var (after, h) := Run(r, NOTHING_YET, events); Consistent(after, h)
    decreases |events|
  {
    if events != [] {
      var init := events[..|events| - 1];
      RunConsistent(r, init);
      var (before, past) := Run(r, NOTHING_YET, init);
      var e := events[|events| - 1];
      if Next(before, e).Ok? {
        StepConsistent(before, past, e);
      }
    }
  }

  /** The states in which the content is locked. */
  const LOCKED: set<State> := {Pending, Approved, Rejected}

  /** The event neither opens the request for editing nor alters it, and writes the state to some of `states` only. */
  ghost predicate Calm(r: Request, e: Event, states: set<State>) {
    !e.RevisionRequest? && !e.ResetToDraft? && !Alters(r, e) && (e.WriteState? ==> e.state in states)
  }

  /** All events are calm, from the start through the run. */
  ghost predicate Undisturbed(r: Request, events: seq<Event>, states: set<State>)
    decreases |events|
  {
    events != [] ==>
      var init, e := events[..|events| - 1], events[|events| - 1];
      Undisturbed(r, init, states) && Calm(After(r, init), e, states)
  }

  ghost function After(r: Request, events: seq<Event>): Request {
    Run(r, NOTHING_YET, events).0
  }

  lemma KeptAlong(r: Request, mid: Request, after: Request)
    requires Kept(r, mid) && Kept(mid, after)
    ensures Kept(r, after)
  {
    if r.Detail().Some? {
      var a, b, c := r.Detail().value, mid.Detail().value, after.Detail().value;
      forall f | f in Protected(r.config)
        ensures Frozen(Get(c, f)) == Frozen(Get(a, f))
      {
        assert Frozen(Get(b, f)) == Frozen(Get(a, f));
      }
    }
  }

  lemma {:induction false} BoundKeeps(r: Request, events: seq<Event>)
    requires !Editable(r.state) && Bound(r) && Undisturbed(r, events, LOCKED)
    ensures Kept(r, After(r, events)) && Bound(After(r, events)) && !Editable(After(r, events).state)
    decreases |events|
  {
    if events != [] {
      var init, e := events[..|events| - 1], events[|events| - 1];
      BoundKeeps(r, init);
      var before := After(r, init);
      if Next(before, e).Ok? {
        StateSteps(before, e);
        LockedKeeps(before, e);
        KeptAlong(r, before, Next(before, e).value);
      }
    }
  }

  lemma AfterOne(r: Request, events: seq<Event>, e: Event)
    ensures After(r, events + [e]) == if Next(After(r, events), e).Ok? then Next(After(r, events), e).value else After(r, events)
    ensures forall states :: Undisturbed(r, events + [e], states) <==> Undisturbed(r, events, states) && Calm(After(r, events), e, states)
  {
    assert (events + [e])[..|events + [e]| - 1] == events;
  }

  /** A row whose selector differs from a given content's. */
  function OtherContent(content: Option<Record>): Record {
    map[FIELD_TO_MODIFY := if content.Some? && Get(content.value, FIELD_TO_MODIFY) == Text("a") then Text("b") else Text("a")]
  }

  /** Two steps that bind a row, or replace the foreign or missing row pointed at. */
  function Opening(r: Request): seq<Event> {
    match r.detail
    case Some(row) => [ForeignRow(row, r.id + 1, OtherContent(r.Detail()))]
    case None => [ForeignRow(0, r.id, map[]), EditRequest(RequestValues(None, None, None, Some(Some(0))))]
  }

  lemma PointedOpens(r: Request, row: nat, states: set<State>)
    requires !Editable(r.state) && !Bound(r) && r.detail == Some(row)
    ensures Undisturbed(r, Opening(r), states) && !Kept(r, After(r, Opening(r)))
  {
    AfterFirst(r, ForeignRow(row, r.id + 1, OtherContent(r.Detail())), states);
    assert After(r, Opening(r)).Detail() == Some(OtherContent(r.Detail()));
    assert FIELD_TO_MODIFY in Protected(r.config);
  }

  lemma NowhereOpens(r: Request, states: set<State>)
    requires !Editable(r.state) && r.detail == None
    ensures Undisturbed(r, Opening(r), states) && !Kept(r, After(r, Opening(r)))
  {
    var give, bind := ForeignRow(0, r.id, map[]), EditRequest(RequestValues(None, None, None, Some(Some(0))));
    assert [] + [give] == [give] && After(r, []) == r && Undisturbed(r, [], states);
    AfterOne(r, [], give);
    assert [give] + [bind] == Opening(r);
    AfterOne(r, [give], bind);
    assert After(r, [give]).Owns(0) && After(r, [give]).detail == None;
    assert WriteRequest(After(r, [give]), bind.vals).Ok?;
  }

  lemma EditableOpens(r: Request, state: State, states: set<State>)
    requires Bound(r) && Editable(state) && state in states
    ensures var events := [WriteState(state), EditRequest(RequestValues(None, None, None, Some(None)))];
      Undisturbed(r, events, states) && !Kept(r, After(r, events))
  {
    var write, unbind := WriteState(state), EditRequest(RequestValues(None, None, None, Some(None)));
    AfterFirst(r, write, states);
    assert [write] + [unbind] == [write, unbind];
    AfterOne(r, [write], unbind);
  }

  lemma AfterFirst(r: Request, a: Event, states: set<State>)
    requires Next(r, a).Ok?
    ensures After(r, [a]) == Next(r, a).value && (Calm(r, a, states) ==> Undisturbed(r, [a], states))
  {
    assert [] + [a] == [a] && After(r, []) == r && Undisturbed(r, [], states);
    AfterOne(r, [], a);
  }

  lemma FewerStates(r: Request, events: seq<Event>, states: set<State>)
    requires Undisturbed(r, events, states) && states <= LOCKED
    ensures Undisturbed(r, events, LOCKED)
    decreases |events|
  {
    if events != [] {
      FewerStates(r, events[..|events| - 1], states);
    }
  }

  /**
   * Exactly what the freeze needs. Let only some states be written. Then every run from a locked
   * request that neither opens it by an action nor alters it keeps its whole change, if and only if the
   * request points at a detail row of its own (one that points nowhere, or at a foreign or missing
   * row, is open), and neither Draft nor Revision is among the states.
   */
  lemma KeptIffBound(r: Request, states: set<State>)
    requires !Editable(r.state)
    ensures Bound(r) && states <= LOCKED <==>
        forall events :: Undisturbed(r, events, states) ==> Kept(r, After(r, events))
  {
    if !Bound(r) {
      if r.detail.Some? {
        PointedOpens(r, r.detail.value, states);
      } else {
        NowhereOpens(r, states);
      }
    } else if states <= LOCKED {
      forall events | Undisturbed(r, events, states)
        ensures Kept(r, After(r, events))
      {
        FewerStates(r, events, states);
        BoundKeeps(r, events);
      }
    } else {
      var state :| state in states && state !in LOCKED;
      EditableOpens(r, state, states);
    }
  }

  /** In the run the state is written to some of `states` only. */
  ghost predicate WritesOnly(events: seq<Event>, states: set<State>) {
    forall e :: e in events && e.WriteState? ==> e.state in states
  }

  lemma {:induction false} ApprovedTracked(start: Request, events: seq<Event>)
    requires Editable(start.state) && forall e :: e in events && e.WriteState? ==> e.state != Approved
    ensures var (r, h) := Run(start, NOTHING_YET, events); r.state == Approved ==> h.approved
    decreases |events|
  {
    if events != [] {
      var init, e := events[..|events| - 1], events[|events| - 1];
      assert e in events;
      ApprovedTracked(start, init);
      var r := After(start, init);
      if Next(r, e).Ok? {
        StateSteps(r, e);
      }
    }
  }

  /**
   * Applied means approved, exactly: let only some states be written. Then in every run from an
   * unapplied draft that can be applied, a request is applied only when approved since its last
   * submission, if and only if Approved is not among them.
   */
  lemma AppliedIffApproved(start: Request, states: set<State>, now: int)
    requires Editable(start.state) && !start.applied
    requires ApplyOutcome(start.config.requestType, start.Selected(), start.Detail(), start.registrant, start.isGroup, start.format, now).Ok?
    ensures Approved !in states <==>
        forall events, e :: WritesOnly(events, states) && Applies(After(start, events), e) ==> ApprovedThen(start, events, e)
  {
    if Approved in states {
      var write, apply := WriteState(Approved), Application(now);
      AfterFirst(start, write, {});
      assert Applies(After(start, [write]), apply);
      assert [write][..|[write]| - 1] == [] && Run(start, NOTHING_YET, []) == (start, NOTHING_YET);
      assert !ApprovedThen(start, [write], apply);
      assert WritesOnly([write], states);
    } else {
      forall events, e | WritesOnly(events, states) && Applies(After(start, events), e)
        ensures ApprovedThen(start, events, e)
      {
        ApprovedTracked(start, events);
        OnlyApplying(After(start, events), e);
      }
    }
  }

  /** At the event the request was approved since its last submission. */
  ghost predicate ApprovedThen(start: Request, events: seq<Event>, e: Event) {
    var (r, h) := Run(start, NOTHING_YET, events);
    e.Approval? || h.approved
  }

  /** A write of the state lets an edit through that the lock refuses, and another one hides it. */
  lemma StateWriteLifts(r: Request, state: State, vals: Record)
    requires !Editable(r.state) && Bound(r) && Editable(state) && vals.Keys <= r.Detail().value.Keys
    requires !r.config.requestType.dynamic && AltersContent(r.config, r.Detail().value, vals)
    ensures Next(r, EditRow(r.detail.value, vals)) == Err(Locked)
    ensures var after := After(r, [WriteState(state), EditRow(r.detail.value, vals), WriteState(r.state)]);
      && after == r.(rows := r.rows[r.detail.value := DetailRow(r.id, r.Detail().value + StoreAll(vals))])
      && !Kept(r, after)
  {
    var open, edit, close := WriteState(state), EditRow(r.detail.value, vals), WriteState(r.state);
    var reopened := r.(state := state);
    assert Next(reopened, edit)
        == Ok(reopened.(rows := r.rows[r.detail.value := DetailRow(r.id, r.Detail().value + StoreAll(vals))]));
    AfterThree(r, open, edit, close, {});
    AlteredContent(r.config, r.Detail().value, vals);
  }

  lemma AlteredContent(config: Config, row: Record, vals: Record)
    requires AltersContent(config, row, vals)
    ensures !AgreeOn(Protected(config), row + StoreAll(vals), row)
  {
    var f :| f in Protected(config) && f in vals && f in row && Frozen(vals[f]) != Frozen(row[f]);
    assert Frozen(Get(row + StoreAll(vals), f)) != Frozen(Get(row, f));
  }

  /** How often a run applies the request. */
  ghost function Applications(r: Request, events: seq<Event>): nat
    decreases |events|
  {
    if events == [] then 0
    else
      var init, e := events[..|events| - 1], events[|events| - 1];
      Applications(r, init) + if Applies(After(r, init), e) then 1 else 0
  }

  /** A request is applied once, if `is_applied` is not written back; and not at all if it was marked applied. */
  lemma {:induction false} AppliedOnce(r: Request, events: seq<Event>)
    requires WriteApplied(false) !in events
    ensures Applications(r, events) <= if r.applied then 0 else 1
    ensures Applications(r, events) > 0 || r.applied ==> After(r, events).applied
    decreases |events|
  {
    if events != [] {
      AppliedOnce(r, events[..|events| - 1]);
    }
  }

  /** Written, it marks a request applied that was not, or lets an applied one be applied again. */
  lemma AppliedAgain(r: Request, first: int, second: int)
    requires r.state == Approved && !r.applied && Next(r, Application(first)).Ok?
    ensures Next(r, WriteApplied(true)).Ok? && Next(Next(r, WriteApplied(true)).value, Application(first)) == Err(AlreadyApplied)
    ensures var applied := Next(r, Application(first)).value;
      && Next(applied, Application(second)) == Err(AlreadyApplied)
      && (var again := ApplyOutcome(r.config.requestType, r.Selected(), r.Detail(), applied.registrant, r.isGroup, r.format, second);
          again.Ok? ==> Next(Next(applied, WriteApplied(false)).value, Application(second)).Ok?)
  {
  }

  // ----- apply -----

  /** A transform whose result depends on the protected fields of the detail alone, and not on the clock. */
  ghost predicate Stable(transform: Transform, fields: set<Field>) {
    forall v1, v2, d1, d2, r1, r2, t1, t2 {:trigger transform(v1, d1, r1, t1), transform(v2, d2, r2, t2)} ::
      Frozen(v1) == Frozen(v2) && AgreeOn(fields, d1, d2) ==>
        FrozenResult(transform(v1, d1, r1, t1)) == FrozenResult(transform(v2, d2, r2, t2))
  }

  function FrozenResult(result: Option<Value>): Option<Value> {
    match result
    case Some(value) => Some(Frozen(value))
    case None => None
  }

  /** What a mapping proposes is fixed once the protected fields are. */
  lemma ProposalFixed(m: Mapping, config: Config, a: Record, b: Record, ra: Record, rb: Record, ta: int, tb: int)
    requires AgreeOn(Protected(config), a, b) && m.source in Protected(config)
    requires m.expression.Some? ==> Stable(m.expression.value, Protected(config))
    ensures FrozenResult(ProposedValue(m, a, ra, ta)) == FrozenResult(ProposedValue(m, b, rb, tb))
  {
    if m.expression.Some? {
      var transform := m.expression.value;
      assert Frozen(Get(a, m.source)) == Frozen(Get(b, m.source));
      assert FrozenResult(transform(Get(a, m.source), a, ra, ta)) == FrozenResult(transform(Get(b, m.source), b, rb, tb));
    }
  }

  /** The mappings that a selection routes to. */
  function MappingsOf(config: Config, selection: Selection): seq<Mapping> {
    EffectiveMappings(config.requestType, if selection.name == "" then None else Some(selection.name))
  }

  /** Applying these mappings may regenerate the field: it is an individual's name, and some mapping writes a name part. */
  ghost predicate Regenerable(mappings: seq<Mapping>, f: Field, isGroup: bool) {
    f == "name" && !isGroup && exists m :: m in mappings && m.target in NAME_PARTS
  }

  /** The mapping alone decides its target. */
  ghost predicate Decides(mappings: seq<Mapping>, m: Mapping, isGroup: bool) {
    SoleTarget(mappings, m) && !Regenerable(mappings, m.target, isGroup)
  }

  lemma NotRegenerated(mappings: seq<Mapping>, f: Field, detail: Record, registrant: Record, isGroup: bool, now: int)
    requires f == "name" && Renames(mappings, detail, registrant, isGroup, now)
    ensures Regenerable(mappings, f, isGroup)
  {
  }

  /** The target of a mapping holds what the mapping proposed in a snapshot, whatever the registrant and the time were then. */
  ghost predicate WritesProposed(r: Request, after: Request, snap: Snapshot, m: Mapping, registrant: Record, since: int) {
    Decides(MappingsOf(r.config, snap.selection), m, r.isGroup)
    && (m.expression.Some? ==> Stable(m.expression.value, Protected(r.config))) ==>
      Some(Frozen(Get(after.registrant, m.target))) == FrozenResult(ProposedValue(m, snap.fields, registrant, since))
  }

  /** The event applies the request. */
  ghost predicate Applies(r: Request, e: Event) {
    (e.Application? || e.Approval?) && Next(r, e).Ok? && !r.applied && Next(r, e).value.applied
  }

  /** When an application or approval happens. */
  function TimeOf(e: Event): int
    requires e.Application? || e.Approval?
  {
    e.now
  }

  /**
   * Apply writes what was submitted and approved. In every run of any events, unless a write moved the
   * state since the last submission, a request that is applied was approved since then and has the
   * selection submitted; unless another unguarded write altered it, it has the type and the registrant
   * of that submission; and if that submission had a detail row of the request's own, each mapping the
   * selection routes to that is direct (or whose transform reads protected fields only), and has its
   * target to itself, leaves in its target the value proposed at submission. Fields that are no target
   * of these mappings keep their value in any case. A regenerated name is formatted from the parts applied.
   */
  lemma AppliesWhatWasSubmitted(start: Request, events: seq<Event>, e: Event, m: Mapping, registrant: Record, since: int, f: Field)
    requires Editable(start.state)
    requires After(start, events).config.requestType.fieldMapping && Applies(After(start, events), e)
    ensures var (r, h) := Run(start, NOTHING_YET, events);
      var after := Next(r, e).value;
      var mappings := MappingsOf(r.config, r.selection);
      && ((forall m' :: m' in mappings ==> m'.target != f) && !Regenerable(mappings, f, r.isGroup) ==>
            Get(after.registrant, f) == Get(r.registrant, f))
      && (r.Detail().Some? && Renames(mappings, r.Detail().value, r.registrant, r.isGroup, TimeOf(e)) ==>
            Get(after.registrant, "name") == FormattedName(after.registrant, r.format))
      && (!h.lifted ==> Track(h, r, e, after).approved && after.selection == h.selection)
      && (!h.lifted && !h.altered ==>
            && h.config == Some(after.config) && h.partner == after.partner
            && (h.submitted.Some? ==> WritesProposed(r, after, h.submitted.value, m, registrant, since)))
  {
    RunConsistent(start, events);
    var (r, h) := Run(start, NOTHING_YET, events);
    OnlyApplying(r, e);
    var mappings := MappingsOf(r.config, r.selection);
    if (forall m' :: m' in mappings ==> m'.target != f) && !Regenerable(mappings, f, r.isGroup) {
      ApplicationKeeps(r, e, f);
    }
    ApplicationRenames(r, e);
    if !h.lifted && !h.altered && h.submitted.Some? {
      ApplicationWrites(r, e, h.submitted.value, m, registrant, since);
    }
  }

  lemma ApplicationRenames(r: Request, e: Event)
    requires Applies(r, e)
    ensures r.Detail().Some? && Renames(MappingsOf(r.config, r.selection), r.Detail().value, r.registrant, r.isGroup, TimeOf(e)) ==>
        var after := Next(r, e).value.registrant; Get(after, "name") == FormattedName(after, r.format)
  {
    OnlyApplying(r, e);
    if r.Detail().Some? && Renames(MappingsOf(r.config, r.selection), r.Detail().value, r.registrant, r.isGroup, TimeOf(e)) {
      NameRegenerated(r.config.requestType, r.Selected(), r.Detail().value, r.registrant, r.isGroup, r.format, TimeOf(e));
    }
  }

  lemma ApplicationKeeps(r: Request, e: Event, f: Field)
    requires Applies(r, e)
    requires forall m :: m in MappingsOf(r.config, r.selection) ==> m.target != f
    requires !Regenerable(MappingsOf(r.config, r.selection), f, r.isGroup)
    ensures Get(Next(r, e).value.registrant, f) == Get(r.registrant, f)
  {
    OnlyApplying(r, e);
    var mappings := EffectiveMappings(r.config.requestType, r.Selected());
    if f == "name" && Renames(mappings, r.Detail().value, r.registrant, r.isGroup, TimeOf(e)) {
      NotRegenerated(mappings, f, r.Detail().value, r.registrant, r.isGroup, TimeOf(e));
    }
    UntargetedKept(r.config.requestType, r.Selected(), r.Detail().value, r.registrant, r.isGroup, r.format, f, TimeOf(e));
  }

  lemma ApplicationWrites(r: Request, e: Event, snap: Snapshot, m: Mapping, registrant: Record, since: int)
    requires Holds(r, snap) && r.config.requestType.fieldMapping
    requires Applies(r, e)
    ensures WritesProposed(r, Next(r, e).value, snap, m, registrant, since)
  {
    if Decides(MappingsOf(r.config, snap.selection), m, r.isGroup)
      && (m.expression.Some? ==> Stable(m.expression.value, Protected(r.config)))
    {
      AppliedProposal(r, e, m);
      EffectiveIsConfigured(r.config.requestType, r.Selected(), m);
      ProposalFixed(m, r.config, r.Detail().value, snap.fields, r.registrant, registrant, TimeOf(e), since);
    }
  }

  /** What applying leaves in the target is what the mapping proposes then. */
  lemma AppliedProposal(r: Request, e: Event, m: Mapping)
    requires Applies(r, e) && Decides(MappingsOf(r.config, r.selection), m, r.isGroup)
    ensures r.Detail().Some?
    ensures Some(Frozen(Get(Next(r, e).value.registrant, m.target)))
         == FrozenResult(ProposedValue(m, r.Detail().value, r.registrant, TimeOf(e)))
  {
    OnlyApplying(r, e);
    var now := TimeOf(e);
    var mappings := EffectiveMappings(r.config.requestType, r.Selected());
    if m.target == "name" && Renames(mappings, r.Detail().value, r.registrant, r.isGroup, now) {
      NotRegenerated(mappings, m.target, r.Detail().value, r.registrant, r.isGroup, now);
    }
    AppliedValue(r.config.requestType, r.Selected(), r.Detail().value, r.registrant, r.isGroup, r.format, m, now);
    StoredFreezes(ProposedValue(m, r.Detail().value, r.registrant, now).value, Get(Next(r, e).value.registrant, m.target));
  }

  lemma StoredFreezes(a: Value, b: Value)
    requires Same(Stored(a), Stored(b))
    ensures Frozen(a) == Frozen(b)
  {
  }

  lemma EffectiveIsConfigured(requestType: RequestType, selected: Option<Field>, m: Mapping)
    requires m in EffectiveMappings(requestType, selected)
    ensures exists i :: 0 <= i < |requestType.mappings| && requestType.mappings[i] == m
  {
    assert m in requestType.mappings;
  }

  /** A request is applied when approved, or with its approval, and with its selection and detail of that moment. */
  lemma OnlyApplying(r: Request, e: Event)
    requires Applies(r, e)
    ensures if e.Application? then r.state == Approved else r.state == Pending
    ensures ApplyOutcome(r.config.requestType, r.Selected(), r.Detail(), r.registrant, r.isGroup, r.format, TimeOf(e))
        == Ok(Next(r, e).value.registrant)
    ensures Next(r, e).value == r.(state := Approved, applied := true, registrant := Next(r, e).value.registrant)
  {
  }

  // ----- when the value is fixed at submission -----

  /**
   * An edit that a locked row accepts: it names existing fields, changes no protected one, and a sync
   * it sets off would derive the selection anew as it is, for the registrant of that moment.
   */
  ghost predicate Loose(config: Config, selection: Selection, row: Record, registrant: Record, vals: Record) {
    && vals.Keys <= row.Keys && !AltersContent(config, row, vals)
    && (config.requestType.dynamic && Syncs(row + StoreAll(vals), vals) ==>
          SyncedSelection(config, row + StoreAll(vals), registrant) == selection)
  }

  lemma LooseAccepted(r: Request, vals: Record)
    requires !Editable(r.state) && Bound(r)
    ensures var row := r.detail.value;
      var fields := r.rows[row].fields;
      && (WriteDetail(r, row, vals).Ok? <==> Loose(r.config, r.selection, fields, r.registrant, vals))
      && (WriteDetail(r, row, vals).Ok? ==>
            WriteDetail(r, row, vals).value == r.(rows := r.rows[row := DetailRow(r.id, fields + StoreAll(vals))]))
  {
  }

  lemma LooseKeeps(config: Config, selection: Selection, row: Record, registrant: Record, vals: Record)
    requires Loose(config, selection, row, registrant, vals)
    ensures AgreeOn(Protected(config), row + StoreAll(vals), row)
  {
    forall f | f in Protected(config)
      ensures Frozen(Get(row + StoreAll(vals), f)) == Frozen(Get(row, f))
    {
      if f in vals {
        assert f in row && Frozen(vals[f]) == Frozen(row[f]);
      }
    }
  }

  lemma LooseBoth(config: Config, selection: Selection, row: Record, reg1: Record, vals1: Record, reg2: Record,
                  vals2: Record)
    requires Loose(config, selection, row, reg1, vals1)
    requires Loose(config, selection, row + StoreAll(vals1), reg2, vals2)
    ensures !AltersContent(config, row, vals1 + vals2)
  {
    var once := row + StoreAll(vals1);
    LooseKeeps(config, selection, row, reg1, vals1);
    forall f | f in Protected(config) && f in vals1 + vals2 && f in row
      ensures Frozen((vals1 + vals2)[f]) == Frozen(row[f])
    {
      assert Frozen(Get(once, f)) == Frozen(Get(row, f));
    }
  }

  /** A selection derived again after an edit that sets off no sync. */
  lemma SyncedAsBefore(config: Config, row: Record, registrant: Record, vals: Record)
    requires !Syncs(row + StoreAll(vals), vals)
    ensures SyncedSelection(config, row + StoreAll(vals), registrant) == SyncedSelection(config, row, registrant)
  {
    var after := row + StoreAll(vals);
    assert Get(after, FIELD_TO_MODIFY) == Get(row, FIELD_TO_MODIFY);
    var field := FieldToModify(row);
    assert field != "" ==> Get(after, field) == Get(row, field);
  }

  /** The registrant whose sync decides after two edits in a row. */
  function Decisive(row: Record, reg1: Record, reg2: Record, vals2: Record): Record {
    if Syncs(row, vals2) then reg2 else reg1
  }

  lemma SyncsEarlier(once: Record, vals1: Record, vals2: Record)
    requires !Syncs(once + StoreAll(vals2), vals2) && Syncs(once + StoreAll(vals2), vals1 + vals2)
    ensures Syncs(once, vals1)
  {
    assert Get(once + StoreAll(vals2), FIELD_TO_MODIFY) == Get(once, FIELD_TO_MODIFY);
  }

  /** Two accepted edits in a row amount to one. */
  lemma LooseCompose(config: Config, selection: Selection, row: Record, reg1: Record, vals1: Record, reg2: Record,
                     vals2: Record)
    requires Loose(config, selection, row, reg1, vals1)
    requires Loose(config, selection, row + StoreAll(vals1), reg2, vals2)
    ensures row + StoreAll(vals1 + vals2) == row + StoreAll(vals1) + StoreAll(vals2)
    ensures Loose(config, selection, row, Decisive(row + StoreAll(vals1 + vals2), reg1, reg2, vals2), vals1 + vals2)
  {
    var once := row + StoreAll(vals1);
    var twice := once + StoreAll(vals2);
    assert row + StoreAll(vals1 + vals2) == twice;
    LooseBoth(config, selection, row, reg1, vals1, reg2, vals2);
    if Syncs(twice, vals2) {
      assert Decisive(twice, reg1, reg2, vals2) == reg2;
    } else {
      SyncedAsBefore(config, once, reg1, vals2);
      if Syncs(twice, vals1 + vals2) {
        SyncsEarlier(once, vals1, vals2);
      }
    }
  }

  /** What one step does to the bound row of a locked request. */
  lemma RowStep(r: Request, e: Event)
    requires !Editable(r.state) && Bound(r) && Next(r, e).Ok? && Calm(r, e, LOCKED)
    ensures var after := Next(r, e).value;
      && after.isGroup == r.isGroup && after.format == r.format
      && (after.Detail() == r.Detail()
          || (e.EditRow? && Loose(r.config, r.selection, r.Detail().value, r.registrant, e.fields)
              && after.Detail() == Some(r.Detail().value + StoreAll(e.fields))))
  {
    if e.EditRow? && r.detail == Some(e.row) {
      LooseAccepted(r, e.fields);
    }
  }

  /** The bound row of a locked request, as one accepted edit of it. */
  ghost predicate OneEdit(r: Request, row: Record, registrant: Record, vals: Record) {
    r.Detail().Some? && Loose(r.config, r.selection, r.Detail().value, registrant, vals)
    && row == r.Detail().value + StoreAll(vals)
  }

  lemma {:induction false} RowAfter(r: Request, events: seq<Event>) returns (registrant: Record, vals: Record)
    requires !Editable(r.state) && Bound(r) && Undisturbed(r, events, LOCKED)
    ensures var after := After(r, events);
      && after.isGroup == r.isGroup && after.format == r.format
      && Kept(r, after) && Bound(after) && OneEdit(r, after.Detail().value, registrant, vals)
    decreases |events|
  {
    BoundKeeps(r, events);
    if events == [] {
      registrant, vals := r.registrant, map[];
      assert r.Detail().value + StoreAll(map[]) == r.Detail().value;
    } else {
      var init, e := events[..|events| - 1], events[|events| - 1];
      registrant, vals := RowAfter(r, init);
      BoundKeeps(r, init);
      var before := After(r, init);
      if Next(before, e).Ok? {
        RowStep(before, e);
        if After(r, events).Detail() != before.Detail() {
          var row := r.Detail().value;
          LooseCompose(r.config, r.selection, row, registrant, vals, before.registrant, e.fields);
          registrant := Decisive(row + StoreAll(vals + e.fields), registrant, before.registrant, e.fields);
          vals := vals + e.fields;
        }
      }
    }
  }

  /** After an accepted edit, with some registrant and at some time, a mapping still proposes what it proposed at `t0`. */
  ghost predicate SameProposal(r: Request, m: Mapping, vals: Record, registrant: Record, now: int, t0: int)
    requires Bound(r)
  {
    var row := r.Detail().value;
    ApplyOutcome(r.config.requestType, r.Selected(), Some(row + StoreAll(vals)), registrant, r.isGroup, r.format, now).Ok? ==>
      FrozenResult(ProposedValue(m, row + StoreAll(vals), registrant, now)) == FrozenResult(ProposedValue(m, row, r.registrant, t0))
  }

  /** No edit the lock lets through, no registrant and no time changes what the mapping proposes. */
  ghost predicate FixedProposal(r: Request, m: Mapping, t0: int)
    requires Bound(r)
  {
    forall reg1, vals, reg2, now ::
      Loose(r.config, r.selection, r.Detail().value, reg1, vals) ==> SameProposal(r, m, vals, reg2, now, t0)
  }

  /** The target holds what the mapping proposed in `r` at `t0`. */
  ghost predicate WritesAsIn(r: Request, m: Mapping, t0: int, after: Request)
    requires Bound(r)
  {
    Some(Frozen(Get(after.registrant, m.target))) == FrozenResult(ProposedValue(m, r.Detail().value, r.registrant, t0))
  }

  /** The edit and the registrant change, reached by accepted steps. */
  function EditPath(row: nat, reg1: Record, vals: Record, reg2: Record): seq<Event> {
    [RegistrantChange(reg1), EditRow(row, vals), RegistrantChange(reg2)]
  }

  lemma EditAccepted(r: Request, reg1: Record, vals: Record)
    requires !Editable(r.state) && Bound(r) && Loose(r.config, r.selection, r.Detail().value, reg1, vals)
    ensures Next(r.(registrant := reg1), EditRow(r.detail.value, vals)) == Ok(r.(registrant := reg1,
        rows := r.rows[r.detail.value := DetailRow(r.id, r.Detail().value + StoreAll(vals))]))
  {
    LooseAccepted(r.(registrant := reg1), vals);
  }

  lemma EditReached(r: Request, reg1: Record, vals: Record, reg2: Record)
    requires !Editable(r.state) && Bound(r) && Loose(r.config, r.selection, r.Detail().value, reg1, vals)
    ensures var events, row := EditPath(r.detail.value, reg1, vals, reg2), DetailRow(r.id, r.Detail().value + StoreAll(vals));
      Undisturbed(r, events, LOCKED) && After(r, events) == r.(registrant := reg2, rows := r.rows[r.detail.value := row])
  {
    var first, edit, last := RegistrantChange(reg1), EditRow(r.detail.value, vals), RegistrantChange(reg2);
    EditAccepted(r, reg1, vals);
    AfterThree(r, first, edit, last, LOCKED);
  }

  /** A run of three accepted events. */
  lemma AfterThree(r: Request, a: Event, b: Event, c: Event, states: set<State>)
    requires Next(r, a).Ok? && Next(Next(r, a).value, b).Ok? && Next(Next(Next(r, a).value, b).value, c).Ok?
    ensures After(r, [a, b, c]) == Next(Next(Next(r, a).value, b).value, c).value
    ensures Calm(r, a, states) && Calm(Next(r, a).value, b, states) && Calm(Next(Next(r, a).value, b).value, c, states) ==>
        Undisturbed(r, [a, b, c], states)
  {
    AfterFirst(r, a, states);
    assert [a] + [b] == [a, b] && [a, b] + [c] == [a, b, c];
    AfterOne(r, [a], b);
    AfterOne(r, [a, b], c);
  }

  /** The same for an approved request, or for a pending one that its approval applies. */
  lemma Reaching(r: Request, reg1: Record, vals: Record, reg2: Record, now: int) returns (events: seq<Event>, e: Event)
    requires (r.state == Pending || r.state == Approved) && !r.applied && Bound(r)
    requires Loose(r.config, r.selection, r.Detail().value, reg1, vals)
    ensures Undisturbed(r, events, LOCKED) && (e == Application(now) || (e == Approval(now) && r.config.autoApply))
    ensures var state, row := if e.Approval? then Pending else Approved, DetailRow(r.id, r.Detail().value + StoreAll(vals));
      After(r, events) == r.(state := state, registrant := reg2, rows := r.rows[r.detail.value := row])
  {
    EditReached(r, reg1, vals, reg2);
    events := EditPath(r.detail.value, reg1, vals, reg2);
    e := if r.state == Pending && r.config.autoApply then Approval(now) else Application(now);
    if r.state == Pending && !r.config.autoApply {
      AfterOne(r, events, Approval(now));
      events := events + [Approval(now)];
    }
  }

  /**
   * The value is fixed at submission, exactly: for a mapping that has its target to itself, every run
   * from a pending or approved request that does not disturb it, and applies it, writes what the
   * mapping proposes there at `t0`, if and only if no edit the lock lets through, no change of the
   * registrant and no passing of time alters that proposal.
   */
  lemma FixedIffStable(r: Request, m: Mapping, t0: int)
    requires (r.state == Pending || r.state == Approved) && !r.applied && Bound(r)
    requires Decides(MappingsOf(r.config, r.selection), m, r.isGroup)
    ensures FixedProposal(r, m, t0) <==>
        forall events, e :: Undisturbed(r, events, LOCKED) && Applies(After(r, events), e) ==>
          WritesAsIn(r, m, t0, Next(After(r, events), e).value)
  {
    if FixedProposal(r, m, t0) {
      forall events, e | Undisturbed(r, events, LOCKED) && Applies(After(r, events), e)
        ensures WritesAsIn(r, m, t0, Next(After(r, events), e).value)
      {
        FixedIsWritten(r, m, t0, events, e);
      }
    } else {
      var reg1, vals, reg2, now :|
        Loose(r.config, r.selection, r.Detail().value, reg1, vals) && !SameProposal(r, m, vals, reg2, now, t0);
      var events, e := MovedIsWritten(r, m, t0, reg1, vals, reg2, now);
    }
  }

  lemma MovedIsWritten(r: Request, m: Mapping, t0: int, reg1: Record, vals: Record, reg2: Record, now: int)
      returns (events: seq<Event>, e: Event)
    requires (r.state == Pending || r.state == Approved) && !r.applied && Bound(r)
    requires Decides(MappingsOf(r.config, r.selection), m, r.isGroup)
    requires Loose(r.config, r.selection, r.Detail().value, reg1, vals) && !SameProposal(r, m, vals, reg2, now, t0)
    ensures Undisturbed(r, events, LOCKED) && Applies(After(r, events), e) && !WritesAsIn(r, m, t0, Next(After(r, events), e).value)
  {
    events, e := Reaching(r, reg1, vals, reg2, now);
    var before := After(r, events);
    assert Applies(before, e);
    AppliedProposal(before, e, m);
  }

  lemma FixedIsWritten(r: Request, m: Mapping, t0: int, events: seq<Event>, e: Event)
    requires !Editable(r.state) && Bound(r) && FixedProposal(r, m, t0)
    requires Decides(MappingsOf(r.config, r.selection), m, r.isGroup)
    requires Undisturbed(r, events, LOCKED) && Applies(After(r, events), e)
    ensures WritesAsIn(r, m, t0, Next(After(r, events), e).value)
  {
    var before := After(r, events);
    var registrant, vals := RowAfter(r, events);
    OnlyApplying(before, e);
    AppliedProposal(before, e, m);
    assert SameProposal(r, m, vals, before.registrant, TimeOf(e), t0);
  }

  /** A mapping without a transform, or with one that reads protected fields only, is fixed. */
  lemma StableIsFixed(r: Request, m: Mapping, t0: int)
    requires Bound(r) && m.source in Protected(r.config)
    requires m.expression.Some? ==> Stable(m.expression.value, Protected(r.config))
    ensures FixedProposal(r, m, t0)
  {
    var row := r.Detail().value;
    forall reg1, vals, reg2, now | Loose(r.config, r.selection, row, reg1, vals)
      ensures SameProposal(r, m, vals, reg2, now, t0)
    {
      LooseKeeps(r.config, r.selection, row, reg1, vals);
      ProposalFixed(m, r.config, row + StoreAll(vals), row, reg2, r.registrant, now, t0);
    }
  }

  // ----- where the freeze ends -----

  /**
   * The pointer must be bound when the request is submitted: otherwise any content at all can
   * still be bound after submission, by creating a row for the request and pointing at it.
   */
  lemma UnboundIsOpen(r: Request, row: nat, fields: Record)
    requires !Editable(r.state) && r.detail.None? && row !in r.rows && FieldToModify(StoreAll(fields)) == ""
    ensures Next(r, NewRow(row, fields)).Ok?
    ensures var created := Next(r, NewRow(row, fields)).value;
      var bind := EditRequest(RequestValues(None, None, None, Some(Some(row))));
      Next(created, bind).Ok? && Next(created, bind).value.Detail() == Some(StoreAll(fields))
  {
    var created := Next(r, NewRow(row, fields)).value;
    assert created.Owns(row);
  }

  /**
   * The bound row is not held to its request: on a locked request its requester gives it to another
   * request, writes what he likes there, and takes it back. The request then points at a row of its
   * own again, with any content at all.
   */
  lemma MovedRowIsOpen(r: Request, other: nat, fields: Record)
    requires !Editable(r.state) && Bound(r) && other != r.id
    ensures var row := r.detail.value;
      var after := After(r, [MoveRow(row, other), ForeignRow(row, other, fields), ForeignRow(row, r.id, fields)]);
      Bound(after) && after.Detail() == Some(fields) && after == r.(rows := r.rows[row := DetailRow(r.id, fields)])
  {
    var row := r.detail.value;
    var move, edit, back := MoveRow(row, other), ForeignRow(row, other, fields), ForeignRow(row, r.id, fields);
    AfterThree(r, move, edit, back, {});
    assert After(r, [move, edit, back]).rows == r.rows[row := DetailRow(r.id, fields)];
  }

  /**
   * Nor are the registrant and the type: on an approved request either can be written, and apply
   * then updates the other registrant, or follows the other type's mappings.
   */
  lemma RedirectedApply(r: Request, e: Event, now: int)
    requires r.state == Approved && !r.applied && Alters(r, e) && (e.WriteRegistrant? || e.WriteType?)
    ensures Next(r, e).Ok?
    ensures var target := Next(r, e).value;
      var outcome := ApplyOutcome(target.config.requestType, r.Selected(), target.Detail(), target.registrant,
                                  target.isGroup, target.format, now);
      && (e.WriteRegistrant? ==> target.partner == e.partner && target.registrant == e.registrant && target.Detail() == r.Detail())
      && (e.WriteType? ==> target.config == e.config && target.registrant == r.registrant)
      && (Next(target, Application(now)).Ok? <==> outcome.Ok?)
      && (outcome.Ok? ==> Next(target, Application(now)).value == target.(registrant := outcome.value, applied := true))
  {
  }

  /** A blank row the type's prefill can be written to: all its fields exist and it selects nothing. */
  predicate BlankFits(config: Config) {
    && config.prefill.Keys <= config.blank.Keys
    && FIELD_TO_MODIFY !in config.prefill && FieldToModify(StoreAll(config.blank)) == ""
  }

  /**
   * Opening the detail creates and binds a missing row. Before submission it always succeeds; a
   * submitted request is repaired if and only if the prefill finds no protected field to change.
   */
  lemma EnsureRepairs(r: Request, row: nat)
    requires r.detail.None? && row !in r.rows && BlankFits(r.config)
    ensures EnsureDetail(r, row).Ok? <==> Editable(r.state) || !PrefillLocked(r.config, r.registrant)
    ensures EnsureDetail(r, row).Ok? ==> Bound(EnsureDetail(r, row).value) && EnsureDetail(r, row).value.detail == Some(row)
  {
    var vals := PrefillValues(r.config, r.registrant);
    var bound := BlankBound(r, row);
    BindsBlank(r, row);
    PrefillAlters(r.config, r.registrant);
    if vals != map[] {
      PrefillWritten(bound, row, vals);
    }
  }

  /** The prefill has a protected field to change. */
  ghost predicate PrefillLocked(config: Config, registrant: Record)
    requires BlankFits(config)
  {
    exists f :: f in Protected(config) && f in config.prefill && Truthy(Get(registrant, config.prefill[f]))
      && Frozen(Get(registrant, config.prefill[f])) != Frozen(config.blank[f])
  }

  /** The request with a blank row created and bound. */
  function BlankBound(r: Request, row: nat): Request {
    r.(rows := r.rows[row := DetailRow(r.id, StoreAll(r.config.blank))], detail := Some(row))
  }

  lemma BindsBlank(r: Request, row: nat)
    requires r.detail.None? && row !in r.rows && BlankFits(r.config)
    ensures var created := CreateDetail(r, row, r.config.blank);
      created.Ok? && WriteRequest(created.value, RequestValues(None, None, None, Some(Some(row)))) == Ok(BlankBound(r, row))
  {
    assert CreateDetail(r, row, r.config.blank).value.Owns(row);
  }

  lemma PrefillWritten(bound: Request, row: nat, vals: Record)
    requires bound.Owns(row) && FIELD_TO_MODIFY !in vals && vals.Keys <= bound.rows[row].fields.Keys
    requires FieldToModify(bound.rows[row].fields) == ""
    ensures var written := WriteDetail(bound, row, vals);
      && (written.Ok? <==> Editable(bound.state) || !AltersContent(bound.config, bound.rows[row].fields, vals))
      && (written.Ok? ==> written.value.detail == bound.detail && written.value.Owns(row) && written.value.id == bound.id)
  {
    assert FieldToModify(bound.rows[row].fields + StoreAll(vals)) == "";
  }

  lemma PrefillAlters(config: Config, registrant: Record)
    requires BlankFits(config)
    ensures AltersContent(config, StoreAll(config.blank), PrefillValues(config, registrant)) == PrefillLocked(config, registrant)
  {
    forall f | f in config.blank
      ensures Frozen(StoreAll(config.blank)[f]) == Frozen(config.blank[f])
    {
    }
  }

  /** A type with one mapping into the phone. */
  function PhoneType(read: Transform): Config {
    Config(RequestType(false, true, [Mapping("phone", None, "phone", Some(read))]), false, map[], v => "", map[])
  }

  /** A transform that reads a field that is not mapped, and so not protected. */
  const READ_NOTE: Transform := (value, detail, registrant, now) => Some(Get(detail, "note"))

  /** A transform that reads the clock, and nothing else. */
  const READ_CLOCK: Transform := (value, detail, registrant, now) => Some(Num(now))

  /**
   * The proposal need not be fixed: a transform that reads an unprotected detail field lets an edit
   * made after approval decide what is written.
   */
  lemma UnprotectedTransform(r: Request, v: Value, now: int)
    requires r.config == PhoneType(READ_NOTE) && r.state == Approved && Bound(r) && !r.applied && v != Missing
    requires "note" in r.rows[r.detail.value].fields && "phone" in r.registrant
    ensures var edit := EditRow(r.detail.value, map["note" := v]);
      && Next(r, edit).Ok?
      && Next(Next(r, edit).value, Application(now)).Ok?
      && Frozen(Get(Next(Next(r, edit).value, Application(now)).value.registrant, "phone")) == Frozen(v)
  {
    var vals: Record := map["note" := v];
    NoteLoose(r.config, r.selection, r.Detail().value, r.registrant, v);
    EditAccepted(r, r.registrant, vals);
    assert r.(registrant := r.registrant) == r;
    var edited := Next(r, EditRow(r.detail.value, vals)).value;
    assert Get(edited.Detail().value, "note") == v;
    PhoneWritten(edited, READ_NOTE, now);
  }

  /** And one that reads the clock lets the time of applying decide. */
  lemma ClockTransform(r: Request, now: int)
    requires r.config == PhoneType(READ_CLOCK) && r.state == Approved && Bound(r) && !r.applied && "phone" in r.registrant
    ensures Next(r, Application(now)).Ok?
    ensures Frozen(Get(Next(r, Application(now)).value.registrant, "phone")) == Frozen(Num(now))
  {
    PhoneWritten(r, READ_CLOCK, now);
  }

  lemma NoteLoose(config: Config, selection: Selection, row: Record, registrant: Record, v: Value)
    requires config == PhoneType(READ_NOTE) && "note" in row
    ensures Loose(config, selection, row, registrant, map["note" := v])
  {
    var m := config.requestType.mappings[0];
    assert m.source == "phone" && forall f :: f in Protected(config) ==> f == FIELD_TO_MODIFY || f == "phone";
  }

  lemma PhoneWritten(r: Request, read: Transform, now: int)
    requires r.config == PhoneType(read) && r.state == Approved && Bound(r) && !r.applied && "phone" in r.registrant
    requires read(Get(r.Detail().value, "phone"), r.Detail().value, r.registrant, now).Some?
    ensures Next(r, Application(now)).Ok?
    ensures Frozen(Get(Next(r, Application(now)).value.registrant, "phone"))
         == Frozen(read(Get(r.Detail().value, "phone"), r.Detail().value, r.registrant, now).value)
  {
    var m := r.config.requestType.mappings[0];
    OneMapping(m, r.Detail().value, r.registrant, now);
    assert r.config.requestType.mappings == [m];
    assert Applies(r, Application(now));
    AppliedProposal(r, Application(now), m);
  }

  lemma OneMapping(m: Mapping, detail: Record, registrant: Record, now: int)
    requires ProposedValue(m, detail, registrant, now).Some? && m.target in registrant
    ensures Values([m], detail, registrant, now).Some? && Values([m], detail, registrant, now).value.Keys <= registrant.Keys
  {
    assert [m][..|[m]| - 1] == [] && Values([], detail, registrant, now) == Some(map[]);
  }
}
