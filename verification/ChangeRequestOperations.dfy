/**
 * What the operations of a change request do, read off their inputs field by field: when each is
 * accepted, what it writes, and what the routed selection shows afterwards.
 */
module ChangeRequestOperations {
  import opened ChangeRequests
  import opened FieldMapping
  import opened Wrappers

  // ----- the values the freeze compares -----

  predicate Blank(value: Value) {
    value in {Missing, Unset, Num(0), Ref(0), Text("")}
  }

  /** The freeze compares as Python does, with None and the empty text among the unset values. */
  lemma FrozenMeaning(a: Value, b: Value)
    ensures Frozen(a) == Frozen(b) <==> Same(a, b) || (Blank(a) && Blank(b))
  {
  }

  // ----- the routed selection -----

  /** The row selects a field to modify. */
  ghost predicate Selects(fields: Record, name: string) {
    Get(fields, "field_to_modify") == Text(name) && name != ""
  }

  /** The selection is that of a row: the selector, what the registrant has for it and what the row proposes. */
  ghost predicate Shows(r: Request, fields: Record, s: Selection) {
    var mappings := r.config.requestType.mappings;
    && (forall name :: Selects(fields, name) ==>
          && s.name == name && s.newValue == r.config.display(Get(fields, name))
          && (forall i :: 0 <= i < |mappings| && mappings[i].source == name && (forall j :: 0 <= j < i ==> mappings[j].source != name) ==>
                s.oldValue == r.config.display(Get(r.registrant, mappings[i].target)))
          && ((forall i :: 0 <= i < |mappings| ==> mappings[i].source != name) ==> s.oldValue == ""))
    && ((forall name :: !Selects(fields, name)) ==> s.name == "" && s.oldValue == "" && s.newValue == "")
  }

  /** The write names the selector, or the field it selects. */
  ghost predicate NamesSelected(fields: Record, vals: Record) {
    "field_to_modify" in vals || exists name :: Selects(fields, name) && name in vals
  }

  lemma {:induction false} FirstMappingIs(mappings: seq<Mapping>, source: Field) returns (i: nat)
    ensures i <= |mappings| && forall j :: 0 <= j < i ==> mappings[j].source != source
    ensures FirstMapping(mappings, source) == if i < |mappings| then Some(mappings[i]) else None
    ensures i < |mappings| ==> mappings[i].source == source
  {
    if mappings == [] || mappings[0].source == source {
      i := 0;
    } else {
      var k := FirstMappingIs(mappings[1..], source);
      i := k + 1;
    }
  }

  lemma SelectorRead(fields: Record)
    ensures forall name :: Selects(fields, name) <==> name == FieldToModify(fields) && name != ""
  {
  }

  /** What is synced is what the row shows, and nothing else is. */
  lemma SyncedShows(r: Request, fields: Record, s: Selection)
    ensures Shows(r, fields, s) <==> s == SyncedSelection(r.config, fields, r.registrant)
  {
    SelectorRead(fields);
    var name := FieldToModify(fields);
    if name == "" {
      assert forall other :: !Selects(fields, other);
    } else {
      assert Selects(fields, name);
      var i := FirstMappingIs(r.config.requestType.mappings, name);
    }
  }

  lemma SyncsMeaning(fields: Record, vals: Record)
    ensures Syncs(fields, vals) <==> NamesSelected(fields, vals)
  {
    SelectorRead(fields);
    if Syncs(fields, vals) && FIELD_TO_MODIFY !in vals {
      assert Selects(fields, FieldToModify(fields));
    }
  }

  // ----- writes -----

  /**
   * A write of the request is refused exactly when it is locked and one of the four frozen fields
   * would change, the first binding to a row of its own excepted; each field named then has the
   * value written, and the others are as before.
   */
  lemma RequestWriteMeaning(r: Request, vals: RequestValues)
    ensures var result := WriteRequest(r, vals);
      && (result.Ok? <==>
            || r.state == Draft || r.state == Revision
            || (&& vals.name in {None, Some(r.selection.name)}
                && vals.oldValue in {None, Some(r.selection.oldValue)}
                && vals.newValue in {None, Some(r.selection.newValue)}
                && (vals.detail in {None, Some(r.detail)}
                    || (r.detail == None && exists row :: row in r.rows && r.rows[row].owner == r.id && vals.detail == Some(Some(row))))))
      && (result.Ok? ==>
            var after := result.value;
            && after == r.(selection := after.selection, detail := after.detail)
            && (match vals.name case None => after.selection.name == r.selection.name case Some(v) => after.selection.name == v)
            && (match vals.oldValue case None => after.selection.oldValue == r.selection.oldValue
                                    case Some(v) => after.selection.oldValue == v)
            && (match vals.newValue case None => after.selection.newValue == r.selection.newValue
                                    case Some(v) => after.selection.newValue == v)
            && (match vals.detail case None => after.detail == r.detail case Some(v) => after.detail == v))
  {
  }

  /** The fields a locked row keeps: the selector, and for field-mapping types every mapped source. */
  ghost predicate ProtectedField(config: Config, f: Field) {
    f == "field_to_modify" || (config.requestType.fieldMapping && exists m :: m in config.requestType.mappings && m.source == f)
  }

  lemma ProtectedMeaning(config: Config)
    ensures forall f :: f in Protected(config) <==> ProtectedField(config, f)
  {
    var mappings := config.requestType.mappings;
    forall f | config.requestType.fieldMapping && exists m :: m in mappings && m.source == f
      ensures f in Protected(config)
    {
      var i :| 0 <= i < |mappings| && mappings[i].source == f;
    }
  }

  /** A sync leaves the request as it is but for the selection, which a locked request must have already. */
  ghost predicate SyncedAfter(r: Request, fields: Record, written: Request, result: Result<Request, Error>) {
    && (result.Ok? <==> r.state == Draft || r.state == Revision || Shows(r, fields, r.selection))
    && (result.Ok? ==> result.value == written.(selection := result.value.selection) && Shows(r, fields, result.value.selection))
  }

  lemma SyncMeaning(r: Request, written: Request, row: nat)
    requires row in written.rows && r.config.requestType.dynamic && written == r.(rows := written.rows)
    ensures SyncedAfter(r, written.rows[row].fields, written, Sync(written, row))
  {
    var fields := written.rows[row].fields;
    SyncedShows(r, fields, r.selection);
    var s := SyncedSelection(r.config, fields, r.registrant);
    SyncedShows(r, fields, s);
    RequestWriteMeaning(written, RequestValues(Some(s.name), Some(s.oldValue), Some(s.newValue), None));
  }

  /** A row after a write: the fields named have the values given, as they are stored. */
  ghost function Written(before: Record, vals: Record): Record {
    map f | f in before.Keys + vals.Keys :: if f in vals then Stored(vals[f]) else before[f]
  }

  lemma WrittenIsMerge(before: Record, vals: Record)
    ensures Written(before, vals) == before + StoreAll(vals)
  {
  }

  /** The write names an existing protected field with another value. */
  ghost predicate ChangesProtected(config: Config, row: Record, vals: Record) {
    exists f :: f in vals && f in row && ProtectedField(config, f) && Frozen(vals[f]) != Frozen(row[f])
  }

  lemma ContentMeaning(config: Config, row: Record, vals: Record)
    ensures AltersContent(config, row, vals) <==> ChangesProtected(config, row, vals)
  {
    ProtectedMeaning(config);
  }

  /**
   * A write of a detail row. It is accepted exactly for a row of the request's own and fields that
   * exist, and on a locked request only if no protected field changes and the selection the row would
   * show is the one the request has. The fields named then have the values written; on a dynamic type
   * a write that names the selector, or the selected field, makes the request show the row.
   */
  lemma RowWriteMeaning(r: Request, row: nat, vals: Record)
    ensures row !in r.rows || r.rows[row].owner != r.id ==> WriteDetail(r, row, vals) == Err(UnknownRow)
    ensures row in r.rows && r.rows[row].owner == r.id ==>
        var result, before := WriteDetail(r, row, vals), r.rows[row].fields;
        var syncs := r.config.requestType.dynamic && NamesSelected(Written(before, vals), vals);
        && (result.Ok? <==>
              && (forall f :: f in vals ==> f in before)
              && (r.state == Draft || r.state == Revision
                  || (!ChangesProtected(r.config, before, vals) && (syncs ==> Shows(r, Written(before, vals), r.selection)))))
        && (result.Ok? ==>
              var after := result.value;
              && after == r.(rows := r.rows[row := DetailRow(r.id, Written(before, vals))], selection := after.selection)
              && if syncs then Shows(r, Written(before, vals), after.selection) else after.selection == r.selection)
  {
    if r.Owns(row) {
      var before := r.rows[row].fields;
      WrittenIsMerge(before, vals);
      SyncsMeaning(Written(before, vals), vals);
      ContentMeaning(r.config, before, vals);
      if r.config.requestType.dynamic {
        SyncMeaning(r, r.(rows := r.rows[row := DetailRow(r.id, Written(before, vals))]), row);
      }
    }
  }

  /** The creation of a detail row: it holds the values given, and a selector among them makes the request show it. */
  lemma RowCreateMeaning(r: Request, row: nat, given: Record)
    ensures var result := CreateDetail(r, row, given);
      var fields := map f | f in given :: Stored(given[f]);
      var syncs := r.config.requestType.dynamic && exists name :: Selects(fields, name);
      && (result.Ok? <==> row !in r.rows && (r.state == Draft || r.state == Revision || (syncs ==> Shows(r, fields, r.selection))))
      && (result.Ok? ==>
            var after := result.value;
            && after == r.(rows := r.rows[row := DetailRow(r.id, fields)], selection := after.selection)
            && if syncs then Shows(r, fields, after.selection) else after.selection == r.selection)
  {
    var fields := map f | f in given :: Stored(given[f]);
    assert fields == StoreAll(given);
    SelectorRead(fields);
    var created := r.(rows := r.rows[row := DetailRow(r.id, fields)]);
    if FieldToModify(fields) != "" {
      assert Selects(fields, FieldToModify(fields));
      if r.config.requestType.dynamic {
        SyncMeaning(r, created, row);
      }
    }
  }

  /**
   * Opening the detail binds a row only where none is bound. The new row is the blank one, with what
   * the prefill takes from the registrant: the fields that have a truthy value there.
   */
  lemma OpeningMeaning(r: Request, row: nat)
    requires EnsureDetail(r, row).Ok?
    ensures var after := EnsureDetail(r, row).value;
      if r.detail.Some? then after == r
      else
        && row !in r.rows && after.detail == Some(row)
        && after.rows.Keys == r.rows.Keys + {row} && (forall other :: other in r.rows ==> after.rows[other] == r.rows[other])
        && after.rows[row].owner == r.id
        && forall f :: Get(after.rows[row].fields, f) == Opened(r.config, r.registrant, f)
  {
    if r.detail.None? {
      RowCreateMeaning(r, row, r.config.blank);
      var created := CreateDetail(r, row, r.config.blank).value;
      var bound := WriteRequest(created, RequestValues(None, None, None, Some(Some(row)))).value;
      assert bound.rows == created.rows && bound.id == r.id && bound.detail == Some(row);
      var vals := PrefillValues(r.config, r.registrant);
      if vals != map[] {
        assert EnsureDetail(r, row) == WriteDetail(bound, row, vals);
        RowWritten(bound, row, vals);
      } else {
        assert EnsureDetail(r, row).value == bound;
      }
      forall f
        ensures Get(EnsureDetail(r, row).value.rows[row].fields, f) == Opened(r.config, r.registrant, f)
      {
        OpenedField(r.config, r.registrant, f);
      }
    }
  }

  /** What a field of a row just opened holds. */
  ghost function Opened(config: Config, registrant: Record, f: Field): Value {
    if f in config.prefill && Truthy(Get(registrant, config.prefill[f])) then Get(registrant, config.prefill[f])
    else if f in config.blank then Stored(config.blank[f])
    else Missing
  }

  lemma OpenedField(config: Config, registrant: Record, f: Field)
    ensures Get(StoreAll(config.blank) + StoreAll(PrefillValues(config, registrant)), f) == Opened(config, registrant, f)
    ensures PrefillValues(config, registrant) == map[] ==> Get(StoreAll(config.blank), f) == Opened(config, registrant, f)
  {
    var vals := PrefillValues(config, registrant);
    assert f in vals <==> f in config.prefill && Truthy(Get(registrant, config.prefill[f]));
  }

  lemma RowWritten(r: Request, row: nat, vals: Record)
    requires WriteDetail(r, row, vals).Ok?
    ensures var after := WriteDetail(r, row, vals).value;
      && row in r.rows && r.rows[row].owner == r.id
      && after.rows == r.rows[row := DetailRow(r.id, r.rows[row].fields + StoreAll(vals))]
      && after.detail == r.detail && EditOf(r, after)
  {
  }

  // ----- actions -----

  /** When the actions are accepted, each in terms of the request alone, and what they write to it. */
  lemma ActionsAccepted(r: Request, allowed: bool, now: int)
    ensures var outcome := ApplyOutcome(r.config.requestType, if r.selection.name == "" then None else Some(r.selection.name),
                                        r.Detail(), r.registrant, r.isGroup, r.format, now);
      && (Submit(r, allowed).Ok? <==>
            && allowed && (r.state == Draft || r.state == Revision)
            && (r.config.requestType.dynamic ==> r.selection.name != ""))
      && (ApplyRequest(r, now).Ok? <==> r.state == Approved && !r.applied && outcome.Ok?)
      && (Approve(r, now).Ok? <==> r.state == Pending && (r.config.autoApply ==> !r.applied && outcome.Ok?))
      && (RequestRevision(r).Ok? <==> r.state == Pending)
      && (Reset(r).Ok? <==> r.state == Rejected || r.state == Revision)
      && Reject(r) == Ok(r.(state := Rejected))
      && (Submit(r, allowed).Ok? ==> Submit(r, allowed).value == r.(state := Pending))
      && (ApplyRequest(r, now).Ok? ==> ApplyRequest(r, now).value == r.(registrant := outcome.value, applied := true))
      && (Approve(r, now).Ok? ==> Approve(r, now).value == r.(
            state := Approved,
            registrant := if r.config.autoApply then outcome.value else r.registrant,
            applied := r.applied || r.config.autoApply))
      && (RequestRevision(r).Ok? ==> RequestRevision(r).value == r.(state := Revision))
      && (Reset(r).Ok? ==> Reset(r).value == r.(state := Draft))
  {
  }

  /** Why a write is refused: rows and fields that do not exist, or the lock, which asks for the protected fields first. */
  lemma WritesRefused(r: Request, row: nat, fields: Record, vals: RequestValues)
    ensures WriteRequest(r, vals).Err? ==> WriteRequest(r, vals) == Err(Locked)
    ensures WriteDetail(r, row, fields).Err? ==>
        WriteDetail(r, row, fields).error ==
          if row !in r.rows || r.rows[row].owner != r.id then UnknownRow
          else if r.state != Draft && r.state != Revision && ChangesProtected(r.config, r.rows[row].fields, fields) then Locked
          else if exists f :: f in fields && f !in r.rows[row].fields then UnknownField
          else Locked
    ensures CreateDetail(r, row, fields).Err? ==> CreateDetail(r, row, fields).error == if row in r.rows then UnknownRow else Locked
  {
    if r.Owns(row) {
      ContentMeaning(r.config, r.rows[row].fields, fields);
    }
  }

  /** Why an action is refused. */
  lemma ActionsRefused(r: Request, allowed: bool, now: int)
    ensures Submit(r, allowed).Err? ==>
        Submit(r, allowed).error == if allowed && (r.state == Draft || r.state == Revision) then NotSelected else NotAllowed
    ensures ApplyRequest(r, now).Err? ==>
        match ApplyRequest(r, now).error
        case AlreadyApplied => r.applied
        case NotApproved => !r.applied && r.state != Approved
        case ApplyFailed(reason) =>
          && !r.applied && r.state == Approved
          && Err(reason) == ApplyOutcome(r.config.requestType, if r.selection.name == "" then None else Some(r.selection.name),
                                         r.Detail(), r.registrant, r.isGroup, r.format, now)
        case _ => false
    ensures Approve(r, now).Err? ==>
        Approve(r, now).error == if r.state != Pending then NotAllowed else ApplyRequest(r.(state := Approved), now).error
    ensures RequestRevision(r).Err? ==> RequestRevision(r) == Err(NotAllowed)
    ensures Reset(r).Err? ==> Reset(r) == Err(NotAllowed)
  {
  }

  /** What `get_detail` returns: the fields of the row the request points at, whoever owns that row. */
  lemma DetailMeaning(r: Request)
    ensures r.Detail() == None <==> forall row :: r.detail == Some(row) ==> row !in r.rows
    ensures forall row :: r.detail == Some(row) && row in r.rows ==> r.Detail() == Some(r.rows[row].fields)
  {
  }

  /** Giving a row away and deleting it are accepted for the request's own rows only, and touch no other. */
  lemma RowsTouched(r: Request, row: nat, owner: nat)
    ensures MoveDetail(r, row, owner).Err? ==> MoveDetail(r, row, owner) == Err(UnknownRow) && DeleteDetail(r, row) == Err(UnknownRow)
    ensures MoveDetail(r, row, owner).Ok? <==> row in r.rows && r.rows[row].owner == r.id
    ensures MoveDetail(r, row, owner).Ok? ==>
        MoveDetail(r, row, owner).value == r.(rows := r.rows[row := DetailRow(owner, r.rows[row].fields)])
    ensures DeleteDetail(r, row).Ok? <==> row in r.rows && r.rows[row].owner == r.id
    ensures DeleteDetail(r, row).Ok? ==>
        var after := DeleteDetail(r, row).value;
        && after == r.(rows := after.rows) && after.rows.Keys == r.rows.Keys - {row}
        && forall other :: other in after.rows ==> after.rows[other] == r.rows[other]
  {
  }

  // ----- saving again -----

  /**
   * Saving a submitted row again with the same selector changes nothing, but it is accepted if and
   * only if the registrant's value for the selected field still reads as it did when selected.
   */
  lemma ResaveSelector(r: Request, atSelection: Record, i: nat)
    requires r.state != Draft && r.state != Revision && Bound(r) && r.config.requestType.dynamic
    requires i < |r.config.requestType.mappings| && r.config.requestType.mappings[i].source == r.selection.name
    requires forall j :: 0 <= j < i ==> r.config.requestType.mappings[j].source != r.selection.name
    requires var row := r.rows[r.detail.value].fields;
      Selects(row, r.selection.name) && Shows(r.(registrant := atSelection), row, r.selection)
    ensures var target := r.config.requestType.mappings[i].target;
      WriteDetail(r, r.detail.value, map["field_to_modify" := Text(r.selection.name)]).Ok? <==>
        r.config.display(Get(r.registrant, target)) == r.config.display(Get(atSelection, target))
  {
    var row := r.rows[r.detail.value].fields;
    var vals: Record := map["field_to_modify" := Text(r.selection.name)];
    assert row + StoreAll(vals) == row && r.rows[r.detail.value := DetailRow(r.id, row)] == r.rows;
    SelectedAs(r, row, i);
    SelectedAs(r.(registrant := atSelection), row, i);
  }

  lemma SelectedAs(r: Request, fields: Record, i: nat)
    requires i < |r.config.requestType.mappings| && r.config.requestType.mappings[i].source == r.selection.name
    requires forall j :: 0 <= j < i ==> r.config.requestType.mappings[j].source != r.selection.name
    requires Selects(fields, r.selection.name)
    ensures SyncedSelection(r.config, fields, r.registrant)
         == Selection(r.selection.name, r.config.display(Get(r.registrant, r.config.requestType.mappings[i].target)),
                      r.config.display(Get(fields, r.selection.name)))
    ensures Shows(r, fields, r.selection) <==> r.selection == SyncedSelection(r.config, fields, r.registrant)
  {
    SyncedShows(r, fields, r.selection);
    var k := FirstMappingIs(r.config.requestType.mappings, r.selection.name);
  }

  // ----- what a history records -----

  /** The request when the k-th event happens, and whether it is accepted. */
  ghost function Before(start: Request, events: seq<Event>, k: nat): Request
    requires k < |events|
  {
    After(start, events[..k])
  }

  ghost predicate Accepted(start: Request, events: seq<Event>, k: nat)
    requires k < |events|
  {
    Next(Before(start, events, k), events[k]).Ok?
  }

  /** The k-th event is accepted, and no submission after it is. */
  ghost predicate Since(start: Request, events: seq<Event>, k: nat)
    requires k < |events|
  {
    Accepted(start, events, k) && forall j :: k < j < |events| && Accepted(start, events, j) ==> !events[j].Submission?
  }

  /** What a history keeps count of. */
  datatype Mark = ApprovalMark | AlterationMark | StateMark

  ghost predicate Marks(r: Request, e: Event, mark: Mark) {
    match mark
    case ApprovalMark => e.Approval?
    case AlterationMark => Alters(r, e)
    case StateMark => Lifts(r, e)
  }

  ghost predicate MarkedAt(start: Request, events: seq<Event>, mark: Mark, k: int) {
    0 <= k < |events| && Since(start, events, k) && Marks(Before(start, events, k), events[k], mark)
  }

  /** An accepted event since the last submission was an approval, altered the change, or moved the state. */
  ghost predicate Marked(start: Request, events: seq<Event>, mark: Mark) {
    exists k :: MarkedAt(start, events, mark, k)
  }

  /** The k-th event is the last accepted submission. */
  ghost predicate Submitted(start: Request, events: seq<Event>, k: int) {
    0 <= k < |events| && Since(start, events, k) && events[k].Submission?
  }

  lemma SinceLater(start: Request, events: seq<Event>, k: nat)
    requires k < |events| - 1
    ensures var init, last := events[..|events| - 1], |events| - 1;
      && Before(start, events, k) == Before(start, init, k) && events[k] == init[k]
      && (Since(start, events, k) <==>
            Since(start, init, k) && !(Accepted(start, events, last) && events[last].Submission?))
  {
    var init := events[..|events| - 1];
    forall j | 0 <= j < |init|
      ensures Accepted(start, events, j) <==> Accepted(start, init, j)
    {
      assert init[..j] == events[..j] && init[j] == events[j];
    }
    assert init[..k] == events[..k];
  }

  lemma MarkedNext(start: Request, events: seq<Event>, mark: Mark)
    requires events != []
    ensures var init, last := events[..|events| - 1], |events| - 1;
      Marked(start, events, mark) <==>
        if !Accepted(start, events, last) then Marked(start, init, mark)
        else !events[last].Submission? && (Marked(start, init, mark) || Marks(Before(start, events, last), events[last], mark))
  {
    var init, last := events[..|events| - 1], |events| - 1;
    forall k | 0 <= k < last
      ensures MarkedAt(start, events, mark, k) <==>
          MarkedAt(start, init, mark, k) && !(Accepted(start, events, last) && events[last].Submission?)
    {
      SinceLater(start, events, k);
    }
    if Accepted(start, events, last) && !events[last].Submission? && Marks(Before(start, events, last), events[last], mark) {
      assert MarkedAt(start, events, mark, last);
    }
    if Marked(start, init, mark) {
      var k :| MarkedAt(start, init, mark, k);
      assert MarkedAt(start, events, mark, k) <==> !(Accepted(start, events, last) && events[last].Submission?);
    }
  }

  lemma SubmittedNext(start: Request, events: seq<Event>, k: int)
    requires events != []
    ensures var init, last := events[..|events| - 1], |events| - 1;
      Submitted(start, events, k) <==>
        if Accepted(start, events, last) && events[last].Submission? then k == last else Submitted(start, init, k)
    ensures 0 <= k < |events| - 1 ==> Before(start, events, k) == Before(start, events[..|events| - 1], k)
  {
    if 0 <= k < |events| - 1 {
      SinceLater(start, events, k);
    }
  }

  /**
   * Histories are what they are said to be, in every run: since the last accepted submission they know
   * of an approval, of an alteration and of a write of the state exactly if one was accepted, and they
   * hold the type, the registrant, the selection and the bound content that submission left.
   */
  lemma {:induction false} HistoryMeaning(start: Request, events: seq<Event>, k: int)
    ensures var h := Run(start, NOTHING_YET, events).1;
      && (h.approved <==> Marked(start, events, ApprovalMark))
      && (h.altered <==> Marked(start, events, AlterationMark))
      && (h.lifted <==> Marked(start, events, StateMark))
      && (Submitted(start, events, k) ==>
            var submitted := Next(Before(start, events, k), events[k]).value;
            && h.config == Some(submitted.config) && h.partner == submitted.partner && h.selection == submitted.selection
            && h.submitted == if Bound(submitted) then Some(SnapshotOf(submitted)) else None)
    decreases |events|
  {
    if events != [] {
      HistoryMeaning(start, events[..|events| - 1], k);
      MarkedNext(start, events, ApprovalMark);
      MarkedNext(start, events, AlterationMark);
      MarkedNext(start, events, StateMark);
      SubmittedNext(start, events, k);
    }
  }

  /** The writes of another registrant and of another type replace what depends on it; the same one changes nothing. */
  lemma RedirectsMeaning(r: Request, partner: nat, registrant: Record, isGroup: bool, format: NameFormat, config: Config,
                         rows: map<nat, DetailRow>)
    ensures Next(r, WriteRegistrant(partner, registrant, isGroup, format)) ==
        Ok(if partner == r.partner then r
           else Request(r.id, r.config, r.state, r.selection, r.detail, r.rows, partner, registrant, isGroup, format, r.applied))
    ensures Next(r, WriteType(config, rows)) ==
        Ok(if config == r.config then r
           else Request(r.id, config, r.state, r.selection, r.detail, rows, r.partner, r.registrant, r.isGroup, r.format, r.applied))
  {
  }
}
