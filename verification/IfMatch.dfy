/**
 * Partial updates of a change request's detail with optimistic locking: `update_change_request` of
 * spp_api_v2_change_request/routers/change_request.py and `update_detail` of its service.
 *
 * The version a client compares is the write date of the request itself, not of the detail row.
 */
module IfMatch {
  import opened ChangeRequests
  import opened FieldMapping
  import opened Wrappers

  /** A change request with its write date, from which the version tag is made. */
  datatype Resource = Resource(request: Request, stamp: int)

  datatype PutError = Conflict | NotDraft | DetailMissing | Refused(error: Error)

  /** The update writes the request too: the selection is synced on dynamic types. */
  predicate WritesRequest(r: Request, patch: Record)
    requires r.Detail().Some?
  {
    r.config.requestType.dynamic && Syncs(r.Detail().value + StoreAll(patch), patch)
  }

  /** `PUT` of some detail fields, at time `now`. */
  function Put(r: Resource, tag: Option<int>, patch: Record, now: int): Result<Resource, PutError> {
    if tag.Some? && tag.value != r.stamp then Err(Conflict)
    else if r.request.state != Draft then Err(NotDraft)
    else if r.request.Detail().None? then Err(DetailMissing)
    else if patch == map[] then Ok(r)
    else
      match WriteDetail(r.request, r.request.detail.value, patch)
      case Err(e) => Err(Refused(e))
      case Ok(after) => Ok(Resource(after, if WritesRequest(r.request, patch) then now else r.stamp))
  }

  class ChangeRequestResource {
    const request: ChangeRequest
    var stamp: int

    ghost function Value(): Resource
      reads this, request, request.partner
    {
      Resource(request.Value(), stamp)
    }

    constructor (request: ChangeRequest, stamp: int)
      ensures this.request == request && this.stamp == stamp
    {
      this.request, this.stamp := request, stamp;
    }

    method Update(tag: Option<int>, patch: Record, now: int) returns (error: Option<PutError>)
      modifies this, request
      ensures match Put(old(Value()), tag, patch, now)
        case Ok(after) => error == None && Value() == after
        case Err(e) => error == Some(e) && Value() == old(Value())
    {
      if tag.Some? && tag.value != stamp {
        return Some(Conflict);
      }
      if request.state != Draft {
        return Some(NotDraft);
      }
      if request.detail.None? || request.detail.value !in request.rows {
        return Some(DetailMissing);
      }
      if patch == map[] {
        return None;
      }
      var row := request.rows[request.detail.value].fields;
      var synced := request.config.requestType.dynamic && Syncs(row + StoreAll(patch), patch);
      var failed := request.WriteRow(request.detail.value, patch);
      if failed.Some? {
        return Some(Refused(failed.value));
      }
      if synced {
        stamp := now;
      }
      return None;
    }
  }

  // ----- interleavings -----

  /** Updates by any clients, and other writes of the request, each at its time. */
  datatype Event = Update(tag: Option<int>, patch: Record, now: int) | OtherWrite(now: int)

  function Next(r: Resource, e: Event): Resource {
    match e
    case OtherWrite(now) => r.(stamp := now)
    case Update(tag, patch, now) => if Put(r, tag, patch, now).Ok? then Put(r, tag, patch, now).value else r
  }

  function Run(r: Resource, events: seq<Event>): Resource {
    if events == [] then r else Next(Run(r, events[..|events| - 1]), events[|events| - 1])
  }

  predicate IsAccepted(r: Resource, e: Event) {
    e.Update? && Put(r, e.tag, e.patch, e.now).Ok?
  }

  /** The detail after the accepted updates of a run, applied in commit order to what it was. */
  function Committed(r: Resource, events: seq<Event>, fields: Record): Record {
    if events == [] then fields
    else
      var init, e := events[..|events| - 1], events[|events| - 1];
      if IsAccepted(Run(r, init), e) then Committed(r, init, fields) + StoreAll(e.patch) else Committed(r, init, fields)
  }

  lemma PutWrites(r: Resource, tag: Option<int>, patch: Record, now: int)
    requires Bound(r.request) && Put(r, tag, patch, now).Ok?
    ensures var after := Put(r, tag, patch, now).value;
      && Bound(after.request) && after.request.config == r.request.config && after.request.state == r.request.state
      && after.request.Detail() == Some(r.request.Detail().value + StoreAll(patch))
      && after.stamp == (if patch != map[] && WritesRequest(r.request, patch) then now else r.stamp)
  {
    assert r.request.Detail().value + StoreAll(map[]) == r.request.Detail().value;
  }

  /**
   * An update is refused for its tag first, then for the state, then for want of a detail; otherwise it
   * is accepted exactly if it names no field, or existing fields of a row of the request's own.
   */
  lemma AcceptedExactly(r: Resource, tag: Option<int>, patch: Record, now: int)
    ensures var result, row := Put(r, tag, patch, now), r.request.detail;
      if tag != None && tag != Some(r.stamp) then result == Err(Conflict)
      else if r.request.state != Draft then result == Err(NotDraft)
      else if row == None || row.value !in r.request.rows then result == Err(DetailMissing)
      else
        result.Ok? <==>
          patch == map[] || (r.request.rows[row.value].owner == r.request.id && patch.Keys <= r.request.rows[row.value].fields.Keys)
  {
  }

  /** An accepted update writes its fields, and the request's write date only if it syncs the selection. */
  lemma WrittenExactly(r: Resource, tag: Option<int>, patch: Record, now: int, f: Field)
    requires Put(r, tag, patch, now).Ok?
    ensures var row, after := r.request.detail.value, Put(r, tag, patch, now).value;
      var fields := after.request.rows[row].fields;
      && row in r.request.rows && row in after.request.rows
      && Get(fields, f) == (if f in patch then Stored(patch[f]) else Get(r.request.rows[row].fields, f))
      && (after.stamp ==
            if patch != map[] && r.request.config.requestType.dynamic
               && (FIELD_TO_MODIFY in patch
                   || exists name :: name != "" && Get(fields, FIELD_TO_MODIFY) == Text(name) && name in patch)
            then now else r.stamp)
  {
    var row := r.request.detail.value;
    var fields := r.request.rows[row].fields + StoreAll(patch);
    if patch != map[] {
      assert Put(r, tag, patch, now).value.request.rows[row].fields == fields;
      if FieldToModify(fields) != "" {
        assert Get(fields, FIELD_TO_MODIFY) == Text(FieldToModify(fields));
      }
    }
  }

  /**
   * For any interleaving of clients the detail is what the accepted updates made of it, in commit
   * order: a refused update changes nothing, and an omitted field keeps its value.
   */
  lemma {:induction false} DetailIsCommitted(r: Resource, events: seq<Event>, f: Field)
    requires Bound(r.request)
    ensures Bound(Run(r, events).request)
    ensures Run(r, events).request.Detail() == Some(Committed(r, events, r.request.Detail().value))
    ensures (forall e :: e in events && e.Update? ==> f !in e.patch) ==>
        Get(Committed(r, events, r.request.Detail().value), f) == Get(r.request.Detail().value, f)
  {
    if events != [] {
      var init, e := events[..|events| - 1], events[|events| - 1];
      assert events == init + [e];
      DetailIsCommitted(r, init, f);
      if IsAccepted(Run(r, init), e) {
        PutWrites(Run(r, init), e.tag, e.patch, e.now);
      }
    }
  }

  /** An event of a run writes the request, and so moves its tag. */
  predicate MovesTag(r: Resource, e: Event) {
    e.OtherWrite? || (IsAccepted(r, e) && e.patch != map[] && WritesRequest(r.request, e.patch))
  }

  /** Some event of a run moved the tag. */
  predicate SomeTagMove(r: Resource, events: seq<Event>) {
    events != []
    && (SomeTagMove(r, events[..|events| - 1]) || MovesTag(Run(r, events[..|events| - 1]), events[|events| - 1]))
  }

  /** Every event happens after the tag was made. */
  predicate After(events: seq<Event>, stamp: int) {
    forall k | 0 <= k < |events| :: events[k].now > stamp
  }

  lemma NextStamp(r: Resource, e: Event)
    requires Bound(r.request)
    ensures Next(r, e).stamp == if MovesTag(r, e) then e.now else r.stamp
  {
    if IsAccepted(r, e) {
      PutWrites(r, e.tag, e.patch, e.now);
    }
  }

  lemma {:induction false} TagKept(r: Resource, events: seq<Event>)
    requires Bound(r.request) && After(events, r.stamp)
    ensures Run(r, events).stamp >= r.stamp
    ensures Run(r, events).stamp == r.stamp <==> !SomeTagMove(r, events)
  {
    if events != [] {
      var init, e := events[..|events| - 1], events[|events| - 1];
      TagKept(r, init);
      DetailIsCommitted(r, init, "");
      NextStamp(Run(r, init), e);
      assert events[|events| - 1].now > r.stamp;
    }
  }

  /**
   * A client that read the tag, and sends it after other events, gets a conflict if and only if one
   * of them wrote the request itself. An accepted update of the detail alone goes unnoticed.
   */
  lemma {:induction false} ConflictIff(r: Resource, events: seq<Event>, patch: Record, now: int)
    requires Bound(r.request) && After(events, r.stamp)
    ensures Put(Run(r, events), Some(r.stamp), patch, now) == Err(Conflict) <==> SomeTagMove(r, events)
  {
    TagKept(r, events);
  }

  /**
   * On a type without dynamic approval no update moves the tag, so of two clients that read the
   * same version both succeed, and the second overwrites what the first wrote.
   */
  lemma BothAccepted(r: Resource, first: Record, second: Record, t1: int, t2: int)
    requires Bound(r.request) && r.request.state == Draft && !r.request.config.requestType.dynamic
    requires first.Keys <= r.request.Detail().value.Keys && second.Keys <= r.request.Detail().value.Keys
    ensures var one := Put(r, Some(r.stamp), first, t1);
      && one.Ok?
      && var two := Put(one.value, Some(r.stamp), second, t2);
         two.Ok? && two.value.request.Detail() == Some(r.request.Detail().value + StoreAll(first) + StoreAll(second))
  {
    PutWrites(r, Some(r.stamp), first, t1);
    PutWrites(Put(r, Some(r.stamp), first, t1).value, Some(r.stamp), second, t2);
  }

  /** When every accepted update moves the tag, of two that send the same version one is refused. */
  lemma OnlyOneAccepted(r: Resource, first: Record, second: Record, t1: int, t2: int)
    requires Bound(r.request) && t1 > r.stamp && Put(r, Some(r.stamp), first, t1).Ok?
    requires first != map[] && WritesRequest(r.request, first)
    ensures Put(Put(r, Some(r.stamp), first, t1).value, Some(r.stamp), second, t2) == Err(Conflict)
  {
    PutWrites(r, Some(r.stamp), first, t1);
  }
}
