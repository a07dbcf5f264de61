/**
 * Consent-filtered search paging: `fetch_with_consent` and `page_total_and_next` of
 * spp_api_v2/utils/pagination.py, the capped query of the search services, and the walk a
 * client makes by following `next` until it is null.
 *
 * Each row stands for what `consent_filter_function` answers for it: the data the client may
 * see, or None when consent hides the row.
 */
module ConsentPaging {
  import opened Wrappers

  // The search services return at most this many rows per query.
  const MAX_ROWS_PER_QUERY := 100

  function Min(a: nat, b: nat): nat {
    if a < b then a else b
  }

  /** One database query: the rows from `offset`, capped by `limit` and by the service maximum. */
  function Query<R>(rows: seq<R>, offset: nat, limit: nat): seq<R> {
    var lo := Min(offset, |rows|);
    rows[lo..Min(lo + Min(limit, MAX_ROWS_PER_QUERY), |rows|)]
  }

  /** What a client may see of the rows at `from` up to `to`, in database order. */
  function Visible<D>(rows: seq<Option<D>>, from: nat, to: nat): seq<D>
    requires to <= |rows|
  {
    if to <= from then []
    else
      var head := Visible(rows, from, to - 1);
      match rows[to - 1]
      case Some(data) => head + [data]
      case None => head
  }

  /** Some of these rows are hidden from the client. */
  ghost predicate SomeHidden<D>(rows: seq<Option<D>>, from: nat, to: nat)
    requires to <= |rows|
  {
    exists i :: from <= i < to && rows[i].None?
  }

  lemma {:induction false} VisibleConcat<D>(rows: seq<Option<D>>, from: nat, mid: nat, to: nat)
    requires from <= mid <= to <= |rows|
    ensures Visible(rows, from, to) == Visible(rows, from, mid) + Visible(rows, mid, to)
  {
    if mid < to {
      VisibleConcat(rows, from, mid, to - 1);
    }
  }

  lemma {:induction false} VisibleOfSlice<D>(rows: seq<Option<D>>, from: nat, to: nat, k: nat)
    requires from <= to <= |rows| && k <= to - from
    ensures Visible(rows[from..to], 0, k) == Visible(rows, from, from + k)
  {
    if k > 0 {
      VisibleOfSlice(rows, from, to, k - 1);
    }
  }

  lemma {:induction false} VisibleLength<D>(rows: seq<Option<D>>, from: nat, to: nat)
    requires from <= to <= |rows|
    ensures |Visible(rows, from, to)| <= to - from
  {
    if from < to {
      VisibleLength(rows, from, to - 1);
    }
  }

  /** A row is hidden exactly when fewer rows are visible than there are. */
  lemma {:induction false} VisibleAtMost<D>(rows: seq<Option<D>>, from: nat, to: nat)
    requires from <= to <= |rows|
    ensures |Visible(rows, from, to)| <= to - from
    ensures SomeHidden(rows, from, to) <==> |Visible(rows, from, to)| < to - from
  {
    if from < to {
      VisibleAtMost(rows, from, to - 1);
    }
  }

  /**
   * Reference scan, one row at a time and without batches: where a page ends that starts at
   * `pos`, still wants `wanted` visible rows and may still examine `budget` rows.
   */
  function ScanEnd<D>(rows: seq<Option<D>>, pos: nat, wanted: nat, budget: nat): (end: nat)
    ensures pos <= end
    ensures end <= |rows| || end == pos
    decreases budget
  {
    if wanted == 0 || budget == 0 || pos >= |rows| then pos
    else ScanEnd(rows, pos + 1, if rows[pos].Some? then wanted - 1 else wanted, budget - 1)
  }

  /** How many times the page size is examined at most; the services use 3. */
  type Factor = f: nat | f >= 1 witness 1

  /** The reference end of a page of `count` rows: at most `factor` times the page size is examined. */
  function PageEnd<D>(rows: seq<Option<D>>, count: nat, offset: nat, factor: Factor): (end: nat)
    ensures offset <= end
    ensures end <= |rows| || end == offset
  {
    ScanEnd(rows, offset, count, count * factor)
  }

  lemma AtLeastAPage(count: nat, factor: Factor)
    ensures count * factor >= count
  {
    assert count * factor == count + count * (factor - 1);
  }

  /** Why a reference page stops, and that it examines no row beyond its last visible one. */
  lemma {:induction false} ScanEndMeaning<D>(rows: seq<Option<D>>, pos: nat, wanted: nat, budget: nat)
    requires pos <= |rows|
    ensures var end := ScanEnd(rows, pos, wanted, budget);
      var seen := |Visible(rows, pos, end)|;
      && end <= |rows| && end - pos <= budget && seen <= wanted
      && (seen == wanted || end - pos == budget || end == |rows|)
      && (seen == wanted && end > pos ==> rows[end - 1].Some?)
    decreases budget
  {
    if wanted > 0 && budget > 0 && pos < |rows| {
      var wanted' := if rows[pos].Some? then wanted - 1 else wanted;
      ScanEndMeaning(rows, pos + 1, wanted', budget - 1);
      VisibleConcat(rows, pos, pos + 1, ScanEnd(rows, pos, wanted, budget));
    }
  }

  /** A scan may be interrupted after rows that did not fill the page before the last of them. */
  lemma {:induction false} ScanResumes<D>(rows: seq<Option<D>>, pos: nat, wanted: nat, budget: nat, examined: nat)
    requires pos + examined <= |rows| && examined <= budget
    requires examined > 0 ==> |Visible(rows, pos, pos + examined - 1)| < wanted
    ensures |Visible(rows, pos, pos + examined)| <= wanted
    ensures ScanEnd(rows, pos, wanted, budget)
         == ScanEnd(rows, pos + examined, wanted - |Visible(rows, pos, pos + examined)|, budget - examined)
  {
    if examined > 0 {
      ScanResumes(rows, pos, wanted, budget, examined - 1);
    }
  }

  /** The inner loop of `fetch_with_consent`: examines a batch until the page is full. */
  method ExamineBatch<D>(records: seq<Option<D>>, wanted: nat)
      returns (examined: nat, found: seq<D>, hidden: bool)
    requires wanted >= 1 && records != []
    ensures 0 < examined <= |records|
    ensures found == Visible(records, 0, examined)
    ensures |Visible(records, 0, examined - 1)| < wanted
    ensures |found| < wanted ==> examined == |records|
    ensures hidden <==> |found| < examined
  {
    examined, found, hidden := 0, [], false;
    while examined < |records|
      invariant examined <= |records| && |found| < wanted && |found| <= examined
      invariant found == Visible(records, 0, examined)
      invariant examined > 0 ==> |Visible(records, 0, examined - 1)| < wanted
      invariant hidden <==> |found| < examined
    {
      var filtered := records[examined];
      examined := examined + 1;
      match filtered {
        case Some(data) =>
          found := found + [data];
          if |found| >= wanted {
            break;
          }
        case None =>
          hidden := true;
      }
    }
  }

  /**
   * What is known between two batches: `collected` is what is visible of the rows examined, and
   * the reference scan resumed at `consumed` ends where the whole page does.
   */
  ghost predicate Scanned<D>(rows: seq<Option<D>>, offset: nat, end: nat, consumed: nat, collected: seq<D>,
                             wanted: nat, budget: nat)
  {
    && offset <= consumed <= |rows|
    && collected == Visible(rows, offset, consumed)
    && |collected| <= consumed - offset
    && ScanEnd(rows, consumed, wanted, budget) == end
  }

  lemma BatchStep<D>(rows: seq<Option<D>>, offset: nat, end: nat, consumed: nat, collected: seq<D>,
                     wanted: nat, budget: nat, records: seq<Option<D>>, examined: nat, found: seq<D>)
    requires Scanned(rows, offset, end, consumed, collected, wanted, budget)
    requires consumed + |records| <= |rows| && records == rows[consumed..consumed + |records|]
    requires 0 < examined <= |records| <= budget
    requires |Visible(records, 0, examined - 1)| < wanted
    requires found == Visible(records, 0, examined)
    ensures |found| <= wanted && |found| <= examined
    ensures Scanned(rows, offset, end, consumed + examined, collected + found, wanted - |found|, budget - examined)
  {
    VisibleOfSlice(rows, consumed, consumed + |records|, examined);
    VisibleOfSlice(rows, consumed, consumed + |records|, examined - 1);
    ScanResumes(rows, consumed, wanted, budget, examined);
    VisibleConcat(rows, offset, consumed, consumed + examined);
    VisibleLength(rows, consumed, consumed + examined);
  }

  /** One round of the outer loop: a query and its batch; `last` when the loop breaks after it. */
  method FetchBatch<D>(rows: seq<Option<D>>, consumed: nat, batchSize: nat, wanted: nat,
                       ghost offset: nat, ghost end: nat, ghost collected: seq<D>, ghost budget: nat)
      returns (examined: nat, found: seq<D>, hidden: bool, last: bool)
    requires wanted >= 1 && 1 <= batchSize <= budget && batchSize <= MAX_ROWS_PER_QUERY
    requires consumed <= |rows| ==> Scanned(rows, offset, end, consumed, collected, wanted, budget)
    ensures |found| <= wanted && examined <= batchSize && |found| <= examined
    ensures consumed <= |rows| ==>
        Scanned(rows, offset, end, consumed + examined, collected + found, wanted - |found|, budget - examined)
    ensures hidden <==> |found| < examined
    ensures last ==> consumed + examined >= |rows| || |found| == wanted
    ensures consumed >= |rows| ==> examined == 0 && last
    ensures examined == 0 ==> consumed >= |rows|
  {
    var records := Query(rows, consumed, batchSize);
    if records == [] {
      examined, found, hidden, last := 0, [], false, true;
    } else {
      examined, found, hidden := ExamineBatch(records, wanted);
      BatchStep(rows, offset, end, consumed, collected, wanted, budget, records, examined, found);
      last := |records| < batchSize;
    }
  }

  /**
   * `fetch_with_consent`: fills one page by querying batches, and reports the offset just after
   * the last row examined, the unfiltered total, and whether a hidden row was met.
   * `_count` is validated to be at least 1 by the endpoints.
   */
  method FetchWithConsent<D>(rows: seq<Option<D>>, count: nat, offset: nat, factor: Factor)
      returns (collected: seq<D>, consumed: nat, rawTotal: nat, consentApplied: bool)
    requires count >= 1
    ensures consumed == PageEnd(rows, count, offset, factor)
    ensures collected == if consumed <= |rows| then Visible(rows, offset, consumed) else []
    ensures |collected| <= count
    ensures rawTotal == |rows|
    ensures consentApplied <==> consumed <= |rows| && SomeHidden(rows, offset, consumed)
  {
    collected := [];
    consumed := offset;
    rawTotal := 0;
    consentApplied := false;
    var maxOverfetch: nat := count * factor;
    var fetchedSoFar := 0;
    ghost var end: nat := PageEnd(rows, count, offset, factor);

    while |collected| < count && fetchedSoFar < maxOverfetch
      invariant offset <= consumed && (consumed <= |rows| || (consumed == offset && collected == []))
      invariant fetchedSoFar == consumed - offset <= maxOverfetch && |collected| <= count
      invariant consumed <= |rows| ==>
          Scanned(rows, offset, end, consumed, collected, count - |collected|, maxOverfetch - fetchedSoFar)
      invariant consentApplied <==> |collected| < fetchedSoFar
      invariant rawTotal == if fetchedSoFar == 0 then 0 else |rows|
      decreases maxOverfetch - fetchedSoFar
    {
      var batchSize := Min(Min(count * 2, maxOverfetch - fetchedSoFar), MAX_ROWS_PER_QUERY);
      var examined, found, hidden, last := FetchBatch(rows, consumed, batchSize, count - |collected|,
                                                      offset, end, collected, maxOverfetch - fetchedSoFar);
      rawTotal := |rows|;
      collected := collected + found;
      consentApplied := consentApplied || hidden;
      fetchedSoFar := fetchedSoFar + examined;
      consumed := consumed + examined;
      if last {
        break;
      }
    }
    if consumed <= |rows| {
      VisibleAtMost(rows, offset, consumed);
    }
  }

  /** `page_total_and_next`: the total and the next offset published with a page. */
  function PageTotalAndNext(returned: nat, count: nat, offset: nat, consumed: nat, rawTotal: nat, consentFiltered: bool)
      : (nat, Option<nat>)
  {
    if consentFiltered then
      (returned, if consumed < rawTotal then Some(consumed) else None)
    else
      (rawTotal, if returned >= count then Some(offset + count) else None)
  }

  /** A page as the search endpoints answer it. */
  datatype Page<D> = Page(data: seq<D>, total: nat, next: Option<nat>)

  /** The page the endpoints publish for an offset, in terms of the reference scan. */
  ghost function PageAt<D>(rows: seq<Option<D>>, count: nat, offset: nat, clientFiltered: bool, factor: Factor): Page<D> {
    var consumed := PageEnd(rows, count, offset, factor);
    var data := if consumed <= |rows| then Visible(rows, offset, consumed) else [];
    var hiddenMet := consumed <= |rows| && SomeHidden(rows, offset, consumed);
    var (total, next) := PageTotalAndNext(|data|, count, offset, consumed, |rows|, hiddenMet || clientFiltered);
    Page(data, total, next)
  }

  /** `search_individuals` and `search_groups`: one page of the search endpoints. */
  method SearchPage<D>(rows: seq<Option<D>>, count: nat, offset: nat, clientFiltered: bool, factor: Factor)
      returns (page: Page<D>)
    requires count >= 1
    ensures page == PageAt(rows, count, offset, clientFiltered, factor)
  {
    var collected, consumed, rawTotal, applied := FetchWithConsent(rows, count, offset, factor);
    var (total, next) := PageTotalAndNext(|collected|, count, offset, consumed, rawTotal, applied || clientFiltered);
    page := Page(collected, total, next);
  }

  /**
   * What a `next` link means, for either kind of client: it is the first row not examined, it
   * moves forward by at least a page of rows, and a page without one has reached the end of the
   * data. A page that is consent-filtered, or that met a hidden row, links exactly while rows
   * remain, and its total is the number of records returned. Any other page has the total of all
   * rows, and links exactly when it is full.
   */
  lemma NextMeaning<D>(rows: seq<Option<D>>, count: nat, offset: nat, clientFiltered: bool, factor: Factor)
    requires count >= 1 && offset <= |rows|
    ensures var page := PageAt(rows, count, offset, clientFiltered, factor);
      var consumed := PageEnd(rows, count, offset, factor);
      && consumed <= |rows|
      && page.data == Visible(rows, offset, consumed)
      && (page.next.Some? ==> page.next.value == consumed && offset + count <= consumed)
      && (page.next.None? ==> consumed == |rows|)
      && (clientFiltered || SomeHidden(rows, offset, consumed) ==>
            (page.next.None? <==> consumed == |rows|) && page.total == |page.data|)
      && (!clientFiltered && !SomeHidden(rows, offset, consumed) ==>
            (page.next.Some? <==> |page.data| == count) && page.total == |rows|)
  {
    AtLeastAPage(count, factor);
    ScanEndMeaning(rows, offset, count, count * factor);
    VisibleAtMost(rows, offset, PageEnd(rows, count, offset, factor));
  }

  /**
   * The only page that links to an empty one at the end of the data is a full page of a client
   * not subject to consent, with nothing hidden from it; a consent-filtered page never does.
   */
  lemma LinkToEmptyPage<D>(rows: seq<Option<D>>, count: nat, offset: nat, clientFiltered: bool, factor: Factor)
    requires count >= 1 && offset <= |rows|
    ensures PageAt(rows, count, offset, clientFiltered, factor).next == Some(|rows|) <==>
        !clientFiltered && !SomeHidden(rows, offset, |rows|) && offset + count == |rows|
  {
    NextMeaning(rows, count, offset, clientFiltered, factor);
    AtLeastAPage(count, factor);
    ScanEndMeaning(rows, offset, count, count * factor);
    VisibleAtMost(rows, offset, PageEnd(rows, count, offset, factor));
  }

  /**
   * A client following `next` from the first page until it is null receives exactly the rows
   * it may see, each once and in database order, in a bounded number of pages.
   */
  method FollowNext<D>(rows: seq<Option<D>>, count: nat, clientFiltered: bool, factor: Factor)
      returns (seen: seq<D>, pages: nat)
    requires count >= 1
    ensures seen == Visible(rows, 0, |rows|)
    ensures 1 <= pages && (pages - 1) * count <= |rows|
  {
    var page := SearchPage(rows, count, 0, clientFiltered, factor);
    NextMeaning(rows, count, 0, clientFiltered, factor);
    seen, pages := page.data, 1;
    ghost var consumed: nat := PageEnd(rows, count, 0, factor);
    while page.next.Some?
      invariant consumed <= |rows| && seen == Visible(rows, 0, consumed)
      invariant page.next.Some? ==> page.next.value == consumed
      invariant page.next.None? ==> consumed == |rows|
      invariant pages >= 1 && (pages - 1) * count + (if page.next.Some? then count else 0) <= consumed
      decreases page.next.Some?, |rows| - consumed
    {
      var offset := page.next.value;
      page := SearchPage(rows, count, offset, clientFiltered, factor);
      NextMeaning(rows, count, offset, clientFiltered, factor);
      consumed := PageEnd(rows, count, offset, factor);
      VisibleConcat(rows, 0, offset, consumed);
      seen := seen + page.data;
      pages := pages + 1;
    }
  }
}
