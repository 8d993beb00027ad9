/** The offset pagination of `get_works_by_issn` in `src/crossref.py`, run
    against a page oracle `api` that maps a request URL to its response. */
module CrossrefPaging {
  import opened Wrappers
  import opened Text
  import opened Crossref

  /** The page URL without an offset parameter. */
  function JournalBaseUrl(issn: string, sYear: int): string {
    "https://api.crossref.org/journals/" + issn + "/works?"
    + "filter=from-pub-date:" + IntToString(sYear) + "-01-01"
    + "&rows=1000"
  }

  /** The URL of one page request; the offset parameter is appended only when
      the offset is non-zero (`if current_offset:`). */
  function JournalPageUrl(issn: string, sYear: int, offset: int): string {
    var base := JournalBaseUrl(issn, sYear);
    if offset != 0 then base + "&offset=" + IntToString(offset) else base
  }

  /** The loop guard `total_results == 0 or current_offset < total_results`. */
  predicate MorePages(offset: int, total: int) {
    total == 0 || offset < total
  }

  /** How a run of the loop ends. `OutOfFuel` marks a run cut off after the
      allowed number of requests; the source has no such bound. */
  datatype Outcome = Exhausted | Aborted(error: QueryError) | OutOfFuel

  /** The requests a run makes: the offset of each and the response it got. */
  datatype Walk = Walk(offsets: seq<int>, responses: seq<Response>, outcome: Outcome)

  /** The response to the page request at each offset. */
  function PageFetcher(api: string -> Response, issn: string, sYear: int): int -> Response {
    (offset: int) => api(JournalPageUrl(issn, sYear, offset))
  }

  /** The loop from the state (`offset`, `total`), allowed at most `fuel` more
      requests, where `fetch` gives the response for an offset. */
  function Pages(fetch: int -> Response, offset: int, total: int, fuel: nat): Walk
    decreases fuel
  {
    if !MorePages(offset, total) then Walk([], [], Exhausted)
    else if fuel == 0 then Walk([], [], OutOfFuel)
    else
      var resp := fetch(offset);
      match Checked(resp)
      case Err(e) => Walk([offset], [resp], Aborted(e))
      case Ok(_) =>
        var rest := Pages(fetch, offset + resp.itemsPerPage, resp.totalResults, fuel - 1);
        Walk([offset] + rest.offsets, [resp] + rest.responses, rest.outcome)
  }

  /** The run `get_works_by_issn` performs: offset 0, total 0. */
  function Harvest(api: string -> Response, issn: string, sYear: int, fuel: nat): Walk {
    Pages(PageFetcher(api, issn, sYear), 0, 0, fuel)
  }

  /** `all_results`: every page's items, in request order. */
  function AllItems(rs: seq<Response>): seq<Work> {
    if |rs| == 0 then [] else rs[0].items + AllItems(rs[1..])
  }

  datatype HarvestError = Failed(cause: QueryError) | NotTerminated

  /** What the function returns for a run: all items, or the error that aborted it. */
  function Collected(w: Walk): Result<seq<Work>, HarvestError> {
    match w.outcome
    case Exhausted => Ok(AllItems(w.responses))
    case Aborted(e) => Err(Failed(e))
    case OutOfFuel => Err(NotTerminated)
  }

  function PrependItems(items: seq<Work>, r: Result<seq<Work>, HarvestError>): Result<seq<Work>, HarvestError> {
    match r
    case Ok(rest) => Ok(items + rest)
    case Err(e) => Err(e)
  }

  /** The response passes `raise_for_status` and the `status == "ok"` assertion. */
  predicate PageOk(resp: Response) {
    Checked(resp).Ok?
  }

  // ---------------------------------------------------------------------------
  // The run's shape

  /** Every request is the fetch of its offset; the first offset is the
      starting one and each later one is the previous plus the reported page size. */
  lemma {:induction false} PagesShape(fetch: int -> Response, offset: int, total: int, fuel: nat)
    ensures var w := Pages(fetch, offset, total, fuel);
      && |w.offsets| == |w.responses| <= fuel
      && (|w.offsets| > 0 ==> w.offsets[0] == offset)
      && (forall k :: 0 <= k < |w.offsets| ==> w.responses[k] == fetch(w.offsets[k]))
      && (forall k :: 0 <= k < |w.offsets| - 1 ==> w.offsets[k + 1] == w.offsets[k] + w.responses[k].itemsPerPage)
    decreases fuel
  {
    if MorePages(offset, total) && fuel > 0 {
      var resp := fetch(offset);
      if PageOk(resp) {
        PagesShape(fetch, offset + resp.itemsPerPage, resp.totalResults, fuel - 1);
      }
    }
  }

  /** The first request of `get_works_by_issn` carries no offset parameter;
      every later one to a non-zero offset carries that offset. */
  lemma FirstRequestWithoutOffset(api: string -> Response, issn: string, sYear: int, fuel: nat)
    requires fuel > 0
    ensures var w := Harvest(api, issn, sYear, fuel);
      && |w.responses| > 0 && w.offsets[0] == 0
      && w.responses[0] == api(JournalBaseUrl(issn, sYear))
    ensures var w := Harvest(api, issn, sYear, fuel);
      && |w.offsets| == |w.responses|
      && forall k :: 0 < k < |w.responses| && w.offsets[k] != 0 ==>
           w.responses[k] == api(JournalBaseUrl(issn, sYear) + "&offset=" + IntToString(w.offsets[k]))
  {
    var fetch := PageFetcher(api, issn, sYear);
    PagesShape(fetch, 0, 0, fuel);
    assert JournalPageUrl(issn, sYear, 0) == JournalBaseUrl(issn, sYear);
    assert fetch(0) == api(JournalPageUrl(issn, sYear, 0));
    var w := Harvest(api, issn, sYear, fuel);
    forall k | 0 < k < |w.responses| && w.offsets[k] != 0
      ensures w.responses[k] == api(JournalBaseUrl(issn, sYear) + "&offset=" + IntToString(w.offsets[k]))
    {
      var o := w.offsets[k];
      assert w.responses[k] == fetch(o);
      assert fetch(o) == api(JournalPageUrl(issn, sYear, o));
      assert JournalPageUrl(issn, sYear, o) == JournalBaseUrl(issn, sYear) + "&offset=" + IntToString(o);
    }
  }

  predicate StrictlyIncreasing(s: seq<int>) {
    forall i, j :: 0 <= i < j < |s| ==> s[i] < s[j]
  }

  predicate AllAtLeast(s: seq<int>, low: int) {
    forall i :: 0 <= i < |s| ==> low <= s[i]
  }

  /** With positive page sizes the offsets strictly increase. */
  lemma {:induction false} OffsetsIncrease(fetch: int -> Response, offset: int, total: int, fuel: nat)
    requires forall o :: fetch(o).itemsPerPage > 0
    ensures StrictlyIncreasing(Pages(fetch, offset, total, fuel).offsets)
    ensures AllAtLeast(Pages(fetch, offset, total, fuel).offsets, offset)
    decreases fuel
  {
    if MorePages(offset, total) && fuel > 0 {
      var resp := fetch(offset);
      if PageOk(resp) {
        var next := offset + resp.itemsPerPage;
        OffsetsIncrease(fetch, next, resp.totalResults, fuel - 1);
        var rest := Pages(fetch, next, resp.totalResults, fuel - 1).offsets;
        var all := Pages(fetch, offset, total, fuel).offsets;
        assert all == [offset] + rest;
        assert forall i :: 1 <= i < |all| ==> all[i] == rest[i - 1];
      }
    }
  }

  /** Each request after the first was made because the previous response
      was accepted and the loop guard still held for its total. */
  predicate Continued(w: Walk) {
    forall k :: 0 <= k < |w.responses| && k + 1 < |w.offsets| ==>
      PageOk(w.responses[k]) && MorePages(w.offsets[k + 1], w.responses[k].totalResults)
  }

  /** The last response was accepted and reported a non-zero total that the
      next offset reaches. */
  predicate StoppedAtTotal(w: Walk) {
    var n := |w.responses|;
    n > 0 && |w.offsets| == n &&
    PageOk(w.responses[n - 1]) &&
    w.responses[n - 1].totalResults != 0 &&
    w.offsets[n - 1] + w.responses[n - 1].itemsPerPage >= w.responses[n - 1].totalResults
  }

  /** The loop makes another request only after an accepted response whose
      total the next offset has not reached. */
  lemma {:induction false} PagesContinue(fetch: int -> Response, offset: int, total: int, fuel: nat)
    ensures Continued(Pages(fetch, offset, total, fuel))
    decreases fuel
  {
    if MorePages(offset, total) && fuel > 0 {
      var resp := fetch(offset);
      if PageOk(resp) {
        var next := offset + resp.itemsPerPage;
        PagesContinue(fetch, next, resp.totalResults, fuel - 1);
        PagesShape(fetch, next, resp.totalResults, fuel - 1);
        var rest := Pages(fetch, next, resp.totalResults, fuel - 1);
        var w := Pages(fetch, offset, total, fuel);
        assert forall k :: 1 <= k < |w.responses| ==> w.responses[k] == rest.responses[k - 1];
        assert forall k :: 1 <= k < |w.offsets| ==> w.offsets[k] == rest.offsets[k - 1];
        if |rest.offsets| > 0 {
          assert w.offsets[1] == next;
        }
      }
    }
  }

  /** A run that ends on its own either never started or stopped once a
      response reported a non-zero total reached by the next offset. */
  lemma {:induction false} PagesStopRule(fetch: int -> Response, offset: int, total: int, fuel: nat)
    ensures var w := Pages(fetch, offset, total, fuel);
      w.outcome.Exhausted? ==> (|w.responses| == 0 && !MorePages(offset, total)) || StoppedAtTotal(w)
    decreases fuel
  {
    if MorePages(offset, total) && fuel > 0 {
      var resp := fetch(offset);
      if PageOk(resp) {
        var next := offset + resp.itemsPerPage;
        PagesStopRule(fetch, next, resp.totalResults, fuel - 1);
        PagesShape(fetch, next, resp.totalResults, fuel - 1);
        var rest := Pages(fetch, next, resp.totalResults, fuel - 1);
        var w := Pages(fetch, offset, total, fuel);
        if w.outcome.Exhausted? && |rest.responses| > 0 {
          var n := |w.responses|;
          assert w.responses[n - 1] == rest.responses[n - 2];
          assert w.offsets[n - 1] == rest.offsets[n - 2];
        }
      }
    }
  }

  /** For `get_works_by_issn` itself: a run that ends on its own ends by the
      reported total, never on an empty first state. */
  lemma HarvestStopsAtTotal(api: string -> Response, issn: string, sYear: int, fuel: nat)
    requires Harvest(api, issn, sYear, fuel).outcome.Exhausted?
    ensures StoppedAtTotal(Harvest(api, issn, sYear, fuel))
  {
    PagesStopRule(PageFetcher(api, issn, sYear), 0, 0, fuel);
  }

  /** A run aborts exactly when its last response is refused, with that
      response's error, and then returns none of the items already fetched. */
  lemma {:induction false} AbortedOnRefusedPage(fetch: int -> Response, offset: int, total: int, fuel: nat)
    ensures var w := Pages(fetch, offset, total, fuel);
      && (w.outcome.Aborted? <==> |w.responses| > 0 && !PageOk(w.responses[|w.responses| - 1]))
      && (w.outcome.Aborted? ==> Checked(w.responses[|w.responses| - 1]) == Err(w.outcome.error))
      && (w.outcome.Aborted? ==> Collected(w) == Err(Failed(w.outcome.error)))
    decreases fuel
  {
    if MorePages(offset, total) && fuel > 0 {
      var resp := fetch(offset);
      if PageOk(resp) {
        var next := offset + resp.itemsPerPage;
        AbortedOnRefusedPage(fetch, next, resp.totalResults, fuel - 1);
        var rest := Pages(fetch, next, resp.totalResults, fuel - 1);
        var w := Pages(fetch, offset, total, fuel);
        assert w.responses == [resp] + rest.responses;
        if |rest.responses| > 0 {
          assert w.responses[|w.responses| - 1] == rest.responses[|rest.responses| - 1];
        }
      }
    }
  }

  // ---------------------------------------------------------------------------
  // Termination

  /** A source that keeps reporting `total-results` 0 is asked again and again:
      however many requests are allowed, the run never ends on its own. */
  lemma {:induction false} TotalZeroNeverStops(fetch: int -> Response, offset: int, fuel: nat)
    requires forall o :: PageOk(fetch(o)) && fetch(o).totalResults == 0
    ensures Pages(fetch, offset, 0, fuel).outcome == OutOfFuel
    ensures |Pages(fetch, offset, 0, fuel).responses| == fuel
    decreases fuel
  {
    if fuel > 0 {
      var resp := fetch(offset);
      assert PageOk(resp) && resp.totalResults == 0;
      TotalZeroNeverStops(fetch, offset + resp.itemsPerPage, fuel - 1);
    }
  }

  /** A run that ends within its fuel ends the same way with any larger allowance. */
  lemma {:induction false} FuelMonotone(fetch: int -> Response, offset: int, total: int, fuel: nat, more: nat)
    requires Pages(fetch, offset, total, fuel).outcome != OutOfFuel
    requires fuel <= more
    ensures Pages(fetch, offset, total, more) == Pages(fetch, offset, total, fuel)
    decreases fuel
  {
    if MorePages(offset, total) && fuel > 0 {
      var resp := fetch(offset);
      if PageOk(resp) {
        FuelMonotone(fetch, offset + resp.itemsPerPage, resp.totalResults, fuel - 1, more - 1);
      }
    }
  }

  /** Against a source reporting a fixed non-zero total and a positive page
      size, enough requests to cover the rest of the total end the run. */
  lemma {:induction false} SteadySourceStops(fetch: int -> Response, offset: int, size: int, count: int, fuel: nat)
    requires size > 0 && count > 0
    requires forall o :: PageOk(fetch(o)) && fetch(o).totalResults == count && fetch(o).itemsPerPage == size
    requires fuel * size >= count - offset
    ensures Pages(fetch, offset, count, fuel).outcome == Exhausted
    decreases fuel
  {
    if offset < count {
      assert fuel > 0;
      var resp := fetch(offset);
      assert PageOk(resp) && resp.totalResults == count && resp.itemsPerPage == size;
      assert (fuel - 1) * size == fuel * size - size;
      SteadySourceStops(fetch, offset + size, size, count, fuel - 1);
    }
  }

  /** From the start, `fuel` pages of `size` items covering `count` suffice. */
  lemma SteadyHarvestStops(fetch: int -> Response, size: int, count: int, fuel: nat)
    requires size > 0 && count > 0
    requires forall o :: PageOk(fetch(o)) && fetch(o).totalResults == count && fetch(o).itemsPerPage == size
    requires fuel * size >= count
    ensures Pages(fetch, 0, 0, fuel).outcome == Exhausted
    ensures Collected(Pages(fetch, 0, 0, fuel)).Ok?
  {
    assert fuel > 0;
    var resp := fetch(0);
    assert PageOk(resp) && resp.totalResults == count && resp.itemsPerPage == size;
    assert (fuel - 1) * size == fuel * size - size;
    SteadySourceStops(fetch, size, size, count, fuel - 1);
  }

  /** A single page of three items that reports a total of 3 and the page
      size 1000 ends the run after one request: a later empty page is never fetched. */
  lemma OnePageScenario(api: string -> Response, issn: string, sYear: int, items: seq<Work>, fuel: nat)
    requires fuel > 0 && |items| == 3
    requires api(JournalPageUrl(issn, sYear, 0)) == Response(200, "ok", items, 3, 1000)
    ensures |Harvest(api, issn, sYear, fuel).responses| == 1
    ensures Collected(Harvest(api, issn, sYear, fuel)) == Ok(items)
  {
    var fetch := PageFetcher(api, issn, sYear);
    var resp := Response(200, "ok", items, 3, 1000);
    assert fetch(0) == resp;
    assert PageOk(resp);
    var rest := Pages(fetch, 1000, 3, fuel - 1);
    assert rest == Walk([], [], Exhausted);
    var w := Harvest(api, issn, sYear, fuel);
    assert w == Walk([0], [resp], Exhausted);
    assert [resp][1..] == [];
    assert items + [] == items;
    assert AllItems([resp]) == items;
  }

  // ---------------------------------------------------------------------------
  // The loop

  lemma StepCollected(fetch: int -> Response, offset: int, total: int, fuel: nat)
    requires MorePages(offset, total) && fuel > 0
    requires PageOk(fetch(offset))
    ensures var resp := fetch(offset);
      Collected(Pages(fetch, offset, total, fuel)) ==
      PrependItems(resp.items, Collected(Pages(fetch, offset + resp.itemsPerPage, resp.totalResults, fuel - 1)))
  {
    var resp := fetch(offset);
    var rest := Pages(fetch, offset + resp.itemsPerPage, resp.totalResults, fuel - 1);
    assert ([resp] + rest.responses)[1..] == rest.responses;
  }

  /** The loop invariant of `get_works_by_issn`: the run's result `whole` is
      `acc` followed by what the rest of the run from (`offset`, `total`) collects. */
  ghost predicate Pending(whole: Result<seq<Work>, HarvestError>, acc: seq<Work>,
                          fetch: int -> Response, offset: int, total: int, left: nat)
  {
    whole == PrependItems(acc, Collected(Pages(fetch, offset, total, left)))
  }

  /** An accepted page moves its items into `acc`. */
  lemma PendingAccepted(whole: Result<seq<Work>, HarvestError>, acc: seq<Work>,
                        fetch: int -> Response, offset: int, total: int, left: nat)
    requires Pending(whole, acc, fetch, offset, total, left)
    requires MorePages(offset, total) && left > 0 && PageOk(fetch(offset))
    ensures Pending(whole, acc + fetch(offset).items, fetch,
                    offset + fetch(offset).itemsPerPage, fetch(offset).totalResults, left - 1)
  {
    var resp := fetch(offset);
    StepCollected(fetch, offset, total, left);
    var rest := Collected(Pages(fetch, offset + resp.itemsPerPage, resp.totalResults, left - 1));
    assert rest.Ok? ==> acc + (resp.items + rest.value) == (acc + resp.items) + rest.value;
  }

  /** A refused page ends the run with that page's error. */
  lemma PendingRefused(whole: Result<seq<Work>, HarvestError>, acc: seq<Work>,
                       fetch: int -> Response, offset: int, total: int, left: nat)
    requires Pending(whole, acc, fetch, offset, total, left)
    requires MorePages(offset, total) && left > 0 && !PageOk(fetch(offset))
    ensures whole == Err(Failed(Checked(fetch(offset)).error))
  {
  }

  /** Running out of requests before the last page ends the run unfinished. */
  lemma PendingOutOfFuel(whole: Result<seq<Work>, HarvestError>, acc: seq<Work>,
                         fetch: int -> Response, offset: int, total: int)
    requires Pending(whole, acc, fetch, offset, total, 0)
    requires MorePages(offset, total)
    ensures whole == Err(NotTerminated)
  {
  }

  /** Past the last page the run's result is `acc`. */
  lemma PendingDone(whole: Result<seq<Work>, HarvestError>, acc: seq<Work>,
                    fetch: int -> Response, offset: int, total: int, left: nat)
    requires Pending(whole, acc, fetch, offset, total, left)
    requires !MorePages(offset, total)
    ensures whole == Ok(acc)
  {
    assert acc + [] == acc;
  }

  /** The page URL, assembled by `+=` as in the loop body. */
  method BuildJournalPageUrl(issn: string, sYear: int, offset: int) returns (url: string)
    ensures url == JournalPageUrl(issn, sYear, offset)
  {
    url := "https://api.crossref.org/journals/" + issn + "/works?";
    url := url + "filter=from-pub-date:" + IntToString(sYear) + "-01-01";
    url := url + "&rows=1000";
    if offset != 0 {
      url := url + "&offset=" + IntToString(offset);
    }
  }

  /** `get_works_by_issn`: request pages, extend `all_results`, move the offset
      by the reported page size, until the reported total is reached. At most
      `fuel` requests are made. */
  method GetWorksByIssn(issn: string, sYear: int, api: string -> Response, fuel: nat)
    returns (r: Result<seq<Work>, HarvestError>)
    ensures r == Collected(Harvest(api, issn, sYear, fuel))
  {
    ghost var fetch := PageFetcher(api, issn, sYear);
    var allResults: seq<Work> := [];
    var totalResults := 0;
    var currentOffset := 0;
    var left := fuel;
    ghost var whole := Collected(Harvest(api, issn, sYear, fuel));
    assert whole.Ok? ==> [] + whole.value == whole.value;
    while MorePages(currentOffset, totalResults)
      invariant Pending(whole, allResults, fetch, currentOffset, totalResults, left)
      decreases left
    {
      if left == 0 {
        PendingOutOfFuel(whole, allResults, fetch, currentOffset, totalResults);
        return Err(NotTerminated);
      }
      var url := BuildJournalPageUrl(issn, sYear, currentOffset);
      var response := api(url);
      assert response == fetch(currentOffset);
      if RaisesForStatus(response.httpStatus) {
        PendingRefused(whole, allResults, fetch, currentOffset, totalResults, left);
        return Err(Failed(HttpError(response.httpStatus)));
      }
      if response.status != "ok" {
        PendingRefused(whole, allResults, fetch, currentOffset, totalResults, left);
        return Err(Failed(StatusNotOk(response.status)));
      }
      PendingAccepted(whole, allResults, fetch, currentOffset, totalResults, left);
      allResults := allResults + response.items;
      totalResults := response.totalResults;
      currentOffset := currentOffset + response.itemsPerPage;
      left := left - 1;
    }
    PendingDone(whole, allResults, fetch, currentOffset, totalResults, left);
    return Ok(allResults);
  }
}
