/** The state of the admin job list page: the current page and search term,
    the fetch that runs whenever either changes, and the delete action. */
module JobList {
  import opened JsText
  import opened Optional
  import opened Pagination

  /** A row of the table, as the API lists it. */
  datatype JobRow = JobRow(id: JsString, title: JsString, organization: JsString, location: JsString,
                           lastDate: JsString, isActive: bool, createdAt: JsString)

  datatype ListState = ListState(jobs: seq<JobRow>, loading: bool, search: JsString, page: int,
                                 totalPages: int, totalJobs: int)

  /** The page as first rendered: loading, page 1 of 1, no search. */
  const Initial: ListState := ListState([], true, [], 1, 1, 0)

  /** The `params` of `GET /jobs`; an empty search term is sent as
      `undefined`, that is, left out. */
  datatype Query = Query(page: int, limit: int, search: Option<JsString>)

  function QueryOf(s: ListState): Query {
    Query(s.page, ItemsPerPage, if s.search == [] then None else Some(s.search))
  }

  /** The effect on `[currentPage, searchTerm]`: after the first render, and
      after every render in which the page or the search term changed, the
      list is fetched for the new values. */
  function EffectFetch(before: Option<ListState>, after: ListState): Option<Query> {
    if before.None? || before.value.page != after.page || before.value.search != after.search
    then Some(QueryOf(after))
    else None
  }

  /** `handlePageChange(page)` */
  function HandlePageChange(s: ListState, page: int): ListState {
    s.(page := page)
  }

  /** `handleSearch(value)`: the term is stored and the page reset to 1, in
      one render. */
  function HandleSearch(s: ListState, value: JsString): ListState {
    s.(search := value, page := 1)
  }

  /** What `GET /jobs` came back with. */
  datatype FetchResult = Loaded(rows: seq<JobRow>, total: nat) | LoadFailed

  datatype ListToast = LoadFailedToast | DeletedToast | DeleteFailedToast

  /** The state at the start of `fetchJobs`. */
  function StartFetch(s: ListState): ListState {
    s.(loading := true)
  }

  /** The end of `fetchJobs`: the rows and counts of a good response are
      stored; a failure leaves them and shows "Failed to load jobs". Loading
      ends either way. */
  function ApplyFetch(s: ListState, r: FetchResult): (ListState, Option<ListToast>) {
    match r
    case Loaded(rows, total) =>
      (s.(jobs := rows, totalJobs := total, totalPages := TotalPages(total), loading := false), None)
    case LoadFailed => (s.(loading := false), Some(LoadFailedToast))
  }

  /** What `handleDelete(id)` does: the DELETE request it sends (if any),
      its toast, and the re-fetch it starts. */
  datatype DeleteOutcome = DeleteOutcome(deleted: Option<JsString>, toast: Option<ListToast>,
                                         refetch: Option<Query>)

  /** `handleDelete(id)`: `confirmed` is the answer to the confirm dialog,
      `succeeded` whether `DELETE /jobs/<id>` succeeded. */
  function HandleDelete(s: ListState, id: JsString, confirmed: bool, succeeded: bool): DeleteOutcome {
    if !confirmed then DeleteOutcome(None, None, None)
    else if succeeded then DeleteOutcome(Some(id), Some(DeletedToast), Some(QueryOf(s)))
    else DeleteOutcome(Some(id), Some(DeleteFailedToast), None)
  }

  // ---------------------------------------------------------------------
  // What the page promises

  /** The first render fetches page 1 with no search term. */
  lemma FirstRenderFetchesFirstPage()
    ensures EffectFetch(None, Initial) == Some(Query(1, 10, None))
  {
  }

  /** A search fetches at most once, and that fetch is for page 1 of the new
      term; it fetches unless neither the term nor the page changed. */
  lemma SearchFetchesFirstPage(s: ListState, value: JsString)
    ensures var q := EffectFetch(Some(s), HandleSearch(s, value));
            && (q.Some? <==> value != s.search || s.page != 1)
            && (q.Some? ==> q.value.page == 1 && q.value.limit == ItemsPerPage)
            && (q.Some? ==> (q.value.search.Some? <==> value != []))
            && (q.Some? && value != [] ==> q.value.search == Some(value))
    ensures HandleSearch(s, value).(search := s.search, page := s.page) == s
  {
  }

  /** Moving to another page fetches that page for the same search term;
      "moving" to the page already shown fetches nothing. */
  lemma PageChangeKeepsSearch(s: ListState, page: int)
    ensures var q := EffectFetch(Some(s), HandlePageChange(s, page));
            && (q.Some? <==> page != s.page)
            && (q.Some? ==> q.value == QueryOf(s).(page := page))
    ensures HandlePageChange(s, page).(page := s.page) == s
  {
  }

  /** Storing a response changes neither the page nor the search term, so it
      never starts another fetch: the page does not fetch in a loop. */
  lemma FetchDoesNotRefetch(s: ListState, r: FetchResult)
    ensures EffectFetch(Some(s), StartFetch(s)) == None
    ensures EffectFetch(Some(s), ApplyFetch(s, r).0) == None
    ensures !ApplyFetch(s, r).0.loading
  {
  }

  /** After a good response the page count is the ceiling of the total over
      ten, and the pagination bar (shown for more than one page) appears
      exactly when there are more than ten jobs. */
  lemma LoadedPageCount(s: ListState, rows: seq<JobRow>, total: nat)
    ensures var t := ApplyFetch(s, Loaded(rows, total)).0;
            && t.totalPages == TotalPages(total)
            && (t.totalPages > 1 <==> total > ItemsPerPage)
            && t.jobs == rows && t.totalJobs == total
  {
  }

  /** A cancelled delete does nothing; a failed one sends the request but
      does not re-fetch; a successful one re-fetches the same page for the
      same search term. */
  lemma DeleteRefetchesOnlyOnSuccess(s: ListState, id: JsString, confirmed: bool, succeeded: bool)
    ensures var o := HandleDelete(s, id, confirmed, succeeded);
            && (o.deleted.Some? <==> confirmed)
            && (o.deleted.Some? ==> o.deleted.value == id)
            && (o.refetch.Some? <==> confirmed && succeeded)
            && (o.refetch.Some? ==> o.refetch.value == QueryOf(s))
            && (o.toast.None? <==> !confirmed)
            && (confirmed && succeeded ==> o.toast == Some(DeletedToast))
            && (confirmed && !succeeded ==> o.toast == Some(DeleteFailedToast))
  {
  }

  // ---------------------------------------------------------------------
  // The page after deleting the last job of the last page

  /** A confirmed, successful delete followed by the re-fetch it starts
      (which asks for `QueryOf(s)`), as the page does it: the current page
      is kept, even when the list now has fewer pages. */
  function DeleteAndReload(s: ListState, reloaded: FetchResult): ListState {
    ApplyFetch(StartFetch(s), reloaded).0
  }

  /** Deleting the only job on page 3 of 21 leaves the list on page 3 of 2:
      the table is empty, the line under it reads "Showing 21 to 20 of 20
      jobs", no page button is highlighted, and Next leads back to page 2. */
  lemma StalePageAfterDelete()
    ensures var s := ListState([JobRow([], [], [], [], [], true, [])], false, [], 3, 3, 21);
            var t := DeleteAndReload(s, Loaded([], 20));
            && t.page == 3 && t.totalPages == 2 && t.jobs == []
            && ShownRange(t.page, 20) == (21, 20)
            && NextTarget(t.page, t.totalPages) == 2
            && forall k :: 0 <= k < |Render(t.page, t.totalPages)| ==>
                 Render(t.page, t.totalPages)[k] != Button(t.page, true)
  {
    HighlightIsCurrentPage(3, 2);
  }

  /** The corrected reload: after a good response, a page beyond the new
      last page is replaced by the last page (which, being a page change,
      fetches that page). */
  function ApplyFetchClamped(s: ListState, r: FetchResult): (t: (ListState, Option<ListToast>))
    ensures r.LoadFailed? ==> t == ApplyFetch(s, r)
  {
    var (u, toast) := ApplyFetch(s, r);
    if r.Loaded? && u.totalPages >= 1 && u.page > u.totalPages then (u.(page := u.totalPages), toast)
    else (u, toast)
  }

  /** With the corrected reload the current page is always a page of the
      list when there are jobs, so the line under the table names a run of
      jobs that exists; a page already in range is left alone. */
  lemma ClampedPageInRange(s: ListState, rows: seq<JobRow>, total: nat)
    requires s.page >= 1
    ensures var t := ApplyFetchClamped(s, Loaded(rows, total)).0;
            && (total > 0 ==> 1 <= t.page <= t.totalPages)
            && (total > 0 ==> var (x, y) := ShownRange(t.page, total); 1 <= x <= y <= total)
            && (s.page <= TotalPages(total) ==> t == ApplyFetch(s, Loaded(rows, total)).0)
  {
    var t := ApplyFetchClamped(s, Loaded(rows, total)).0;
    if total > 0 {
      ShownRangeOnPage(t.page, total, 1);
    }
  }
}
