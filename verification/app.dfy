/** `App`: the page that owns the list state, chooses what to fetch and
    reacts to adding and deleting policies. Each handler returns the new
    state and the HTTP requests it issues, in order; the outcome of a request
    the handler awaits is a parameter. Paths are relative to `ApiBase`. */
module App {
  import opened Wrappers
  import opened Text
  import opened Dates
  import opened Types
  import opened AddForm
  import PolicyList

  const ApiBase := "http://localhost:8080"
  const ListPath := "/api/insurance"
  const SearchPath := "/api/insurance/search"
  const ActivePath := "/api/insurance/active"
  const ExpiredPath := "/api/insurance/expired"
  const ExpiryRangePath := "/api/insurance/expiry-range"

  /** Rows per page of the list. */
  const RowsPerPage: int := 10

  const FetchFailed := "Failed to fetch policies. Please try again later."
  const DeleteFailed := "Failed to delete policy. Please try again later."

  /** The vehicle summary nested in a new policy. */
  datatype VehicleSummary = VehicleSummary(registration: string, make: string, model: string)

  /** The body `addPolicy` posts. */
  datatype CreatePayload = CreatePayload(
    policyNumber: string,
    provider: string,
    vehicleId: int,
    startDate: string,
    endDate: string,
    premiumAmount: real,
    coverageType: string,
    deductibleAmount: real,
    liabilityCoverageAmount: real,
    comprehensiveCoverageAmount: real,
    collisionCoverageAmount: real,
    notes: string,
    vehicleImage: string,
    vehicle: VehicleSummary)

  /** The query-string keys the page sends. */
  datatype Key = PageNo | PageSize | SortBy | SortDirection | SearchTerm | StartDate | EndDate

  /** The name of a key as it appears in the query string. */
  function KeyName(k: Key): string {
    match k
    case PageNo => "pageNo"
    case PageSize => "pageSize"
    case SortBy => "sortBy"
    case SortDirection => "sortDir"
    case SearchTerm => "searchTerm"
    case StartDate => "startDate"
    case EndDate => "endDate"
  }

  /** A GET carries its query string as key/value pairs, in order. */
  datatype Request =
    | Get(path: string, params: seq<(Key, string)>)
    | Post(path: string, body: CreatePayload)
    | Delete(path: string)

  /** `/api/insurance/{id}`. */
  function PolicyPath(id: int): (p: string)
    ensures |p| > |ListPath| + 1 && p[..|ListPath| + 1] == ListPath + "/"
    ensures ParseInt(p[|ListPath| + 1..]) == Some(id)
  {
    ParseIntRoundTrip(id);
    var p := ListPath + "/" + IntToDecimal(id);
    assert p[|ListPath| + 1..] == IntToDecimal(id);
    p
  }

  // ---------------------------------------------------------------------------
  // What to fetch
  // ---------------------------------------------------------------------------

  /** The value of the first parameter named `key`, as a server reads it. */
  function Param(params: seq<(Key, string)>, key: Key): (v: Option<string>)
    ensures v.Some? ==> (key, v.value) in params
    ensures v.None? <==> forall q :: q in params ==> q.0 != key
  {
    if params == [] then None
    else if params[0].0 == key then Some(params[0].1)
    else Param(params[1..], key)
  }

  /** The list request of `fetchPolicies`: the page, its size and the sort,
      in that order, on the plain listing; with a search term, on the search
      endpoint with the term appended. */
  function ListRequest(page: int, sortBy: string, sortDir: SortDir, searchTerm: string): (r: Request)
    ensures r.Get?
    ensures r.path == (if searchTerm == [] then ListPath else SearchPath)
    ensures |r.params| == (if searchTerm == [] then 4 else 5)
    ensures r.params[0].0 == Key.PageNo && r.params[1].0 == Key.PageSize
    ensures ParseInt(r.params[0].1) == Some(page) && ParseInt(r.params[1].1) == Some(RowsPerPage)
    ensures r.params[2] == (Key.SortBy, sortBy) && r.params[3] == (Key.SortDirection, DirText(sortDir))
    ensures searchTerm != [] ==> r.params[4] == (Key.SearchTerm, searchTerm)
  {
    ParseIntRoundTrip(page);
    assert "10"[..1] == "1" && "1"[..0] == "";
    assert AllDigits("10") && DigitsValue("10") == 10;
    var params := [(Key.PageNo, IntToDecimal(page)), (Key.PageSize, "10"),
                   (Key.SortBy, sortBy), (Key.SortDirection, DirText(sortDir))];
    if searchTerm == [] then Get(ListPath, params)
    else Get(SearchPath, params + [(Key.SearchTerm, searchTerm)])
  }

  /** The first parameter named `key` is the one a server reads. */
  lemma {:induction false} ParamAt(params: seq<(Key, string)>, i: int, key: Key)
    requires 0 <= i < |params| && params[i].0 == key
    requires forall j :: 0 <= j < i ==> params[j].0 != key
    ensures Param(params, key) == Some(params[i].1)
  {
    if i > 0 {
      ParamAt(params[1..], i - 1, key);
    }
  }

  /** In a parameter list keyed like a list request, each key reads back
      its own value. */
  lemma ListKeysRead(ps: seq<(Key, string)>)
    requires 4 <= |ps| <= 5
    requires ps[0].0 == Key.PageNo && ps[1].0 == Key.PageSize
    requires ps[2].0 == Key.SortBy && ps[3].0 == Key.SortDirection
    requires |ps| == 5 ==> ps[4].0 == Key.SearchTerm
    ensures Param(ps, Key.PageNo) == Some(ps[0].1) && Param(ps, Key.PageSize) == Some(ps[1].1)
    ensures Param(ps, Key.SortBy) == Some(ps[2].1) && Param(ps, Key.SortDirection) == Some(ps[3].1)
    ensures |ps| == 5 ==> Param(ps, Key.SearchTerm) == Some(ps[4].1)
    ensures |ps| == 4 ==> Param(ps, Key.SearchTerm).None?
  {
    ParamAt(ps, 0, Key.PageNo);
    ParamAt(ps, 1, Key.PageSize);
    ParamAt(ps, 2, Key.SortBy);
    ParamAt(ps, 3, Key.SortDirection);
    if |ps| == 5 {
      ParamAt(ps, 4, Key.SearchTerm);
    } else {
      ParamAbsent(ps, Key.SearchTerm);
    }
  }

  /** A key no parameter carries reads as absent. */
  lemma {:induction false} ParamAbsent(params: seq<(Key, string)>, key: Key)
    requires forall j :: 0 <= j < |params| ==> params[j].0 != key
    ensures Param(params, key).None?
  {
    if params != [] {
      ParamAbsent(params[1..], key);
    }
  }

  /** Reading the list request's parameters back gives what it was built
      from: the page and the size as numbers, the sort, and the term exactly
      when there is one. */
  lemma ListRequestReadsBack(page: int, sortBy: string, sortDir: SortDir, searchTerm: string)
    ensures var ps := ListRequest(page, sortBy, sortDir, searchTerm).params;
      && Param(ps, Key.PageNo).Some? && ParseInt(Param(ps, Key.PageNo).value) == Some(page)
      && Param(ps, Key.PageSize).Some? && ParseInt(Param(ps, Key.PageSize).value) == Some(RowsPerPage)
      && Param(ps, Key.SortBy) == Some(sortBy)
      && Param(ps, Key.SortDirection) == Some(DirText(sortDir))
      && (Param(ps, Key.SearchTerm).Some? <==> searchTerm != [])
      && (searchTerm != [] ==> Param(ps, Key.SearchTerm) == Some(searchTerm))
  {
    ListKeysRead(ListRequest(page, sortBy, sortDir, searchTerm).params);
  }

  // ---------------------------------------------------------------------------
  // State
  // ---------------------------------------------------------------------------

  datatype AppState = AppState(
    policies: seq<Policy>,
    currentPage: int,
    totalItems: int,
    totalPages: int,
    isLoading: bool,
    error: string,
    deletingPolicy: Option<Policy>,
    isDeleting: bool,
    isAddFormOpen: bool,
    searchTerm: string,
    sortBy: string,
    sortDir: SortDir)

  const Initial := AppState([], 0, 0, 0, false, "", None, false, false, "", "id", Asc)

  /** What a handler did: the new state, the requests in the order they are
      sent, whether it also refreshed the statistics, and whether it passed
      an error back to its caller. */
  datatype Effects = Effects(state: AppState, requests: seq<Request>, refreshStats: bool, rethrown: bool)

  /** The start of `fetchPolicies(page)`: loading, the error cleared, and the
      list request built from the state's sort and search term. */
  function FetchPolicies(st: AppState, page: int): (r: Effects)
    ensures r.state == st.(isLoading := true, error := "")
    ensures r.requests == [ListRequest(page, st.sortBy, st.sortDir, st.searchTerm)]
    ensures !r.refreshStats && !r.rethrown
  {
    Effects(st.(isLoading := true, error := ""), [ListRequest(page, st.sortBy, st.sortDir, st.searchTerm)], false, false)
  }

  /** The end of `fetchPolicies`: the envelope replaces the list and its
      paging totals; a failed request leaves them and shows the error.
      Loading stops either way. */
  function FetchCompleted(st: AppState, response: Option<ApiResponse>): (r: AppState)
    ensures !r.isLoading
    ensures response.Some? ==>
      && r.policies == response.value.policies && r.currentPage == response.value.currentPage
      && r.totalItems == response.value.totalItems && r.totalPages == response.value.totalPages
      && r.error == st.error
    ensures response.None? ==>
      && r.policies == st.policies && r.currentPage == st.currentPage
      && r.totalItems == st.totalItems && r.totalPages == st.totalPages
      && r.error == FetchFailed
    ensures r.searchTerm == st.searchTerm && r.sortBy == st.sortBy && r.sortDir == st.sortDir
  {
    match response
    case Some(a) =>
      st.(policies := a.policies, currentPage := a.currentPage, totalItems := a.totalItems,
          totalPages := a.totalPages, isLoading := false)
    case None => st.(error := FetchFailed, isLoading := false)
  }

  // ---------------------------------------------------------------------------
  // Handlers
  // ---------------------------------------------------------------------------

  /** `handlePageChange`: the list speaks 1-based page numbers, the API
      0-based ones. */
  function HandlePageChange(st: AppState, page: int): (r: Effects)
    ensures r.requests == [ListRequest(page - 1, st.sortBy, st.sortDir, st.searchTerm)]
    ensures r.state.isLoading && r.state.error == ""
  {
    FetchPolicies(st, page - 1)
  }

  /** "Previous" fetches the page before the current one and "Next" the page
      after it, whenever the button is enabled. */
  lemma PagerStepsOnePage(st: AppState)
    ensures PolicyList.Previous(st.currentPage).enabled && st.currentPage >= 0 ==>
      HandlePageChange(st, PolicyList.Previous(st.currentPage).target).requests
        == [ListRequest(st.currentPage - 1, st.sortBy, st.sortDir, st.searchTerm)]
    ensures HandlePageChange(st, PolicyList.Next(st.currentPage, st.totalPages).target).requests
        == [ListRequest(st.currentPage + 1, st.sortBy, st.sortDir, st.searchTerm)]
  {
  }

  /** `handleSearch` as written: it stores the new term and page 0, but the
      fetch it starts still reads the term of the render it was created in. */
  function HandleSearch(st: AppState, term: string): (r: Effects)
    ensures r.state.searchTerm == term && r.state.currentPage == 0
    ensures r.requests == [ListRequest(0, st.sortBy, st.sortDir, st.searchTerm)]
  {
    var e := FetchPolicies(st, 0);
    e.(state := e.state.(searchTerm := term, currentPage := 0))
  }

  /** Searching from the plain listing fetches the plain listing again: the
      term just entered is not sent. */
  lemma SearchSendsPreviousTerm()
    ensures HandleSearch(Initial, "Toyota").requests[0].path == ListPath
    ensures HandleSearch(Initial, "Toyota").state.searchTerm == "Toyota"
    ensures Param(HandleSearch(Initial, "Toyota").requests[0].params, Key.SearchTerm).None?
  {
    ListRequestReadsBack(0, "id", Asc, "");
  }

  /** `handleSearch` as its comment says it is meant: page 0 fetched with the
      new term. */
  function HandleSearchFixed(st: AppState, term: string): (r: Effects)
    ensures r.state.searchTerm == term && r.state.currentPage == 0
    ensures r.requests == [ListRequest(0, st.sortBy, st.sortDir, term)]
  {
    var st := st.(searchTerm := term, currentPage := 0);
    FetchPolicies(st, 0)
  }

  /** With the fix, a non-blank search box submitted in the list reaches the
      search endpoint with its trimmed text, on page 0. */
  lemma SubmittedSearchIsSent(st: AppState, box: string)
    requires PolicyList.SubmitSearch(box).Some?
    ensures var r := HandleSearchFixed(st, PolicyList.SubmitSearch(box).value);
      && r.requests[0].path == SearchPath
      && Param(r.requests[0].params, Key.SearchTerm) == Some(Trim(box))
      && Param(r.requests[0].params, Key.PageNo).Some?
      && ParseInt(Param(r.requests[0].params, Key.PageNo).value) == Some(0)
  {
    ListRequestReadsBack(0, st.sortBy, st.sortDir, Trim(box));
  }

  /** `handleSort` as written: the new sort is stored, but the fetch of the
      current page still reads the old one. */
  function HandleSort(st: AppState, sortBy: string, sortDir: SortDir): (r: Effects)
    ensures r.state.sortBy == sortBy && r.state.sortDir == sortDir
    ensures r.requests == [ListRequest(st.currentPage, st.sortBy, st.sortDir, st.searchTerm)]
  {
    var e := FetchPolicies(st, st.currentPage);
    e.(state := e.state.(sortBy := sortBy, sortDir := sortDir))
  }

  /** The first click on the Provider header shows the list sorted by
      provider, but the refetch still asks for the order by id. */
  lemma SortSendsPreviousOrder()
    ensures PolicyList.HandleSort(PolicyList.InitialSort, "provider") == PolicyList.SortState("provider", Asc)
    ensures Param(HandleSort(Initial, "provider", Asc).requests[0].params, Key.SortBy) == Some("id")
    ensures HandleSort(Initial, "provider", Asc).state.sortBy == "provider"
  {
    ListRequestReadsBack(0, "id", Asc, "");
  }

  /** `handleSort` with the fetch reading the new sort. */
  function HandleSortFixed(st: AppState, sortBy: string, sortDir: SortDir): (r: Effects)
    ensures r.state.sortBy == sortBy && r.state.sortDir == sortDir
    ensures r.requests == [ListRequest(st.currentPage, sortBy, sortDir, st.searchTerm)]
  {
    FetchPolicies(st.(sortBy := sortBy, sortDir := sortDir), st.currentPage)
  }

  /** With the fix, a header click in the list asks the server for the
      order the list now shows. */
  lemma HeaderClickIsSent(st: AppState, field: string)
    ensures var s := PolicyList.HandleSort(PolicyList.SortState(st.sortBy, st.sortDir), field);
      var ps := HandleSortFixed(st, s.sortBy, s.sortDir).requests[0].params;
      && Param(ps, Key.SortBy) == Some(field)
      && Param(ps, Key.SortDirection) == Some(if field == st.sortBy && st.sortDir == Asc then "desc" else "asc")
  {
    var s := PolicyList.HandleSort(PolicyList.SortState(st.sortBy, st.sortDir), field);
    ListRequestReadsBack(st.currentPage, s.sortBy, s.sortDir, st.searchTerm);
  }

  /** `deletePolicy(id)`. On success the current page is fetched again, the
      statistics refreshed and the pending deletion forgotten; on failure the
      error is shown and the deletion stays pending. */
  function DeletePolicy(st: AppState, id: int, succeeded: bool): (r: Effects)
    ensures |r.requests| >= 1 && r.requests[0] == Delete(PolicyPath(id))
    ensures !r.state.isDeleting && !r.rethrown
    ensures succeeded ==>
      && r.requests[1..] == [ListRequest(st.currentPage, st.sortBy, st.sortDir, st.searchTerm)]
      && r.refreshStats && r.state.deletingPolicy.None? && r.state.isLoading
    ensures !succeeded ==>
      && |r.requests| == 1 && !r.refreshStats
      && r.state.deletingPolicy == st.deletingPolicy && r.state.error == DeleteFailed
  {
    var st := st.(isDeleting := true);
    if succeeded then
      var e := FetchPolicies(st, st.currentPage);
      Effects(e.state.(deletingPolicy := None, isDeleting := false),
              [Delete(PolicyPath(id))] + e.requests, true, false)
    else
      Effects(st.(error := DeleteFailed, isDeleting := false), [Delete(PolicyPath(id))], false, false)
  }

  /** The vehicle every new policy is filed under. */
  const PayloadVehicleId: int := 1

  /** The body of a new policy: the form's fields, vehicle 1, and the vehicle
      summary nested. */
  function CreateBody(d: PolicyFormData): (b: CreatePayload)
    ensures b.vehicleId == PayloadVehicleId
    ensures b.vehicle == VehicleSummary(d.vehicleRegistration, d.vehicleMake, d.vehicleModel)
    ensures b.policyNumber == d.policyNumber && b.provider == d.provider
    ensures b.startDate == d.startDate && b.endDate == d.endDate
    ensures b.premiumAmount == d.premiumAmount && b.coverageType == d.coverageType
    ensures b.deductibleAmount == d.deductibleAmount && b.liabilityCoverageAmount == d.liabilityCoverageAmount
    ensures b.comprehensiveCoverageAmount == d.comprehensiveCoverageAmount
    ensures b.collisionCoverageAmount == d.collisionCoverageAmount
    ensures b.notes == d.notes && b.vehicleImage == d.vehicleImage
  {
    CreatePayload(d.policyNumber, d.provider, PayloadVehicleId, d.startDate, d.endDate,
                  d.premiumAmount, d.coverageType, d.deductibleAmount, d.liabilityCoverageAmount,
                  d.comprehensiveCoverageAmount, d.collisionCoverageAmount, d.notes, d.vehicleImage,
                  VehicleSummary(d.vehicleRegistration, d.vehicleMake, d.vehicleModel))
  }

  /** `addPolicy(formData)`. On success page 0 is fetched, the statistics
      refreshed and the form closed; on failure nothing changes and the error
      goes back to the form. */
  function AddPolicy(st: AppState, d: PolicyFormData, succeeded: bool): (r: Effects)
    ensures |r.requests| >= 1 && r.requests[0] == Post(ListPath, CreateBody(d))
    ensures r.rethrown <==> !succeeded
    ensures succeeded ==>
      && r.requests[1..] == [ListRequest(0, st.sortBy, st.sortDir, st.searchTerm)]
      && r.refreshStats && !r.state.isAddFormOpen && r.state.isLoading
    ensures !succeeded ==> r.state == st && |r.requests| == 1 && !r.refreshStats
  {
    var post := Post(ListPath, CreateBody(d));
    if succeeded then
      var e := FetchPolicies(st, 0);
      Effects(e.state.(isAddFormOpen := false), [post] + e.requests, true, false)
    else
      Effects(st, [post], false, true)
  }

  /** An add that fails leaves both the page and the form as they were, so
      the user can correct and resend; one that succeeds closes the form and
      clears it. */
  lemma FailedAddKeepsForm(st: AppState, form: FormState)
    requires Accepts(form.data)
    ensures var sent := HandleSubmit(form, false);
      && sent.submitted == Some(form.data)
      && AddPolicy(st, sent.submitted.value, false).rethrown
      && AddPolicy(st, sent.submitted.value, false).state.isAddFormOpen == st.isAddFormOpen
      && sent.state.data == form.data
    ensures HandleSubmit(form, true).state.data == AddForm.Initial
  {
  }

  /** `handlePolicyUpdated`: the current page fetched again, with the
      statistics. */
  function PolicyUpdated(st: AppState): (r: Effects)
    ensures r.requests == [ListRequest(st.currentPage, st.sortBy, st.sortDir, st.searchTerm)]
    ensures r.refreshStats && r.state.isLoading
  {
    FetchPolicies(st, st.currentPage).(refreshStats := true)
  }

  // ---------------------------------------------------------------------------
  // Statistics
  // ---------------------------------------------------------------------------

  /** The last day with a four-digit year. */
  const LastFourDigitDay: LocalDate := Date(9999, 12, 31)

  /** How far ahead "expiring soon" looks, in days. */
  const ExpiringSoonDays: nat := 30

  /** The "expiring soon" window: today and the day 30 days on, as
      `yyyy-mm-dd`. */
  function ExpiringSoonWindow(today: LocalDate): (r: (string, string))
    requires EpochDay(today) + 30 <= EpochDay(LastFourDigitDay)
    ensures ParseIso(r.0) == Some(today)
    ensures ParseIso(r.1).Some? && EpochDay(ParseIso(r.1).value) == EpochDay(today) + 30
  {
    var later := PlusDays(today, ExpiringSoonDays);
    assert today.year < 10000 && later.year < 10000 by {
      EpochDayOrder(today, LastFourDigitDay);
      EpochDayOrder(later, LastFourDigitDay);
    }
    ParseFormatRoundTrip(today);
    ParseFormatRoundTrip(later);
    (FormatIso(today), FormatIso(later))
  }

  /** The columns the statistics sort on. */
  const IdColumn := "id"
  const EndDateColumn := "endDate"

  /** A one-row page of a listing, sorted by `sortBy` ascending. */
  function CountRequest(path: string, sortBy: string, extra: seq<(Key, string)>): (r: Request)
    ensures r.Get? && r.path == path
  {
    Get(path, extra + [(Key.PageNo, "0"), (Key.PageSize, "1"), (Key.SortBy, sortBy), (Key.SortDirection, "asc")])
  }

  /** The one-row page of the policies ending within `window`, sorted by
      end date; the server reads the window's two ends back. */
  function ExpiringCountRequest(window: (string, string)): (r: Request)
    ensures r.Get? && r.path == ExpiryRangePath
    ensures Param(r.params, Key.StartDate) == Some(window.0)
    ensures Param(r.params, Key.EndDate) == Some(window.1)
  {
    var r := CountRequest(ExpiryRangePath, EndDateColumn, [(Key.StartDate, window.0), (Key.EndDate, window.1)]);
    ParamAt(r.params, 0, Key.StartDate);
    ParamAt(r.params, 1, Key.EndDate);
    r
  }

  /** The four requests of `fetchStatistics`, one per statistic. */
  datatype StatisticsQueries = StatisticsQueries(active: Request, expired: Request, all: Request, expiringSoon: Request)

  /** `fetchStatistics` for a given expiring-soon window: four one-row
      pages whose totals are the active, expired, total and expiring-soon
      counts, the last one over the window. */
  function StatisticsRequests(window: (string, string)): (r: StatisticsQueries)
    ensures r.active.Get? && r.active.path == ActivePath
    ensures r.expired.Get? && r.expired.path == ExpiredPath
    ensures r.all.Get? && r.all.path == ListPath
    ensures r.expiringSoon.Get? && r.expiringSoon.path == ExpiryRangePath
    ensures Param(r.expiringSoon.params, Key.StartDate) == Some(window.0)
    ensures Param(r.expiringSoon.params, Key.EndDate) == Some(window.1)
  {
    StatisticsQueries(CountRequest(ActivePath, IdColumn, []), CountRequest(ExpiredPath, IdColumn, []),
                      CountRequest(ListPath, IdColumn, []), ExpiringCountRequest(window))
  }

  /** The statistics ask the expiry-range endpoint for the days from today
      to 30 days on, both as the server reads them back. */
  lemma StatisticsWindowIsThirtyDays(today: LocalDate)
    requires EpochDay(today) + 30 <= EpochDay(LastFourDigitDay)
    ensures var q := StatisticsRequests(ExpiringSoonWindow(today)).expiringSoon.params;
      && Param(q, Key.StartDate).Some? && ParseIso(Param(q, Key.StartDate).value) == Some(today)
      && Param(q, Key.EndDate).Some? && ParseIso(Param(q, Key.EndDate).value).Some?
      && EpochDay(ParseIso(Param(q, Key.EndDate).value).value) == EpochDay(today) + 30
  {
    var w := ExpiringSoonWindow(today);
    var q := StatisticsRequests(w).expiringSoon.params;
    assert Param(q, Key.StartDate) == Some(w.0);
    assert Param(q, Key.EndDate) == Some(w.1);
  }

  datatype Stats = Stats(total: int, active: int, expiringSoon: int, expired: int)

  /** The statistics read off the four answers, in request order. */
  function StatsOf(active: ApiResponse, expired: ApiResponse, all: ApiResponse, expiring: ApiResponse): (s: Stats)
    ensures s.total == all.totalItems && s.active == active.totalItems
    ensures s.expiringSoon == expiring.totalItems && s.expired == expired.totalItems
  {
    Stats(all.totalItems, active.totalItems, expiring.totalItems, expired.totalItems)
  }
}
