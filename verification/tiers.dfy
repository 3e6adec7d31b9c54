/** How the front end's requests meet the service: what the forms let
    through and what the back end then decides, and what the list and the
    statistics ask for and get. A date the browser sends as `yyyy-mm-dd`
    reaches the service as the `LocalDate` that string names. */
module Tiers {
  import opened Wrappers
  import opened Text
  import opened Dates
  import opened Domain
  import opened Paging
  import opened Repository
  import opened Service
  import Types
  import Forms
  import AddForm
  import EditModal
  import App

  /** Two form dates that the shared end-date rule accepts, and that both
      name calendar days, are strictly ordered. */
  lemma AcceptedDatesOrdered(start: string, end: string)
    requires start != [] && Forms.EndDateOk(start, end)
    requires ParseIso(start).Some? && ParseIso(end).Some?
    ensures IsBefore(ParseIso(start).value, ParseIso(end).value)
    ensures !IsBefore(ParseIso(end).value, ParseIso(start).value)
  {
    EpochDayOrder(ParseIso(start).value, ParseIso(end).value);
    EpochDayOrder(ParseIso(end).value, ParseIso(start).value);
  }

  /** Dates the add form accepts are never refused by `createPolicy`: given a
      known vehicle and a free policy number, the policy is created. */
  lemma AddFormDatesPassCreate(form: AddForm.PolicyFormData, s: Store, d: PolicyDto, now: Timestamp)
    requires AddForm.Accepts(form)
    requires ParseIso(form.startDate) == Some(d.startDate) && ParseIso(form.endDate) == Some(d.endDate)
    requires d.vehicleId in s.vehicles && !NumberTaken(s, d.policyNumber)
    ensures CreatePolicy(s, d, now).Ok?
    ensures EpochDay(d.startDate) < EpochDay(d.endDate)
  {
    assert AddForm.FieldOk(form, Forms.StartDate) && AddForm.FieldOk(form, Forms.EndDate);
    AcceptedDatesOrdered(form.startDate, form.endDate);
    EpochDayOrder(d.startDate, d.endDate);
  }

  /** The converse fails: the back end creates a policy that starts and ends
      on the same day, which the form refuses to send. */
  lemma SameDayOnlyBackEnd(s: Store, d: PolicyDto, now: Timestamp)
    requires d.vehicleId in s.vehicles && !NumberTaken(s, d.policyNumber)
    requires d.startDate == d.endDate && d.startDate.year < 10000
    ensures CreatePolicy(s, d, now).Ok?
    ensures Forms.EndDateError(FormatIso(d.startDate), FormatIso(d.endDate)) == Some(Forms.EndDateNotAfterStart)
  {
    ParseFormatRoundTrip(d.startDate);
    Forms.SameDayRejected(FormatIso(d.startDate));
  }

  /** What the edit dialog sends is filed under vehicle 1. On an active
      policy whose dates the dialog accepted, the update goes through as long
      as that vehicle exists or is already the policy's, and the stored
      policy then belongs to vehicle 1 whatever it belonged to before. */
  lemma EditDialogUpdate(form: EditModal.EditablePolicy, s: Store, d: PolicyDto, now: Timestamp)
    requires Valid(s)
    requires EditModal.Accepts(form)
    requires d.vehicleId == EditModal.Payload(form).vehicleId
    requires ParseIso(form.startDate) == Some(d.startDate) && ParseIso(form.endDate) == Some(d.endDate)
    requires form.id in s.policies && s.policies[form.id].status == StatusActive
    requires 1 in s.vehicles || s.policies[form.id].vehicle.id == 1
    ensures UpdatePolicy(s, form.id, d, now).Ok?
    ensures UpdatePolicy(s, form.id, d, now).value.0.policies[form.id].vehicle.id == 1
  {
    assert EditModal.FieldOk(form, Forms.StartDate) && EditModal.FieldOk(form, Forms.EndDate);
    AcceptedDatesOrdered(form.startDate, form.endDate);
  }

  /** The list's direction text gives the service's direction: `asc`
      ascending and `desc` descending. */
  lemma DirectionAgrees(sortBy: string, dir: Types.SortDir)
    ensures SortOf(sortBy, Types.DirText(dir)).direction == Ascending <==> dir == Types.Asc
  {
  }

  /** The service a list request reaches: the vehicle-details search when it
      carries a term, the plain listing otherwise. */
  function ListQuery(searchTerm: string): Query {
    if searchTerm == [] then AllPolicies else ByVehicleDetails(searchTerm)
  }

  /** What the server makes of a list request: it reads back the page, the
      size 10 and the sort, and, when the page is not negative and the sort
      names some text, returns that page of the matching rows, position by
      position. */
  ghost predicate ListAnswer(s: Store, rows: seq<InsurancePolicy>, today: LocalDate,
                       page: int, sortBy: string, dir: Types.SortDir, searchTerm: string)
  {
    var ps := App.ListRequest(page, sortBy, dir, searchTerm).params;
    && App.Param(ps, App.Key.PageNo).Some? && ParseInt(App.Param(ps, App.Key.PageNo).value).Some?
    && App.Param(ps, App.Key.PageSize).Some? && ParseInt(App.Param(ps, App.Key.PageSize).value).Some?
    && var r := GetPolicies(s, rows, ListQuery(searchTerm), today,
                            ParseInt(App.Param(ps, App.Key.PageNo).value).value,
                            ParseInt(App.Param(ps, App.Key.PageSize).value).value,
                            sortBy, Types.DirText(dir));
    && var m := FindAll(rows, CriteriaOf(ListQuery(searchTerm), today));
    && r.Ok? && r.value.number == page && r.value.size == App.RowsPerPage
    && r.value.totalElements == |m| && r.value.totalPages == PageCount(|m|, App.RowsPerPage)
    && SliceOf(r.value.content, m, page * App.RowsPerPage, App.RowsPerPage, MapToDto)
  }

  /** A list request for a page that is not negative is answered whenever
      its sort names some text. */
  lemma ListRequestWithTextAnswered(s: Store, rows: seq<InsurancePolicy>, today: LocalDate,
                                    page: int, sortBy: string, dir: Types.SortDir, searchTerm: string)
    requires page >= 0 && HasText(sortBy)
    ensures ListAnswer(s, rows, today, page, sortBy, dir, searchTerm)
  {
    App.ListRequestReadsBack(page, sortBy, dir, searchTerm);
    var q := ListQuery(searchTerm);
    assert Guard(s, q).None?;
    var r := GetPolicies(s, rows, q, today, page, App.RowsPerPage, sortBy, Types.DirText(dir));
    assert r.Ok? && r.value.number == page && r.value.size == App.RowsPerPage;
  }

  /** A list request for a page that is not negative, sorted on one of the
      policy's own properties, is always answered with that page of the
      matching rows in the requested direction. */
  lemma ListRequestAnswered(s: Store, rows: seq<InsurancePolicy>, today: LocalDate,
                            page: int, sortBy: string, dir: Types.SortDir, searchTerm: string)
    requires page >= 0 && sortBy in PolicyProperties
    ensures ListAnswer(s, rows, today, page, sortBy, dir, searchTerm)
  {
    PropertiesHaveText(sortBy);
    ListRequestWithTextAnswered(s, rows, today, page, sortBy, dir, searchTerm);
  }

  /** An expiry range from a day to `n` days on is accepted, and holds the
      policies whose last day is up to `n` days after the first. */
  lemma ExpiryRangeAhead(s: Store, rows: seq<InsurancePolicy>, a: LocalDate, b: LocalDate, n: nat,
                         serverToday: LocalDate, p: InsurancePolicy)
    requires EpochDay(b) == EpochDay(a) + n
    ensures GetPolicies(s, rows, ByExpiryDateRange(a, b), serverToday, 0, 1, "endDate", "asc").Ok?
    ensures p in FindAll(rows, CriteriaOf(ByExpiryDateRange(a, b), serverToday)) <==>
              p in rows && 0 <= EpochDay(p.endDate) - EpochDay(a) <= n
  {
    EpochDayOrder(b, a);
    PropertiesHaveText("endDate");
    assert FindAll(rows, CriteriaOf(ByExpiryDateRange(a, b), serverToday)) == FindByEndDateBetween(rows, a, b);
  }

  /** The "expiring soon" statistic counts exactly the policies whose last
      day is between today and 30 days on, both included: the server reads
      the window the statistics send and accepts it. */
  lemma ExpiringSoonCount(s: Store, rows: seq<InsurancePolicy>, today: LocalDate, serverToday: LocalDate, p: InsurancePolicy)
    requires EpochDay(today) + 30 <= EpochDay(App.LastFourDigitDay)
    ensures var w := App.ExpiringSoonWindow(today);
      && ParseIso(w.0).Some? && ParseIso(w.1).Some?
      && var q := ByExpiryDateRange(ParseIso(w.0).value, ParseIso(w.1).value);
      && GetPolicies(s, rows, q, serverToday, 0, 1, "endDate", "asc").Ok?
      && (p in FindAll(rows, CriteriaOf(q, serverToday)) <==>
            p in rows && 0 <= EpochDay(p.endDate) - EpochDay(today) <= 30)
  {
    var w := App.ExpiringSoonWindow(today);
    ExpiryRangeAhead(s, rows, ParseIso(w.0).value, ParseIso(w.1).value, 30, serverToday, p);
  }

  /** Opening the edit dialog on a stored policy loads what is stored: its
      number, provider, amounts, coverage and notes, dates naming its own
      days, and the summary of the vehicle it is filed under. */
  lemma EditDialogLoadsStoredPolicy(s: Store, id: Id)
    requires id in s.policies
    requires s.policies[id].startDate.year < 10000 && s.policies[id].endDate.year < 10000
    ensures GetPolicyById(s, id).Ok?
    ensures var p := s.policies[id];
      var e := EditModal.LoadedForm(Types.ToClient(GetPolicyById(s, id).value));
      && e.id == p.id
      && e.vehicleRegistration == p.vehicle.registrationNumber
      && e.vehicleMake == p.vehicle.make && e.vehicleModel == p.vehicle.model
      && e.policyNumber == p.policyNumber && e.provider == p.provider
      && ParseIso(e.startDate) == Some(p.startDate) && ParseIso(e.endDate) == Some(p.endDate)
      && e.premiumAmount == p.premiumAmount && e.coverageType == p.coverageType
      && e.deductibleAmount == p.deductibleAmount
      && e.liabilityCoverageAmount == p.liabilityCoverageAmount
      && e.comprehensiveCoverageAmount == p.comprehensiveCoverageAmount
      && e.collisionCoverageAmount == p.collisionCoverageAmount
      && e.notes == p.notes
    ensures Valid(s) ==>
      && EditModal.LoadedForm(Types.ToClient(GetPolicyById(s, id).value)).id == id
      && EditModal.LoadedForm(Types.ToClient(GetPolicyById(s, id).value)).vehicleMake
         == s.vehicles[s.policies[id].vehicle.id].make
  {
  }
}
