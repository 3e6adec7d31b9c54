/** The query methods of `InsurancePolicyRepository`, as filters over the rows
    of the `insurance_policies` table. The rows are given in the order the
    database returns them for the requested sort. */
module Repository {
  import opened Wrappers
  import opened Text
  import opened Dates
  import opened Domain

  /** Keeps the rows that satisfy `keep`, in their order. */
  function Filter<T(!new)>(rows: seq<T>, keep: T -> bool): (r: seq<T>)
    ensures |r| <= |rows|
    ensures forall x :: x in r <==> x in rows && keep(x)
    ensures forall x :: multiset(r)[x] == if keep(x) then multiset(rows)[x] else 0
  {
    if rows == [] then []
    else
      var rest := Filter(rows[1..], keep);
      assert rows == [rows[0]] + rows[1..];
      if keep(rows[0]) then [rows[0]] + rest else rest
  }

  /** No two rows share a primary key. */
  ghost predicate DistinctIds(rows: seq<InsurancePolicy>) {
    forall i, j :: 0 <= i < j < |rows| ==> rows[i].id != rows[j].id
  }

  /** No two rows share a policy number: the unique `policy_number` column. */
  ghost predicate UniquePolicyNumbers(rows: seq<InsurancePolicy>) {
    forall i, j :: 0 <= i < j < |rows| ==> rows[i].policyNumber != rows[j].policyNumber
  }

  /** The tail of a table with distinct keys has distinct keys, none equal
      to the head's. */
  lemma DistinctIdsTail(rows: seq<InsurancePolicy>)
    requires rows != [] && DistinctIds(rows)
    ensures DistinctIds(rows[1..])
    ensures forall q :: q in rows[1..] ==> q.id != rows[0].id
  {
    var tail := rows[1..];
    forall i, j | 0 <= i < j < |tail|
      ensures tail[i].id != tail[j].id
    {
      assert tail[i] == rows[i + 1] && tail[j] == rows[j + 1];
    }
    forall q | q in tail
      ensures q.id != rows[0].id
    {
      var k :| 0 <= k < |tail| && tail[k] == q;
      assert rows[k + 1] == q;
    }
  }

  /** Putting a row in front of a table with distinct keys, none equal to
      the row's, keeps the keys distinct. */
  lemma DistinctIdsCons(x: InsurancePolicy, rest: seq<InsurancePolicy>)
    requires DistinctIds(rest)
    requires forall q :: q in rest ==> q.id != x.id
    ensures DistinctIds([x] + rest)
  {
    var r := [x] + rest;
    forall i, j | 0 <= i < j < |r|
      ensures r[i].id != r[j].id
    {
      assert r[j] == rest[j - 1];
      if i > 0 {
        assert r[i] == rest[i - 1];
      }
    }
  }

  /** Filtering a table with distinct keys returns each policy at most once. */
  lemma {:induction false} FilterKeepsDistinctIds(rows: seq<InsurancePolicy>, keep: InsurancePolicy -> bool)
    requires DistinctIds(rows)
    ensures DistinctIds(Filter(rows, keep))
  {
    if rows != [] {
      DistinctIdsTail(rows);
      FilterKeepsDistinctIds(rows[1..], keep);
      if keep(rows[0]) {
        DistinctIdsCons(rows[0], Filter(rows[1..], keep));
      }
    }
  }

  // ---------------------------------------------------------------------------
  // Query criteria
  // ---------------------------------------------------------------------------

  /** The `WHERE` clause of each repository query method. */
  datatype Criteria =
    | All                                                // findAll
    | ByVehicle(vehicleId: Id)                           // findByVehicle
    | ProviderContaining(provider: string)               // findByProviderContainingIgnoreCase
    | EndDateBetween(from: LocalDate, to: LocalDate)     // findByEndDateBetween
    | EndDateAfterAndStatus(date: LocalDate, status: string) // findByEndDateAfterAndStatus
    | EndDateBefore(date: LocalDate)                     // findByEndDateBefore
    | VehicleDetails(searchTerm: string)                 // findByVehicleDetails
    | PremiumBetween(min: Amount, max: Amount)           // findByPremiumAmountRange

  /** `LOWER(field) LIKE LOWER(CONCAT('%', term, '%'))`, for a term without
      wildcard characters. */
  predicate ContainsIgnoringCase(field: string, term: string) {
    Contains(Lower(field), Lower(term))
  }

  predicate Matches(c: Criteria, p: InsurancePolicy) {
    match c
    case All => true
    case ByVehicle(v) => p.vehicle.id == v
    case ProviderContaining(t) => ContainsIgnoringCase(p.provider, t)
    case EndDateBetween(a, b) => !IsBefore(p.endDate, a) && !IsAfter(p.endDate, b)
    case EndDateAfterAndStatus(d, s) => IsAfter(p.endDate, d) && p.status == s
    case EndDateBefore(d) => IsBefore(p.endDate, d)
    case VehicleDetails(t) =>
      || ContainsIgnoringCase(p.vehicle.make, t)
      || ContainsIgnoringCase(p.vehicle.model, t)
      || ContainsIgnoringCase(p.vehicle.registrationNumber, t)
    case PremiumBetween(lo, hi) => lo <= p.premiumAmount <= hi
  }

  /** All rows that satisfy `c`, in table order. */
  function FindAll(rows: seq<InsurancePolicy>, c: Criteria): (r: seq<InsurancePolicy>)
    ensures forall p :: p in r <==> p in rows && Matches(c, p)
  {
    Filter(rows, p => Matches(c, p))
  }

  // ---------------------------------------------------------------------------
  // The query methods
  // ---------------------------------------------------------------------------

  /** `findByPolicyNumber`: the first row with that number, if any. */
  function FindByPolicyNumber(rows: seq<InsurancePolicy>, number: string): (r: Option<InsurancePolicy>)
    ensures r.Some? ==> r.value in rows && r.value.policyNumber == number
    ensures r.None? <==> forall p :: p in rows ==> p.policyNumber != number
  {
    if rows == [] then None
    else if rows[0].policyNumber == number then Some(rows[0])
    else FindByPolicyNumber(rows[1..], number)
  }

  /** With unique policy numbers, a lookup by number finds the one policy
      that carries it and no other. */
  lemma {:induction false} PolicyNumberLookupUnique(rows: seq<InsurancePolicy>, p: InsurancePolicy)
    requires UniquePolicyNumbers(rows)
    requires p in rows
    ensures FindByPolicyNumber(rows, p.policyNumber) == Some(p)
  {
    if rows[0] != p {
      var tail := rows[1..];
      var k :| 0 <= k < |tail| && tail[k] == p;
      assert rows[k + 1] == p;
      assert UniquePolicyNumbers(tail) by {
        forall i, j | 0 <= i < j < |tail|
          ensures tail[i].policyNumber != tail[j].policyNumber
        {
          assert tail[i] == rows[i + 1] && tail[j] == rows[j + 1];
        }
      }
      PolicyNumberLookupUnique(tail, p);
    }
  }

  /** `findByProviderContainingIgnoreCase`. */
  function FindByProviderContainingIgnoreCase(rows: seq<InsurancePolicy>, provider: string): (r: seq<InsurancePolicy>)
    ensures forall p :: p in r <==> p in rows && OccursIn(Lower(provider), Lower(p.provider))
  {
    FindAll(rows, ProviderContaining(provider))
  }

  /** `findByEndDateBetween`: both bounds are included. */
  function FindByEndDateBetween(rows: seq<InsurancePolicy>, from: LocalDate, to: LocalDate): (r: seq<InsurancePolicy>)
    ensures forall p :: p in r <==> p in rows && EpochDay(from) <= EpochDay(p.endDate) <= EpochDay(to)
  {
    var r := FindAll(rows, EndDateBetween(from, to));
    forall p | p in rows
      ensures Matches(EndDateBetween(from, to), p) <==> EpochDay(from) <= EpochDay(p.endDate) <= EpochDay(to)
    {
      EpochDayOrder(p.endDate, from);
      EpochDayOrder(to, p.endDate);
    }
    r
  }

  /** `findByEndDateAfterAndStatus`: strictly after `date`, with that status.
      The service asks for today's date and `ACTIVE`. */
  function FindByEndDateAfterAndStatus(rows: seq<InsurancePolicy>, date: LocalDate, status: string): (r: seq<InsurancePolicy>)
    ensures forall p :: p in r <==> p in rows && EpochDay(p.endDate) > EpochDay(date) && p.status == status
  {
    var r := FindAll(rows, EndDateAfterAndStatus(date, status));
    forall p | p in rows
      ensures Matches(EndDateAfterAndStatus(date, status), p) <==> EpochDay(p.endDate) > EpochDay(date) && p.status == status
    {
      EpochDayOrder(date, p.endDate);
    }
    r
  }

  /** `findByEndDateBefore`: strictly before `date`. */
  function FindByEndDateBefore(rows: seq<InsurancePolicy>, date: LocalDate): (r: seq<InsurancePolicy>)
    ensures forall p :: p in r <==> p in rows && EpochDay(p.endDate) < EpochDay(date)
  {
    var r := FindAll(rows, EndDateBefore(date));
    forall p | p in rows
      ensures Matches(EndDateBefore(date), p) <==> EpochDay(p.endDate) < EpochDay(date)
    {
      EpochDayOrder(p.endDate, date);
    }
    r
  }

  /** The term, ignoring case, occurs in the make, the model or the
      registration number of the policy's vehicle. */
  ghost predicate MentionsVehicleDetail(p: InsurancePolicy, term: string) {
    || OccursIn(Lower(term), Lower(p.vehicle.make))
    || OccursIn(Lower(term), Lower(p.vehicle.model))
    || OccursIn(Lower(term), Lower(p.vehicle.registrationNumber))
  }

  /** `findByVehicleDetails`: the term, ignoring case, inside the make, the
      model or the registration; each policy at most once. */
  function FindByVehicleDetails(rows: seq<InsurancePolicy>, searchTerm: string): (r: seq<InsurancePolicy>)
    ensures forall p :: p in r <==> (p in rows && MentionsVehicleDetail(p, searchTerm))
  {
    FindAll(rows, VehicleDetails(searchTerm))
  }

  /** `SELECT DISTINCT`: the vehicle-details search returns each policy of a
      table with distinct keys at most once, even when the term matches
      several of its vehicle's fields. */
  lemma VehicleDetailsDistinct(rows: seq<InsurancePolicy>, searchTerm: string)
    requires DistinctIds(rows)
    ensures DistinctIds(FindByVehicleDetails(rows, searchTerm))
  {
    FilterKeepsDistinctIds(rows, p => Matches(VehicleDetails(searchTerm), p));
  }

  /** `findByPremiumAmountRange`: `BETWEEN` includes both bounds. */
  function FindByPremiumAmountRange(rows: seq<InsurancePolicy>, min: Amount, max: Amount): (r: seq<InsurancePolicy>)
    ensures forall p :: p in r <==> p in rows && min <= p.premiumAmount && p.premiumAmount <= max
  {
    FindAll(rows, PremiumBetween(min, max))
  }

  // ---------------------------------------------------------------------------
  // Properties relating the queries
  // ---------------------------------------------------------------------------

  /** No policy is both active and expired on the same day, and a policy
      whose last day is today is neither. */
  lemma ActiveAndExpiredDisjoint(rows: seq<InsurancePolicy>, today: LocalDate, p: InsurancePolicy)
    ensures !(p in FindByEndDateAfterAndStatus(rows, today, StatusActive) && p in FindByEndDateBefore(rows, today))
    ensures p.endDate == today ==>
      p !in FindByEndDateAfterAndStatus(rows, today, StatusActive) && p !in FindByEndDateBefore(rows, today)
  {
  }

  /** Every row of the table is before, on, or after a given day: the expired
      query, the policies ending that day, and the "after" query (regardless
      of status) split the table. */
  lemma EndDateTrichotomy(rows: seq<InsurancePolicy>, today: LocalDate, p: InsurancePolicy)
    requires p in rows
    ensures p in FindByEndDateBefore(rows, today) || p.endDate == today || EpochDay(p.endDate) > EpochDay(today)
  {
    EpochDayOrder(p.endDate, today);
  }
}
