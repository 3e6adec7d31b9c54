/** `InsurancePolicyServiceImpl`: the operations on the policy store, the
    guards in front of the paged queries, the sort direction they request, and
    the conversions between the entity and its DTO. The clock is a parameter:
    `now` for timestamps and `today` for the active and expired queries. */
module Service {
  import opened Wrappers
  import opened Text
  import opened Dates
  import opened Domain
  import opened Paging
  import opened Repository

  // ---------------------------------------------------------------------------
  // The store
  // ---------------------------------------------------------------------------

  /** The two tables, keyed by id, and the next value of the identity column. */
  datatype Store = Store(policies: map<Id, InsurancePolicy>, vehicles: map<Id, Vehicle>, nextId: Id)

  /** What the schema guarantees of the stored policies: each is filed under
      its own id, which the identity column has already handed out; it holds
      the stored vehicle its `vehicle_id` refers to; each vehicle is filed
      under its own id; and no two policies share a policy number. */
  ghost predicate Valid(s: Store) {
    && (forall id :: id in s.policies ==> s.policies[id].id == id && id < s.nextId)
    && (forall id :: id in s.policies ==>
          s.policies[id].vehicle.id in s.vehicles && s.policies[id].vehicle == s.vehicles[s.policies[id].vehicle.id])
    && (forall v :: v in s.vehicles ==> s.vehicles[v].id == v)
    && (forall a, b :: a in s.policies && b in s.policies && a != b ==>
          s.policies[a].policyNumber != s.policies[b].policyNumber)
  }

  /** `rows` lists the stored policies, each once, in some order. */
  ghost predicate ListsStore(rows: seq<InsurancePolicy>, s: Store) {
    && (forall p :: p in rows <==> p.id in s.policies && s.policies[p.id] == p)
    && DistinctIds(rows)
  }

  /** Any listing of a valid store has unique policy numbers, so the lookup by
      number answers with at most one policy. */
  lemma ListingHasUniqueNumbers(rows: seq<InsurancePolicy>, s: Store)
    requires Valid(s) && ListsStore(rows, s)
    ensures UniquePolicyNumbers(rows)
  {
    forall i, j | 0 <= i < j < |rows|
      ensures rows[i].policyNumber != rows[j].policyNumber
    {
      assert rows[i] in rows && rows[j] in rows;
    }
  }

  /** Some stored policy already carries `number`. */
  predicate NumberTaken(s: Store, number: string) {
    exists id :: id in s.policies && s.policies[id].policyNumber == number
  }

  // ---------------------------------------------------------------------------
  // Entity and DTO
  // ---------------------------------------------------------------------------

  /** `mapToDto`: the vehicle is reduced to its id, registration, make and
      model, and the timestamps are dropped. */
  function MapToDto(p: InsurancePolicy): (d: PolicyDto) {
    PolicyDto(
      Some(p.id), p.policyNumber, p.provider,
      p.vehicle.id, p.vehicle.registrationNumber, p.vehicle.make, p.vehicle.model,
      p.startDate, p.endDate, p.premiumAmount, p.coverageType,
      p.deductibleAmount, p.liabilityCoverageAmount, p.comprehensiveCoverageAmount,
      p.collisionCoverageAmount, p.status, p.notes, p.vehicleImage)
  }

  /** `mapToEntity`: the DTO's own fields with the looked-up vehicle. The id
      and the timestamps, which the builder leaves unset, are what `save` and
      the setters that follow it fill in. */
  function MapToEntity(d: PolicyDto, vehicle: Vehicle, id: Id, createdAt: Timestamp, updatedAt: Timestamp): (p: InsurancePolicy) {
    InsurancePolicy(
      id, d.policyNumber, d.provider, vehicle, d.startDate, d.endDate,
      d.premiumAmount, d.coverageType, d.deductibleAmount, d.liabilityCoverageAmount,
      d.comprehensiveCoverageAmount, d.collisionCoverageAmount, d.status, d.notes,
      d.vehicleImage, createdAt, updatedAt)
  }

  /** The DTO the client gets back for a DTO it sent: its id filled in and its
      vehicle summary taken from the stored vehicle. */
  function Echo(d: PolicyDto, vehicle: Vehicle, id: Id): PolicyDto {
    d.(id := Some(id), vehicleId := vehicle.id, vehicleRegistration := vehicle.registrationNumber,
       vehicleMake := vehicle.make, vehicleModel := vehicle.model)
  }

  /** An entity survives the trip to a DTO and back, given what the DTO
      leaves out: the whole vehicle and the timestamps. */
  lemma EntityRoundTrip(p: InsurancePolicy)
    ensures MapToEntity(MapToDto(p), p.vehicle, p.id, p.createdAt, p.updatedAt) == p
  {
  }

  /** A DTO survives the trip to an entity and back except for the fields the
      server owns: the id and the vehicle summary. */
  lemma DtoRoundTrip(d: PolicyDto, vehicle: Vehicle, id: Id, createdAt: Timestamp, updatedAt: Timestamp)
    ensures MapToDto(MapToEntity(d, vehicle, id, createdAt, updatedAt)) == Echo(d, vehicle, id)
    ensures vehicle.id == d.vehicleId && d.id == Some(id)
            && d.vehicleRegistration == vehicle.registrationNumber
            && d.vehicleMake == vehicle.make && d.vehicleModel == vehicle.model
            ==> MapToDto(MapToEntity(d, vehicle, id, createdAt, updatedAt)) == d
  {
  }

  /** Two policies with the same DTO differ at most in their vehicle's other
      fields and their timestamps. */
  lemma MapToDtoForgets(p: InsurancePolicy, q: InsurancePolicy)
    requires MapToDto(p) == MapToDto(q)
    ensures p.(vehicle := q.vehicle, createdAt := q.createdAt, updatedAt := q.updatedAt) == q
    ensures p.vehicle.id == q.vehicle.id && p.vehicle.make == q.vehicle.make
  {
    EntityRoundTrip(p);
    EntityRoundTrip(q);
  }

  // ---------------------------------------------------------------------------
  // Single-policy operations
  // ---------------------------------------------------------------------------

  /** `createPolicy`: the vehicle must exist and the end date must not be
      before the start date, in that order; the unique `policy_number` column
      then refuses a number already in use. The new policy gets the next id,
      status `ACTIVE` whatever the DTO says, and `now` as both timestamps. */
  function CreatePolicy(s: Store, d: PolicyDto, now: Timestamp): (r: Result<(Store, PolicyDto), ServiceError>)
    ensures d.vehicleId !in s.vehicles ==> r == Err(VehicleNotFound(d.vehicleId))
    ensures d.vehicleId in s.vehicles && IsBefore(d.endDate, d.startDate) ==> r == Err(InvalidDateRange)
    ensures d.vehicleId in s.vehicles && !IsBefore(d.endDate, d.startDate) && NumberTaken(s, d.policyNumber) ==>
              r == Err(DuplicatePolicyNumber(d.policyNumber))
    ensures r.Ok? <==> d.vehicleId in s.vehicles && !IsBefore(d.endDate, d.startDate) && !NumberTaken(s, d.policyNumber)
    ensures r.Ok? ==>
      var (t, out) := r.value;
      && s.nextId in t.policies
      && var p := t.policies[s.nextId];
      && t.policies == s.policies[s.nextId := p]
      && t.vehicles == s.vehicles && t.nextId == s.nextId + 1
      && p.id == s.nextId && p.status == StatusActive
      && p.vehicle == s.vehicles[d.vehicleId]
      && p.createdAt == now && p.updatedAt == now
      && out == MapToDto(p)
      && out == Echo(d, s.vehicles[d.vehicleId], s.nextId).(status := StatusActive)
  {
    if d.vehicleId !in s.vehicles then Err(VehicleNotFound(d.vehicleId))
    else if IsBefore(d.endDate, d.startDate) then Err(InvalidDateRange)
    else if NumberTaken(s, d.policyNumber) then Err(DuplicatePolicyNumber(d.policyNumber))
    else
      var p := MapToEntity(d, s.vehicles[d.vehicleId], s.nextId, now, now).(status := StatusActive);
      Ok((Store(s.policies[s.nextId := p], s.vehicles, s.nextId + 1), MapToDto(p)))
  }

  /** `getPolicyById`: the stored policy as its DTO, vehicle summary included. */
  function GetPolicyById(s: Store, id: Id): (r: Result<PolicyDto, ServiceError>)
    ensures r.Err? <==> id !in s.policies
    ensures r.Err? ==> r.error == PolicyNotFound(id)
    ensures r.Ok? ==>
      var p := s.policies[id];
      MapToEntity(r.value, p.vehicle, p.id, p.createdAt, p.updatedAt) == p
    ensures r.Ok? ==>
      var p := s.policies[id];
      && r.value.id == Some(p.id)
      && r.value.vehicleId == p.vehicle.id
      && r.value.vehicleRegistration == p.vehicle.registrationNumber
      && r.value.vehicleMake == p.vehicle.make
      && r.value.vehicleModel == p.vehicle.model
    ensures r.Ok? && Valid(s) ==> r.value.id == Some(id)
    ensures r.Ok? && Valid(s) ==>
      && r.value.vehicleId in s.vehicles
      && r.value.vehicleRegistration == s.vehicles[r.value.vehicleId].registrationNumber
      && r.value.vehicleMake == s.vehicles[r.value.vehicleId].make
      && r.value.vehicleModel == s.vehicles[r.value.vehicleId].model
  {
    if id !in s.policies then Err(PolicyNotFound(id))
    else
      EntityRoundTrip(s.policies[id]);
      Ok(MapToDto(s.policies[id]))
  }

  /** `getPolicyByPolicyNumber`, over a listing of the table. */
  function GetPolicyByPolicyNumber(rows: seq<InsurancePolicy>, number: string): (r: Result<PolicyDto, ServiceError>)
    ensures r.Err? <==> forall p :: p in rows ==> p.policyNumber != number
    ensures r.Err? ==> r.error == PolicyNumberNotFound(number)
    ensures r.Ok? ==> r.value.policyNumber == number && exists p :: p in rows && r.value == MapToDto(p)
  {
    match FindByPolicyNumber(rows, number)
    case None => Err(PolicyNumberNotFound(number))
    case Some(p) => Ok(MapToDto(p))
  }

  /** The policy `updatePolicy` saves: the provider, vehicle, dates, premium,
      coverage type, amounts and notes come from the DTO; the id, number,
      status, image and creation time stay. */
  function Updated(prev: InsurancePolicy, d: PolicyDto, vehicle: Vehicle, now: Timestamp): InsurancePolicy {
    prev.(provider := d.provider, vehicle := vehicle, startDate := d.startDate, endDate := d.endDate,
         premiumAmount := d.premiumAmount, coverageType := d.coverageType,
         deductibleAmount := d.deductibleAmount, liabilityCoverageAmount := d.liabilityCoverageAmount,
         comprehensiveCoverageAmount := d.comprehensiveCoverageAmount,
         collisionCoverageAmount := d.collisionCoverageAmount, notes := d.notes, updatedAt := now)
  }

  /** `updatePolicy`: the policy must exist and be `ACTIVE`; a vehicle is
      looked up only when the DTO names a different one; then the end date
      must not be before the start date. */
  function UpdatePolicy(s: Store, id: Id, d: PolicyDto, now: Timestamp): (r: Result<(Store, PolicyDto), ServiceError>)
    ensures id !in s.policies ==> r == Err(PolicyNotFound(id))
    ensures id in s.policies && s.policies[id].status != StatusActive ==> r == Err(ExpiredPolicy)
    ensures id in s.policies && s.policies[id].status == StatusActive
            && d.vehicleId != s.policies[id].vehicle.id && d.vehicleId !in s.vehicles ==>
              r == Err(VehicleNotFound(d.vehicleId))
    ensures r.Ok? <==>
      (&& id in s.policies && s.policies[id].status == StatusActive
       && (d.vehicleId == s.policies[id].vehicle.id || d.vehicleId in s.vehicles)
       && !IsBefore(d.endDate, d.startDate))
    ensures r.Ok? ==>
      var (t, out) := r.value;
      var prev := s.policies[id];
      && id in t.policies
      && var p := t.policies[id];
      && t.policies == s.policies[id := p]
      && t.vehicles == s.vehicles && t.nextId == s.nextId
      // kept
      && p.id == prev.id && p.policyNumber == prev.policyNumber && p.status == prev.status
      && p.vehicleImage == prev.vehicleImage && p.createdAt == prev.createdAt
      // overwritten
      && p.provider == d.provider
      && p.vehicle == (if d.vehicleId == prev.vehicle.id then prev.vehicle else s.vehicles[d.vehicleId])
      && (Valid(s) ==> p.vehicle.id == d.vehicleId)
      && p.startDate == d.startDate && p.endDate == d.endDate
      && p.premiumAmount == d.premiumAmount && p.coverageType == d.coverageType
      && p.deductibleAmount == d.deductibleAmount && p.liabilityCoverageAmount == d.liabilityCoverageAmount
      && p.comprehensiveCoverageAmount == d.comprehensiveCoverageAmount
      && p.collisionCoverageAmount == d.collisionCoverageAmount
      && p.notes == d.notes && p.updatedAt == now
      && out == MapToDto(p)
  {
    if id !in s.policies then Err(PolicyNotFound(id))
    else
      var prev := s.policies[id];
      if prev.status != StatusActive then Err(ExpiredPolicy)
      else if d.vehicleId != prev.vehicle.id && d.vehicleId !in s.vehicles then Err(VehicleNotFound(d.vehicleId))
      else
        var vehicle := if d.vehicleId != prev.vehicle.id then s.vehicles[d.vehicleId] else prev.vehicle;
        if IsBefore(d.endDate, d.startDate) then Err(InvalidDateRange)
        else
          var p := Updated(prev, d, vehicle, now);
          Ok((s.(policies := s.policies[id := p]), MapToDto(p)))
  }

  /** `deletePolicy`: an unknown id is refused; otherwise exactly that policy
      goes and every other stays as it was. */
  function DeletePolicy(s: Store, id: Id): (r: Result<Store, ServiceError>)
    ensures r.Err? <==> id !in s.policies
    ensures r.Err? ==> r.error == PolicyNotFound(id)
    ensures r.Ok? ==> r.value.policies.Keys == s.policies.Keys - {id}
    ensures r.Ok? ==> forall k :: k in r.value.policies ==> r.value.policies[k] == s.policies[k]
    ensures r.Ok? ==> r.value.vehicles == s.vehicles && r.value.nextId == s.nextId
  {
    if id !in s.policies then Err(PolicyNotFound(id))
    else Ok(s.(policies := s.policies - {id}))
  }

  // ---------------------------------------------------------------------------
  // Properties of the single-policy operations
  // ---------------------------------------------------------------------------

  lemma CreatePreservesValid(s: Store, d: PolicyDto, now: Timestamp)
    requires Valid(s)
    requires CreatePolicy(s, d, now).Ok?
    ensures Valid(CreatePolicy(s, d, now).value.0)
  {
    var t := CreatePolicy(s, d, now).value.0;
    forall a, b | a in t.policies && b in t.policies && a != b
      ensures t.policies[a].policyNumber != t.policies[b].policyNumber
    {
      if a == s.nextId {
        assert t.policies[b] == s.policies[b];
      } else if b == s.nextId {
        assert t.policies[a] == s.policies[a];
      }
    }
  }

  lemma UpdatePreservesValid(s: Store, id: Id, d: PolicyDto, now: Timestamp)
    requires Valid(s)
    requires UpdatePolicy(s, id, d, now).Ok?
    ensures Valid(UpdatePolicy(s, id, d, now).value.0)
  {
  }

  lemma DeletePreservesValid(s: Store, id: Id)
    requires Valid(s)
    requires DeletePolicy(s, id).Ok?
    ensures Valid(DeletePolicy(s, id).value)
  {
  }

  /** A policy that is not `ACTIVE` can never be changed through the service:
      whatever the DTO, the update is refused before anything else is looked at. */
  lemma InactivePolicyIsFrozen(s: Store, id: Id, d: PolicyDto, now: Timestamp)
    requires id in s.policies && s.policies[id].status != StatusActive
    ensures UpdatePolicy(s, id, d, now) == Err(ExpiredPolicy)
  {
  }

  /** An update never reads the DTO's policy number, status or image. */
  lemma UpdateIgnoresServerOwnedFields(s: Store, id: Id, d: PolicyDto, number: string, status: string, image: string, now: Timestamp)
    ensures UpdatePolicy(s, id, d.(policyNumber := number, status := status, vehicleImage := image), now)
         == UpdatePolicy(s, id, d, now)
  {
  }

  /** Creating a policy with a start and end on the same day is accepted:
      only an end strictly before the start is refused. */
  lemma CreateAcceptsSameDay(s: Store, d: PolicyDto, now: Timestamp)
    requires d.vehicleId in s.vehicles && !NumberTaken(s, d.policyNumber)
    requires d.endDate == d.startDate
    ensures CreatePolicy(s, d, now).Ok?
  {
  }

  /** Deleting a freshly created policy gives back the original tables. */
  lemma CreateThenDelete(s: Store, d: PolicyDto, now: Timestamp)
    requires Valid(s)
    requires CreatePolicy(s, d, now).Ok?
    ensures DeletePolicy(CreatePolicy(s, d, now).value.0, s.nextId).Ok?
    ensures DeletePolicy(CreatePolicy(s, d, now).value.0, s.nextId).value.policies == s.policies
  {
    var t := CreatePolicy(s, d, now).value.0;
    assert s.nextId !in s.policies;
    assert t.policies - {s.nextId} == s.policies;
  }

  // ---------------------------------------------------------------------------
  // Paged queries
  // ---------------------------------------------------------------------------

  /** `Sort.by(sortBy)`, ascending exactly when `sortDir` equals `"ASC"`
      ignoring case and descending for any other string. */
  function SortOf(sortBy: string, sortDir: string): (o: Sort)
    ensures o.property == sortBy
    ensures o.direction == Ascending <==>
      sortDir in {"ASC", "ASc", "AsC", "Asc", "aSC", "aSc", "asC", "asc"}
  {
    AscIgnoringCase(sortDir);
    Sort(sortBy, if EqualsIgnoreCase(sortDir, "ASC") then Ascending else Descending)
  }

  /** The eight spellings of `ASC`. */
  lemma AscIgnoringCase(x: string)
    ensures EqualsIgnoreCase(x, "ASC") <==> x in {"ASC", "ASc", "AsC", "Asc", "aSC", "aSc", "asC", "asc"}
  {
    if |x| == 3 {
      assert SameIgnoringCase(x[0], 'A') <==> x[0] == 'A' || x[0] == 'a';
      assert SameIgnoringCase(x[1], 'S') <==> x[1] == 'S' || x[1] == 's';
      assert SameIgnoringCase(x[2], 'C') <==> x[2] == 'C' || x[2] == 'c';
      assert x == [x[0], x[1], x[2]];
    }
  }

  /** `PageRequest.of(pageNo, pageSize, sort)`: a negative page number or a
      size below one is refused. */
  function PageRequestOf(pageNo: int, pageSize: int, sort: Sort): (r: Result<Pageable, ServiceError>)
    ensures r.Ok? <==> pageNo >= 0 && pageSize >= 1
    ensures r.Err? ==> r.error == InvalidPageRequest
    ensures r.Ok? ==> r.value.pageNo == pageNo && r.value.pageSize == pageSize && r.value.sort == sort
  {
    if pageNo < 0 || pageSize < 1 then Err(InvalidPageRequest)
    else Ok(Pageable(pageNo, pageSize, sort))
  }

  /** The paged read operations of the service. */
  datatype Query =
    | AllPolicies                                   // getAllPolicies
    | ByVehicleId(vehicleId: Id)                    // getPoliciesByVehicleId
    | ByProvider(provider: string)                  // getPoliciesByProvider
    | ByExpiryDateRange(startDate: LocalDate, endDate: LocalDate) // getPoliciesByExpiryDateRange
    | ActivePolicies                                // getActivePolicies
    | ExpiredPolicies                               // getExpiredPolicies
    | ByVehicleDetails(searchTerm: string)          // getPoliciesByVehicleDetails
    | ByPremiumRange(minAmount: Amount, maxAmount: Amount) // getPoliciesByPremiumRange

  /** The check a query makes before it builds its page request, if any. */
  function Guard(s: Store, q: Query): (e: Option<ServiceError>)
    ensures e.Some? <==>
      || (q.ByVehicleId? && q.vehicleId !in s.vehicles)
      || (q.ByExpiryDateRange? && EpochDay(q.endDate) < EpochDay(q.startDate))
      || (q.ByPremiumRange? && q.minAmount > q.maxAmount)
  {
    match q
    case ByVehicleId(v) => if v !in s.vehicles then Some(VehicleNotFound(v)) else None
    case ByExpiryDateRange(a, b) =>
      EpochDayOrder(b, a);
      if IsBefore(b, a) then Some(InvalidDateRange) else None
    case ByPremiumRange(lo, hi) => if lo > hi then Some(InvalidAmountRange) else None
    case _ => None
  }

  /** The repository criteria a query hands down. */
  function CriteriaOf(q: Query, today: LocalDate): Criteria {
    match q
    case AllPolicies => All
    case ByVehicleId(v) => ByVehicle(v)
    case ByProvider(t) => ProviderContaining(t)
    case ByExpiryDateRange(a, b) => EndDateBetween(a, b)
    case ActivePolicies => EndDateAfterAndStatus(today, StatusActive)
    case ExpiredPolicies => EndDateBefore(today)
    case ByVehicleDetails(t) => VehicleDetails(t)
    case ByPremiumRange(lo, hi) => PremiumBetween(lo, hi)
  }

  /** A paged read: the query's own guard first, then `Sort.by`, which
      refuses a property name without text, then the page request, then the
      matching rows of `rows` (the table in the order the requested sort
      gives), one page of them, each mapped to its DTO. */
  function GetPolicies(s: Store, rows: seq<InsurancePolicy>, q: Query, today: LocalDate,
                       pageNo: int, pageSize: int, sortBy: string, sortDir: string)
    : (r: Result<Page<PolicyDto>, ServiceError>)
    ensures Guard(s, q).Some? ==> r == Err(Guard(s, q).value)
    ensures Guard(s, q).None? && !HasText(sortBy) ==> r == Err(InvalidSortProperty)
    ensures Guard(s, q).None? && HasText(sortBy) && (pageNo < 0 || pageSize < 1) ==> r == Err(InvalidPageRequest)
    ensures r.Ok? <==> Guard(s, q).None? && HasText(sortBy) && pageNo >= 0 && pageSize >= 1
    ensures r.Ok? ==>
      && r.value.number == pageNo && r.value.size == pageSize
      && r.value.totalElements == |FindAll(rows, CriteriaOf(q, today))|
      && |r.value.content| <= pageSize
      && (forall d :: d in r.value.content ==>
            exists p :: p in rows && Matches(CriteriaOf(q, today), p) && d == MapToDto(p))
    ensures r.Ok? ==>
      && SliceOf(r.value.content, FindAll(rows, CriteriaOf(q, today)), pageNo * pageSize, pageSize, MapToDto)
      && r.value.totalPages == PageCount(|FindAll(rows, CriteriaOf(q, today))|, pageSize)
  {
    if Guard(s, q).Some? then Err(Guard(s, q).value)
    else if !HasText(sortBy) then Err(InvalidSortProperty)
    else
      var pageable :- PageRequestOf(pageNo, pageSize, SortOf(sortBy, sortDir));
      var matches := FindAll(rows, CriteriaOf(q, today));
      assert pageable == Pageable(pageNo, pageSize, SortOf(sortBy, sortDir));
      PageContentMatches(rows, CriteriaOf(q, today), pageable);
      MappedPageSlice(matches, Pageable(pageNo, pageSize, SortOf(sortBy, sortDir)), MapToDto);
      Ok(MapPage(PageOf(matches, pageable), MapToDto))
  }

  /** Every DTO on a page of a query comes from a row that matches it. */
  lemma PageContentMatches(rows: seq<InsurancePolicy>, c: Criteria, pageable: Pageable)
    requires pageable.pageSize >= 1
    ensures forall d :: d in MapPage(PageOf(FindAll(rows, c), pageable), MapToDto).content ==>
              exists p :: p in rows && Matches(c, p) && d == MapToDto(p)
  {
    var matches := FindAll(rows, c);
    forall d | d in MapPage(PageOf(matches, pageable), MapToDto).content
      ensures exists p :: p in rows && Matches(c, p) && d == MapToDto(p)
    {
      MappedPageItems(matches, pageable, MapToDto, d);
    }
  }

  /** An expiry range whose two ends are the same day is accepted whenever
      the sort names a property at all. */
  lemma SameDayExpiryRangeAccepted(s: Store, rows: seq<InsurancePolicy>, day: LocalDate, today: LocalDate, sortBy: string, sortDir: string)
    ensures GetPolicies(s, rows, ByExpiryDateRange(day, day), today, 0, DefaultPageSize, sortBy, sortDir).Ok? <==> HasText(sortBy)
  {
  }

  /** The properties of an `InsurancePolicy`, the names a sort can always use. */
  const PolicyProperties: set<string> :=
    {"id", "policyNumber", "provider", "vehicle", "startDate", "endDate", "premiumAmount",
     "coverageType", "deductibleAmount", "liabilityCoverageAmount", "comprehensiveCoverageAmount",
     "collisionCoverageAmount", "status", "notes", "vehicleImage", "createdAt", "updatedAt"}

  /** Every property name passes `Sort.by`. */
  lemma PropertiesHaveText(p: string)
    requires p in PolicyProperties
    ensures HasText(p)
  {
    assert p != [] && !IsJavaWhitespace(p[0]);
  }

  /** The active and the expired listings never share a policy, and a policy
      ending today is in neither. */
  lemma ActiveExpiredNeverOverlap(s: Store, rows: seq<InsurancePolicy>, today: LocalDate, p: InsurancePolicy)
    ensures !(Matches(CriteriaOf(ActivePolicies, today), p) && Matches(CriteriaOf(ExpiredPolicies, today), p))
    ensures p.endDate == today ==>
      !Matches(CriteriaOf(ActivePolicies, today), p) && !Matches(CriteriaOf(ExpiredPolicies, today), p)
  {
    ActiveAndExpiredDisjoint([p], today, p);
  }

  /** Reading the pages of a query one after another, from page 0 to the last,
      meets every matching row exactly once and in order. */
  lemma {:induction false} PagesCoverMatches(rows: seq<InsurancePolicy>, c: Criteria, pageSize: nat)
    requires pageSize >= 1
    ensures PagesFrom(FindAll(rows, c), 0, pageSize) == FindAll(rows, c)
  {
    PagesPartitionRows(FindAll(rows, c), 0, pageSize);
  }
}
