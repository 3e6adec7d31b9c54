/** The back end's records: the `Vehicle` and `InsurancePolicy` entities, the
    `InsurancePolicyDto` exchanged with clients, the constants of the service,
    and the errors it raises. */
module Domain {
  import opened Wrappers
  import opened Text
  import opened Dates

  /** A `Long` primary key. */
  type Id = int

  /** A `BigDecimal` amount. Amounts are only ever compared. */
  type Amount = real

  /** A `LocalDateTime` stamp, supplied by whoever performs the operation. */
  type Timestamp = int

  /** The `vehicles` table. Nullable text columns hold `""` when empty. */
  datatype Vehicle = Vehicle(
    id: Id,
    make: string,
    model: string,
    year: int,
    vin: string,
    registrationNumber: string,
    color: string,
    ownerFirstName: string,
    ownerLastName: string,
    ownerEmail: string,
    ownerPhone: string,
    ownerAddress: string,
    ownerLicenseNumber: string,
    ownerDateOfBirth: Option<LocalDate>,
    insurancePolicyNumber: string)

  /** The `insurance_policies` table. */
  datatype InsurancePolicy = InsurancePolicy(
    id: Id,
    policyNumber: string,
    provider: string,
    vehicle: Vehicle,
    startDate: LocalDate,
    endDate: LocalDate,
    premiumAmount: Amount,
    coverageType: string,
    deductibleAmount: Amount,
    liabilityCoverageAmount: Amount,
    comprehensiveCoverageAmount: Amount,
    collisionCoverageAmount: Amount,
    status: string,
    notes: string,
    vehicleImage: string,
    createdAt: Timestamp,
    updatedAt: Timestamp)

  /** The policy as clients send and receive it: the vehicle is flattened to
      its id and three of its fields, and the id is absent on creation. */
  datatype PolicyDto = PolicyDto(
    id: Option<Id>,
    policyNumber: string,
    provider: string,
    vehicleId: Id,
    vehicleRegistration: string,
    vehicleMake: string,
    vehicleModel: string,
    startDate: LocalDate,
    endDate: LocalDate,
    premiumAmount: Amount,
    coverageType: string,
    deductibleAmount: Amount,
    liabilityCoverageAmount: Amount,
    comprehensiveCoverageAmount: Amount,
    collisionCoverageAmount: Amount,
    status: string,
    notes: string,
    vehicleImage: string)

  // ---------------------------------------------------------------------------
  // Constants
  // ---------------------------------------------------------------------------

  const StatusActive: string := "ACTIVE"
  const StatusExpired: string := "EXPIRED"
  const StatusCancelled: string := "CANCELLED"

  const DefaultPageNumber: int := 0
  const DefaultPageSize: int := 10
  const DefaultSortBy: string := "id"
  const DefaultSortDirection: string := "asc"

  const ErrorPolicyNotFound: string := "Insurance policy not found with id: "
  const ErrorVehicleNotFound: string := "Vehicle not found with id: "
  const ErrorExpiredPolicy: string := "Cannot update expired or cancelled policy"
  const ErrorInvalidDateRange: string := "End date must be after start date"
  const ErrorPolicyNumberNotFound: string := "Insurance policy not found with number: "
  const ErrorInvalidAmountRange: string := "Minimum amount cannot be greater than maximum amount"

  // ---------------------------------------------------------------------------
  // Errors
  // ---------------------------------------------------------------------------

  /** The exceptions the service layer raises. The last three come from
      below it: the unique `policy_number` column, `Sort.by` and
      `PageRequest.of`. */
  datatype ServiceError =
    | PolicyNotFound(id: Id)
    | PolicyNumberNotFound(number: string)
    | VehicleNotFound(vehicleId: Id)
    | ExpiredPolicy
    | InvalidDateRange
    | InvalidAmountRange
    | DuplicatePolicyNumber(duplicate: string)
    | InvalidSortProperty
    | InvalidPageRequest

  /** The message of the exception the service itself raises; `None` for the
      errors raised by the layers below it, whose text is theirs. */
  function Message(e: ServiceError): (m: Option<string>)
    ensures m.None? <==> e.DuplicatePolicyNumber? || e.InvalidSortProperty? || e.InvalidPageRequest?
    ensures e.PolicyNotFound? ==>
      (m.Some? && |m.value| > |ErrorPolicyNotFound| && m.value[..|ErrorPolicyNotFound|] == ErrorPolicyNotFound)
    ensures e.VehicleNotFound? ==>
      (m.Some? && |m.value| > |ErrorVehicleNotFound| && m.value[..|ErrorVehicleNotFound|] == ErrorVehicleNotFound)
  {
    match e
    case PolicyNotFound(id) => Some(ErrorPolicyNotFound + IntToDecimal(id))
    case PolicyNumberNotFound(n) => Some(ErrorPolicyNumberNotFound + n)
    case VehicleNotFound(id) => Some(ErrorVehicleNotFound + IntToDecimal(id))
    case ExpiredPolicy => Some(ErrorExpiredPolicy)
    case InvalidDateRange => Some(ErrorInvalidDateRange)
    case InvalidAmountRange => Some(ErrorInvalidAmountRange)
    case DuplicatePolicyNumber(_) => None
    case InvalidSortProperty => None
    case InvalidPageRequest => None
  }
}
