/** The front end's view of the API (`types/index.ts`): a policy as the list
    and the dialogs receive it, and the envelope of a page of policies. Dates
    are `yyyy-mm-dd` strings and amounts are numbers. */
module Types {
  import opened Wrappers
  import opened Dates
  import opened Domain

  /** `Policy`. The vehicle summary fields may be missing (`null`) and the
      image is optional. */
  datatype Policy = Policy(
    id: int,
    policyNumber: string,
    provider: string,
    vehicleId: int,
    vehicleRegistration: Option<string>,
    vehicleMake: Option<string>,
    vehicleModel: Option<string>,
    startDate: string,
    endDate: string,
    premiumAmount: real,
    coverageType: string,
    deductibleAmount: real,
    liabilityCoverageAmount: real,
    comprehensiveCoverageAmount: real,
    collisionCoverageAmount: real,
    status: string,
    notes: string,
    vehicleImage: Option<string>)

  /** The `'asc' | 'desc'` direction the list keeps and sends. */
  datatype SortDir = Asc | Desc

  function DirText(d: SortDir): (s: string)
    ensures s == "asc" <==> d == Asc
    ensures s == "desc" <==> d == Desc
  {
    match d
    case Asc => "asc"
    case Desc => "desc"
  }

  /** `ApiResponse`: the map the controller's `createPageResponse` returns. */
  datatype ApiResponse = ApiResponse(policies: seq<Policy>, currentPage: int, totalItems: int, totalPages: int)

  /** A stored policy serialised for the client: every field under its own
      name, dates as `yyyy-mm-dd`. */
  function ToClient(d: PolicyDto): (p: Policy)
    requires d.id.Some?
    requires d.startDate.year < 10000 && d.endDate.year < 10000
    ensures ParseIso(p.startDate) == Some(d.startDate) && ParseIso(p.endDate) == Some(d.endDate)
    ensures p.id == d.id.value && p.vehicleId == d.vehicleId
    ensures p.policyNumber == d.policyNumber && p.provider == d.provider
    ensures p.vehicleRegistration == Some(d.vehicleRegistration)
    ensures p.vehicleMake == Some(d.vehicleMake) && p.vehicleModel == Some(d.vehicleModel)
    ensures p.premiumAmount == d.premiumAmount && p.coverageType == d.coverageType
    ensures p.deductibleAmount == d.deductibleAmount
    ensures p.liabilityCoverageAmount == d.liabilityCoverageAmount
    ensures p.comprehensiveCoverageAmount == d.comprehensiveCoverageAmount
    ensures p.collisionCoverageAmount == d.collisionCoverageAmount
    ensures p.status == d.status && p.notes == d.notes && p.vehicleImage == Some(d.vehicleImage)
  {
    ParseFormatRoundTrip(d.startDate);
    ParseFormatRoundTrip(d.endDate);
    Policy(d.id.value, d.policyNumber, d.provider, d.vehicleId,
           Some(d.vehicleRegistration), Some(d.vehicleMake), Some(d.vehicleModel),
           FormatIso(d.startDate), FormatIso(d.endDate), d.premiumAmount, d.coverageType,
           d.deductibleAmount, d.liabilityCoverageAmount, d.comprehensiveCoverageAmount,
           d.collisionCoverageAmount, d.status, d.notes, Some(d.vehicleImage))
  }
}
