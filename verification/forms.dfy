/** The field rules shared by the add-policy form and the edit-policy dialog.
    Each rule yields the one message its field shows, or `None`; "required"
    is always checked first. Lengths are JavaScript `length`s (UTF-16 code
    units), and the `/i` patterns match ASCII letters of either case only. */
module Forms {
  import opened Wrappers
  import opened Text
  import opened Dates

  /** The keys of the form records (`id` only in the edit dialog). */
  datatype Field =
    | PolicyId
    | PolicyNumber
    | Provider
    | VehicleRegistration
    | VehicleMake
    | VehicleModel
    | StartDate
    | EndDate
    | PremiumAmount
    | CoverageType
    | DeductibleAmount
    | LiabilityCoverageAmount
    | ComprehensiveCoverageAmount
    | CollisionCoverageAmount
    | Notes
    | VehicleImage

  /** The fields edited through `<input type="number">`. */
  predicate IsNumberField(f: Field) {
    f in {PremiumAmount, DeductibleAmount, LiabilityCoverageAmount, ComprehensiveCoverageAmount, CollisionCoverageAmount}
  }

  /** A field value as `handleChange` stores it. */
  datatype Value = Text(text: string) | Number(number: real)

  /** `parseFloat(value) || 0`: the parsed number, or 0 when parsing gives
      `NaN`. `parseFloat` itself is the caller's: `parsed` is its result,
      `None` standing for `NaN`. */
  function NumberInput(parsed: Option<real>): (n: real)
    ensures parsed.Some? ==> n == parsed.value
    ensures parsed.None? ==> n == 0.0
  {
    parsed.GetOr(0.0)
  }

  /** What an `<input type="number" min="0" step="0.01">` demands of its value
      before the browser lets the form's submit event through: not below the
      minimum, and a whole number of steps above it. */
  predicate InputAllowed(x: real) {
    x >= 0.0 && (x * 100.0).Floor as real == x * 100.0
  }

  /** Every whole number of hundredths from 0 up is allowed. */
  lemma HundredthsAllowed(k: int)
    requires k >= 0
    ensures InputAllowed(k as real / 100.0)
  {
  }

  /** An allowed value is a whole number of hundredths from 0 up. */
  lemma AllowedAreHundredths(x: real)
    requires InputAllowed(x)
    ensures (x * 100.0).Floor >= 0 && x == (x * 100.0).Floor as real / 100.0
  {
  }

  /** A fraction of a cent and a negative amount are both stopped. */
  lemma StepAndMinimumEnforced()
    ensures !InputAllowed(100.005)
    ensures !InputAllowed(-5.0)
  {
  }

  // ---------------------------------------------------------------------------
  // Messages
  // ---------------------------------------------------------------------------

  const PolicyNumberRequired := "Policy number is required"
  const PolicyNumberFormat := "Policy number should be 5-15 characters (letters, numbers, hyphens)"
  const ProviderRequired := "Provider is required"
  const ProviderTooShort := "Provider name is too short"
  const ProviderTooLong := "Provider name is too long (max 50 characters)"
  const RegistrationRequired := "Vehicle registration is required"
  const RegistrationFormat := "Invalid registration format (2-10 alphanumeric characters)"
  const MakeRequired := "Vehicle make is required"
  const MakeTooShort := "Vehicle make is too short"
  const ModelRequired := "Vehicle model is required"
  const PremiumRequired := "Premium amount is required"
  const PremiumNotPositive := "Premium amount must be greater than zero"
  const PremiumTooHigh := "Premium amount is too high"
  const StartDateRequired := "Start date is required"
  const EndDateRequired := "End date is required"
  const EndDateNotAfterStart := "End date must be after start date"
  const DeductibleNegative := "Deductible amount cannot be negative"
  const LiabilityNegative := "Liability coverage amount cannot be negative"
  const ComprehensiveNegative := "Comprehensive coverage amount cannot be negative"
  const CollisionNegative := "Collision coverage amount cannot be negative"
  const NotesTooLong := "Notes too long (max 500 characters)"
  const ImageTooLarge := "Image size is too large (max 5MB)"

  const MaxPremium: real := 1000000.0
  const MaxNotesLength: nat := 500
  const MaxImageLength: nat := 5000000

  // ---------------------------------------------------------------------------
  // Patterns
  // ---------------------------------------------------------------------------

  /** `/^[C]{lo,hi}$/.test(s)` for a character class `C`: matched one
      character at a time, counting down both bounds. */
  function MatchesRepeat(s: string, inClass: char -> bool, lo: nat, hi: nat): (b: bool)
    ensures b <==> lo <= |s| <= hi && forall i :: 0 <= i < |s| ==> inClass(s[i])
  {
    if s == [] then lo == 0
    else hi >= 1 && inClass(s[0]) && MatchesRepeat(s[1..], inClass, if lo == 0 then 0 else lo - 1, hi - 1)
  }

  /** `[A-Z0-9-]` under `/i`. */
  predicate PolicyNumberChar(c: char) { IsAsciiAlphanumeric(c) || c == '-' }

  // ---------------------------------------------------------------------------
  // What each rule accepts
  // ---------------------------------------------------------------------------

  /** 5 to 15 ASCII letters, digits or hyphens. */
  predicate PolicyNumberOk(s: string) {
    5 <= |s| <= 15 && forall i :: 0 <= i < |s| ==> PolicyNumberChar(s[i])
  }

  /** 2 to 50 code units. */
  predicate ProviderOk(s: string) { 2 <= JsLength(s) <= 50 }

  /** 2 to 10 ASCII letters or digits; no hyphen. */
  predicate RegistrationOk(s: string) {
    2 <= |s| <= 10 && forall i :: 0 <= i < |s| ==> IsAsciiAlphanumeric(s[i])
  }

  predicate MakeOk(s: string) { JsLength(s) >= 2 }

  predicate ModelOk(s: string) { s != [] }

  predicate PremiumOk(p: real) { 0.0 < p <= MaxPremium }

  /** The end date is present and, when both dates name calendar days, falls
      on a later day than the start. A date the browser cannot read makes
      `new Date` invalid, and no comparison with it fails. */
  predicate EndDateOk(start: string, end: string) {
    && end != []
    && (start != [] && ParseIso(start).Some? && ParseIso(end).Some? ==>
          IsBefore(ParseIso(start).value, ParseIso(end).value))
  }

  predicate NotesOk(s: string) { JsLength(s) <= MaxNotesLength }

  predicate ImageOk(s: string) { JsLength(s) <= MaxImageLength }

  // ---------------------------------------------------------------------------
  // The rules
  // ---------------------------------------------------------------------------

  function PolicyNumberError(s: string): (e: Option<string>)
    ensures e.None? <==> PolicyNumberOk(s)
    ensures e == Some(PolicyNumberRequired) <==> s == []
    ensures e.Some? && s != [] ==> e.value == PolicyNumberFormat
  {
    if s == [] then Some(PolicyNumberRequired)
    else if !MatchesRepeat(s, PolicyNumberChar, 5, 15) then Some(PolicyNumberFormat)
    else None
  }

  function ProviderError(s: string): (e: Option<string>)
    ensures e.None? <==> ProviderOk(s)
    ensures e == Some(ProviderRequired) <==> s == []
    ensures e == Some(ProviderTooShort) <==> JsLength(s) == 1
    ensures e == Some(ProviderTooLong) <==> JsLength(s) > 50
  {
    if s == [] then Some(ProviderRequired)
    else if JsLength(s) < 2 then Some(ProviderTooShort)
    else if JsLength(s) > 50 then Some(ProviderTooLong)
    else None
  }

  function RegistrationError(s: string): (e: Option<string>)
    ensures e.None? <==> RegistrationOk(s)
    ensures e == Some(RegistrationRequired) <==> s == []
    ensures e.Some? && s != [] ==> e.value == RegistrationFormat
  {
    if s == [] then Some(RegistrationRequired)
    else if !MatchesRepeat(s, IsAsciiAlphanumeric, 2, 10) then Some(RegistrationFormat)
    else None
  }

  function MakeError(s: string): (e: Option<string>)
    ensures e.None? <==> MakeOk(s)
    ensures e == Some(MakeRequired) <==> s == []
    ensures e == Some(MakeTooShort) <==> JsLength(s) == 1
  {
    if s == [] then Some(MakeRequired)
    else if JsLength(s) < 2 then Some(MakeTooShort)
    else None
  }

  /** The model's "too short" branch tests `length < 1` after the emptiness
      test, so it never fires and only "required" remains. */
  function ModelError(s: string): (e: Option<string>)
    ensures e.None? <==> ModelOk(s)
    ensures e.Some? ==> e.value == ModelRequired
  {
    if s == [] then Some(ModelRequired) else None
  }

  /** `!premium` holds for 0, so 0 is "required" rather than "not positive". */
  function PremiumError(p: real): (e: Option<string>)
    ensures e.None? <==> PremiumOk(p)
    ensures e == Some(PremiumRequired) <==> p == 0.0
    ensures e == Some(PremiumNotPositive) <==> p < 0.0
    ensures e == Some(PremiumTooHigh) <==> p > MaxPremium
  {
    if p == 0.0 then Some(PremiumRequired)
    else if p <= 0.0 then Some(PremiumNotPositive)
    else if p > MaxPremium then Some(PremiumTooHigh)
    else None
  }

  function StartDateError(s: string): (e: Option<string>)
    ensures e.None? <==> s != []
    ensures e.Some? ==> e.value == StartDateRequired
  {
    if s == [] then Some(StartDateRequired) else None
  }

  /** The "required" test, then `new Date(end) <= new Date(start)` when both
      strings are present, which the later test overwrites. */
  function EndDateError(start: string, end: string): (e: Option<string>)
    ensures e.None? <==> EndDateOk(start, end)
    ensures e == Some(EndDateRequired) <==> end == []
    ensures e.Some? && end != [] ==> e.value == EndDateNotAfterStart
  {
    var required := if end == [] then Some(EndDateRequired) else None;
    if start != [] && end != [] then
      match (JsDateValue(start), JsDateValue(end))
      case (Some(a), Some(b)) =>
        EpochDayOrder(ParseIso(start).value, ParseIso(end).value);
        if b <= a then Some(EndDateNotAfterStart) else required
      case _ => required
    else required
  }

  /** The check on one of the four coverage amounts. */
  function AmountError(x: real, message: string): (e: Option<string>)
    ensures e.None? <==> x >= 0.0
    ensures e.Some? ==> e.value == message
  {
    if x < 0.0 then Some(message) else None
  }

  function NotesError(s: string): (e: Option<string>)
    ensures e.None? <==> NotesOk(s)
    ensures e.Some? ==> e.value == NotesTooLong
  {
    if s != [] && JsLength(s) > MaxNotesLength then Some(NotesTooLong) else None
  }

  function ImageError(s: string): (e: Option<string>)
    ensures e.None? <==> ImageOk(s)
    ensures e.Some? ==> e.value == ImageTooLarge
  {
    if s != [] && JsLength(s) > MaxImageLength then Some(ImageTooLarge) else None
  }

  /** Equal start and end days are refused: the end must come strictly later. */
  lemma SameDayRejected(day: string)
    requires ParseIso(day).Some?
    ensures EndDateError(day, day) == Some(EndDateNotAfterStart)
  {
  }

  /** An accepted pair of calendar days is ordered the way the back end wants
      it, strictly: the end is neither before nor on the start. */
  lemma AcceptedDatesAreOrdered(start: string, end: string)
    requires start != [] && EndDateError(start, end).None?
    requires ParseIso(start).Some? && ParseIso(end).Some?
    ensures !IsBefore(ParseIso(end).value, ParseIso(start).value)
    ensures ParseIso(end).value != ParseIso(start).value
  {
  }
}
