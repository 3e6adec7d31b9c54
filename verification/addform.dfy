/** `AddPolicyForm`: the add-policy form's data, its validation, and the
    change, blur and submit handlers around it. The revalidation effect runs
    after every change once some field has been touched. */
module AddForm {
  import opened Wrappers
  import opened Text
  import opened Forms

  /** `PolicyFormData`; the optional image is `""` when absent. */
  datatype PolicyFormData = PolicyFormData(
    policyNumber: string,
    provider: string,
    vehicleRegistration: string,
    vehicleMake: string,
    vehicleModel: string,
    startDate: string,
    endDate: string,
    premiumAmount: real,
    coverageType: string,
    deductibleAmount: real,
    liabilityCoverageAmount: real,
    comprehensiveCoverageAmount: real,
    collisionCoverageAmount: real,
    notes: string,
    vehicleImage: string)

  /** `initialFormData`. */
  const Initial := PolicyFormData("", "", "", "", "", "", "", 0.0, "FULL", 0.0, 0.0, 0.0, 0.0, "", "")

  /** `Object.keys(formData)`: every key of the record. */
  const FormFields: set<Field> := {
    PolicyNumber, Provider, VehicleRegistration, VehicleMake, VehicleModel,
    StartDate, EndDate, PremiumAmount, CoverageType, DeductibleAmount,
    LiabilityCoverageAmount, ComprehensiveCoverageAmount, CollisionCoverageAmount,
    Notes, VehicleImage }

  /** The fields with an input wired to `handleChange`; the image has its own
      file handler. */
  predicate Changeable(f: Field) { f in FormFields && f != VehicleImage }

  // ---------------------------------------------------------------------------
  // Field access
  // ---------------------------------------------------------------------------

  function Get(d: PolicyFormData, f: Field): Value {
    match f
    case PolicyNumber => Text(d.policyNumber)
    case Provider => Text(d.provider)
    case VehicleRegistration => Text(d.vehicleRegistration)
    case VehicleMake => Text(d.vehicleMake)
    case VehicleModel => Text(d.vehicleModel)
    case StartDate => Text(d.startDate)
    case EndDate => Text(d.endDate)
    case PremiumAmount => Number(d.premiumAmount)
    case CoverageType => Text(d.coverageType)
    case DeductibleAmount => Number(d.deductibleAmount)
    case LiabilityCoverageAmount => Number(d.liabilityCoverageAmount)
    case ComprehensiveCoverageAmount => Number(d.comprehensiveCoverageAmount)
    case CollisionCoverageAmount => Number(d.collisionCoverageAmount)
    case Notes => Text(d.notes)
    case VehicleImage => Text(d.vehicleImage)
    case PolicyId => Text([])
  }

  /** `{ ...d, [f]: v }` on one of the inputs `handleChange` serves, for a
      value of the field's kind. */
  function Set(d: PolicyFormData, f: Field, v: Value): (r: PolicyFormData)
    requires Changeable(f)
    requires v.Number? <==> IsNumberField(f)
    ensures Get(r, f) == v
    ensures forall g :: g != f ==> Get(r, g) == Get(d, g)
  {
    match f
    case PolicyNumber => d.(policyNumber := v.text)
    case Provider => d.(provider := v.text)
    case VehicleRegistration => d.(vehicleRegistration := v.text)
    case VehicleMake => d.(vehicleMake := v.text)
    case VehicleModel => d.(vehicleModel := v.text)
    case StartDate => d.(startDate := v.text)
    case EndDate => d.(endDate := v.text)
    case PremiumAmount => d.(premiumAmount := v.number)
    case CoverageType => d.(coverageType := v.text)
    case DeductibleAmount => d.(deductibleAmount := v.number)
    case LiabilityCoverageAmount => d.(liabilityCoverageAmount := v.number)
    case ComprehensiveCoverageAmount => d.(comprehensiveCoverageAmount := v.number)
    case CollisionCoverageAmount => d.(collisionCoverageAmount := v.number)
    case Notes => d.(notes := v.text)
  }

  /** Two form records that agree on every field are the same record. */
  lemma GetDetermines(a: PolicyFormData, b: PolicyFormData)
    requires forall f :: f in FormFields ==> Get(a, f) == Get(b, f)
    ensures a == b
  {
    assert Get(a, PolicyNumber) == Get(b, PolicyNumber);
    assert Get(a, Provider) == Get(b, Provider);
    assert Get(a, VehicleRegistration) == Get(b, VehicleRegistration);
    assert Get(a, VehicleMake) == Get(b, VehicleMake);
    assert Get(a, VehicleModel) == Get(b, VehicleModel);
    assert Get(a, StartDate) == Get(b, StartDate);
    assert Get(a, EndDate) == Get(b, EndDate);
    assert Get(a, PremiumAmount) == Get(b, PremiumAmount);
    assert Get(a, CoverageType) == Get(b, CoverageType);
    assert Get(a, DeductibleAmount) == Get(b, DeductibleAmount);
    assert Get(a, LiabilityCoverageAmount) == Get(b, LiabilityCoverageAmount);
    assert Get(a, ComprehensiveCoverageAmount) == Get(b, ComprehensiveCoverageAmount);
    assert Get(a, CollisionCoverageAmount) == Get(b, CollisionCoverageAmount);
    assert Get(a, Notes) == Get(b, Notes);
    assert Get(a, VehicleImage) == Get(b, VehicleImage);
  }

  // ---------------------------------------------------------------------------
  // Validation
  // ---------------------------------------------------------------------------

  /** What the form accepts in field `f`, stated rule by rule. */
  predicate FieldOk(d: PolicyFormData, f: Field) {
    match f
    case PolicyNumber => PolicyNumberOk(d.policyNumber)
    case Provider => ProviderOk(d.provider)
    case VehicleRegistration => RegistrationOk(d.vehicleRegistration)
    case VehicleMake => MakeOk(d.vehicleMake)
    case VehicleModel => ModelOk(d.vehicleModel)
    case StartDate => d.startDate != []
    case EndDate => EndDateOk(d.startDate, d.endDate)
    case PremiumAmount => PremiumOk(d.premiumAmount)
    case DeductibleAmount => d.deductibleAmount >= 0.0
    case LiabilityCoverageAmount => d.liabilityCoverageAmount >= 0.0
    case ComprehensiveCoverageAmount => d.comprehensiveCoverageAmount >= 0.0
    case CollisionCoverageAmount => d.collisionCoverageAmount >= 0.0
    case Notes => NotesOk(d.notes)
    case VehicleImage => ImageOk(d.vehicleImage)
    case CoverageType => true
    case PolicyId => true
  }

  /** Every rule is met. */
  predicate Accepts(d: PolicyFormData) {
    forall f :: FieldOk(d, f)
  }

  /** The message of field `f`, if its rule fails. */
  function FieldError(d: PolicyFormData, f: Field): Option<string> {
    match f
    case PolicyNumber => PolicyNumberError(d.policyNumber)
    case Provider => ProviderError(d.provider)
    case VehicleRegistration => RegistrationError(d.vehicleRegistration)
    case VehicleMake => MakeError(d.vehicleMake)
    case VehicleModel => ModelError(d.vehicleModel)
    case StartDate => StartDateError(d.startDate)
    case EndDate => EndDateError(d.startDate, d.endDate)
    case PremiumAmount => PremiumError(d.premiumAmount)
    case DeductibleAmount => AmountError(d.deductibleAmount, DeductibleNegative)
    case LiabilityCoverageAmount => AmountError(d.liabilityCoverageAmount, LiabilityNegative)
    case ComprehensiveCoverageAmount => AmountError(d.comprehensiveCoverageAmount, ComprehensiveNegative)
    case CollisionCoverageAmount => AmountError(d.collisionCoverageAmount, CollisionNegative)
    case Notes => NotesError(d.notes)
    case VehicleImage => ImageError(d.vehicleImage)
    case CoverageType => None
    case PolicyId => None
  }

  /** A field's message is absent exactly when its rule holds. */
  lemma FieldErrorAgreesWithRule(d: PolicyFormData, f: Field)
    ensures FieldError(d, f).None? <==> FieldOk(d, f)
  {
  }

  /** The `newErrors` record `validateForm` builds: one entry, holding the
      field's one message, for each field whose rule fails. */
  function Errors(d: PolicyFormData): (m: map<Field, string>)
    ensures forall f :: f in m <==> !FieldOk(d, f)
    ensures forall f :: f in m ==> Some(m[f]) == FieldError(d, f)
    ensures m.Keys <= FormFields
  {
    forall f
      ensures FieldError(d, f).None? <==> FieldOk(d, f)
    {
      FieldErrorAgreesWithRule(d, f);
    }
    map f | f in FormFields && FieldError(d, f).Some? :: FieldError(d, f).value
  }

  /** `validateForm`: the new error record and whether it is empty. */
  function ValidateForm(d: PolicyFormData): (r: (bool, map<Field, string>))
    ensures r.0 <==> Accepts(d)
    ensures r.0 <==> r.1 == map[]
    ensures r.1 == Errors(d)
  {
    var m := Errors(d);
    if m == map[] then (true, m)
    else
      assert exists f :: f in m;
      (false, m)
  }

  /** The untouched form is refused: every required text field is empty. */
  lemma InitialRefused()
    ensures !Accepts(Initial)
    ensures Errors(Initial)[PolicyNumber] == PolicyNumberRequired
    ensures Errors(Initial)[PremiumAmount] == PremiumRequired
    ensures CoverageType !in Errors(Initial)
  {
    assert !FieldOk(Initial, PolicyNumber);
  }

  // ---------------------------------------------------------------------------
  // State and handlers
  // ---------------------------------------------------------------------------

  datatype FormState = FormState(
    data: PolicyFormData,
    isSubmitting: bool,
    errors: map<Field, string>,
    touched: set<Field>,
    imagePreview: string)

  /** The form as it first renders. */
  const Opened := FormState(Initial, false, map[], {}, "")

  /** The effect on `[formData, touched]`: once anything is touched, the
      error record follows the data. */
  function Revalidate(st: FormState): (r: FormState)
    ensures r.data == st.data && r.touched == st.touched && r.imagePreview == st.imagePreview
    ensures r.touched != {} ==> r.errors == Errors(st.data)
    ensures r.touched == {} ==> r.errors == st.errors
  {
    if st.touched != {} then st.(errors := Errors(st.data)) else st
  }

  /** `handleChange` on field `f`: number inputs store `parseFloat(raw) || 0`,
      the others the raw text; no other field changes. */
  function HandleChange(st: FormState, f: Field, raw: string, parsed: Option<real>): (r: FormState)
    requires Changeable(f)
    ensures Get(r.data, f) == if IsNumberField(f) then Number(NumberInput(parsed)) else Text(raw)
    ensures forall g :: g != f ==> Get(r.data, g) == Get(st.data, g)
    ensures r.touched == st.touched && r.imagePreview == st.imagePreview
    ensures r.touched != {} ==> r.errors == Errors(r.data)
  {
    var v := if IsNumberField(f) then Number(NumberInput(parsed)) else Text(raw);
    Revalidate(st.(data := Set(st.data, f, v)))
  }

  /** The `FileReader` callback of `handleImageChange`: the data URL becomes
      both the image field and the preview. */
  function ImageLoaded(st: FormState, dataUrl: string): (r: FormState)
    ensures r.data == st.data.(vehicleImage := dataUrl)
    ensures r.imagePreview == dataUrl
    ensures r.touched != {} ==> r.errors == Errors(r.data)
  {
    Revalidate(st.(data := st.data.(vehicleImage := dataUrl), imagePreview := dataUrl))
  }

  /** `handleBlur`: the field is touched, which turns on revalidation. */
  function HandleBlur(st: FormState, f: Field): (r: FormState)
    ensures r.touched == st.touched + {f}
    ensures r.data == st.data
    ensures r.errors == Errors(st.data)
  {
    Revalidate(st.(touched := st.touched + {f}))
  }

  /** What a submission produced: the new state and the record handed to
      `onSubmit`, if it was called. */
  datatype Submission = Submission(state: FormState, submitted: Option<PolicyFormData>)

  /** `handleSubmit`. Every field is touched and the form validated; only an
      accepted form is handed to `onSubmit`, whose promise resolves when
      `onSubmitSucceeds`. On success the form is emptied; on failure the data
      stays for another try. */
  function HandleSubmit(st: FormState, onSubmitSucceeds: bool): (r: Submission)
    ensures r.submitted.Some? <==> Accepts(st.data)
    ensures r.submitted.Some? ==> r.submitted.value == st.data
    ensures r.submitted.Some? ==> !r.state.isSubmitting
    ensures !Accepts(st.data) ==>
      && r.state.data == st.data && r.state.touched == FormFields
      && r.state.errors == Errors(st.data) && r.state.errors != map[]
    ensures Accepts(st.data) && onSubmitSucceeds ==>
      r.state.data == Initial && r.state.touched == {} && r.state.imagePreview == ""
    ensures Accepts(st.data) && !onSubmitSucceeds ==>
      r.state.data == st.data && r.state.touched == FormFields && r.state.imagePreview == st.imagePreview
    ensures r.state.errors == Errors(st.data)
  {
    var (ok, errors) := ValidateForm(st.data);
    var st := st.(touched := FormFields, errors := errors);
    if !ok then Submission(Revalidate(st), None)
    else
      var sent := st.data;
      if onSubmitSucceeds then
        Submission(Revalidate(st.(data := Initial, touched := {}, imagePreview := "", isSubmitting := false)), Some(sent))
      else
        Submission(Revalidate(st.(isSubmitting := false)), Some(sent))
  }

  /** A form refused once stays refused, however often it is submitted, and
      never reaches `onSubmit`. */
  lemma RefusedSubmitIsStable(st: FormState, b1: bool, b2: bool)
    requires !Accepts(st.data)
    ensures HandleSubmit(HandleSubmit(st, b1).state, b2).submitted.None?
    ensures HandleSubmit(HandleSubmit(st, b1).state, b2).state.data == st.data
  {
  }

  /** After a successful submission the form is back to its opening state,
      apart from the (empty) error record. */
  lemma SuccessResetsForm(st: FormState)
    requires Accepts(st.data)
    ensures HandleSubmit(st, true).state == Opened
  {
    var (ok, errors) := ValidateForm(st.data);
    assert errors == map[];
  }

  /** The browser's own check of the five amount inputs (`min="0"`,
      `step="0.01"`), made before the form's submit event is delivered. */
  predicate BrowserAllows(d: PolicyFormData) {
    && InputAllowed(d.premiumAmount)
    && InputAllowed(d.deductibleAmount)
    && InputAllowed(d.liabilityCoverageAmount)
    && InputAllowed(d.comprehensiveCoverageAmount)
    && InputAllowed(d.collisionCoverageAmount)
  }

  /** Pressing the submit button. The form does not set `noValidate`, so an
      amount the browser refuses cancels the event and `handleSubmit` never
      runs; otherwise `handleSubmit` runs. */
  function Submit(st: FormState, onSubmitSucceeds: bool): (r: Submission)
    ensures !BrowserAllows(st.data) ==> r == Submission(st, None)
    ensures r.submitted.Some? <==> BrowserAllows(st.data) && Accepts(st.data)
    ensures r.submitted.Some? ==> r.submitted.value == st.data
    ensures BrowserAllows(st.data) && !Accepts(st.data) ==>
      r.state.touched == FormFields && r.state.errors != map[]
    ensures r.submitted.Some? && onSubmitSucceeds ==> r.state == Opened
  {
    if !BrowserAllows(st.data) then Submission(st, None)
    else if Accepts(st.data) && onSubmitSucceeds then
      SuccessResetsForm(st);
      HandleSubmit(st, onSubmitSucceeds)
    else
      HandleSubmit(st, onSubmitSucceeds)
  }

  /** A premium of a fraction of a cent passes the form's own rule, yet the
      browser stops the submission: nothing is handed on and nothing is touched. */
  lemma FractionalPremiumNeverSent(st: FormState, b: bool)
    requires st.data.premiumAmount == 100.005
    ensures PremiumOk(st.data.premiumAmount)
    ensures Submit(st, b) == Submission(st, None)
  {
  }

  /** A negative coverage amount never reaches `handleSubmit`: nothing is
      handed on and no field is newly touched. */
  lemma NegativeAmountNeverValidated(st: FormState, b: bool)
    requires st.data.collisionCoverageAmount < 0.0
    ensures Submit(st, b).state.touched == st.touched
    ensures Submit(st, b).submitted.None?
  {
  }
}
