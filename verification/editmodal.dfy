/** `EditPolicyModal`: the dialog that loads a policy's details, lets the user
    change them under the shared field rules, and sends them back with `PUT`.
    The requests are outputs of the handlers; their answers are inputs. */
module EditModal {
  import opened Wrappers
  import opened Text
  import opened Types
  import opened Forms

  /** `EditablePolicy`: the form record of the dialog. */
  datatype EditablePolicy = EditablePolicy(
    id: int,
    policyNumber: string,
    provider: string,
    vehicleRegistration: string,
    vehicleMake: string,
    vehicleModel: string,
    startDate: string,
    endDate: string,
    premiumAmount: real,
    coverageType: string,
    deductibleAmount: real,
    liabilityCoverageAmount: real,
    comprehensiveCoverageAmount: real,
    collisionCoverageAmount: real,
    notes: string)

  /** `Object.keys(formData)`: the record's keys, `id` among them. */
  const EditFields: set<Field> := {
    PolicyId, PolicyNumber, Provider, VehicleRegistration, VehicleMake, VehicleModel,
    StartDate, EndDate, PremiumAmount, CoverageType, DeductibleAmount,
    LiabilityCoverageAmount, ComprehensiveCoverageAmount, CollisionCoverageAmount, Notes }

  /** The fields the dialog checks: the add form's rules without the vehicle
      registration, make, model and image. */
  const CheckedFields: set<Field> := {
    PolicyNumber, Provider, StartDate, EndDate, PremiumAmount,
    DeductibleAmount, LiabilityCoverageAmount, ComprehensiveCoverageAmount,
    CollisionCoverageAmount, Notes }

  /** The inputs wired to `handleChange`; the vehicle fields are read-only
      and the id has no input. */
  predicate Changeable(f: Field) {
    f in CheckedFields || f == CoverageType
  }

  /** The loaded form: the details as fetched, a missing vehicle summary
      field becoming `''`. */
  function LoadedForm(p: Policy): (e: EditablePolicy)
    ensures e.id == p.id && e.policyNumber == p.policyNumber && e.provider == p.provider
    ensures p.vehicleRegistration.Some? ==> e.vehicleRegistration == p.vehicleRegistration.value
    ensures p.vehicleRegistration.None? ==> e.vehicleRegistration == []
    ensures p.vehicleMake.Some? ==> e.vehicleMake == p.vehicleMake.value
    ensures p.vehicleMake.None? ==> e.vehicleMake == []
    ensures p.vehicleModel.Some? ==> e.vehicleModel == p.vehicleModel.value
    ensures p.vehicleModel.None? ==> e.vehicleModel == []
    ensures e.startDate == p.startDate && e.endDate == p.endDate
    ensures e.premiumAmount == p.premiumAmount && e.coverageType == p.coverageType
    ensures e.deductibleAmount == p.deductibleAmount
    ensures e.liabilityCoverageAmount == p.liabilityCoverageAmount
    ensures e.comprehensiveCoverageAmount == p.comprehensiveCoverageAmount
    ensures e.collisionCoverageAmount == p.collisionCoverageAmount
    ensures e.notes == p.notes
  {
    EditablePolicy(
      p.id, p.policyNumber, p.provider,
      p.vehicleRegistration.GetOr([]), p.vehicleMake.GetOr([]), p.vehicleModel.GetOr([]),
      p.startDate, p.endDate, p.premiumAmount, p.coverageType,
      p.deductibleAmount, p.liabilityCoverageAmount, p.comprehensiveCoverageAmount,
      p.collisionCoverageAmount, p.notes)
  }

  // ---------------------------------------------------------------------------
  // Validation
  // ---------------------------------------------------------------------------

  /** What the dialog accepts in field `f`. */
  predicate FieldOk(e: EditablePolicy, f: Field) {
    match f
    case PolicyNumber => PolicyNumberOk(e.policyNumber)
    case Provider => ProviderOk(e.provider)
    case StartDate => e.startDate != []
    case EndDate => EndDateOk(e.startDate, e.endDate)
    case PremiumAmount => PremiumOk(e.premiumAmount)
    case DeductibleAmount => e.deductibleAmount >= 0.0
    case LiabilityCoverageAmount => e.liabilityCoverageAmount >= 0.0
    case ComprehensiveCoverageAmount => e.comprehensiveCoverageAmount >= 0.0
    case CollisionCoverageAmount => e.collisionCoverageAmount >= 0.0
    case Notes => NotesOk(e.notes)
    case _ => true
  }

  predicate Accepts(e: EditablePolicy) {
    forall f :: FieldOk(e, f)
  }

  function FieldError(e: EditablePolicy, f: Field): Option<string> {
    match f
    case PolicyNumber => PolicyNumberError(e.policyNumber)
    case Provider => ProviderError(e.provider)
    case StartDate => StartDateError(e.startDate)
    case EndDate => EndDateError(e.startDate, e.endDate)
    case PremiumAmount => PremiumError(e.premiumAmount)
    case DeductibleAmount => AmountError(e.deductibleAmount, DeductibleNegative)
    case LiabilityCoverageAmount => AmountError(e.liabilityCoverageAmount, LiabilityNegative)
    case ComprehensiveCoverageAmount => AmountError(e.comprehensiveCoverageAmount, ComprehensiveNegative)
    case CollisionCoverageAmount => AmountError(e.collisionCoverageAmount, CollisionNegative)
    case Notes => NotesError(e.notes)
    case _ => None
  }

  lemma FieldErrorAgreesWithRule(e: EditablePolicy, f: Field)
    ensures FieldError(e, f).None? <==> FieldOk(e, f)
  {
  }

  /** The error record of a loaded form. */
  function Errors(e: EditablePolicy): (m: map<Field, string>)
    ensures forall f :: f in m <==> !FieldOk(e, f)
    ensures forall f :: f in m ==> Some(m[f]) == FieldError(e, f)
    ensures m.Keys <= CheckedFields
  {
    forall f
      ensures FieldError(e, f).None? <==> FieldOk(e, f)
    {
      FieldErrorAgreesWithRule(e, f);
    }
    map f | f in CheckedFields && FieldError(e, f).Some? :: FieldError(e, f).value
  }

  /** `validateForm`: with no form loaded it answers `false` and leaves the
      error record as it was; otherwise it replaces the record and answers
      whether it is empty. */
  function ValidateForm(form: Option<EditablePolicy>, previous: map<Field, string>): (r: (bool, map<Field, string>))
    ensures form.None? ==> !r.0 && r.1 == previous
    ensures form.Some? ==> (r.0 <==> Accepts(form.value)) && r.1 == Errors(form.value)
    ensures form.Some? ==> (r.0 <==> r.1 == map[])
  {
    match form
    case None => (false, previous)
    case Some(e) =>
      var m := Errors(e);
      if m == map[] then (true, m)
      else
        assert exists f :: f in m;
        (false, m)
  }

  /** The vehicle summary never affects validation: the dialog has no rule
      for it. */
  lemma VehicleFieldsUnchecked(e: EditablePolicy, registration: string, make: string, model: string)
    ensures Errors(e.(vehicleRegistration := registration, vehicleMake := make, vehicleModel := model)) == Errors(e)
  {
    var e' := e.(vehicleRegistration := registration, vehicleMake := make, vehicleModel := model);
    assert forall f :: FieldError(e', f) == FieldError(e, f);
  }

  // ---------------------------------------------------------------------------
  // State and handlers
  // ---------------------------------------------------------------------------

  datatype DialogState = DialogState(
    form: Option<EditablePolicy>,
    isLoading: bool,
    isSaving: bool,
    error: string,
    successMessage: string,
    errors: map<Field, string>,
    touched: set<Field>)

  const Closed := DialogState(None, false, false, "", "", map[], {})

  const FetchFailed := "Failed to fetch policy details"
  const UpdateSucceeded := "Policy updated successfully"
  const UpdateFailed := "Failed to update policy. Please try again."

  /** The revalidation effect: with a form loaded and some field touched, the
      error record follows the form. */
  function Revalidate(st: DialogState): (r: DialogState)
    ensures r.form == st.form && r.touched == st.touched && r.error == st.error
    ensures st.form.Some? && st.touched != {} ==> r.errors == Errors(st.form.value)
    ensures st.form.None? || st.touched == {} ==> r == st
  {
    if st.form.Some? && st.touched != {} then st.(errors := Errors(st.form.value)) else st
  }

  /** The start of `fetchPolicyDetails`: loading is switched on and the error
      cleared; nothing else changes until the answer arrives. */
  function FetchStarted(st: DialogState): (r: DialogState)
    ensures r.isLoading && r.error == ""
    ensures r.(isLoading := st.isLoading, error := st.error) == st
  {
    st.(isLoading := true, error := "")
  }

  /** The effect on `[policy]`. Opening on a policy clears the messages, the
      errors and the touched set and starts fetching its details (the id
      fetched is the second component); the old form stays until the answer
      arrives. Closing (`null`) clears everything. */
  function PolicyChanged(st: DialogState, policy: Option<Policy>): (r: (DialogState, Option<int>))
    ensures r.0.successMessage == "" && r.0.error == "" && r.0.errors == map[] && r.0.touched == {}
    ensures policy.Some? ==> r.1 == Some(policy.value.id) && r.0.isLoading && r.0.form == st.form
    ensures policy.None? ==> r.1.None? && r.0.form.None?
  {
    match policy
    case Some(p) =>
      (FetchStarted(st.(successMessage := "", errors := map[], touched := {})), Some(p.id))
    case None =>
      (st.(form := None, successMessage := "", error := "", errors := map[], touched := {}), None)
  }

  /** The Try Again button shown with a fetch error: it fetches the details of
      the dialog's policy again (the id fetched is the second component),
      keeping the form, errors and messages other than the error itself. */
  function TryAgain(st: DialogState, policy: Policy): (r: (DialogState, int))
    ensures r.1 == policy.id
    ensures r.0.isLoading && r.0.error == ""
    ensures r.0.form == st.form && r.0.errors == st.errors && r.0.touched == st.touched
    ensures r.0.successMessage == st.successMessage && r.0.isSaving == st.isSaving
  {
    (FetchStarted(st), policy.id)
  }

  /** The answer of `fetchPolicyDetails`: the details, or `None` when the
      request failed. */
  function DetailsFetched(st: DialogState, details: Option<Policy>): (r: DialogState)
    ensures !r.isLoading
    ensures details.Some? ==> r.form == Some(LoadedForm(details.value)) && r.error == st.error
    ensures details.None? ==> r.form == st.form && r.error == FetchFailed
  {
    match details
    case Some(d) => Revalidate(st.(form := Some(LoadedForm(d)), isLoading := false))
    case None => Revalidate(st.(error := FetchFailed, isLoading := false))
  }

  /** After a failed fetch, Try Again followed by a successful answer clears
      the error and shows the details; a failed retry shows the error again. */
  lemma RetryRecovers(st: DialogState, p: Policy, details: Policy)
    ensures var failed := DetailsFetched(PolicyChanged(st, Some(p)).0, None);
      && failed.error == FetchFailed
      && DetailsFetched(TryAgain(failed, p).0, Some(details)).error == ""
      && DetailsFetched(TryAgain(failed, p).0, Some(details)).form == Some(LoadedForm(details))
      && DetailsFetched(TryAgain(failed, p).0, None).error == FetchFailed
  {
  }

  function Get(e: EditablePolicy, f: Field): Value {
    match f
    case PolicyId => Number(e.id as real)
    case PolicyNumber => Text(e.policyNumber)
    case Provider => Text(e.provider)
    case VehicleRegistration => Text(e.vehicleRegistration)
    case VehicleMake => Text(e.vehicleMake)
    case VehicleModel => Text(e.vehicleModel)
    case StartDate => Text(e.startDate)
    case EndDate => Text(e.endDate)
    case PremiumAmount => Number(e.premiumAmount)
    case CoverageType => Text(e.coverageType)
    case DeductibleAmount => Number(e.deductibleAmount)
    case LiabilityCoverageAmount => Number(e.liabilityCoverageAmount)
    case ComprehensiveCoverageAmount => Number(e.comprehensiveCoverageAmount)
    case CollisionCoverageAmount => Number(e.collisionCoverageAmount)
    case Notes => Text(e.notes)
    case VehicleImage => Text([])
  }

  /** `{ ...formData, [f]: v }` on one of the editable inputs. */
  function Set(e: EditablePolicy, f: Field, v: Value): (r: EditablePolicy)
    requires Changeable(f)
    requires v.Number? <==> IsNumberField(f)
    ensures Get(r, f) == v
    ensures forall g :: g != f ==> Get(r, g) == Get(e, g)
  {
    match f
    case PolicyNumber => e.(policyNumber := v.text)
    case Provider => e.(provider := v.text)
    case StartDate => e.(startDate := v.text)
    case EndDate => e.(endDate := v.text)
    case PremiumAmount => e.(premiumAmount := v.number)
    case CoverageType => e.(coverageType := v.text)
    case DeductibleAmount => e.(deductibleAmount := v.number)
    case LiabilityCoverageAmount => e.(liabilityCoverageAmount := v.number)
    case ComprehensiveCoverageAmount => e.(comprehensiveCoverageAmount := v.number)
    case CollisionCoverageAmount => e.(collisionCoverageAmount := v.number)
    case Notes => e.(notes := v.text)
  }

  /** `handleChange`: nothing happens while no form is loaded; otherwise the
      field takes the new value and no other field changes. */
  function HandleChange(st: DialogState, f: Field, raw: string, parsed: Option<real>): (r: DialogState)
    requires Changeable(f)
    ensures st.form.None? ==> r == st
    ensures st.form.Some? ==> r.form.Some?
    ensures st.form.Some? ==>
      Get(r.form.value, f) == (if IsNumberField(f) then Number(NumberInput(parsed)) else Text(raw))
    ensures st.form.Some? ==> forall g :: g != f ==> Get(r.form.value, g) == Get(st.form.value, g)
  {
    match st.form
    case None => st
    case Some(e) =>
      var v := if IsNumberField(f) then Number(NumberInput(parsed)) else Text(raw);
      Revalidate(st.(form := Some(Set(e, f, v))))
  }

  /** `handleBlur`. */
  function HandleBlur(st: DialogState, f: Field): (r: DialogState)
    ensures r.touched == st.touched + {f} && r.form == st.form
    ensures st.form.Some? ==> r.errors == Errors(st.form.value)
  {
    Revalidate(st.(touched := st.touched + {f}))
  }

  /** `handleClose`: the dialog forgets its form, messages, errors and touched
      fields, then tells its parent. */
  function HandleClose(st: DialogState): (r: DialogState)
    ensures r.form.None? && r.successMessage == "" && r.error == ""
    ensures r.errors == map[] && r.touched == {}
    ensures r.isLoading == st.isLoading && r.isSaving == st.isSaving
  {
    st.(form := None, successMessage := "", error := "", errors := map[], touched := {})
  }

  /** The body of the `PUT`: the vehicle is always vehicle 1, and the image and
      vehicle summary are not sent. */
  datatype UpdatePayload = UpdatePayload(
    policyNumber: string,
    provider: string,
    vehicleId: int,
    startDate: string,
    endDate: string,
    premiumAmount: real,
    coverageType: string,
    deductibleAmount: real,
    liabilityCoverageAmount: real,
    comprehensiveCoverageAmount: real,
    collisionCoverageAmount: real,
    notes: string)

  /** `PUT /api/insurance/{id}` with its body. */
  datatype PutRequest = PutRequest(id: int, payload: UpdatePayload)

  const PayloadVehicleId: int := 1

  function Payload(e: EditablePolicy): (p: UpdatePayload)
    ensures p.vehicleId == PayloadVehicleId
    ensures p.policyNumber == e.policyNumber && p.provider == e.provider
    ensures p.startDate == e.startDate && p.endDate == e.endDate
    ensures p.premiumAmount == e.premiumAmount && p.coverageType == e.coverageType
    ensures p.deductibleAmount == e.deductibleAmount && p.liabilityCoverageAmount == e.liabilityCoverageAmount
    ensures p.comprehensiveCoverageAmount == e.comprehensiveCoverageAmount
    ensures p.collisionCoverageAmount == e.collisionCoverageAmount && p.notes == e.notes
  {
    UpdatePayload(e.policyNumber, e.provider, PayloadVehicleId, e.startDate, e.endDate,
                  e.premiumAmount, e.coverageType, e.deductibleAmount, e.liabilityCoverageAmount,
                  e.comprehensiveCoverageAmount, e.collisionCoverageAmount, e.notes)
  }

  /** The vehicle summary of the form never reaches the server. */
  lemma PayloadIgnoresVehicleFields(e: EditablePolicy, registration: string, make: string, model: string)
    ensures Payload(e.(vehicleRegistration := registration, vehicleMake := make, vehicleModel := model)) == Payload(e)
  {
  }

  /** What a submission produced: the new state, the request sent if any,
      and whether `onPolicyUpdated` was called. */
  datatype Submission = Submission(state: DialogState, request: Option<PutRequest>, notified: bool)

  /** `handleSubmit`. With no form nothing happens. Otherwise every key is
      touched and the form validated; an accepted form is sent to its own id.
      When the `PUT` succeeds the parent is told and the dialog closes; when it
      fails the error is shown and the form stays. */
  function HandleSubmit(st: DialogState, putSucceeds: bool): (r: Submission)
    ensures st.form.None? ==> r == Submission(st, None, false)
    ensures r.request.Some? <==> st.form.Some? && Accepts(st.form.value)
    ensures r.request.Some? ==> r.request.value == PutRequest(st.form.value.id, Payload(st.form.value))
    ensures r.notified <==> r.request.Some? && putSucceeds
    ensures st.form.Some? && !Accepts(st.form.value) ==>
      && r.state.form == st.form && r.state.touched == EditFields
      && r.state.errors == Errors(st.form.value) && r.state.errors != map[]
    ensures r.notified ==>
      && r.state.form.None? && r.state.errors == map[] && r.state.touched == {}
      && r.state.successMessage == "" && r.state.error == "" && !r.state.isSaving
    ensures r.request.Some? && !putSucceeds ==>
      r.state.form == st.form && r.state.error == UpdateFailed && !r.state.isSaving
  {
    match st.form
    case None => Submission(st, None, false)
    case Some(e) =>
      var (ok, errors) := ValidateForm(st.form, st.errors);
      var st := Revalidate(st.(touched := EditFields, errors := errors));
      if !ok then Submission(st, None, false)
      else
        var st := st.(isSaving := true, error := "", successMessage := "");
        var request := PutRequest(e.id, Payload(e));
        if putSucceeds then
          var st := HandleClose(st.(successMessage := UpdateSucceeded));
          Submission(st.(isSaving := false), Some(request), true)
        else
          Submission(Revalidate(st.(error := UpdateFailed, isSaving := false)), Some(request), false)
  }

  /** Submitting a form whose vehicle summary is blank still sends it: only
      the add form checks those fields. */
  lemma BlankVehicleStillSent(st: DialogState, b: bool)
    requires st.form.Some? && Accepts(st.form.value)
    ensures HandleSubmit(st.(form := Some(st.form.value.(vehicleRegistration := [], vehicleMake := [], vehicleModel := []))), b).request.Some?
  {
    var e := st.form.value;
    var e' := e.(vehicleRegistration := [], vehicleMake := [], vehicleModel := []);
    assert forall f :: FieldOk(e', f) == FieldOk(e, f);
  }

  /** The browser's own check of the dialog's five amount inputs (`min="0"`,
      `step="0.01"`), made before the form's submit event is delivered. */
  predicate BrowserAllows(e: EditablePolicy) {
    && InputAllowed(e.premiumAmount)
    && InputAllowed(e.deductibleAmount)
    && InputAllowed(e.liabilityCoverageAmount)
    && InputAllowed(e.comprehensiveCoverageAmount)
    && InputAllowed(e.collisionCoverageAmount)
  }

  /** Pressing the Save button. The form does not set `noValidate`, so an
      amount the browser refuses cancels the event and `handleSubmit` never
      runs; otherwise `handleSubmit` runs. With no form loaded there is no
      form to submit. */
  function Submit(st: DialogState, putSucceeds: bool): (r: Submission)
    ensures st.form.Some? && !BrowserAllows(st.form.value) ==> r == Submission(st, None, false)
    ensures r.request.Some? <==> st.form.Some? && BrowserAllows(st.form.value) && Accepts(st.form.value)
    ensures r.request.Some? ==> r.request.value == PutRequest(st.form.value.id, Payload(st.form.value))
    ensures r.notified <==> r.request.Some? && putSucceeds
    ensures st.form.Some? && BrowserAllows(st.form.value) && !Accepts(st.form.value) ==>
      r.state.touched == EditFields && r.state.errors != map[]
  {
    if st.form.Some? && !BrowserAllows(st.form.value) then Submission(st, None, false)
    else HandleSubmit(st, putSucceeds)
  }

  /** A premium of a fraction of a cent passes the dialog's own rule, yet the
      browser stops the save: no `PUT` is sent and nothing changes. */
  lemma FractionalPremiumNeverSaved(st: DialogState, b: bool)
    requires st.form.Some? && st.form.value.premiumAmount == 100.005
    ensures PremiumOk(st.form.value.premiumAmount)
    ensures Submit(st, b) == Submission(st, None, false)
  {
  }
}
