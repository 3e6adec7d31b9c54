# Insurance policy management, modelled in Dafny

This project models the insurance-policy part of the AutoVault web site, both tiers of it:

- **Back end.** A Spring service stores insurance policies, each filed under a vehicle. It creates, reads, updates and deletes them, and lists them a page at a time: all policies, by provider, by expiry-date range, active, expired, by vehicle details, or by premium range.
- **Front end.** A React page holds a paged, sortable and searchable policy table. It also has an add-policy form, an edit-policy dialog, and a strip of statistics.

The model is written as pure functions over immutable datatypes. Every operation is a function from the old state, plus what the user or the server supplied, to the new state and the requests it sends. The model has these modules:

| module | models |
|---|---|
| `Wrappers` | `Option` and `Result` |
| `Text` | JavaScript `trim` and `length`, ASCII case folding (`equalsIgnoreCase`, SQL `LOWER`), substring search, and decimal integers as the server parses them |
| `Dates` | proleptic Gregorian `LocalDate`s, their day numbers, `isBefore`/`isAfter`, adding days, and the `yyyy-mm-dd` text form |
| `Domain` | the `Vehicle` and `InsurancePolicy` entities, the policy DTO, the status constants and the service's errors |
| `Paging` | `Sort`, `Pageable` and `Page`: slicing a sorted listing into pages |
| `Repository` | the derived and annotated queries of `InsurancePolicyRepository` as predicates over a listing of the table |
| `Service` | `InsurancePolicyServiceImpl` over a store of two tables, with the schema's invariant |
| `Types` | the front end's `Policy` record and the JSON that turns a DTO into one |
| `Forms` | the field rules the add form and the edit dialog share, message by message |
| `AddForm` | `AddPolicyForm`: data, validation, change/blur/image/submit handlers |
| `EditModal` | `EditPolicyModal`: loading, validation, handlers and the `PUT` it sends |
| `PolicyList` | `PolicyList`: header sorting, the search box and the pager |
| `App` | `App`: the requests it sends, its state after each answer, and the statistics |
| `Tiers` | how the tiers meet: what the forms let through and what the service then decides, and what the list and the statistics ask for and get |

The model's boundaries are as follows:

- **Database.** The database is a `Store`: policies and vehicles keyed by id, plus the next identity value. A query is evaluated over `rows`, a listing of the policy table that the caller supplies already in the requested sort order.
- **Clock.** The current date and time are parameters.
- **HTTP.** Requests are values of a `Request` datatype.
- **Outcomes.** The success or failure of a call is a boolean parameter, or the answer is an `Option`.

## Model

| member | source | states |
|---|---|---|
| Text.JsLength | InsuranceManagement/Frontend/src/components/AddPolicyForm.tsx:54-60 | a string's JavaScript length lies between its number of code points and twice that; it equals the number of code points exactly when every character is in the Basic Multilingual Plane; it is 0 only for the empty string |
| Text.Trim | InsuranceManagement/Frontend/src/components/PolicyList.tsx:50-55 | `trim()` returns at most as many characters as it is given, and its result neither starts nor ends with JavaScript whitespace |
| Text.TrimIsSlice | InsuranceManagement/Frontend/src/components/PolicyList.tsx:50-55 | what `trim()` returns is a contiguous slice of its input, and everything cut away on either side is whitespace |
| Text.TrimEmptyIffBlank | InsuranceManagement/Frontend/src/components/PolicyList.tsx:57-64 | `trim()` gives `''` exactly when every character is whitespace |
| Text.TrimIdempotent | InsuranceManagement/Frontend/src/components/PolicyList.tsx:50-55 | trimming twice is the same as trimming once |
| Text.Lower | InsuranceManagement/Backend/src/main/java/com/nsbm/autovault/insurancemanagement/repository/InsurancePolicyRepository.java:68-74 | `LOWER` keeps the length and maps each character on its own: ASCII capitals become lower case and every other character stays |
| Text.Contains | InsuranceManagement/Backend/src/main/java/com/nsbm/autovault/insurancemanagement/repository/InsurancePolicyRepository.java:68-74 | the substring search answers true exactly when the term occurs at some position of the field |
| Text.ParseIntRoundTrip | InsuranceManagement/Frontend/src/App.tsx:54-70 | any integer the page writes into a query string as decimal text is read back by the server as the same integer |
| Dates.EpochDayOrder | InsuranceManagement/Backend/src/main/java/com/nsbm/autovault/insurancemanagement/service/impl/InsurancePolicyServiceImpl.java:50-52 | comparing day numbers agrees with `LocalDate.isBefore`, and two dates share a day number only if they are equal |
| Dates.PlusDays | InsuranceManagement/Frontend/src/App.tsx:198-203 | adding `n` days gives the date whose day number is `n` larger |
| Dates.ParseFormatRoundTrip | InsuranceManagement/Frontend/src/App.tsx:219-221 | a date with a four-digit year, written as `yyyy-mm-dd`, parses back to the same date |
| Dates.ParseIso | InsuranceManagement/Frontend/src/components/AddPolicyForm.tsx:101-109 | only canonical text parses: a parsed date has a four-digit year and writes back to exactly the text it came from |
| Dates.JsDateValue | InsuranceManagement/Frontend/src/components/AddPolicyForm.tsx:101-109 | `new Date(s)` of a form date is valid exactly when `s` names a calendar day, and then it orders like that day's number |
| Domain.Message | InsuranceManagement/Backend/src/main/java/com/nsbm/autovault/insurancemanagement/util/Constants.java:29-32 | the not-found messages start with the constant prefixes, and only the errors raised below the service (the duplicate key, a blank sort property, a bad page request) carry no service message |
| Paging.PageCount | InsuranceManagement/Backend/src/main/java/com/nsbm/autovault/insurancemanagement/controller/InsurancePolicyController.java:215-223 | the number of pages is the least count of pages of the given size that holds every row |
| Paging.Slice | InsuranceManagement/Backend/src/main/java/com/nsbm/autovault/insurancemanagement/service/impl/InsurancePolicyServiceImpl.java:93-96 | page `n` holds the rows from position `n*size` onwards, at most `size` of them, in order, and is empty past the end |
| Paging.PageOf | InsuranceManagement/Backend/src/main/java/com/nsbm/autovault/insurancemanagement/service/impl/InsurancePolicyServiceImpl.java:93-96 | a page reports its own number and size, the total row count and page count, and holds the slice for its number |
| Paging.NonEmptyIffInRange | InsuranceManagement/Backend/src/main/java/com/nsbm/autovault/insurancemanagement/service/impl/InsurancePolicyServiceImpl.java:93-96 | a page has rows exactly when its number is below the page count |
| Paging.MapPage | InsuranceManagement/Backend/src/main/java/com/nsbm/autovault/insurancemanagement/service/impl/InsurancePolicyServiceImpl.java:96 | `Page.map` converts each row in place and keeps number, size, total and page count |
| Paging.MappedPageItems | InsuranceManagement/Backend/src/main/java/com/nsbm/autovault/insurancemanagement/service/impl/InsurancePolicyServiceImpl.java:96 | every item on a mapped page is the image of some row of the listing |
| Paging.MappedPageLength | InsuranceManagement/Backend/src/main/java/com/nsbm/autovault/insurancemanagement/service/impl/InsurancePolicyServiceImpl.java:93-96 | a mapped page has as many items as the listing has rows from `pageNo*pageSize` on, capped at the page size, and none past the end |
| Paging.MappedPageItem | InsuranceManagement/Backend/src/main/java/com/nsbm/autovault/insurancemanagement/service/impl/InsurancePolicyServiceImpl.java:93-96 | item `i` of a mapped page is the conversion of row `pageNo*pageSize + i` of the listing |
| Paging.MappedPageSlice | InsuranceManagement/Backend/src/main/java/com/nsbm/autovault/insurancemanagement/service/impl/InsurancePolicyServiceImpl.java:93-96 | a mapped page is, position by position, the conversion of its slice of the listing, and counts the pages of the whole listing |
| Paging.PagesPartitionRows | InsuranceManagement/Backend/src/main/java/com/nsbm/autovault/insurancemanagement/service/impl/InsurancePolicyServiceImpl.java:89-97 | reading pages from `k` to the last, one after another, gives back the listing from row `k*size` on: nothing is lost or repeated |
| Repository.FindAll | InsuranceManagement/Backend/src/main/java/com/nsbm/autovault/insurancemanagement/repository/InsurancePolicyRepository.java:38-83 | a query returns exactly the listed policies that meet its criteria |
| Repository.FindByPolicyNumber | InsuranceManagement/Backend/src/main/java/com/nsbm/autovault/insurancemanagement/repository/InsurancePolicyRepository.java:28 | the lookup finds a listed policy with that number, and finds nothing only when no policy carries it |
| Repository.PolicyNumberLookupUnique | InsuranceManagement/Backend/src/main/java/com/nsbm/autovault/insurancemanagement/repository/InsurancePolicyRepository.java:28 | when policy numbers are unique, the lookup by a policy's number returns that very policy |
| Repository.FindByProviderContainingIgnoreCase | InsuranceManagement/Backend/src/main/java/com/nsbm/autovault/insurancemanagement/repository/InsurancePolicyRepository.java:43 | a policy is returned exactly when the provider term, case folded, occurs in its provider, case folded |
| Repository.FindByEndDateBetween | InsuranceManagement/Backend/src/main/java/com/nsbm/autovault/insurancemanagement/repository/InsurancePolicyRepository.java:48 | a policy is returned exactly when its end date lies between the two bounds, both included |
| Repository.FindByEndDateAfterAndStatus | InsuranceManagement/Backend/src/main/java/com/nsbm/autovault/insurancemanagement/repository/InsurancePolicyRepository.java:58 | a policy is returned exactly when it ends strictly after the date and has the given status |
| Repository.FindByEndDateBefore | InsuranceManagement/Backend/src/main/java/com/nsbm/autovault/insurancemanagement/repository/InsurancePolicyRepository.java:63 | a policy is returned exactly when it ends strictly before the date |
| Repository.FindByVehicleDetails | InsuranceManagement/Backend/src/main/java/com/nsbm/autovault/insurancemanagement/repository/InsurancePolicyRepository.java:68-74 | a policy is returned exactly when the term, case folded, occurs in its vehicle's registration, make or model |
| Repository.VehicleDetailsDistinct | InsuranceManagement/Backend/src/main/java/com/nsbm/autovault/insurancemanagement/repository/InsurancePolicyRepository.java:68 | the vehicle-details search never returns a policy twice (`DISTINCT`) |
| Repository.FindByPremiumAmountRange | InsuranceManagement/Backend/src/main/java/com/nsbm/autovault/insurancemanagement/repository/InsurancePolicyRepository.java:79-83 | a policy is returned exactly when its premium lies between the bounds, both included |
| Repository.ActiveAndExpiredDisjoint | InsuranceManagement/Backend/src/main/java/com/nsbm/autovault/insurancemanagement/service/impl/InsurancePolicyServiceImpl.java:152-175 | no policy is both active (ends after today, `ACTIVE`) and expired (ends before today); a policy ending today is in neither |
| Repository.EndDateTrichotomy | InsuranceManagement/Backend/src/main/java/com/nsbm/autovault/insurancemanagement/service/impl/InsurancePolicyServiceImpl.java:152-175 | every policy ends before today, on today, or after today |
| Service.ListingHasUniqueNumbers | InsuranceManagement/Backend/src/main/java/com/nsbm/autovault/insurancemanagement/model/InsurancePolicy.java:38 | the unique column makes the policy numbers of any listing of a valid store pairwise distinct |
| Service.EntityRoundTrip | InsuranceManagement/Backend/src/main/java/com/nsbm/autovault/insurancemanagement/service/impl/InsurancePolicyServiceImpl.java:271-314 | `mapToEntity(mapToDto(p))`, with the policy's own vehicle, id and timestamps, is `p` again |
| Service.DtoRoundTrip | InsuranceManagement/Backend/src/main/java/com/nsbm/autovault/insurancemanagement/service/impl/InsurancePolicyServiceImpl.java:271-314 | `mapToDto(mapToEntity(d))` returns the DTO with its id filled in and its vehicle summary taken from the stored vehicle |
| Service.MapToDtoForgets | InsuranceManagement/Backend/src/main/java/com/nsbm/autovault/insurancemanagement/service/impl/InsurancePolicyServiceImpl.java:271-292 | two policies with the same DTO differ at most in the vehicle fields the DTO drops and in their timestamps |
| Service.CreatePolicy | InsuranceManagement/Backend/src/main/java/com/nsbm/autovault/insurancemanagement/service/impl/InsurancePolicyServiceImpl.java:44-63 | an unknown vehicle, an end before the start, and a policy number already taken each give their error, in that order; otherwise the store gains exactly one `ACTIVE` policy under the next id, the DTO's fields and the vehicle, and nothing else changes |
| Service.GetPolicyById | InsuranceManagement/Backend/src/main/java/com/nsbm/autovault/insurancemanagement/service/impl/InsurancePolicyServiceImpl.java:69-73 | an unknown id is refused with its not-found error; otherwise the stored policy comes back as its DTO: its own fields, its id, and the id, registration, make and model of its vehicle, which in a valid store are those of the stored vehicle record |
| Service.GetPolicyByPolicyNumber | InsuranceManagement/Backend/src/main/java/com/nsbm/autovault/insurancemanagement/service/impl/InsurancePolicyServiceImpl.java:79-83 | a number no policy carries is refused; otherwise the DTO of a policy carrying it comes back |
| Service.UpdatePolicy | InsuranceManagement/Backend/src/main/java/com/nsbm/autovault/insurancemanagement/service/impl/InsurancePolicyServiceImpl.java:214-253 | refused for an unknown id, then for a policy that is not `ACTIVE`, then for a vehicle that is new to the policy and unknown, then for an end before the start; otherwise only that policy changes, taking the DTO's provider, vehicle, dates, amounts, coverage and notes while keeping its number, status, image and creation time |
| Service.DeletePolicy | InsuranceManagement/Backend/src/main/java/com/nsbm/autovault/insurancemanagement/service/impl/InsurancePolicyServiceImpl.java:260-266 | an unknown id is refused; otherwise exactly that policy disappears and every other policy, the vehicles and the id counter are unchanged |
| Service.CreatePreservesValid | InsuranceManagement/Backend/src/main/java/com/nsbm/autovault/insurancemanagement/service/impl/InsurancePolicyServiceImpl.java:44-63 | creating keeps the store valid: each policy holds the stored record of its vehicle, keys match ids, ids are below the counter, numbers are unique |
| Service.UpdatePreservesValid | InsuranceManagement/Backend/src/main/java/com/nsbm/autovault/insurancemanagement/service/impl/InsurancePolicyServiceImpl.java:214-253 | updating keeps the store valid |
| Service.DeletePreservesValid | InsuranceManagement/Backend/src/main/java/com/nsbm/autovault/insurancemanagement/service/impl/InsurancePolicyServiceImpl.java:260-266 | deleting keeps the store valid |
| Service.InactivePolicyIsFrozen | InsuranceManagement/Backend/src/main/java/com/nsbm/autovault/insurancemanagement/service/impl/InsurancePolicyServiceImpl.java:220-222 | an expired or cancelled policy can never be updated, whatever the DTO says |
| Service.UpdateIgnoresServerOwnedFields | InsuranceManagement/Backend/src/main/java/com/nsbm/autovault/insurancemanagement/service/impl/InsurancePolicyServiceImpl.java:237-248 | the policy number, status and image of the DTO have no effect on an update |
| Service.CreateAcceptsSameDay | InsuranceManagement/Backend/src/main/java/com/nsbm/autovault/insurancemanagement/service/impl/InsurancePolicyServiceImpl.java:50-52 | a policy that starts and ends on the same day is accepted by `createPolicy` |
| Service.CreateThenDelete | InsuranceManagement/Backend/src/main/java/com/nsbm/autovault/insurancemanagement/service/impl/InsurancePolicyServiceImpl.java:260-266 | deleting the policy just created restores the original policy table |
| Service.SortOf | InsuranceManagement/Backend/src/main/java/com/nsbm/autovault/insurancemanagement/service/impl/InsurancePolicyServiceImpl.java:90-91 | the sort is on the given property, ascending exactly when the direction equals `ASC` ignoring case, descending for any other text |
| Service.AscIgnoringCase | InsuranceManagement/Backend/src/main/java/com/nsbm/autovault/insurancemanagement/service/impl/InsurancePolicyServiceImpl.java:90 | exactly the eight case spellings of `asc` select the ascending order |
| Service.PageRequestOf | InsuranceManagement/Backend/src/main/java/com/nsbm/autovault/insurancemanagement/service/impl/InsurancePolicyServiceImpl.java:93 | `PageRequest.of` is refused for a negative page number or a size below one, and otherwise carries the number, size and sort it was given |
| Service.Guard | InsuranceManagement/Backend/src/main/java/com/nsbm/autovault/insurancemanagement/service/impl/InsurancePolicyServiceImpl.java:103-198 | a query fails before paging exactly when its vehicle is unknown, its expiry range ends before it starts, or its minimum premium exceeds its maximum |
| Service.GetPolicies | InsuranceManagement/Backend/src/main/java/com/nsbm/autovault/insurancemanagement/service/impl/InsurancePolicyServiceImpl.java:89-207 | a paged read fails with the query's guard error, then with `Sort.by`'s error for a blank sort property, then with the page-request error, and succeeds exactly when none applies; a success holds the requested number and size, the count of matching rows and their page count, and, position by position, the DTOs of the matching rows from `pageNo*pageSize` on |
| Service.PageContentMatches | InsuranceManagement/Backend/src/main/java/com/nsbm/autovault/insurancemanagement/service/impl/InsurancePolicyServiceImpl.java:89-97 | every DTO on a page is the DTO of some listed row that matches the query |
| Service.SameDayExpiryRangeAccepted | InsuranceManagement/Backend/src/main/java/com/nsbm/autovault/insurancemanagement/service/impl/InsurancePolicyServiceImpl.java:135-137 | an expiry range whose ends are the same day is accepted whenever the sort property has text |
| Service.PropertiesHaveText | InsuranceManagement/Backend/src/main/java/com/nsbm/autovault/insurancemanagement/model/InsurancePolicy.java:36-87 | every property name of the policy entity has text, so `Sort.by` accepts it |
| Service.ActiveExpiredNeverOverlap | InsuranceManagement/Backend/src/main/java/com/nsbm/autovault/insurancemanagement/service/impl/InsurancePolicyServiceImpl.java:152-175 | the active and the expired listings share no policy, and a policy ending today is in neither |
| Service.PagesCoverMatches | InsuranceManagement/Backend/src/main/java/com/nsbm/autovault/insurancemanagement/service/impl/InsurancePolicyServiceImpl.java:89-97 | reading every page of a query from page 0 gives back all its matches, in order |
| Types.DirText | InsuranceManagement/Frontend/src/components/PolicyList.tsx:71-76 | the direction is sent as `asc` exactly when ascending and `desc` exactly when descending |
| Types.ToClient | InsuranceManagement/Frontend/src/types/index.ts:1-20 | a DTO reaches the page with every field under its own name: id, number, provider, vehicle id and summary, amounts, coverage, status, notes and image, with its dates as text that parses back to the same days |
| Forms.NumberInput | InsuranceManagement/Frontend/src/components/AddPolicyForm.tsx:142-150 | a number input stores the parsed value, or 0 when the text does not parse |
| Forms.HundredthsAllowed | InsuranceManagement/Frontend/src/components/AddPolicyForm.tsx:284-292 | an amount input with `min="0"` and `step="0.01"` lets every whole number of hundredths from 0 up through |
| Forms.AllowedAreHundredths | InsuranceManagement/Frontend/src/components/AddPolicyForm.tsx:284-292 | an amount input lets through only whole numbers of hundredths from 0 up |
| Forms.StepAndMinimumEnforced | InsuranceManagement/Frontend/src/components/AddPolicyForm.tsx:284-292 | a fraction of a cent (100.005) and a negative amount are stopped by the input |
| Forms.MatchesRepeat | InsuranceManagement/Frontend/src/components/AddPolicyForm.tsx:47-51 | the anchored pattern `^[C]{lo,hi}$` matches exactly the strings of `lo` to `hi` characters all in class `C` |
| Forms.PolicyNumberError | InsuranceManagement/Frontend/src/components/AddPolicyForm.tsx:47-51 | "required" exactly for `''`, the format message for any other string that is not 5 to 15 ASCII letters, digits or hyphens, and nothing otherwise |
| Forms.ProviderError | InsuranceManagement/Frontend/src/components/AddPolicyForm.tsx:54-60 | "required" exactly for `''`, "too short" exactly for length 1, "too long" exactly above 50 |
| Forms.RegistrationError | InsuranceManagement/Frontend/src/components/AddPolicyForm.tsx:63-67 | "required" exactly for `''`, the format message for any other string that is not 2 to 10 ASCII letters or digits |
| Forms.MakeError | InsuranceManagement/Frontend/src/components/AddPolicyForm.tsx:70-74 | "required" exactly for `''`, "too short" exactly for length 1 |
| Forms.ModelError | InsuranceManagement/Frontend/src/components/AddPolicyForm.tsx:77-81 | only "required" can fire: the too-short test after it cannot |
| Forms.PremiumError | InsuranceManagement/Frontend/src/components/AddPolicyForm.tsx:84-90 | 0 is "required", a negative premium "must be greater than zero", above 1,000,000 "too high", and the rest is accepted |
| Forms.StartDateError | InsuranceManagement/Frontend/src/components/AddPolicyForm.tsx:93-95 | the start date is refused exactly when empty |
| Forms.EndDateError | InsuranceManagement/Frontend/src/components/AddPolicyForm.tsx:97-109 | "required" exactly when empty; otherwise refused exactly when both dates name days and the end is not strictly later |
| Forms.AmountError | InsuranceManagement/Frontend/src/components/AddPolicyForm.tsx:112-126 | a coverage amount is refused, with its own message, exactly when negative |
| Forms.NotesError | InsuranceManagement/Frontend/src/components/AddPolicyForm.tsx:129-131 | notes are refused exactly when longer than 500 code units |
| Forms.ImageError | InsuranceManagement/Frontend/src/components/AddPolicyForm.tsx:134-136 | an image is refused exactly when its data URL is longer than 5,000,000 code units |
| Forms.SameDayRejected | InsuranceManagement/Frontend/src/components/AddPolicyForm.tsx:101-109 | the same day as start and end is refused with "End date must be after start date" |
| Forms.AcceptedDatesAreOrdered | InsuranceManagement/Frontend/src/components/AddPolicyForm.tsx:101-109 | accepted dates that name days have the end strictly after the start |
| AddForm.Set | InsuranceManagement/Frontend/src/components/AddPolicyForm.tsx:142-150 | setting a field changes that field to the value and leaves every other field |
| AddForm.FieldErrorAgreesWithRule | InsuranceManagement/Frontend/src/components/AddPolicyForm.tsx:43-140 | a field shows no message exactly when its rule holds |
| AddForm.Errors | InsuranceManagement/Frontend/src/components/AddPolicyForm.tsx:43-140 | the error record has an entry exactly for each failing field, holding that field's message |
| AddForm.ValidateForm | InsuranceManagement/Frontend/src/components/AddPolicyForm.tsx:43-140 | the form is valid exactly when every rule holds, exactly when the error record is empty |
| AddForm.InitialRefused | InsuranceManagement/Frontend/src/components/AddPolicyForm.tsx:11-27 | the initial form is refused, with "required" for the policy number and the premium, and no message for the coverage type |
| AddForm.Revalidate | InsuranceManagement/Frontend/src/components/AddPolicyForm.tsx:35-39 | once a field is touched, the errors follow the data; before, they are left alone |
| AddForm.HandleChange | InsuranceManagement/Frontend/src/components/AddPolicyForm.tsx:142-150 | a change stores the text, or for a number field the parsed number, in that field only |
| AddForm.ImageLoaded | InsuranceManagement/Frontend/src/components/AddPolicyForm.tsx:152-169 | a loaded image becomes both the image field and the preview |
| AddForm.HandleBlur | InsuranceManagement/Frontend/src/components/AddPolicyForm.tsx:171-177 | blurring touches the field and revalidates the unchanged data |
| AddForm.HandleSubmit | InsuranceManagement/Frontend/src/components/AddPolicyForm.tsx:179-204 | once the browser delivers the submit event, the data is handed on exactly when the form is valid; a refused form keeps its data, with every field touched; success resets the form; failure keeps the data for another try |
| AddForm.RefusedSubmitIsStable | InsuranceManagement/Frontend/src/components/AddPolicyForm.tsx:179-204 | submitting a refused form again is refused again and keeps the data |
| AddForm.SuccessResetsForm | InsuranceManagement/Frontend/src/components/AddPolicyForm.tsx:179-204 | after a successful submit the form is back to its opening state |
| AddForm.Submit | InsuranceManagement/Frontend/src/components/AddPolicyForm.tsx:221-483 | pressing submit does nothing unless all five amount inputs hold whole hundredths from 0 up; otherwise `handleSubmit` runs, so the data is handed on exactly when the browser and the form's rules both accept it, a refusal by the rules touches every field and shows messages, and a success restores the opened form |
| AddForm.FractionalPremiumNeverSent | InsuranceManagement/Frontend/src/components/AddPolicyForm.tsx:284-292 | a premium of 100.005 satisfies the premium rule, yet submitting hands nothing on and changes nothing |
| AddForm.NegativeAmountNeverValidated | InsuranceManagement/Frontend/src/components/AddPolicyForm.tsx:475-483 | with a negative collision amount, submitting hands nothing on and touches no field |
| EditModal.LoadedForm | InsuranceManagement/Frontend/src/components/EditPolicyModal.tsx:84-100 | the loaded form carries every fetched field, with an absent vehicle detail shown as `''` |
| EditModal.FieldErrorAgreesWithRule | InsuranceManagement/Frontend/src/components/EditPolicyModal.tsx:109-182 | a checked field shows no message exactly when its rule holds |
| EditModal.Errors | InsuranceManagement/Frontend/src/components/EditPolicyModal.tsx:109-182 | the error record has an entry exactly for each failing field among the ten the dialog checks |
| EditModal.ValidateForm | InsuranceManagement/Frontend/src/components/EditPolicyModal.tsx:109-182 | with no form loaded the answer is "invalid" and the errors are left as they were; otherwise valid exactly when every rule holds and the record is empty |
| EditModal.VehicleFieldsUnchecked | InsuranceManagement/Frontend/src/components/EditPolicyModal.tsx:109-182 | the vehicle registration, make and model never change the dialog's error record |
| EditModal.Revalidate | InsuranceManagement/Frontend/src/components/EditPolicyModal.tsx:70-74 | with a form and some touched field the errors follow the form; otherwise nothing changes |
| EditModal.FetchStarted | InsuranceManagement/Frontend/src/components/EditPolicyModal.tsx:76-78 | starting a fetch switches loading on and clears the error, and changes nothing else |
| EditModal.PolicyChanged | InsuranceManagement/Frontend/src/components/EditPolicyModal.tsx:53-67 | a new policy clears the messages and starts loading its id the way every fetch starts; no policy drops the form |
| EditModal.DetailsFetched | InsuranceManagement/Frontend/src/components/EditPolicyModal.tsx:76-107 | loading ends; fetched details become the form, and a failure leaves the form with the fetch error |
| EditModal.TryAgain | InsuranceManagement/Frontend/src/components/EditPolicyModal.tsx:284-293 | the Try Again button fetches the dialog's policy again: loading on, error cleared, form, field errors and other messages kept |
| EditModal.RetryRecovers | InsuranceManagement/Frontend/src/components/EditPolicyModal.tsx:76-107 | after a failed fetch, a retry whose answer arrives clears the error and shows the details, and a retry that fails shows the fetch error again |
| EditModal.Set | InsuranceManagement/Frontend/src/components/EditPolicyModal.tsx:184-194 | setting an editable field changes that field only |
| EditModal.HandleChange | InsuranceManagement/Frontend/src/components/EditPolicyModal.tsx:184-194 | without a form nothing happens; with one, only the changed field takes the new value |
| EditModal.HandleBlur | InsuranceManagement/Frontend/src/components/EditPolicyModal.tsx:196-202 | blurring touches the field and revalidates a loaded form |
| EditModal.HandleClose | InsuranceManagement/Frontend/src/components/EditPolicyModal.tsx:204-211 | closing forgets the form, messages, errors and touched fields |
| EditModal.Payload | InsuranceManagement/Frontend/src/components/EditPolicyModal.tsx:233-246 | the body carries the form's own fields with vehicle id 1 |
| EditModal.PayloadIgnoresVehicleFields | InsuranceManagement/Frontend/src/components/EditPolicyModal.tsx:233-246 | the vehicle summary in the form never reaches the server |
| EditModal.HandleSubmit | InsuranceManagement/Frontend/src/components/EditPolicyModal.tsx:213-259 | once the browser delivers the submit event, a `PUT` of the payload to the policy's path is sent exactly when a form is loaded and valid; the parent is told exactly when it succeeds; a refusal or a failure keeps the form |
| EditModal.BlankVehicleStillSent | InsuranceManagement/Frontend/src/components/EditPolicyModal.tsx:213-259 | a valid form with a blank vehicle summary is still sent |
| EditModal.Submit | InsuranceManagement/Frontend/src/components/EditPolicyModal.tsx:307-502 | pressing Save on a loaded form does nothing unless all five amount inputs hold whole hundredths from 0 up; otherwise `handleSubmit` runs, so the `PUT` of the payload is sent exactly when the browser and the dialog's rules both accept the form, the parent is told exactly when it succeeds, and a refusal by the rules touches every field and shows messages |
| EditModal.FractionalPremiumNeverSaved | InsuranceManagement/Frontend/src/components/EditPolicyModal.tsx:368-375 | a premium of 100.005 satisfies the premium rule, yet pressing Save sends no `PUT` and changes nothing |
| PolicyList.HandleSort | InsuranceManagement/Frontend/src/components/PolicyList.tsx:71-76 | the clicked column becomes the sort; the order is descending exactly after a second click on a column sorted ascending |
| PolicyList.ClicksAlternate | InsuranceManagement/Frontend/src/components/PolicyList.tsx:71-76 | repeated clicks on one header alternate the direction |
| PolicyList.SameColumnTwice | InsuranceManagement/Frontend/src/components/PolicyList.tsx:71-76 | two clicks on a column sorted ascending restore that order |
| PolicyList.SubmitSearch | InsuranceManagement/Frontend/src/components/PolicyList.tsx:50-55 | a search is forwarded exactly when the box is not blank, and then as the trimmed, non-empty text |
| PolicyList.SearchChange | InsuranceManagement/Frontend/src/components/PolicyList.tsx:57-64 | the box takes the typed text; `''` is forwarded exactly when that text is blank |
| PolicyList.ClearSearch | InsuranceManagement/Frontend/src/components/PolicyList.tsx:66-69 | clearing empties the box and forwards `''`; the empty box submits nothing |
| PolicyList.ForwardedTermsAreTrimmed | InsuranceManagement/Frontend/src/components/PolicyList.tsx:50-64 | a forwarded term is already trimmed, and the box a blank edit leaves behind submits nothing |
| PolicyList.ShownRange | InsuranceManagement/Frontend/src/components/PolicyList.tsx:240-241 | "Showing a to b" starts after the rows of the earlier pages and ends at the page's end or the total, whichever comes first |
| PolicyList.Previous | InsuranceManagement/Frontend/src/components/PolicyList.tsx:247-248 | "Previous" is disabled exactly on page 0 and asks for the page before, in 1-based numbering |
| PolicyList.Next | InsuranceManagement/Frontend/src/components/PolicyList.tsx:273-274 | "Next" is enabled exactly when a later page exists and asks for the page after, in 1-based numbering |
| PolicyList.PageButtons | InsuranceManagement/Frontend/src/components/PolicyList.tsx:258-264 | one button per page numbered from 1, highlighted exactly on the current page |
| PolicyList.OneHighlighted | InsuranceManagement/Frontend/src/components/PolicyList.tsx:258-264 | exactly one button is highlighted when the current page is in range, none otherwise |
| PolicyList.RangeMatchesPage | InsuranceManagement/Frontend/src/components/PolicyList.tsx:240-241 | on a non-empty page, the shown range counts exactly the listed rows, and position `a+i` is the `i`-th listed row |
| App.PolicyPath | InsuranceManagement/Frontend/src/App.tsx:113-131 | the delete path is the list path, a slash, and text the server reads back as the id |
| App.ListRequest | InsuranceManagement/Frontend/src/App.tsx:54-70 | the list request goes to `/search` exactly when a term is set, with the page, size 10, sort and direction in order, and the term last |
| App.ListRequestReadsBack | InsuranceManagement/Frontend/src/App.tsx:54-70 | the server reads back from the list request exactly the page, size, sort, direction and term it was built from |
| App.FetchPolicies | InsuranceManagement/Frontend/src/App.tsx:49-70 | a fetch starts loading, clears the error, and sends the list request for the stored sort and term |
| App.FetchCompleted | InsuranceManagement/Frontend/src/App.tsx:72-83 | loading stops; an answer replaces the rows and page counters; a failure keeps them and sets the error |
| App.HandlePageChange | InsuranceManagement/Frontend/src/App.tsx:224-226 | a 1-based page from the pager is fetched as the 0-based page before it |
| App.PagerStepsOnePage | InsuranceManagement/Frontend/src/App.tsx:224-226 | "Previous" fetches the page before the current one and "Next" the page after |
| App.HandleSearch | InsuranceManagement/Frontend/src/App.tsx:229-233 | as written: the new term and page 0 are stored, but the fetch uses the term held before the call |
| App.SearchSendsPreviousTerm | InsuranceManagement/Frontend/src/App.tsx:229-233 | a first search for "Toyota" fetches the plain listing, without a search term |
| App.HandleSearchFixed | InsuranceManagement/Frontend/src/App.tsx:229-233 | as intended: page 0 is fetched with the new term |
| App.SubmittedSearchIsSent | InsuranceManagement/Frontend/src/App.tsx:229-233 | with the fix, a non-blank box submitted in the list reaches the server's search, trimmed |
| App.HandleSort | InsuranceManagement/Frontend/src/App.tsx:236-240 | as written: the new sort is stored, but the fetch uses the sort held before the call |
| App.SortSendsPreviousOrder | InsuranceManagement/Frontend/src/App.tsx:236-240 | from the opening page, a first click on the Provider header stores the provider sort, ascending, but the refetch still sends `sortBy=id` |
| App.HandleSortFixed | InsuranceManagement/Frontend/src/App.tsx:236-240 | as intended: the current page is fetched with the new sort |
| App.HeaderClickIsSent | InsuranceManagement/Frontend/src/App.tsx:236-240 | with the fix, a header click asks the server for the column and direction the list shows |
| App.DeletePolicy | InsuranceManagement/Frontend/src/App.tsx:113-131 | a `DELETE` of the policy path is sent; on success the page and the statistics are fetched again and the pending deletion is cleared; on failure the error is set and the deletion stays pending |
| App.CreateBody | InsuranceManagement/Frontend/src/App.tsx:137-156 | the posted body carries the form's fields, vehicle 1, and the vehicle summary from the form |
| App.AddPolicy | InsuranceManagement/Frontend/src/App.tsx:134-170 | a `POST` of the body is sent; on success page 0 and the statistics are fetched and the form closes; on failure nothing changes and the error is rethrown to the form |
| App.FailedAddKeepsForm | InsuranceManagement/Frontend/src/App.tsx:134-170 | a failed add leaves the form's data in place; a successful one resets it |
| App.PolicyUpdated | InsuranceManagement/Frontend/src/App.tsx:107-110 | after an edit the current page and the statistics are fetched again |
| App.ExpiringSoonWindow | InsuranceManagement/Frontend/src/App.tsx:198-203 | the window is today and the day 30 days later, both written as text that parses back to those days |
| App.ExpiringCountRequest | InsuranceManagement/Frontend/src/App.tsx:202-204 | the expiring-soon request goes to the expiry-range endpoint, and the server reads back the window's first day as `startDate` and its last day as `endDate` |
| App.StatisticsRequests | InsuranceManagement/Frontend/src/App.tsx:184-204 | `fetchStatistics` sends four named requests: `active` to the active endpoint, `expired` to the expired endpoint, `all` to the plain listing, and `expiringSoon` to the expiry-range endpoint carrying the window's two dates |
| App.StatisticsWindowIsThirtyDays | InsuranceManagement/Frontend/src/App.tsx:198-203 | the expiry-range request asks for the days from today to 30 days later |
| App.StatsOf | InsuranceManagement/Frontend/src/App.tsx:206-211 | each statistic is the total count of the matching answer |
| Tiers.AcceptedDatesOrdered | InsuranceManagement/Frontend/src/components/AddPolicyForm.tsx:101-109 | dates the form accepts are strictly ordered as `LocalDate`s |
| Tiers.AddFormDatesPassCreate | InsuranceManagement/Backend/src/main/java/com/nsbm/autovault/insurancemanagement/service/impl/InsurancePolicyServiceImpl.java:50-52 | dates the add form accepts are never refused by `createPolicy` |
| Tiers.SameDayOnlyBackEnd | InsuranceManagement/Backend/src/main/java/com/nsbm/autovault/insurancemanagement/service/impl/InsurancePolicyServiceImpl.java:50-52 | the service creates a same-day policy that the form refuses to send |
| Tiers.EditDialogLoadsStoredPolicy | InsuranceManagement/Frontend/src/components/EditPolicyModal.tsx:76-99 | opening the dialog on a stored policy loads its number, provider, amounts, coverage, notes, dates naming its own days, and the registration, make and model of its vehicle; in a valid store the id is the one asked for and the make is the stored vehicle record's |
| Tiers.EditDialogUpdate | InsuranceManagement/Frontend/src/components/EditPolicyModal.tsx:233-246 | an accepted edit of an active policy succeeds and moves the policy to vehicle 1 |
| Tiers.DirectionAgrees | InsuranceManagement/Backend/src/main/java/com/nsbm/autovault/insurancemanagement/service/impl/InsurancePolicyServiceImpl.java:90-91 | the list's direction text selects the matching service direction |
| Tiers.ListRequestAnswered | InsuranceManagement/Frontend/src/App.tsx:54-70 | a list request for a non-negative page, sorted on a property of the policy, is answered with that page of size 10: its number, the count of matching rows and their page count, and, position by position, the DTOs of the matching rows from `page*10` on |
| Tiers.ListRequestWithTextAnswered | InsuranceManagement/Frontend/src/App.tsx:54-70 | the same answer for any sort property that has text |
| Tiers.ExpiryRangeAhead | InsuranceManagement/Backend/src/main/java/com/nsbm/autovault/insurancemanagement/service/impl/InsurancePolicyServiceImpl.java:134-146 | an expiry range from a day to `n` days on is accepted and holds exactly the policies ending in it |
| Tiers.ExpiringSoonCount | InsuranceManagement/Frontend/src/App.tsx:198-203 | "expiring soon" counts exactly the policies ending between today and 30 days later, both included |

## Left out

- **Text and dates**
  - Case folding beyond ASCII is not modelled: Java's `equalsIgnoreCase` and SQL `LOWER` also fold non-ASCII letters, and the model folds only A to Z.
  - The `LIKE` wildcards `%` and `_` inside a search term are matched literally.
  - JavaScript's `new Date` accepts many formats besides `yyyy-mm-dd`; the model reads only `yyyy-mm-dd`, and any other text is "Invalid Date".
  - Years with more than four digits are out of scope: `Dates.FormatIso`, `Types.ToClient` and `App.ExpiringSoonWindow` require a four-digit year.
- **Times and time zones**
  - `toISOString` in `formatDate` reports the UTC day, which differs from the local day near midnight; the model takes the day as given.
  - The clock (`new Date()`, `LocalDateTime.now()`, `LocalDate.now()`) is a parameter.
- **Database and server**
  - Sort order: the database sorts by the requested property; here `rows` arrives already in that order.
  - Java `int` overflow of `pageNo * pageSize` is not modelled.
  - `Service.GetPolicies`: a sort property that has text but is not a property of `InsurancePolicy` is answered as if the rows were sorted by it. Spring rejects such a property only when the query runs, in a way that depends on the query form, so the model does not promise that error. The `vehicleMake` header of the policy table (`PolicyList.tsx` line 162) sends such a property, so `Tiers.ListRequestAnswered` is stated only for the entity's own property names.
  - Null fields and Bean Validation are not modelled. A `null` DTO field would raise in Java; the model's fields are always present.
  - The `IncorrectResultSizeDataAccessException` of `findByPolicyNumber` over a table with duplicate numbers is not modelled. The store invariant rules such tables out (`Service.ListingHasUniqueNumbers`).
  - `findByStatus` and the list form of `findByVehicle` are left out: no service operation calls them.
  - Controller request binding, the `createPageResponse` envelope and CORS are not modelled. The envelope's fields appear as `Paging.Page`.
  - `Service.GetPolicyById` and `Service.UpdatePolicy` state that the returned DTO's id equals the requested id only for a valid store, the only kind the service can reach.
- **Front end**
  - `URLSearchParams` percent-encoding is not modelled: parameters are key/value pairs.
  - HTTP, JSX rendering, `FileReader`, `Intl` formatting, `console` output and the view/confirm/cancel dialog setters are left out.
  - The `PolicyList` cleanup effect (`PolicyList.tsx` lines 44-48) empties the search box whenever the policies change. It is left out because the search handlers take the box's text as an argument.
  - `fetchStatistics` swallows errors and logs them; the model describes its requests and the statistics read from answers.
  - `AddForm.HandleSubmit`: the `isSubmitting` flag on the accepted path is set before `onSubmit` and cleared in `finally` within one call, so the model shows it only as false afterwards; a refused submit never touches it.
  - `AddForm.Submit` and `EditModal.Submit`: the browser tests `step` on a double with a small rounding tolerance, and only the number the input displays; the model tests exact hundredths of the stored number. The message bubble the browser shows on the first refused input is left out.

## Findings

| source | as written | input that shows it | evidently intended | confidence | as-written member | corrected member |
|---|---|---|---|---|---|---|
| InsuranceManagement/Frontend/src/App.tsx:229-233 | `handleSearch` sets the search term and then calls `fetchPolicies(0)`, which reads `searchTerm` from the closure of the render before the update | from the initial page, searching "Toyota" fetches `/api/insurance` without a search term | the fetch uses the term just submitted | high, not executed | App.HandleSearch (shown by App.SearchSendsPreviousTerm) | App.HandleSearchFixed (proved by App.SubmittedSearchIsSent) |
| InsuranceManagement/Frontend/src/App.tsx:236-240 | `handleSort` sets the sort and then calls `fetchPolicies(currentPage)`, which reads `sortBy`/`sortDir` from the previous render | from the initial page, a first click on the Provider header shows the list sorted by provider but fetches with `sortBy=id` | the fetch uses the new column and direction | high, not executed | App.HandleSort (shown by App.SortSendsPreviousOrder) | App.HandleSortFixed (proved by App.HeaderClickIsSent) |
