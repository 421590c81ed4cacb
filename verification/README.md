# SalesPulse CRM client, modelled in Dafny

This project models the data-handling core of the SalesPulse CRM web client:

- the four in-memory mock services (companies, contacts, activities, metrics);
- the report service, which talks to a remote backend;
- the company, activity and contact forms (editing, validation, the record submitted);
- the Companies, Contacts, Activities and Reports pages (search and filters, counters, list updates after a save or delete);
- the Avatar atom.

Values are modelled as JavaScript sees them. `JsValue.Value` covers `undefined`, `null`, booleans, integers, `NaN`, the infinities, strings and plain objects. A record is a `map<string, Value>`, and a missing key reads as `undefined`.

`JsValue` models:

- truthiness and `===`;
- `String(v)` and `parseInt`, including leading blanks, a sign, the `0x` prefix and the longest digit prefix;
- the `parseInt(x) || d` fallback;
- object spread.

`JsText` models trimming, ASCII case mapping, `includes` and `split`.

A callback that calls `.toLowerCase()` on a non-string throws in JavaScript. Such filters are modelled with `Lists.FilterJS`, where `None` means the whole `filter` call threw.

Each service is a pure function from the store, and the call's arguments, to a `Reply`: the new store plus `Ok(value)` or `NotFound(message)` for a thrown `Error`. The mock services share their id-keyed logic in `IdStore`.

The store invariant is `IdStore.WellFormed`: all `Id`s are numbers and they are distinct. Every mutation is proved to preserve it.

The report backend is not modelled. Its answer, or the fact that it threw or returned nothing, is an input (`ReportService.Call`), and the functions return what the service returns together with the error toasts it raises.

The following are parameters:

- the clock (`now`);
- the browser's `URL` parser (`urlParses`);
- the date behind an activity's `timestamp` (`key`).

Company status: `companyService.create` (src/services/api/companyService.js:23-35) sets no `status`. The value `trial` comes only from the company form's defaults (src/components/organisms/CompanyForm.jsx:40, 55, 65). So `CompanyService.Create` copies `status` from the submitted data, and `CompanyForm.Blank` and `CompanyForm.FromCompany` carry `trial`.

## Model

| member | source | states |
|---|---|---|
| IdStore.FindIndexIffPresent | src/services/api/companyService.js:39-42 | `findIndex` finds an index exactly when some record has `Id === parseInt(id)`, and the record there has that `Id` |
| IdStore.FindIndex | src/services/api/companyService.js:39 | `findIndex`: an index exactly when some record has `Id === parseInt(id)`; the record there has that `Id` and no earlier record has it |
| IdStore.GetById | src/services/api/companyService.js:14-21 | succeeds iff some record has `Id === parseInt(id)`; the record returned is the first with that `Id`, no earlier record has it; otherwise the error text `<Entity> with ID <id> not found`; store unchanged |
| IdStore.GetByIdReturnsFirstOfDuplicates | src/services/api/companyService.js:16 | with two records sharing `Id` 1, `getById(1)` returns the earlier one |
| IdStore.GetByIdUnique | src/services/api/companyService.js:16 | in a well-formed store, `getById` of a record's own `Id` returns exactly that record |
| IdStore.ToNumber | src/services/api/companyService.js:25 | the number `Math.max` reads an `Id` as: numbers and infinities are themselves, `null` is 0, `false`/`true` are 0/1, anything else is `NaN` |
| IdStore.JsMax2 | src/services/api/companyService.js:25 | two-argument `Math.max`: `NaN` iff either converted argument is `NaN`; otherwise one of the two, and no smaller than either |
| IdStore.JsMax | src/services/api/companyService.js:25 | `Math.max(...vs)`: `-Infinity` on no arguments, `NaN` iff some argument converts to `NaN`, otherwise an upper bound of all arguments that is one of them |
| IdStore.NextIdAsWritten | src/services/api/companyService.js:25 | the `Id` `create` assigns: `-Infinity` on an empty store, `NaN` iff some `Id` is not a number, otherwise larger than every numeric `Id` and exactly one more than one of them |
| IdStore.MaxId | src/services/api/companyService.js:25 | the largest numeric `Id`: it belongs to some record and bounds all of them; absent iff no record has a numeric `Id` |
| IdStore.NextId | src/services/api/companyService.js:25 | corrected new `Id`: larger than every existing numeric `Id`, one more than some existing `Id`, and 1 when the store has none |
| IdStore.JsMaxOfNumericIds | src/services/api/companyService.js:25 | on a non-empty store of numeric `Id`s, `Math.max(...ids)` is the largest `Id` |
| IdStore.NextIdAgreesOnNonEmpty | src/services/api/companyService.js:25 | the `Math.max(...ids) + 1` that `create` computes and the corrected `Id` coincide whenever the store has records with numeric `Id`s |
| IdStore.CreateAsWritten | src/services/api/companyService.js:23-35 | create as written: the record is put first and gets `Math.max(...ids) + 1`, where `Math.max` converts `null` to 0 and booleans to 0/1 |
| IdStore.CreateOnEmptyStoreAsWritten | src/services/api/companyService.js:25 | on an empty store the new `Id` is `-Infinity`; `getById` cannot find the record; a second create repeats the `Id`, so the store is no longer well formed |
| IdStore.Create | src/services/api/companyService.js:23-35 | corrected create: the new record is first, the rest unchanged; `Id` is `NextId`; keys are data + overrides + `Id`; the overrides win over data |
| IdStore.CreatePreservesWellFormed | src/services/api/companyService.js:23-35 | create keeps the store invariant |
| IdStore.CreateThenGetById | src/services/api/companyService.js:14-35 | a created record is read back by `getById` of its `Id` |
| IdStore.NewestFirst | src/services/api/companyService.js:33 | two creates put the second record before the first, followed by the old store |
| IdStore.Update | src/services/api/companyService.js:37-54 | ok iff the `Id` is present; only the matched slot changes; it becomes old + data + overrides with the `Id` kept; an unknown `Id` leaves the store and gives the error text |
| IdStore.UpdatePreservesWellFormed | src/services/api/companyService.js:37-54 | update keeps the store invariant |
| IdStore.Delete | src/services/api/companyService.js:56-66 | ok iff the `Id` is present; the matched record is returned and cut out; the others keep their order |
| IdStore.DeletePreservesWellFormed | src/services/api/companyService.js:56-66 | delete keeps the store invariant |
| IdStore.DeleteThenGetById | src/services/api/companyService.js:56-66 | in a well-formed store, a deleted `Id` is no longer present |
| CompanyService.Counts | src/services/api/companyService.js:30-31 | `employees` is `parseInt` of the input with fallback 1 (never 0), and `mrr` is `parseInt` with fallback 0 |
| CompanyService.GetAll | src/services/api/companyService.js:9-12 | returns the whole list; store unchanged |
| CompanyService.GetById | src/services/api/companyService.js:14-21 | found iff present, and then the first company with that `Id`; otherwise the error `Company with ID <id> not found` |
| CompanyService.Create | src/services/api/companyService.js:23-35 | new company first, with a fresh `Id` distinct from every stored one, `createdAt = now` and coerced counts; other data fields kept (corrected `Id`, see Findings; as written: `IdStore.CreateAsWritten`) |
| CompanyService.Update | src/services/api/companyService.js:37-54 | merge over the stored company; `Id` kept; counts recomputed from the new data only; other slots unchanged |
| CompanyService.UpdateWithoutCountsResetsThem | src/services/api/companyService.js:48-49 | an update without `employees`/`mrr` resets them to 1 and 0 |
| CompanyService.Delete | src/services/api/companyService.js:56-66 | removes and returns the matched company |
| CompanyService.CreateCoercesNumericText | src/services/api/companyService.js:30-31 | the texts "50" and "1000" are stored as the numbers 50 and 1000 |
| CompanyService.MutationsPreserveWellFormed | src/services/api/companyService.js:23-66 | create, update and delete keep `Id`s numeric and distinct |
| ContactService.Revenue | src/services/api/contactService.js:30 | `mrr` is `parseInt` of the input with fallback 0 |
| ContactService.GetAll | src/services/api/contactService.js:9-12 | returns the whole list; store unchanged |
| ContactService.GetById | src/services/api/contactService.js:14-21 | found iff present, and then the first contact with that `Id`; otherwise `Contact with ID <id> not found` |
| ContactService.Create | src/services/api/contactService.js:23-34 | new contact first; fresh `Id`; `createdAt = now`; coerced `mrr`; other data kept (corrected `Id`, see Findings; as written: `IdStore.CreateAsWritten`) |
| ContactService.Update | src/services/api/contactService.js:36-52 | merge over the stored contact; `Id` kept; `mrr` recomputed from the new data; other slots unchanged |
| ContactService.UpdateWithoutMrrResetsIt | src/services/api/contactService.js:47 | an update without `mrr` resets it to 0 |
| ContactService.Delete | src/services/api/contactService.js:54-65 | removes and returns the matched contact |
| ContactService.MutationsPreserveWellFormed | src/services/api/contactService.js:23-65 | mutations keep the store invariant |
| ActivitiesService.GetAll | src/services/api/activitiesService.js:6-9 | returns the whole list; store unchanged |
| ActivitiesService.GetById | src/services/api/activitiesService.js:11-18 | found iff present, and then the first activity with that `Id`; otherwise `Activity with ID <id> not found` |
| ActivitiesService.Create | src/services/api/activitiesService.js:20-30 | new activity first; fresh `Id`; `timestamp = now`; keys are data + `Id` + `timestamp` (corrected `Id`, see Findings; as written: `IdStore.CreateAsWritten`) |
| ActivitiesService.Update | src/services/api/activitiesService.js:32-47 | plain merge with the `Id` kept; only the matched slot changes |
| ActivitiesService.Delete | src/services/api/activitiesService.js:49-60 | one activity fewer, the matched one |
| ActivitiesService.UpdateWithStoredFieldsIsNoChange | src/services/api/activitiesService.js:32-47 | updating a record with its own fields leaves the store as it was |
| MetricsService.GetAll | src/services/api/metricsService.js:6-9 | returns the whole list |
| MetricsService.GetById | src/services/api/metricsService.js:11-18 | ok iff the index is in range; returns that slot; otherwise `Metric at index <i> not found` |
| MetricsService.Create | src/services/api/metricsService.js:20-25 | appends the data at the end and returns it |
| MetricsService.Update | src/services/api/metricsService.js:27-40 | ok iff in range; the slot becomes old + data; other slots unchanged; out of range leaves the store |
| MetricsService.Delete | src/services/api/metricsService.js:42-51 | ok iff in range; the slot is spliced out, later slots move up by one |
| MetricsService.CreateThenGetById | src/services/api/metricsService.js:11-25 | a created metric is found at the old length, and the next index is still missing |
| MetricsService.UpdateThenGetById | src/services/api/metricsService.js:11-40 | reading a slot after updating it gives the merged metric |
| MetricsService.DeleteKeepsOthers | src/services/api/metricsService.js:42-51 | the remaining metrics plus the returned one are, as a multiset, the old list |
| MetricsService.UpdateWithOwnContentsIsNoChange | src/services/api/metricsService.js:27-40 | updating a slot with its own contents changes nothing |
| ReportService.RefValue | src/services/api/reportService.js:143-146 | a lookup is `null` iff falsy, else `parseInt` of it (a number or `NaN`) |
| ReportService.Fields | src/services/api/reportService.js:133-147 | the request holds exactly the nine text fields (as given) and the four lookups (converted) |
| ReportService.Strip | src/services/api/reportService.js:149-154 | removes exactly the `null`/`''` keys not in the kept set; other values unchanged |
| ReportService.StripIdempotent | src/services/api/reportService.js:149-154 | stripping twice equals stripping once |
| ReportService.CreatePayload | src/services/api/reportService.js:133-154 | only known fields, never a blank value; a text field is present iff it is not blank; a lookup is present iff truthy, as its `parseInt` |
| ReportService.UpdatePayload | src/services/api/reportService.js:206-228 | `Id` is always present with the given value; other keys are known fields with non-blank values |
| ReportService.UpdatePayloadIsCreatePayloadWithId | src/services/api/reportService.js:133-154 | the update request is the create request plus `Id` |
| ReportService.BlankFormSendsEmptyCreate | src/services/api/reportService.js:149-154 | an all-`''` form sends an empty record |
| ReportService.Successes | src/services/api/reportService.js:169 | exactly the successful results, in order |
| ReportService.Failures | src/services/api/reportService.js:170 | exactly the failed results, in order |
| ReportService.ResultsPartition | src/services/api/reportService.js:169-170 | successes and failures together are the results (as a multiset, and by count) |
| ReportService.FirstSuccess | src/services/api/reportService.js:183-184 | index of the first successful result; none when there is none |
| ReportService.FirstOfSuccesses | src/services/api/reportService.js:183-184 | the first of the filtered successes is the first successful result |
| ReportService.ErrorNotes | src/services/api/reportService.js:176-178 | one toast `<fieldLabel>: <message>` per field error, in order |
| ReportService.RecordNotes | src/services/api/reportService.js:175-180 | one failed record raises one `"label: message"` toast per field error, in order, and then its message as the last toast when it is non-empty |
| ReportService.FailureNotes | src/services/api/reportService.js:175-180 | the message of every failed record that has one is among the toasts |
| ReportService.FailureNotesAppend | src/services/api/reportService.js:175-180 | the toasts for two batches of failures are the toasts of each, concatenated |
| ReportService.FailureNotesOrigin | src/services/api/reportService.js:175-180 | every toast comes from some failed result's field error or message |
| ReportService.SaveOutcome | src/services/api/reportService.js:162-195 | returns the data of the first success or nothing; on failure toasts the response message; with results, the failures' notes; with no results, no toast |
| ReportService.AllSucceededNoNotes | src/services/api/reportService.js:172-181 | a batch in which everything succeeded raises no toast |
| ReportService.RejectedCreateToastsFieldError | src/services/api/reportService.js:175-188 | a single rejected record with the error Name/required returns nothing and toasts "Name: required" |
| ReportService.DeleteNotes | src/services/api/reportService.js:296-300 | the toasts are the failures' messages in order, skipping empty ones: a subsequence of the messages holding every non-empty one |
| ReportService.DeleteNotesCount | src/services/api/reportService.js:296-300 | one toast per failed result with a non-empty message: the count equals the number of such positions |
| ReportService.DeleteOutcome | src/services/api/reportService.js:283-313 | true iff the response succeeded, has results, and the success count equals the number of ids; toasts the response message on failure, the failures' messages when results came back, nothing otherwise |
| ReportService.DeleteOkIffNoFailure | src/services/api/reportService.js:291-303 | with one result per id, delete reports success iff no result failed |
| ReportService.ListOutcome | src/services/api/reportService.js:60-76 | the response data, `[]` if absent; `[]` on failure, with the response message as the one toast only when the backend answered unsuccessfully |
| ReportService.FetchOutcome | src/services/api/reportService.js:111-122 | the record iff the call answered with data, and then exactly that data |
| FormErrors.Clear | src/components/organisms/CompanyForm.jsx:119-124 | the changed field's error is hidden; other entries are untouched; no error appears |
| FormErrors.ClearIdempotent | src/components/organisms/ActivityForm.jsx:76-81 | clearing twice equals clearing once |
| CompanyForm.SetField | src/components/organisms/CompanyForm.jsx:114-117 | sets exactly the chosen field |
| CompanyForm.HandleChange | src/components/organisms/CompanyForm.jsx:113-125 | the value is set and that field's error hidden; the other fields and errors are unchanged |
| CompanyForm.HandleChangeOverwrites | src/components/organisms/CompanyForm.jsx:113-117 | two edits of one field equal the last one |
| CompanyForm.UrlCandidate | src/components/organisms/CompanyForm.jsx:104-111 | the URL tried always starts with `http`: the input itself when it already does, else `https://` followed by the input |
| CompanyForm.Validate | src/components/organisms/CompanyForm.jsx:73-102 | a field has an error iff its check fails, the error is that check's message, and every error is visible |
| CompanyForm.ValidateFields | src/components/organisms/CompanyForm.jsx:76-98 | field by field: name blank after trim; industry empty; employees empty or < 1; website non-empty and unparseable; plan empty; mrr empty or < 0; never status |
| CompanyForm.EmptyWebsiteNeverRejected | src/components/organisms/CompanyForm.jsx:88 | an empty website is never an error |
| CompanyForm.ValidIff | src/components/organisms/CompanyForm.jsx:73-102 | submittable iff all six checks pass |
| CompanyForm.BlankIsInvalid | src/components/organisms/CompanyForm.jsx:59-67 | the new-company form cannot be submitted as opened |
| CompanyForm.NormalizeWebsite | src/components/organisms/CompanyForm.jsx:139 | empty iff empty; a website starting with `http` is kept as typed, any other gets `https://` in front |
| CompanyForm.NormalizeWebsiteIdempotent | src/components/organisms/CompanyForm.jsx:139 | normalising twice equals normalising once |
| CompanyForm.SubmitData | src/components/organisms/CompanyForm.jsx:135-140 | name, industry, plan and status are submitted as typed; the counts as `parseInt` of the inputs; the website normalised |
| CompanyForm.AcceptedEmployeesCoerceToPositive | src/components/organisms/CompanyForm.jsx:84 | an accepted employees text ends up ≥ 1 after the service's coercion |
| CompanyForm.AcceptedMrrCoercesToNonNegative | src/components/organisms/CompanyForm.jsx:96 | an accepted mrr text ends up ≥ 0 after the service's coercion |
| CompanyForm.ValidSubmissionStoresSaneCounts | src/components/organisms/CompanyForm.jsx:127-144 | a validated form creates a company with ≥ 1 employee and mrr ≥ 0 |
| CompanyForm.TextOr | src/components/organisms/CompanyForm.jsx:50-55 | a truthy stored text is kept, a falsy one becomes the default |
| CompanyForm.CountText | src/components/organisms/CompanyForm.jsx:52 | nullish → `""`; a number → its decimal text |
| CompanyForm.FromCompany | src/components/organisms/CompanyForm.jsx:46-57 | name, industry, website and plan show the stored truthy text, else `''`; status falls back to `trial`; the counts are the stored values as text |
| CompanyForm.EmptyCompanyOpensBlankForm | src/components/organisms/CompanyForm.jsx:49-67 | editing an empty company opens the same form as creating one |
| CompanyForm.PrintedCountParsesBack | src/components/organisms/CompanyForm.jsx:52-137 | `parseInt(String(n)) === n` |
| CompanyForm.CountSurvivesEditRoundTrip | src/components/organisms/CompanyForm.jsx:52-138 | stored integer counts, opened and submitted unchanged, come back as the same numbers |
| ActivityForm.SetField | src/components/organisms/ActivityForm.jsx:70-73 | sets exactly the chosen field |
| ActivityForm.HandleChange | src/components/organisms/ActivityForm.jsx:69-82 | the value is set and that field's error hidden; the rest unchanged |
| ActivityForm.HandleChangeCommutes | src/components/organisms/ActivityForm.jsx:69-73 | edits to different fields commute |
| ActivityForm.FromActivity | src/components/organisms/ActivityForm.jsx:17-25 | each of type, description and contact shows the stored truthy value; a falsy one falls back to `email`, `''`, `''` |
| ActivityForm.EmptyActivityOpensDefault | src/components/organisms/ActivityForm.jsx:9-25 | an empty activity opens the new-activity defaults |
| ActivityForm.DescriptionError | src/components/organisms/ActivityForm.jsx:34-38 | an error iff the trimmed text is shorter than 10; "required" iff it is empty |
| ActivityForm.Validate | src/components/organisms/ActivityForm.jsx:27-46 | a field has an error iff its check fails; the message is that check's |
| ActivityForm.ValidIff | src/components/organisms/ActivityForm.jsx:27-46 | valid iff type non-empty, trimmed description ≥ 10 characters, and contact truthy |
| ActivityForm.SubmitData | src/components/organisms/ActivityForm.jsx:58-61 | submits type, contact, and the trimmed description |
| ActivityForm.SubmittedDescriptionIsClean | src/components/organisms/ActivityForm.jsx:34-61 | a submitted description has ≥ 10 characters and no surrounding whitespace |
| ActivityForm.TrimmedDraftValidatesAlike | src/components/organisms/ActivityForm.jsx:34-38 | trimming the description first changes no verdict |
| ActivityForm.EditRoundTrip | src/components/organisms/ActivityForm.jsx:17-61 | opening a stored activity and submitting it unchanged resends its type and contact, and its description trimmed (unchanged when already trimmed) |
| ContactForm.MrrInput | src/components/organisms/ContactForm.jsx:173 | the input stores `parseInt(text)` when it is a non-zero number, else 0 |
| ContactForm.HandleChange | src/components/organisms/ContactForm.jsx:78-83 | only the edited property changes and only its error is hidden |
| ContactForm.Message | src/components/organisms/ContactForm.jsx:48-52 | every required field has a non-empty message |
| ContactForm.Errors | src/components/organisms/ContactForm.jsx:47-52 | exactly the required fields that are blank after trim, with their messages |
| ContactForm.Submit | src/components/organisms/ContactForm.jsx:43-68 | throws iff a required property is not text; rejected with the blank fields; otherwise sends the record unchanged |
| ContactForm.UncheckedFieldsDoNotMatter | src/components/organisms/ContactForm.jsx:47-57 | phone, status, mrr and notes never change how a submit ends |
| ContactForm.FillingAFieldClearsItsError | src/components/organisms/ContactForm.jsx:48-83 | typing non-blank text into a required field removes that field's error at the next submit |
| ContactForm.TypedMrrSurvivesService | src/components/organisms/ContactForm.jsx:173 | an mrr typed in the form is stored unchanged by the contact service |
| Lists.Filter | src/components/pages/Companies.jsx:60-62 | `filter`: a subsequence holding each element the predicate keeps as often as the input does, and no other |
| Lists.FilterJS | src/components/pages/Companies.jsx:51-57 | `filter` with a predicate that may throw: succeeds iff no call throws; then a subsequence holding each matching element as often as the input does, and no other |
| Lists.FilterJSTotal | src/components/pages/Companies.jsx:51-57 | with a predicate that never throws, it is the plain filter |
| Lists.FilterJSLength | src/components/pages/Companies.jsx:127-129 | the length of a successful filter is the number of positions whose element the predicate keeps |
| Lists.ReplaceById | src/components/pages/Companies.jsx:104 | `map` by `Id`: same length; each slot is the saved record iff its `Id === id` |
| Lists.RemoveById | src/components/pages/Companies.jsx:87 | a subsequence in which each record with another `Id` occurs as often as before, and none with `Id === id` |
| Lists.SaveMerge | src/components/pages/Companies.jsx:101-111 | edit: replaced in place; create: put first |
| Lists.DeleteUndoesCreate | src/components/pages/Companies.jsx:87-107 | deleting a record just created with a fresh `Id` restores the list |
| Lists.SaveEditKeepsIds | src/components/pages/Companies.jsx:104 | saving an edit keeps the sequence of `Id`s |
| Lists.CountWhereIsMultiplicity | src/components/pages/Companies.jsx:123-125 | the filter count equals the multiplicity of the value in that column |
| CompaniesPage.WebsiteMatch | src/components/pages/Companies.jsx:55 | a falsy website never matches; otherwise the lower-cased `includes` |
| CompaniesPage.PlanMatch | src/components/pages/Companies.jsx:66 | true iff the plan is text whose lower case equals the filter; throws iff not nullish and not text |
| CompaniesPage.SearchMatchIff | src/components/pages/Companies.jsx:51-57 | on well-typed companies: a match iff name, industry or website contains the term, ignoring case |
| CompaniesPage.Filtered | src/components/pages/Companies.jsx:47-70 | succeeds on well-typed data; a subsequence of exactly the companies all active filters keep |
| CompaniesPage.NoFilterShowsAll | src/components/pages/Companies.jsx:47-70 | no search and both filters `all` shows every company |
| CompaniesPage.StatusCount | src/components/pages/Companies.jsx:123-125 | the number of times the status occurs |
| CompaniesPage.StatusCountMatchesFilter | src/components/pages/Companies.jsx:60-125 | the status counter equals the number of rows the status filter shows |
| CompaniesPage.PlanCount | src/components/pages/Companies.jsx:127-129 | defined iff the plan check throws for no company; then the number of positions whose plan equals the filter ignoring case |
| CompaniesPage.PlanCountMatchesFilter | src/components/pages/Companies.jsx:65-129 | the plan counter, a separate `filter(...).length` in `Companies.jsx`, equals the length of the list the plan filter shows, and each is defined exactly when the other is |
| CompaniesPage.Save | src/components/pages/Companies.jsx:101-111 | edit: replaced by `Id`; create: prepended |
| CompaniesPage.Delete | src/components/pages/Companies.jsx:83-94 | exactly the companies with other `Id`s remain, in order |
| CompaniesPage.DeleteAfterCreateRestores | src/components/pages/Companies.jsx:87-107 | deleting a just-created company restores the list |
| ContactsPage.SearchMatchIff | src/components/pages/Contacts.jsx:50-56 | on well-typed contacts: a match iff the full name, email or company contains the term, ignoring case |
| ContactsPage.NameMatchShortCircuits | src/components/pages/Contacts.jsx:52-53 | a full-name match keeps the contact even if its email is not text |
| ContactsPage.Filtered | src/components/pages/Contacts.jsx:46-64 | succeeds on well-typed data; a subsequence of exactly the kept contacts |
| ContactsPage.StatusFilterAlone | src/components/pages/Contacts.jsx:59-61 | `all` is the identity; another status keeps exactly the contacts with it |
| ContactsPage.StatusCount | src/components/pages/Contacts.jsx:117-119 | the number of times the status occurs |
| ContactsPage.StatusCountMatchesFilter | src/components/pages/Contacts.jsx:59-119 | the counter equals the number of rows the filter shows |
| ContactsPage.Save | src/components/pages/Contacts.jsx:95-105 | edit: replaced by `Id`; create: prepended |
| ContactsPage.Delete | src/components/pages/Contacts.jsx:77-88 | exactly the contacts with other `Id`s remain |
| ContactsPage.SaveEditKeepsOrder | src/components/pages/Contacts.jsx:98 | saving an edit keeps the sequence of `Id`s |
| ActivitiesPage.SearchMatchIff | src/components/pages/Activities.jsx:50-55 | on well-typed activities: a match iff description or type is text containing the term |
| ActivitiesPage.Filtered | src/components/pages/Activities.jsx:47-60 | succeeds on well-typed data; a subsequence of exactly the kept activities |
| ActivitiesPage.Insert | src/components/pages/Activities.jsx:62 | the result stays newest-first and is the list plus the element, as a multiset |
| ActivitiesPage.SortNewestFirst | src/components/pages/Activities.jsx:62 | newest-first, and a permutation of the input |
| ActivitiesPage.InsertWithKey | src/components/pages/Activities.jsx:62 | an inserted element goes ahead of every element with the same timestamp |
| ActivitiesPage.SortIsStable | src/components/pages/Activities.jsx:62 | activities with equal timestamps keep their relative order |
| ActivitiesPage.SortSortedIsIdentity | src/components/pages/Activities.jsx:62 | an already newest-first list is unchanged |
| ActivitiesPage.Shown | src/components/pages/Activities.jsx:47-65 | the shown list is newest-first and, as a multiset, exactly the kept activities: each as often as in the input |
| ActivitiesPage.Created | src/components/pages/Activities.jsx:99-101 | the created activity goes first |
| ActivitiesPage.Updated | src/components/pages/Activities.jsx:95-97 | each entry with the edited `Id` becomes the updated record |
| ActivitiesPage.Delete | src/components/pages/Activities.jsx:83-85 | exactly the activities with other `Id`s remain |
| ActivitiesPage.DeleteAfterCreateRestores | src/components/pages/Activities.jsx:84-101 | deleting a just-created activity restores the list |
| ReportsPage.Filtered | src/components/pages/Reports.jsx:157-162 | succeeds on well-typed data; a subsequence of exactly the reports with a searched field containing the term |
| ReportsPage.MatchesEmpty | src/components/pages/Reports.jsx:157-162 | the empty term matches iff one of the four fields is text |
| ReportsPage.EmptySearchKeepsTextual | src/components/pages/Reports.jsx:157-162 | with nothing typed, exactly the reports with a text searched field are listed |
| ReportsPage.LoadShowsListOrError | src/components/pages/Reports.jsx:44-49 | a load lists reports or toasts an error, never both; a failed load leaves nothing to search |
| ReportsPage.LoadedReportsShown | src/components/pages/Reports.jsx:44-49 | after a successful load, the empty search shows exactly the loaded reports with a text field |
| ReportsPage.Created | src/components/pages/Reports.jsx:58-72 | nothing returned → list unchanged; otherwise the report is put first |
| ReportsPage.Edited | src/components/pages/Reports.jsx:74-90 | nothing returned → unchanged; otherwise the entries with the selected `Id` are replaced |
| ReportsPage.Deleted | src/components/pages/Reports.jsx:92-105 | on success, exactly the reports with other `Id`s remain; on failure, unchanged |
| ReportsPage.CreateFollowsService | src/components/pages/Reports.jsx:61-63 | the list changes exactly when the service returned a report, which is then listed |
| ReportsPage.TextOr | src/components/pages/Reports.jsx:134-142 | a truthy value is kept, a falsy one becomes `''` |
| ReportsPage.RefOr | src/components/pages/Reports.jsx:143-146 | a truthy lookup `Id` wins; then a truthy value; then `''` |
| ReportsPage.EditForm | src/components/pages/Reports.jsx:131-149 | the form holds exactly the 13 fields: text fields as by `TextOr`, lookups as by `RefOr` |
| ReportsPage.UnchangedEditResendsText | src/components/pages/Reports.jsx:133-142 | saving the edit form unchanged resends each truthy text field and omits each falsy one |
| ReportsPage.UnchangedEditResendsLookup | src/components/pages/Reports.jsx:143-146 | a lookup with a non-zero integer `Id` (object or bare) survives edit-and-save |
| ReportsPage.TagBadges | src/components/pages/Reports.jsx:464-477 | no row iff `Tags` is falsy; a crash iff truthy non-text; otherwise the first ≤ 2 trimmed pieces, and `+n` iff there are more than 2 |
| ReportsPage.BadgesCountEveryTag | src/components/pages/Reports.jsx:466-475 | shown badges plus the `+n` count equal the number of commas plus one |
| Avatar.Alt | src/components/atoms/Avatar.jsx:7 | `alt` defaults to "Avatar" only when absent |
| Avatar.FirstChars | src/components/atoms/Avatar.jsx:18 | `map(n => n[0]).join("")`: at most one character per word, and exactly the first character of each word when no word is empty |
| Avatar.Initials | src/components/atoms/Avatar.jsx:18 | at most 2 characters: the upper-cased first letters of the non-empty words |
| Avatar.TwoNamesGiveTheirInitials | src/components/atoms/Avatar.jsx:18 | "First Last" gives the two upper-cased initials |
| Avatar.DefaultAltShowsA | src/components/atoms/Avatar.jsx:7-18 | without `alt` the initials are "A" |
| Avatar.EmptyWordsContributeNothing | src/components/atoms/Avatar.jsx:18 | empty words from repeated spaces add no initial |
| Avatar.Render | src/components/atoms/Avatar.jsx:30-40 | image iff `src` is truthy; else children iff truthy; else the initials |
| Avatar.NamedAvatarShowsInitials | src/components/atoms/Avatar.jsx:7-40 | with no picture and no children, `alt` "First Last" renders the two capitalised initials, and no `alt` renders "A" |
| JsValue.TruthyIffNotFalsy | src/components/pages/Companies.jsx:55 | a value is truthy exactly when it is not one of `undefined`, `null`, `false`, `0`, `NaN`, `''` |
| JsValue.StrictEq | src/services/api/companyService.js:16 | `===` holds only between equal values, and between equal values exactly when they are not `NaN` |
| JsValue.ToStr | src/services/api/companyService.js:18 | `${id}` in the not-found message: text is itself, only `''` prints as empty, and a number prints as digits that `parseInt` reads back to it |
| JsValue.ParseIntOfIsParseOfString | src/services/api/companyService.js:16 | `parseInt(v)` is `parseInt(String(v))` for every value |
| JsValue.ParseIntOr | src/services/api/companyService.js:30-31 | `parseInt` with a fallback is the parsed number when it is non-zero, else the fallback |
| JsValue.Spread | src/services/api/companyService.js:44-50 | `{...a, ...b}`: the union of keys, with `b` winning |
| JsValue.OrElse | src/components/pages/Companies.jsx:53-55 | short-circuit or over conditions that may throw: the second is evaluated only when the first is false |
| JsValue.OptLowerIncludes | src/components/pages/Activities.jsx:52-53 | `v?.toLowerCase().includes(t)`: defined iff text or nullish; true iff text containing the term |
| JsText.Trim | src/components/organisms/ContactForm.jsx:48 | the trimmed text sits between a leading and a trailing run of whitespace, and neither of its ends is whitespace |
| JsText.TrimIdempotent | src/components/organisms/ActivityForm.jsx:60 | trimming twice equals trimming once |
| JsText.IncludesIffOccurs | src/components/pages/Companies.jsx:53 | `includes` holds iff the needle occurs at some offset |
| JsText.JoinSplit | src/components/pages/Reports.jsx:466 | joining the split pieces gives back the string |
| JsText.SplitCount | src/components/pages/Reports.jsx:471-473 | there is one more piece than separators |
| JsText.Split | src/components/atoms/Avatar.jsx:18 | `split(sep)` returns at least one piece and no piece contains the separator |
| JsText.ParseInt | src/services/api/companyService.js:16 | `parseInt` on text: `NaN` on blank text, and a negative number only when the first non-blank character is `-` |
| JsText.ParseIntNeedsADigit | src/services/api/companyService.js:16 | `parseInt` gives a number only when the text holds a decimal digit |
| JsText.ParseIntOfIntToString | src/services/api/companyService.js:30 | `parseInt(String(n)) === n` |
| JsText.ParseIntStopsAtNonDigit | src/services/api/companyService.js:30 | `parseInt(" 42px")` is 42 |
| JsText.ParseIntHex | src/services/api/companyService.js:30 | `parseInt("-0x1A")` is -26 |

## Left out

- Timers (`delay`), `async`/`await`, React state, rendering and effects: each handler is modelled as a function from the state before to the state after.
- The remote backend and its SDK: the answer is an input.
- CompanyService.Create: built on the corrected `IdStore.Create`, so the first company in an empty store gets `Id` 1. As written it gets `-Infinity` (see Findings); `IdStore.CreateOnEmptyStoreAsWritten` states that behaviour.
- ContactService.Create: built on the corrected `IdStore.Create`, as for companies; the as-written `-Infinity` on an empty store is `IdStore.CreateOnEmptyStoreAsWritten`.
- ActivitiesService.Create: built on the corrected `IdStore.Create`, as for companies; the as-written `-Infinity` on an empty store is `IdStore.CreateOnEmptyStoreAsWritten`.
- Console logging (`console.error`) is not modelled. Only the report service's `toast` calls are, as lists of strings; the pages' own toasts are not modelled.
- `new Date()`, `toISOString`, date formatting and `Intl`: the clock is the `now` parameter. Activities are sorted on an integer `key` standing for the `Date` of the `timestamp`.
- ActivitiesPage.SortNewestFirst: invalid dates (`NaN` comparisons) are not modelled. The in-place mutation of the state array is not modelled either: when no filter applies, the page sorts the state array itself.
- `new URL(...)`: the parser is the `urlParses` parameter.
- Floating-point numbers: every number is an integer. `String(n)` for magnitudes of 10^21 and more (exponent notation) is not modelled.
- Unicode case mapping and UTF-16 code units: case mapping covers the ASCII letters only.
- Object identity: `===` on objects compares contents.
- MetricsService.GetById: a non-integer or non-numeric index is not modelled; indexes are integers.
- CompanyForm.FromCompany: requires the text fields to be text or falsy. A truthy non-string there makes the form show a non-string in a text input, which is not modelled.
- ActivityForm.FromActivity: requires the same of `type` and `description`, for the same reason.
- FormErrors.Clear: the company form writes `undefined` and the other forms `''`. Both are falsy and errors are only read for truthiness, so both are modelled as `""`.
- The report service's client set-up (`initializeClient`) and the field lists, ordering and paging of the `getAll`/`getById` requests: these only shape the backend call. An uninitialised client counts as a call that threw.
- The mock JSON fixtures are not modelled: the stores are parameters.
- Avatar.Alt: a non-string `alt` (which makes `split` throw) is not modelled.
- IdStore.CreateAsWritten: only numeric, infinite, `null`, boolean and missing `Id`s are converted as `Math.max` converts them. A string or object `Id` is taken as `NaN`; JavaScript would convert a numeric string to its number.
- ReportService.FetchOutcome: `getById` has no caller in the pages modelled, so its result is related to no other operation.

## Findings

| source | as written | input that shows it | evidently intended | confidence | as-written member | corrected member |
|---|---|---|---|---|---|---|
| src/services/api/companyService.js:25 (same in contactService.js:25, activitiesService.js:22) | `Math.max(...ids) + 1` is `-Infinity` on an empty store | create on `[]`, then create again: both records get `Id = -Infinity`, and `getById` of it fails | the first `Id` is 1, and `Id`s stay unique | not executed | IdStore.CreateOnEmptyStoreAsWritten | IdStore.Create |
