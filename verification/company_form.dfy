/** The company form: the draft the user edits, its validation, the error
    clearing on input, and the record handed to the company service on
    submit. The browser's `URL` parser is a parameter `urlParses`. */
module CompanyForm {
  import opened Maybe
  import opened JsText
  import opened JsValue
  import opened FormErrors
  import CompanyService

  datatype Field = Name | Industry | Employees | Website | SubscriptionPlan | Status | Mrr

  /** Every input of the form holds text. */
  datatype Draft = Draft(name: string, industry: string, employees: string, website: string,
                         subscriptionPlan: string, status: string, mrr: string)

  datatype State = State(data: Draft, errors: map<Field, string>)

  /** The form opened for a new company. */
  const Blank := Draft("", "", "", "", "", "trial", "")

  function FieldValue(d: Draft, f: Field): string {
    match f
    case Name => d.name
    case Industry => d.industry
    case Employees => d.employees
    case Website => d.website
    case SubscriptionPlan => d.subscriptionPlan
    case Status => d.status
    case Mrr => d.mrr
  }

  /** `{...prev, [field]: value}` */
  function SetField(d: Draft, f: Field, v: string): (r: Draft)
    ensures FieldValue(r, f) == v
    ensures forall g :: g != f ==> FieldValue(r, g) == FieldValue(d, g)
  {
    match f
    case Name => d.(name := v)
    case Industry => d.(industry := v)
    case Employees => d.(employees := v)
    case Website => d.(website := v)
    case SubscriptionPlan => d.(subscriptionPlan := v)
    case Status => d.(status := v)
    case Mrr => d.(mrr := v)
  }

  /** `handleChange(field, value)`: one input changes and only its error is hidden. */
  function HandleChange(s: State, f: Field, v: string): (r: State)
    ensures FieldValue(r.data, f) == v && !Shows(r.errors, f)
    ensures forall g :: g != f ==> FieldValue(r.data, g) == FieldValue(s.data, g)
    ensures forall g :: g != f ==> (g in r.errors <==> g in s.errors)
    ensures forall g :: g != f && g in s.errors ==> r.errors[g] == s.errors[g]
  {
    State(SetField(s.data, f, v), Clear(s.errors, f))
  }

  /** Typing into the same input twice leaves what the second keystroke left. */
  lemma HandleChangeOverwrites(s: State, f: Field, v1: string, v2: string)
    ensures HandleChange(HandleChange(s, f, v1), f, v2).data == HandleChange(s, f, v2).data
  {
    var a := HandleChange(HandleChange(s, f, v1), f, v2).data;
    var b := HandleChange(s, f, v2).data;
    assert forall g :: FieldValue(a, g) == FieldValue(b, g);
    assert FieldValue(a, Name) == FieldValue(b, Name);
  }

  /** What `isValidUrl` hands to `new URL(...)`. */
  function UrlCandidate(w: string): (r: string)
    ensures StartsWith(r, "http")
    ensures StartsWith(w, "http") ==> r == w
    ensures !StartsWith(w, "http") ==> r == "https://" + w
  {
    if StartsWith(w, "http") then w else "https://" + w
  }

  /** `!employees || parseInt(employees) < 1`; a `NaN` parse compares false. */
  predicate EmployeesRejected(e: string) {
    e == "" || (ParseInt(e).Some? && ParseInt(e).value < 1)
  }

  /** `!mrr || parseInt(mrr) < 0` */
  predicate MrrRejected(m: string) {
    m == "" || (ParseInt(m).Some? && ParseInt(m).value < 0)
  }

  /** The message `validateForm` records for one field, if its check fails. */
  function Check(d: Draft, urlParses: string -> bool, f: Field): Option<string> {
    match f
    case Name => if Trim(d.name) == "" then Some("Company name is required") else None
    case Industry => if d.industry == "" then Some("Industry is required") else None
    case Employees => if EmployeesRejected(d.employees) then Some("Employee count must be at least 1") else None
    case Website =>
      if d.website != "" && !urlParses(UrlCandidate(d.website)) then Some("Please enter a valid website URL")
      else None
    case SubscriptionPlan => if d.subscriptionPlan == "" then Some("Subscription plan is required") else None
    case Status => None
    case Mrr => if MrrRejected(d.mrr) then Some("MRR must be 0 or greater") else None
  }

  const AllFields: set<Field> := {Name, Industry, Employees, Website, SubscriptionPlan, Status, Mrr}

  /** `validateForm`: a field has an error exactly when its check fails, and
      every recorded message is visible. */
  function Validate(d: Draft, urlParses: string -> bool): (errs: map<Field, string>)
    ensures forall f :: f in errs <==> Check(d, urlParses, f).Some?
    ensures forall f :: f in errs ==> errs[f] == Check(d, urlParses, f).value
    ensures forall f :: f in errs ==> Shows(errs, f)
  {
    map f | f in AllFields && Check(d, urlParses, f).Some? :: Check(d, urlParses, f).value
  }

  /** The individual checks of `validateForm`, field by field. */
  lemma ValidateFields(d: Draft, urlParses: string -> bool)
    ensures var errs := Validate(d, urlParses);
      && (Name in errs <==> Trim(d.name) == "")
      && (Industry in errs <==> d.industry == "")
      && (Employees in errs <==> EmployeesRejected(d.employees))
      && (Website in errs <==> d.website != "" && !urlParses(UrlCandidate(d.website)))
      && (SubscriptionPlan in errs <==> d.subscriptionPlan == "")
      && (Mrr in errs <==> MrrRejected(d.mrr))
      && Status !in errs
  {
    NameCheck(d, urlParses);
    IndustryCheck(d, urlParses);
    EmployeesCheck(d, urlParses);
    WebsiteCheck(d, urlParses);
    SubscriptionPlanCheck(d, urlParses);
    MrrCheck(d, urlParses);
    assert Status !in Validate(d, urlParses) by {
      assert Check(d, urlParses, Status).None?;
    }
  }

  // One lemma per field: the field has an error exactly when its check fails.

  lemma NameCheck(d: Draft, urlParses: string -> bool)
    ensures Name in Validate(d, urlParses) <==> Trim(d.name) == ""
  {
    assert Name in Validate(d, urlParses) <==> Check(d, urlParses, Name).Some?;
  }

  lemma IndustryCheck(d: Draft, urlParses: string -> bool)
    ensures Industry in Validate(d, urlParses) <==> d.industry == ""
  {
    assert Industry in Validate(d, urlParses) <==> Check(d, urlParses, Industry).Some?;
  }

  lemma EmployeesCheck(d: Draft, urlParses: string -> bool)
    ensures Employees in Validate(d, urlParses) <==> EmployeesRejected(d.employees)
  {
    assert Employees in Validate(d, urlParses) <==> Check(d, urlParses, Employees).Some?;
  }

  lemma WebsiteCheck(d: Draft, urlParses: string -> bool)
    ensures Website in Validate(d, urlParses) <==> d.website != "" && !urlParses(UrlCandidate(d.website))
  {
    assert Website in Validate(d, urlParses) <==> Check(d, urlParses, Website).Some?;
  }

  lemma SubscriptionPlanCheck(d: Draft, urlParses: string -> bool)
    ensures SubscriptionPlan in Validate(d, urlParses) <==> d.subscriptionPlan == ""
  {
    assert SubscriptionPlan in Validate(d, urlParses) <==> Check(d, urlParses, SubscriptionPlan).Some?;
  }

  lemma MrrCheck(d: Draft, urlParses: string -> bool)
    ensures Mrr in Validate(d, urlParses) <==> MrrRejected(d.mrr)
  {
    assert Mrr in Validate(d, urlParses) <==> Check(d, urlParses, Mrr).Some?;
  }

  /** An empty website is never an error, whatever the URL parser says. */
  lemma EmptyWebsiteNeverRejected(d: Draft, urlParses: string -> bool)
    requires d.website == ""
    ensures Website !in Validate(d, urlParses)
  {
  }

  predicate Valid(d: Draft, urlParses: string -> bool) {
    NoErrors(Validate(d, urlParses))
  }

  /** The form may be submitted exactly when every check passes. */
  lemma ValidIff(d: Draft, urlParses: string -> bool)
    ensures Valid(d, urlParses) <==>
      && Trim(d.name) != "" && d.industry != "" && d.subscriptionPlan != ""
      && !EmployeesRejected(d.employees) && !MrrRejected(d.mrr)
      && (d.website == "" || urlParses(UrlCandidate(d.website)))
  {
    ValidateFields(d, urlParses);
    var errs := Validate(d, urlParses);
    if |errs| != 0 {
      var f :| f in errs;
      assert Check(d, urlParses, f).Some?;
    } else {
      assert errs == map[];
    }
  }

  /** The blank form cannot be submitted. */
  lemma BlankIsInvalid(urlParses: string -> bool)
    ensures !Valid(Blank, urlParses)
  {
    assert Name in Validate(Blank, urlParses);
  }

  /** The website as submitted: `https://` put in front unless it already
      starts with `http`; an empty website stays empty. */
  function NormalizeWebsite(w: string): (r: string)
    ensures r == "" <==> w == ""
    ensures w != "" ==> StartsWith(r, "http")
    ensures w != "" && StartsWith(w, "http") ==> r == w
    ensures w != "" && !StartsWith(w, "http") ==> r == "https://" + w
    ensures |w| <= |r| && r[|r| - |w|..] == w
  {
    if w == "" then "" else UrlCandidate(w)
  }

  lemma NormalizeWebsiteIdempotent(w: string)
    ensures NormalizeWebsite(NormalizeWebsite(w)) == NormalizeWebsite(w)
  {
  }

  /** `companyData` in `handleSubmit`: the draft's fields passed through,
      with the counts parsed and the website normalised. */
  function SubmitData(d: Draft): (r: Record)
    ensures Get(r, "name") == Str(d.name) && Get(r, "industry") == Str(d.industry)
    ensures Get(r, "subscriptionPlan") == Str(d.subscriptionPlan) && Get(r, "status") == Str(d.status)
    ensures Get(r, "employees") == ParseIntValue(Str(d.employees))
    ensures Get(r, "mrr") == ParseIntValue(Str(d.mrr))
    ensures Get(r, "website") == Str(NormalizeWebsite(d.website))
  {
    CompanyData(d, ParseIntValue(Str(d.employees)), ParseIntValue(Str(d.mrr)), NormalizeWebsite(d.website))
  }

  /** `{...formData, employees, mrr, website}`: the inputs spread, then the
      three converted values put over them. */
  function CompanyData(d: Draft, employees: Value, mrr: Value, website: string): (r: Record)
    ensures Get(r, "name") == Str(d.name) && Get(r, "industry") == Str(d.industry)
    ensures Get(r, "subscriptionPlan") == Str(d.subscriptionPlan) && Get(r, "status") == Str(d.status)
    ensures Get(r, "employees") == employees && Get(r, "mrr") == mrr && Get(r, "website") == Str(website)
  {
    Spread(map["name" := Str(d.name), "industry" := Str(d.industry), "employees" := Str(d.employees),
                "website" := Str(d.website), "subscriptionPlan" := Str(d.subscriptionPlan),
                "status" := Str(d.status), "mrr" := Str(d.mrr)],
           map["employees" := employees, "mrr" := mrr, "website" := Str(website)])
  }

  /** A count text that passed validation is stored as at least 1. */
  lemma AcceptedEmployeesCoerceToPositive(e: string)
    requires !EmployeesRejected(e)
    ensures ParseIntOr(ParseIntValue(Str(e)), 1) >= 1
  {
  }

  /** An MRR text that passed validation is stored as at least 0. */
  lemma AcceptedMrrCoercesToNonNegative(m: string)
    requires !MrrRejected(m)
    ensures ParseIntOr(ParseIntValue(Str(m)), 0) >= 0
  {
  }

  /** After the service's own coercion, a company saved from a form that
      passed validation has at least one employee and a non-negative MRR. */
  lemma ValidSubmissionStoresSaneCounts(d: Draft, urlParses: string -> bool, store: seq<Record>, now: string)
    requires Valid(d, urlParses)
    ensures var c := CompanyService.Create(store, SubmitData(d), now).out.value;
      && Get(c, "employees").Num? && Get(c, "employees").n >= 1
      && Get(c, "mrr").Num? && Get(c, "mrr").n >= 0
  {
    ValidIff(d, urlParses);
    var data := SubmitData(d);
    AcceptedEmployeesCoerceToPositive(d.employees);
    AcceptedMrrCoercesToNonNegative(d.mrr);
    var c := CompanyService.Create(store, data, now).out.value;
    assert Get(c, "employees") == Num(ParseIntOr(Get(data, "employees"), 1));
    assert Get(c, "mrr") == Num(ParseIntOr(Get(data, "mrr"), 0));
  }

  /** Text a stored field can hold: a string, or a falsy value read as `''`. */
  predicate TextLike(v: Value) {
    v.Str? || !Truthy(v)
  }

  /** The company's text fields can be shown in the form's text inputs. */
  predicate TextFieldsLike(c: Record) {
    && TextLike(Get(c, "name")) && TextLike(Get(c, "industry")) && TextLike(Get(c, "website"))
    && TextLike(Get(c, "subscriptionPlan")) && TextLike(Get(c, "status"))
  }

  /** `v || ""` on a text field. */
  function TextOr(v: Value, default: string): (r: string)
    requires TextLike(v)
    ensures Truthy(v) ==> Str(r) == v
    ensures !Truthy(v) ==> r == default
  {
    if Truthy(v) then v.s else default
  }

  /** `v?.toString() || ""` on a count field. */
  function CountText(v: Value): (r: string)
    ensures Nullish(v) ==> r == ""
    ensures v.Num? ==> r == IntToString(v.n)
  {
    if Nullish(v) then "" else ToStr(v)
  }

  /** The form opened on an existing company: each stored text that is
      truthy is shown, a falsy one as `''` (a missing status reads as
      `trial`), and the counts are printed as decimal text. */
  function FromCompany(c: Record): (d: Draft)
    requires TextFieldsLike(c)
    ensures Truthy(Get(c, "name")) ==> Str(d.name) == Get(c, "name")
    ensures !Truthy(Get(c, "name")) ==> d.name == ""
    ensures Truthy(Get(c, "industry")) ==> Str(d.industry) == Get(c, "industry")
    ensures !Truthy(Get(c, "industry")) ==> d.industry == ""
    ensures Truthy(Get(c, "website")) ==> Str(d.website) == Get(c, "website")
    ensures !Truthy(Get(c, "website")) ==> d.website == ""
    ensures Truthy(Get(c, "subscriptionPlan")) ==> Str(d.subscriptionPlan) == Get(c, "subscriptionPlan")
    ensures !Truthy(Get(c, "subscriptionPlan")) ==> d.subscriptionPlan == ""
    ensures Truthy(Get(c, "status")) ==> Str(d.status) == Get(c, "status")
    ensures !Truthy(Get(c, "status")) ==> d.status == "trial"
    ensures d.employees == CountText(Get(c, "employees")) && d.mrr == CountText(Get(c, "mrr"))
  {
    Draft(TextOr(Get(c, "name"), ""), TextOr(Get(c, "industry"), ""), CountText(Get(c, "employees")),
          TextOr(Get(c, "website"), ""), TextOr(Get(c, "subscriptionPlan"), ""),
          TextOr(Get(c, "status"), "trial"), CountText(Get(c, "mrr")))
  }

  /** Editing a company with no fields opens the same form as creating one. */
  lemma EmptyCompanyOpensBlankForm()
    ensures FromCompany(map[]) == Blank
  {
  }

  /** Printing a stored count into the form and parsing it on submit gives
      the count back. */
  lemma PrintedCountParsesBack(n: int)
    ensures ParseIntValue(Str(IntToString(n))) == Num(n)
  {
    ParseIntOfIntToString(n);
  }

  /** A stored integer count shown in the form and submitted unchanged comes
      back as the same number. */
  lemma CountSurvivesEditRoundTrip(c: Record)
    requires TextFieldsLike(c)
    requires Get(c, "employees").Num? && Get(c, "mrr").Num?
    ensures Get(SubmitData(FromCompany(c)), "employees") == Get(c, "employees")
    ensures Get(SubmitData(FromCompany(c)), "mrr") == Get(c, "mrr")
  {
    var d := FromCompany(c);
    assert d.employees == IntToString(Get(c, "employees").n);
    assert d.mrr == IntToString(Get(c, "mrr").n);
    PrintedCountParsesBack(Get(c, "employees").n);
    PrintedCountParsesBack(Get(c, "mrr").n);
  }
}
