/** The companies page: the search, status and plan filters over the loaded
    companies, the per-status and per-plan counters, and the list merges
    after a save or a delete. */
module CompaniesPage {
  import opened Maybe
  import opened JsText
  import opened JsValue
  import opened Lists

  /** The filter controls; `"all"` switches the status and plan filters off. */
  datatype Filters = Filters(search: string, status: string, plan: string)

  /** `company.website && company.website.toLowerCase().includes(term)` */
  function WebsiteMatch(c: Record, term: string): (r: Option<bool>)
    ensures !Truthy(Get(c, "website")) ==> r == Some(false)
    ensures Truthy(Get(c, "website")) ==> r == LowerIncludes(Get(c, "website"), term)
  {
    if Truthy(Get(c, "website")) then LowerIncludes(Get(c, "website"), term) else Some(false)
  }

  /** The search condition; `None` where `.toLowerCase()` is called on a
      value that is not text. */
  function SearchMatch(c: Record, term: string): Option<bool> {
    OrElse(LowerIncludes(Get(c, "name"), term),
           OrElse(LowerIncludes(Get(c, "industry"), term), WebsiteMatch(c, term)))
  }

  predicate StatusMatch(c: Record, status: string) {
    StrictEq(Get(c, "status"), Str(status))
  }

  /** `company.subscriptionPlan?.toLowerCase() === plan` */
  function PlanMatch(c: Record, plan: string): (r: Option<bool>)
    ensures r == Some(true) <==> Get(c, "subscriptionPlan").Str? && ToLower(Get(c, "subscriptionPlan").s) == plan
    ensures r.None? <==> !Nullish(Get(c, "subscriptionPlan")) && !Get(c, "subscriptionPlan").Str?
  {
    var v := Get(c, "subscriptionPlan");
    if Nullish(v) then Some(false) else if v.Str? then Some(ToLower(v.s) == plan) else None
  }

  /** A company as the service stores it: text where the filters call
      `.toLowerCase()`. */
  predicate WellTyped(c: Record) {
    && Get(c, "name").Str? && Get(c, "industry").Str?
    && (Get(c, "website").Str? || !Truthy(Get(c, "website")))
    && (Get(c, "subscriptionPlan").Str? || Nullish(Get(c, "subscriptionPlan")))
  }

  /** On a well-typed company the search is: the lower-cased name, industry
      or (when there is one) website contains the lower-cased term. */
  lemma SearchMatchIff(c: Record, term: string)
    requires WellTyped(c)
    ensures SearchMatch(c, term).Some?
    ensures SearchMatch(c, term) == Some(true) <==>
      || Includes(ToLower(Get(c, "name").s), ToLower(term))
      || Includes(ToLower(Get(c, "industry").s), ToLower(term))
      || (Truthy(Get(c, "website")) && Includes(ToLower(Get(c, "website").s), ToLower(term)))
  {
  }

  predicate SearchKept(c: Record, term: string) {
    term != "" ==> SearchMatch(c, term) == Some(true)
  }

  predicate StatusKept(c: Record, status: string) {
    status != "all" ==> StatusMatch(c, status)
  }

  predicate PlanKept(c: Record, plan: string) {
    plan != "all" ==> PlanMatch(c, plan) == Some(true)
  }

  /** A company the current filters keep. */
  predicate Kept(c: Record, f: Filters) {
    SearchKept(c, f.search) && StatusKept(c, f.status) && PlanKept(c, f.plan)
  }

  /** The search step; the whole list when no term is typed. */
  function BySearch(cs: seq<Record>, term: string): (r: Option<seq<Record>>)
    ensures (forall c :: c in cs ==> WellTyped(c)) ==> r.Some?
    ensures r.Some? ==> IsSubseq(r.value, cs)
    ensures r.Some? ==> forall c :: multiset(r.value)[c] == if SearchKept(c, term) then multiset(cs)[c] else 0
  {
    SubseqRefl(cs);
    if term == "" then Some(cs)
    else
      assert forall i :: 0 <= i < |cs| ==> cs[i] in cs;
      FilterJS(cs, c => SearchMatch(c, term))
  }

  /** The status step; the whole list on `"all"`. */
  function ByStatus(cs: seq<Record>, status: string): (r: seq<Record>)
    ensures IsSubseq(r, cs)
    ensures forall c :: multiset(r)[c] == if StatusKept(c, status) then multiset(cs)[c] else 0
  {
    SubseqRefl(cs);
    if status == "all" then cs else Filter(cs, c => StatusMatch(c, status))
  }

  /** The plan step; the whole list on `"all"`. */
  function ByPlan(cs: seq<Record>, plan: string): (r: Option<seq<Record>>)
    ensures (forall c :: c in cs ==> WellTyped(c)) ==> r.Some?
    ensures r.Some? ==> IsSubseq(r.value, cs)
    ensures r.Some? ==> forall c :: multiset(r.value)[c] == if PlanKept(c, plan) then multiset(cs)[c] else 0
  {
    SubseqRefl(cs);
    if plan == "all" then Some(cs)
    else
      assert forall i :: 0 <= i < |cs| ==> cs[i] in cs;
      FilterJS(cs, c => PlanMatch(c, plan))
  }

  /** The filter effect: search (when a term is typed), then status, then
      plan, keeping every copy of a kept company in its order. `None` when a
      filter throws. */
  function Filtered(cs: seq<Record>, f: Filters): (r: Option<seq<Record>>)
    ensures (forall c :: c in cs ==> WellTyped(c)) ==> r.Some?
    ensures r.Some? ==> IsSubseq(r.value, cs)
    ensures r.Some? ==> forall c :: multiset(r.value)[c] == if Kept(c, f) then multiset(cs)[c] else 0
    ensures r.Some? ==> forall c :: c in r.value <==> c in cs && Kept(c, f)
  {
    match BySearch(cs, f.search)
    case None => None
    case Some(a) =>
      var b := ByStatus(a, f.status);
      SubseqTrans(b, a, cs);
      SubseqMembers(b, cs);
      match ByPlan(b, f.plan)
      case None => None
      case Some(c) =>
        SubseqTrans(c, b, cs);
        assert forall x :: x in c <==> multiset(c)[x] > 0;
        assert forall x :: x in cs <==> multiset(cs)[x] > 0;
        Some(c)
  }

  /** With no search and both filters on `"all"` the page shows every company. */
  lemma NoFilterShowsAll(cs: seq<Record>)
    ensures Filtered(cs, Filters("", "all", "all")) == Some(cs)
  {
  }

  /** `getStatusCount(status)`: the number of companies with that status, that
      is, how often it occurs in the status column. */
  function StatusCount(cs: seq<Record>, status: string): (n: nat)
    ensures n == multiset(Column(cs, "status"))[Str(status)]
  {
    CountWhereIsMultiplicity(cs, "status", Str(status));
    CountWhere(cs, "status", Str(status))
  }

  /** The status counter agrees with the status filter: it is the number of
      rows shown when only that filter is set. */
  lemma StatusCountMatchesFilter(cs: seq<Record>, status: string)
    requires status != "all"
    ensures Filtered(cs, Filters("", status, "all")).Some?
    ensures StatusCount(cs, status) == |Filtered(cs, Filters("", status, "all")).value|
  {
    FilterExt(cs, (x: Record) => StrictEq(Get(x, "status"), Str(status)), c => StatusMatch(c, status));
  }

  /** `getPlanCount(plan)`: the number of positions holding a company on
      that plan (ignoring case); `None` when the plan filter throws. */
  function PlanCount(cs: seq<Record>, plan: string): (n: Option<nat>)
    ensures n.Some? <==> forall i :: 0 <= i < |cs| ==> PlanMatch(cs[i], plan).Some?
    ensures n.Some? ==> n.value == |set i | 0 <= i < |cs| && PlanMatch(cs[i], plan) == Some(true)|
  {
    match FilterJS(cs, c => PlanMatch(c, plan))
    case None => None
    case Some(r) =>
      FilterJSLength(cs, c => PlanMatch(c, plan), set i | 0 <= i < |cs| && PlanMatch(cs[i], plan) == Some(true));
      Some(|r|)
  }

  /** The plan counter is the number of rows the plan filter alone shows. */
  lemma PlanCountMatchesFilter(cs: seq<Record>, plan: string)
    requires plan != "all"
    ensures PlanCount(cs, plan).Some? <==> Filtered(cs, Filters("", "all", plan)).Some?
    ensures PlanCount(cs, plan).Some? ==> PlanCount(cs, plan).value == |Filtered(cs, Filters("", "all", plan)).value|
  {
  }

  /** `handleSaveCompany`: replace by `Id` after an edit, prepend after a create. */
  function Save(cs: seq<Record>, editing: bool, saved: Record): (r: seq<Record>)
    ensures editing ==> |r| == |cs| && forall i :: 0 <= i < |cs| ==>
      r[i] == (if StrictEq(IdOf(cs[i]), IdOf(saved)) then saved else cs[i])
    ensures !editing ==> r == [saved] + cs
  {
    SaveMerge(cs, editing, saved)
  }

  /** `handleDeleteCompany` after the service call succeeded: no company with
      the deleted `Id` is left and the rest keep their order. */
  function Delete(cs: seq<Record>, company: Record): (r: seq<Record>)
    ensures IsSubseq(r, cs)
    ensures forall c :: c in r <==> c in cs && !StrictEq(IdOf(c), IdOf(company))
    ensures forall c :: multiset(r)[c] == if StrictEq(IdOf(c), IdOf(company)) then 0 else multiset(cs)[c]
  {
    RemoveById(cs, IdOf(company))
  }

  /** Deleting a company just added with a fresh `Id` restores the list. */
  lemma DeleteAfterCreateRestores(cs: seq<Record>, saved: Record)
    requires !IdOf(saved).NaN?
    requires forall c :: c in cs ==> IdOf(c) != IdOf(saved)
    ensures Delete(Save(cs, false, saved), saved) == cs
  {
    DeleteUndoesCreate(cs, saved);
  }
}
