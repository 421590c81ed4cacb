/** The reports page: the search over the loaded reports, the list merges
    after the service answers a create, edit or delete, the edit form filled
    from a report, and the tag badges on each report card. */
module ReportsPage {
  import opened Maybe
  import opened JsText
  import opened JsValue
  import opened Lists
  import ReportService

  // ---- Search ----

  /** `Name?.… || report_type_c?.… || data_source_c?.… || Tags?.…`, each a
      case-insensitive `includes` of the term. */
  function SearchMatch(r: Record, term: string): Option<bool> {
    OrElse(OptLowerIncludes(Get(r, "Name"), term),
      OrElse(OptLowerIncludes(Get(r, "report_type_c"), term),
        OrElse(OptLowerIncludes(Get(r, "data_source_c"), term),
               OptLowerIncludes(Get(r, "Tags"), term))))
  }

  predicate Searchable(v: Value) {
    v.Str? || Nullish(v)
  }

  /** None of the four searched fields is a non-string, non-nullish value. */
  predicate WellTyped(r: Record) {
    && Searchable(Get(r, "Name")) && Searchable(Get(r, "report_type_c"))
    && Searchable(Get(r, "data_source_c")) && Searchable(Get(r, "Tags"))
  }

  /** One of the four searched fields is text containing the term, ignoring case. */
  predicate Matches(r: Record, term: string) {
    || (Get(r, "Name").Str? && Includes(ToLower(Get(r, "Name").s), ToLower(term)))
    || (Get(r, "report_type_c").Str? && Includes(ToLower(Get(r, "report_type_c").s), ToLower(term)))
    || (Get(r, "data_source_c").Str? && Includes(ToLower(Get(r, "data_source_c").s), ToLower(term)))
    || (Get(r, "Tags").Str? && Includes(ToLower(Get(r, "Tags").s), ToLower(term)))
  }

  /** `filteredReports`: there is no empty-term shortcut, the filter always
      runs; every copy of a matching report stays, in order. */
  function Filtered(rs: seq<Record>, term: string): (r: Option<seq<Record>>)
    ensures (forall x :: x in rs ==> WellTyped(x)) ==> r.Some?
    ensures r.Some? ==> IsSubseq(r.value, rs)
    ensures r.Some? ==> forall x :: multiset(r.value)[x] == if Matches(x, term) then multiset(rs)[x] else 0
    ensures r.Some? ==> forall x :: x in r.value <==> x in rs && Matches(x, term)
  {
    var r := FilterJS(rs, x => SearchMatch(x, term));
    if r.None? then
      assert forall i :: 0 <= i < |rs| ==> rs[i] in rs;
      r
    else r
  }

  /** One of the four searched fields is text. */
  predicate HasText(x: Record) {
    Get(x, "Name").Str? || Get(x, "report_type_c").Str? || Get(x, "data_source_c").Str? || Get(x, "Tags").Str?
  }

  /** Every text includes the empty term. */
  lemma MatchesEmpty(x: Record)
    ensures Matches(x, "") <==> HasText(x)
  {
    assert ToLower("") == "";
    if Get(x, "Name").Str? { IncludesEmpty(ToLower(Get(x, "Name").s)); }
    if Get(x, "report_type_c").Str? { IncludesEmpty(ToLower(Get(x, "report_type_c").s)); }
    if Get(x, "data_source_c").Str? { IncludesEmpty(ToLower(Get(x, "data_source_c").s)); }
    if Get(x, "Tags").Str? { IncludesEmpty(ToLower(Get(x, "Tags").s)); }
  }

  /** With nothing typed, a report is listed exactly when one of its four
      searched fields is text: a report whose fields are all missing is hidden. */
  lemma EmptySearchKeepsTextual(rs: seq<Record>)
    requires forall x :: x in rs ==> WellTyped(x)
    ensures Filtered(rs, "").Some?
    ensures forall x :: x in Filtered(rs, "").value <==>
      x in rs && HasText(x)
  {
    forall x | x in rs
      ensures Matches(x, "") <==> HasText(x)
    {
      MatchesEmpty(x);
    }
  }

  // ---- Loading ----

  /** A load either lists reports or raises its error toast, never both, and
      a load that failed leaves nothing to search. */
  lemma LoadShowsListOrError(call: ReportService.Call<ReportService.ListResponse>, term: string)
    ensures ReportService.ListOutcome(call).notes == [] || ReportService.ListOutcome(call).reports == []
    ensures !(call.Answered? && call.response.success) ==> Filtered(ReportService.ListOutcome(call).reports, term) == Some([])
  {
  }

  /** After a successful load, the empty search shows exactly the loaded
      reports that have some text to search. */
  lemma LoadedReportsShown(resp: ReportService.ListResponse)
    requires resp.success && resp.data.Some?
    requires forall x :: x in resp.data.value ==> WellTyped(x)
    ensures Filtered(ReportService.ListOutcome(ReportService.Answered(resp)).reports, "").Some?
    ensures forall x :: x in Filtered(ReportService.ListOutcome(ReportService.Answered(resp)).reports, "").value <==>
      x in resp.data.value && HasText(x)
  {
    EmptySearchKeepsTextual(resp.data.value);
  }

  // ---- List merges ----

  /** `handleCreate`: the report the service returned goes first; nothing
      changes when it returned nothing. */
  function Created(rs: seq<Record>, created: Option<Record>): (r: seq<Record>)
    ensures created.None? ==> r == rs
    ensures created.Some? ==> |r| == |rs| + 1 && r[0] == created.value && r[1..] == rs
  {
    if created.Some? then SaveMerge(rs, false, created.value) else rs
  }

  /** `handleEdit`: every report with the selected `Id` becomes the returned
      report; nothing changes when the service returned nothing. */
  function Edited(rs: seq<Record>, selectedId: Value, updated: Option<Record>): (r: seq<Record>)
    ensures |r| == |rs|
    ensures updated.None? ==> r == rs
    ensures updated.Some? ==> forall i :: 0 <= i < |rs| ==>
      r[i] == (if StrictEq(IdOf(rs[i]), selectedId) then updated.value else rs[i])
  {
    if updated.Some? then ReplaceById(rs, selectedId, updated.value) else rs
  }

  /** `handleDelete`: the reports with the selected `Id` go when the service
      reported success. */
  function Deleted(rs: seq<Record>, selectedId: Value, ok: bool): (r: seq<Record>)
    ensures !ok ==> r == rs
    ensures IsSubseq(r, rs)
    ensures ok ==> forall x :: x in r <==> x in rs && !StrictEq(IdOf(x), selectedId)
    ensures ok ==> forall x :: multiset(r)[x] == if StrictEq(IdOf(x), selectedId) then 0 else multiset(rs)[x]
  {
    SubseqRefl(rs);
    if ok then RemoveById(rs, selectedId) else rs
  }

  /** A create the service answered with nothing leaves the list as it was,
      and a created report is listed, so the page and the backend agree. */
  lemma CreateFollowsService(rs: seq<Record>, call: ReportService.Call<ReportService.MutationResponse>)
    ensures ReportService.SaveOutcome(call).report.None? ==> Created(rs, ReportService.SaveOutcome(call).report) == rs
    ensures ReportService.SaveOutcome(call).report.Some? ==>
      ReportService.SaveOutcome(call).report.value in Created(rs, ReportService.SaveOutcome(call).report)
  {
  }

  // ---- The edit form ----

  /** `v?.Id`: the `Id` of an object, `undefined` for anything else (a
      primitive has no `Id` property). */
  function LookupId(v: Value): Value {
    if v.Obj? then Get(v.fields, "Id") else Undefined
  }

  /** `v || ''` */
  function TextOr(v: Value): (r: Value)
    ensures Truthy(v) ==> r == v
    ensures !Truthy(v) ==> r == Str("")
  {
    if Truthy(v) then v else Str("")
  }

  /** `v?.Id || v || ''` */
  function RefOr(v: Value): (r: Value)
    ensures Truthy(LookupId(v)) ==> r == LookupId(v)
    ensures !Truthy(LookupId(v)) ==> r == TextOr(v)
  {
    if Truthy(LookupId(v)) then LookupId(v) else TextOr(v)
  }

  /** `openEditModal`: the form data for a report. */
  function EditForm(report: Record): (f: Record)
    ensures f.Keys == ReportService.TextFields + ReportService.RefFields
    ensures forall k :: k in ReportService.TextFields ==> f[k] == TextOr(Get(report, k))
    ensures forall k :: k in ReportService.RefFields ==> f[k] == RefOr(Get(report, k))
  {
    map k | k in ReportService.TextFields + ReportService.RefFields ::
      if k in ReportService.RefFields then RefOr(Get(report, k)) else TextOr(Get(report, k))
  }

  /** Saving the edit form unchanged sends back every truthy text field as it
      was and leaves the falsy ones out of the request. */
  lemma UnchangedEditResendsText(report: Record, k: string)
    requires k in ReportService.TextFields
    ensures Truthy(Get(report, k)) ==>
      k in ReportService.UpdatePayload(IdOf(report), EditForm(report)) &&
      ReportService.UpdatePayload(IdOf(report), EditForm(report))[k] == Get(report, k)
    ensures !Truthy(Get(report, k)) ==> k !in ReportService.UpdatePayload(IdOf(report), EditForm(report))
  {
    var f := EditForm(report);
    var p := ReportService.CreatePayload(f);
    ReportService.UpdatePayloadIsCreatePayloadWithId(IdOf(report), f);
    assert k != "Id";
    assert Get(f, k) == TextOr(Get(report, k));
    assert k in p <==> !ReportService.Blank(Get(f, k));
    assert k in p ==> p[k] == Get(f, k);
  }

  /** A lookup field, whether a lookup object with a non-zero integer `Id` or
      that integer itself, survives opening the edit form and saving it
      unchanged. */
  lemma UnchangedEditResendsLookup(report: Record, k: string, n: int)
    requires k in ReportService.RefFields && n != 0
    requires LookupId(Get(report, k)) == Num(n) || Get(report, k) == Num(n)
    ensures k in ReportService.UpdatePayload(IdOf(report), EditForm(report))
    ensures ReportService.UpdatePayload(IdOf(report), EditForm(report))[k] == Num(n)
  {
    var f := EditForm(report);
    var p := ReportService.CreatePayload(f);
    ReportService.UpdatePayloadIsCreatePayloadWithId(IdOf(report), f);
    assert k != "Id";
    assert Get(f, k) == Num(n);
    assert ParseIntOf(Num(n)) == Some(n);
    assert k in p && p[k] == ParseIntValue(Num(n));
  }

  // ---- Tag badges ----

  /** The tag area of a report card: absent, a render error (a truthy `Tags`
      that is not text has no `split`), or the first two tags with the count
      of the rest. */
  datatype TagRow = NoRow | Crash | Badges(shown: seq<string>, more: Option<nat>)

  /** `Tags.split(',').slice(0, 2)` trimmed, and `+(length - 2)` when there
      are more than two pieces. */
  function TagBadges(tags: Value): (r: TagRow)
    ensures r.NoRow? <==> !Truthy(tags)
    ensures r.Crash? <==> Truthy(tags) && !tags.Str?
    ensures r.Badges? ==> var parts := Split(tags.s, ',');
      && |r.shown| == (if |parts| < 2 then |parts| else 2)
      && (forall i :: 0 <= i < |r.shown| ==> r.shown[i] == Trim(parts[i]))
      && (r.more.Some? <==> |parts| > 2)
      && (r.more.Some? ==> r.more.value == |parts| - 2)
  {
    if !Truthy(tags) then NoRow
    else if !tags.Str? then Crash
    else
      var parts := Split(tags.s, ',');
      var first := parts[..if |parts| < 2 then |parts| else 2];
      Badges(seq(|first|, i requires 0 <= i < |first| => Trim(first[i])),
             if |parts| > 2 then Some(|parts| - 2) else None)
  }

  /** The badges account for every tag: the ones shown plus the `+n` count is
      one more than the number of commas. */
  lemma BadgesCountEveryTag(tags: string)
    requires tags != ""
    ensures TagBadges(Str(tags)).Badges?
    ensures var b := TagBadges(Str(tags));
      |b.shown| + b.more.GetOr(0) == CountChar(tags, ',') + 1
  {
    SplitCount(tags, ',');
  }
}
