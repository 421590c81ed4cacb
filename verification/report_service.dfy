/** The report service: requests are built from form data, sent to a remote
    backend, and the backend's answer is turned into a return value plus the
    error notifications shown to the user. The backend call is not modelled:
    its answer (or the exception it raised) is an input. */
module ReportService {
  import opened Maybe
  import opened JsValue
  import opened Lists

  /** The fields copied verbatim into a request. */
  const TextFields: set<string> := {"Name", "Tags", "report_type_c", "data_source_c", "filters_c",
                                    "layout_c", "format_c", "display_fields_c", "filter_parameters_c"}
  /** The lookup fields, sent as integer ids. */
  const RefFields: set<string> := {"activity_c", "company_c", "contact_c", "metric_c"}

  /** How a backend call ended: it threw (this includes an uninitialised
      client), it returned nothing, or it returned a response object. */
  datatype Call<R> = Threw | NoResponse | Answered(response: R)

  datatype FieldError = FieldError(fieldLabel: string, message: string)

  /** One entry of `response.results`; `data` is `None` when absent. */
  datatype RecordResult = RecordResult(success: bool, data: Option<Record>, message: string,
                                       errors: Option<seq<FieldError>>)

  datatype MutationResponse = MutationResponse(success: bool, message: string,
                                               results: Option<seq<RecordResult>>)
  datatype ListResponse = ListResponse(success: bool, message: string, data: Option<seq<Record>>)
  datatype ByIdResponse = ByIdResponse(data: Option<Record>)

  /** What `create`/`update` return, with the error toasts they raise. */
  datatype Saved = Saved(report: Option<Record>, notes: seq<string>)
  datatype Deleted = Deleted(ok: bool, notes: seq<string>)
  datatype Listed = Listed(reports: seq<Record>, notes: seq<string>)

  // ---- Request payloads ----

  /** `v ? parseInt(v) : null` */
  function RefValue(v: Value): (r: Value)
    ensures r.Null? <==> !Truthy(v)
    ensures Truthy(v) ==> r == ParseIntValue(v) && (r.Num? || r.NaN?)
  {
    if Truthy(v) then ParseIntValue(v) else Null
  }

  /** `x === null || x === ''` */
  predicate Blank(v: Value) {
    v == Null || v == Str("")
  }

  /** The thirteen updateable fields read from the form data. */
  function Fields(data: Record): (p: Record)
    ensures p.Keys == TextFields + RefFields
    ensures forall k :: k in TextFields ==> p[k] == Get(data, k)
    ensures forall k :: k in RefFields ==> p[k] == RefValue(Get(data, k))
  {
    map k | k in TextFields + RefFields :: if k in RefFields then RefValue(Get(data, k)) else Get(data, k)
  }

  /** Deleting the blank-valued keys, except those in `keep`. */
  function Strip(p: Record, keep: set<string>): (r: Record)
    ensures forall k :: k in r <==> k in p && (k in keep || !Blank(p[k]))
    ensures forall k :: k in r ==> r[k] == p[k]
  {
    map k | k in p && (k in keep || !Blank(p[k])) :: p[k]
  }

  /** Stripping twice strips nothing more. */
  lemma StripIdempotent(p: Record, keep: set<string>)
    ensures Strip(Strip(p, keep), keep) == Strip(p, keep)
  {
  }

  /** The record sent by `create`. A text field is sent as is unless it is
      `null` or `''` (an `undefined` one stays); a lookup field is sent as
      `parseInt` of it exactly when it is truthy. */
  function CreatePayload(data: Record): (r: Record)
    ensures r.Keys <= TextFields + RefFields
    ensures forall k :: k in r ==> !Blank(r[k])
    ensures forall k :: k in TextFields ==> (k in r <==> !Blank(Get(data, k)))
    ensures forall k :: k in TextFields && k in r ==> r[k] == Get(data, k)
    ensures forall k :: k in RefFields ==> (k in r <==> Truthy(Get(data, k)))
    ensures forall k :: k in RefFields && k in r ==> r[k] == ParseIntValue(Get(data, k))
  {
    Strip(Fields(data), {})
  }

  /** The record sent by `update`: the same stripping, but `Id` always stays,
      whatever its value. */
  function UpdatePayload(id: Value, data: Record): (r: Record)
    ensures "Id" in r && r["Id"] == id
    ensures r.Keys <= TextFields + RefFields + {"Id"}
    ensures forall k :: k in r && k != "Id" ==> !Blank(r[k])
  {
    Strip(Fields(data)["Id" := id], {"Id"})
  }

  /** An update request is the create request for the same data plus the `Id`. */
  lemma UpdatePayloadIsCreatePayloadWithId(id: Value, data: Record)
    ensures UpdatePayload(id, data) == CreatePayload(data)["Id" := id]
  {
    assert "Id" !in TextFields + RefFields;
  }

  /** Blank form fields, as the form's reset state holds them, send nothing:
      the create request is empty. */
  lemma BlankFormSendsEmptyCreate(data: Record)
    requires forall k :: k in TextFields + RefFields ==> Get(data, k) == Str("")
    ensures CreatePayload(data) == map[]
  {
    assert forall k :: k in TextFields + RefFields ==> Blank(Fields(data)[k]);
  }

  // ---- Splitting results ----

  function Successes(rs: seq<RecordResult>): (s: seq<RecordResult>)
    ensures IsSubseq(s, rs)
    ensures forall x :: x in s <==> x in rs && x.success
  {
    Filter(rs, (x: RecordResult) => x.success)
  }

  function Failures(rs: seq<RecordResult>): (f: seq<RecordResult>)
    ensures IsSubseq(f, rs)
    ensures forall x :: x in f <==> x in rs && !x.success
  {
    Filter(rs, (x: RecordResult) => !x.success)
  }

  /** Successes and failures split the results: every result is in exactly one
      of them, as often as it occurs in the results. */
  lemma {:induction false} ResultsPartition(rs: seq<RecordResult>)
    ensures multiset(Successes(rs)) + multiset(Failures(rs)) == multiset(rs)
    ensures |Successes(rs)| + |Failures(rs)| == |rs|
  {
    if |rs| > 0 {
      ResultsPartition(rs[1..]);
      assert rs == [rs[0]] + rs[1..];
    }
  }

  /** The position of the first successful result. */
  function FirstSuccess(rs: seq<RecordResult>): (r: Option<nat>)
    ensures r.Some? ==> r.value < |rs| && rs[r.value].success
    ensures r.Some? ==> forall j :: 0 <= j < r.value ==> !rs[j].success
    ensures r.None? <==> forall j :: 0 <= j < |rs| ==> !rs[j].success
  {
    if |rs| == 0 then None
    else if rs[0].success then Some(0)
    else match FirstSuccess(rs[1..])
      case None => None
      case Some(i) => Some(i + 1)
  }

  /** `successes[0]` is the first successful result, and there is none exactly
      when no result succeeded. */
  lemma {:induction false} FirstOfSuccesses(rs: seq<RecordResult>)
    ensures |Successes(rs)| > 0 <==> FirstSuccess(rs).Some?
    ensures |Successes(rs)| > 0 ==> Successes(rs)[0] == rs[FirstSuccess(rs).value]
  {
    if |rs| > 0 && !rs[0].success {
      FirstOfSuccesses(rs[1..]);
    }
  }

  // ---- Notifications ----

  /** One toast `"<fieldLabel>: <message>"` per field error. */
  function ErrorNotes(es: seq<FieldError>): (r: seq<string>)
    ensures |r| == |es|
    ensures forall i :: 0 <= i < |es| ==> r[i] == es[i].fieldLabel + ": " + es[i].message
  {
    seq(|es|, i requires 0 <= i < |es| => es[i].fieldLabel + ": " + es[i].message)
  }

  /** The toasts for one failed result: its field errors, then its message if
      it has one. */
  function RecordNotes(rec: RecordResult): (r: seq<string>)
    ensures |r| == (if rec.errors.Some? then |rec.errors.value| else 0) + (if rec.message != "" then 1 else 0)
    ensures rec.errors.Some? ==>
              forall i :: 0 <= i < |rec.errors.value| ==>
                r[i] == rec.errors.value[i].fieldLabel + ": " + rec.errors.value[i].message
    ensures rec.message != "" ==> r[|r| - 1] == rec.message
  {
    (match rec.errors
     case None => []
     case Some(es) => ErrorNotes(es))
    + (if rec.message != "" then [rec.message] else [])
  }

  function FailureNotes(fs: seq<RecordResult>): (r: seq<string>)
    ensures forall i :: 0 <= i < |fs| && fs[i].message != "" ==> fs[i].message in r
  {
    if |fs| == 0 then []
    else
      var rest := FailureNotes(fs[1..]);
      assert forall i :: 1 <= i < |fs| ==> fs[i] == fs[1..][i - 1];
      RecordNotes(fs[0]) + rest
  }

  /** The toasts of a batch are the toasts of its parts, in order. */
  lemma {:induction false} FailureNotesAppend(a: seq<RecordResult>, b: seq<RecordResult>)
    ensures FailureNotes(a + b) == FailureNotes(a) + FailureNotes(b)
  {
    if |a| == 0 {
      assert a + b == b;
    } else {
      assert (a + b)[0] == a[0];
      assert (a + b)[1..] == a[1..] + b;
      FailureNotesAppend(a[1..], b);
      assert FailureNotes(a + b) == RecordNotes(a[0]) + (FailureNotes(a[1..]) + FailureNotes(b));
    }
  }

  /** `note` is a toast the failed result `rec` can raise. */
  predicate NoteOf(rec: RecordResult, note: string) {
    || (rec.message != "" && note == rec.message)
    || (rec.errors.Some? && exists e :: e in rec.errors.value && note == e.fieldLabel + ": " + e.message)
  }

  /** Each toast is either a `"label: message"` for an error of one of the
      records, or the message of one of them. */
  lemma {:induction false} FailureNotesOrigin(fs: seq<RecordResult>, note: string)
    requires note in FailureNotes(fs)
    ensures exists i :: 0 <= i < |fs| && NoteOf(fs[i], note)
  {
    if note in RecordNotes(fs[0]) {
      if fs[0].errors.Some? && note in ErrorNotes(fs[0].errors.value) {
        var es := fs[0].errors.value;
        var j :| 0 <= j < |es| && ErrorNotes(es)[j] == note;
        assert es[j] in es;
      }
      assert NoteOf(fs[0], note);
    } else {
      FailureNotesOrigin(fs[1..], note);
      var i :| 0 <= i < |fs[1..]| && NoteOf(fs[1..][i], note);
      assert fs[1..][i] == fs[i + 1];
    }
  }

  // ---- Return rules ----

  /** `create`/`update`: the data of the first successful result; `None` when
      the call failed, the response says it failed, there are no results, or
      none succeeded. */
  function SaveOutcome(call: Call<MutationResponse>): (r: Saved)
    ensures !(call.Answered? && call.response.success && call.response.results.Some?) ==> r.report.None?
    ensures call.Answered? && call.response.success && call.response.results.Some? ==>
      var rs := call.response.results.value;
      r.report == (match FirstSuccess(rs) case None => None case Some(i) => rs[i].data)
    ensures !call.Answered? ==> r.notes == []
    ensures call.Answered? && !call.response.success ==> r.notes == [call.response.message]
    ensures call.Answered? && call.response.success && call.response.results.Some? ==>
      r.notes == FailureNotes(Failures(call.response.results.value))
    ensures call.Answered? && call.response.success && call.response.results.None? ==> r.notes == []
  {
    match call
    case Threw => Saved(None, [])
    case NoResponse => Saved(None, [])
    case Answered(resp) =>
      if !resp.success then Saved(None, [resp.message])
      else match resp.results
        case None => Saved(None, [])
        case Some(rs) =>
          FirstOfSuccesses(rs);
          var ok := Successes(rs);
          Saved(if |ok| > 0 then ok[0].data else None, FailureNotes(Failures(rs)))
  }

  /** A batch in which every result succeeded raises no toast. */
  lemma AllSucceededNoNotes(resp: MutationResponse)
    requires resp.success && resp.results.Some?
    requires forall i :: 0 <= i < |resp.results.value| ==> resp.results.value[i].success
    ensures SaveOutcome(Answered(resp)).notes == []
  {

  }

  /** A rejected create with one field error returns nothing and raises the
      single toast for that field. */
  lemma RejectedCreateToastsFieldError()
    ensures var resp := MutationResponse(true, "", Some([RecordResult(false, None, "", Some([FieldError("Name", "required")]))]));
      SaveOutcome(Answered(resp)) == Saved(None, ["Name: required"])
  {
    var rec := RecordResult(false, None, "", Some([FieldError("Name", "required")]));
    assert Failures([rec]) == [rec];
    assert "Name" + ": " + "required" == "Name: required";
    assert ErrorNotes([FieldError("Name", "required")]) == ["Name: required"];
    assert RecordNotes(rec) == ["Name: required"];
    assert FailureNotes([rec]) == RecordNotes(rec) + FailureNotes([]);
  }

  /** The `message` of each result, in order. */
  function Messages(fs: seq<RecordResult>): (r: seq<string>)
    ensures |r| == |fs|
    ensures forall i :: 0 <= i < |fs| ==> r[i] == fs[i].message
  {
    seq(|fs|, i requires 0 <= i < |fs| => fs[i].message)
  }

  /** The toasts `delete` raises for a batch: the message of each failed result
      that has one, in order. */
  function DeleteNotes(fs: seq<RecordResult>): (r: seq<string>)
    ensures IsSubseq(r, Messages(fs))
    ensures forall m :: m in r ==> m != ""
    ensures forall i :: 0 <= i < |fs| && fs[i].message != "" ==> fs[i].message in r
  {
    if |fs| == 0 then []
    else
      var rest := DeleteNotes(fs[1..]);
      assert Messages(fs)[1..] == Messages(fs[1..]);
      assert forall i :: 1 <= i < |fs| ==> fs[i] == fs[1..][i - 1];
      if fs[0].message != "" then
        assert ([fs[0].message] + rest)[1..] == rest;
        [fs[0].message] + rest
      else
        rest
  }

  /** One toast per failed result with a message: the count of toasts is the
      number of positions holding such a result. */
  lemma {:induction false} DeleteNotesCount(fs: seq<RecordResult>, k: nat)
    requires k <= |fs|
    ensures |DeleteNotes(fs[k..])| == |set i | k <= i < |fs| && fs[i].message != ""|
    decreases |fs| - k
  {
    if k < |fs| {
      DeleteNotesCount(fs, k + 1);
      assert fs[k..][1..] == fs[k + 1..];
      assert fs[k..][0] == fs[k];
      var here := set i | k <= i < |fs| && fs[i].message != "";
      var later := set i | k + 1 <= i < |fs| && fs[i].message != "";
      assert k !in later;
      if fs[k].message != "" {
        assert here == {k} + later;
      } else {
        assert here == later;
      }
    }
  }

  /** `delete(ids)`: true exactly when the response succeeded, carries results,
      and as many results succeeded as ids were asked for. */
  function DeleteOutcome(ids: seq<Value>, call: Call<MutationResponse>): (r: Deleted)
    ensures r.ok <==> call.Answered? && call.response.success && call.response.results.Some?
                      && |Successes(call.response.results.value)| == |ids|
    ensures !call.Answered? ==> r.notes == []
    ensures call.Answered? && !call.response.success ==> r.notes == [call.response.message]
    ensures call.Answered? && call.response.success && call.response.results.Some? ==>
      r.notes == DeleteNotes(Failures(call.response.results.value))
    ensures call.Answered? && call.response.success && call.response.results.None? ==> r.notes == []
  {
    match call
    case Threw => Deleted(false, [])
    case NoResponse => Deleted(false, [])
    case Answered(resp) =>
      if !resp.success then Deleted(false, [resp.message])
      else match resp.results
        case None => Deleted(false, [])
        case Some(rs) => Deleted(|Successes(rs)| == |ids|, DeleteNotes(Failures(rs)))
  }

  /** When one result comes back per id, `delete` reports success exactly when
      no result failed. */
  lemma DeleteOkIffNoFailure(ids: seq<Value>, resp: MutationResponse)
    requires resp.success && resp.results.Some? && |resp.results.value| == |ids|
    ensures DeleteOutcome(ids, Answered(resp)).ok <==> Failures(resp.results.value) == []
  {
    ResultsPartition(resp.results.value);
  }

  /** `getAll`: the response's data, `[]` when it has none, and `[]` on any
      failure. */
  function ListOutcome(call: Call<ListResponse>): (r: Listed)
    ensures call.Answered? && call.response.success && call.response.data.Some? ==>
      r.reports == call.response.data.value
    ensures call.Answered? && call.response.success && call.response.data.None? ==> r.reports == []
    ensures !(call.Answered? && call.response.success) ==> r.reports == []
    ensures r.notes == (if call.Answered? && !call.response.success then [call.response.message] else [])
  {
    match call
    case Answered(resp) =>
      if !resp.success then Listed([], [resp.message]) else Listed(resp.data.GetOr([]), [])
    case _ => Listed([], [])
  }

  /** `getById`: the response's data, `None` when the call failed, returned
      nothing or returned no data. */
  function FetchOutcome(call: Call<ByIdResponse>): (r: Option<Record>)
    ensures r.Some? <==> call.Answered? && call.response.data.Some?
    ensures r.Some? ==> r == call.response.data
  {
    match call
    case Answered(resp) => resp.data
    case _ => None
  }
}
