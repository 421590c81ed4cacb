/** The activity form: type, description and contact of a logged activity,
    their validation, error clearing, and the trimmed record handed to the
    page on submit. */
module ActivityForm {
  import opened Maybe
  import opened JsText
  import opened JsValue
  import opened FormErrors

  /** The inputs; `Kind` is the activity's `type`. */
  datatype Field = Kind | Description | ContactId

  /** `contactId` keeps whatever the edited activity held (a number in stored
      activities, text once picked from the list). */
  datatype Draft = Draft(kind: string, description: string, contactId: Value)

  datatype State = State(data: Draft, errors: map<Field, string>)

  /** The form opened for a new activity. */
  const Default := Draft("email", "", Str(""))

  /** The shortest description accepted, counted after trimming. */
  const MinDescription := 10

  function FieldValue(d: Draft, f: Field): Value {
    match f
    case Kind => Str(d.kind)
    case Description => Str(d.description)
    case ContactId => d.contactId
  }

  /** `{...prev, [field]: value}` with the text the input produced. */
  function SetField(d: Draft, f: Field, v: string): (r: Draft)
    ensures FieldValue(r, f) == Str(v)
    ensures forall g :: g != f ==> FieldValue(r, g) == FieldValue(d, g)
  {
    match f
    case Kind => d.(kind := v)
    case Description => d.(description := v)
    case ContactId => d.(contactId := Str(v))
  }

  /** `handleChange(field, value)`: one input changes and only its error is hidden. */
  function HandleChange(s: State, f: Field, v: string): (r: State)
    ensures FieldValue(r.data, f) == Str(v) && !Shows(r.errors, f)
    ensures forall g :: g != f ==> FieldValue(r.data, g) == FieldValue(s.data, g)
    ensures forall g :: g != f ==> (g in r.errors <==> g in s.errors)
    ensures forall g :: g != f && g in s.errors ==> r.errors[g] == s.errors[g]
  {
    State(SetField(s.data, f, v), Clear(s.errors, f))
  }

  /** Changes to different inputs can be made in either order. */
  lemma HandleChangeCommutes(s: State, f: Field, g: Field, v: string, w: string)
    requires f != g
    ensures HandleChange(HandleChange(s, f, v), g, w).data == HandleChange(HandleChange(s, g, w), f, v).data
  {
  }

  /** Text a stored field can hold: a string, or a falsy value read as `''`. */
  predicate TextLike(v: Value) {
    v.Str? || !Truthy(v)
  }

  /** The form opened on an existing activity: stored values that are truthy
      are shown, missing ones fall back to the defaults of a new one. */
  function FromActivity(a: Record): (d: Draft)
    requires TextLike(Get(a, "type")) && TextLike(Get(a, "description"))
    ensures !Truthy(Get(a, "type")) ==> d.kind == Default.kind
    ensures Truthy(Get(a, "type")) ==> Str(d.kind) == Get(a, "type")
    ensures !Truthy(Get(a, "description")) ==> d.description == Default.description
    ensures Truthy(Get(a, "description")) ==> Str(d.description) == Get(a, "description")
    ensures Truthy(Get(a, "contactId")) ==> d.contactId == Get(a, "contactId")
    ensures !Truthy(Get(a, "contactId")) ==> d.contactId == Default.contactId
  {
    Draft(if Truthy(Get(a, "type")) then Get(a, "type").s else "email",
          if Truthy(Get(a, "description")) then Get(a, "description").s else "",
          if Truthy(Get(a, "contactId")) then Get(a, "contactId") else Str(""))
  }

  /** Editing an activity with no fields opens the form of a new one. */
  lemma EmptyActivityOpensDefault()
    ensures FromActivity(map[]) == Default
  {
  }

  /** The description check: required, then at least ten characters, both
      on the trimmed text. */
  function DescriptionError(desc: string): (r: Option<string>)
    ensures r.Some? <==> |Trim(desc)| < MinDescription
    ensures r == Some("Description is required") <==> Trim(desc) == ""
  {
    if Trim(desc) == "" then Some("Description is required")
    else if |Trim(desc)| < MinDescription then Some("Description must be at least 10 characters")
    else None
  }

  /** The message `validateForm` records for one field, if its check fails. */
  function Check(d: Draft, f: Field): Option<string> {
    match f
    case Kind => if d.kind == "" then Some("Activity type is required") else None
    case Description => DescriptionError(d.description)
    case ContactId => if !Truthy(d.contactId) then Some("Contact selection is required") else None
  }

  /** `validateForm`: a field has an error exactly when its check fails. */
  function Validate(d: Draft): (errs: map<Field, string>)
    ensures forall f :: f in errs <==> Check(d, f).Some?
    ensures forall f :: f in errs ==> Shows(errs, f) && errs[f] == Check(d, f).value
  {
    map f | f in {Kind, Description, ContactId} && Check(d, f).Some? :: Check(d, f).value
  }

  predicate Valid(d: Draft) {
    NoErrors(Validate(d))
  }

  /** The form is valid exactly when a type is chosen, the trimmed
      description has at least ten characters and a contact is chosen. */
  lemma ValidIff(d: Draft)
    ensures Valid(d) <==> d.kind != "" && |Trim(d.description)| >= MinDescription && Truthy(d.contactId)
  {
    var errs := Validate(d);
    if |errs| != 0 {
      var f :| f in errs;
      assert Check(d, f).Some?;
    } else {
      assert errs == map[];
      assert Check(d, Kind).None? && Check(d, Description).None? && Check(d, ContactId).None?;
    }
  }

  /** The record handed to `onSubmit`: the form's data with the description
      trimmed. */
  function SubmitData(d: Draft): (r: Record)
    ensures Get(r, "type") == Str(d.kind)
    ensures Get(r, "description") == Str(Trim(d.description))
    ensures Get(r, "contactId") == d.contactId
  {
    map["type" := Str(d.kind), "description" := Str(Trim(d.description)), "contactId" := d.contactId]
  }

  /** A submitted description has at least ten characters and no surrounding
      whitespace. */
  lemma SubmittedDescriptionIsClean(d: Draft)
    requires Valid(d)
    ensures var desc := Get(SubmitData(d), "description").s;
      |desc| >= MinDescription && !IsSpace(desc[0]) && !IsSpace(desc[|desc| - 1])
  {
    ValidIff(d);
  }

  /** Trimming the description before validating changes no verdict: the
      submitted description passes the same checks. */
  lemma TrimmedDraftValidatesAlike(d: Draft)
    ensures Validate(d.(description := Trim(d.description))) == Validate(d)
  {
    var d' := d.(description := Trim(d.description));
    ChecksIgnoreTrimming(d);
    var a, b := Validate(d'), Validate(d);
    assert forall f :: f in a <==> f in b;
    assert forall f :: f in a ==> a[f] == b[f];
  }

  /** Each field's check gives the same answer on the trimmed draft. */
  lemma ChecksIgnoreTrimming(d: Draft)
    ensures forall f :: Check(d.(description := Trim(d.description)), f) == Check(d, f)
  {
    TrimIdempotent(d.description);
    var d' := d.(description := Trim(d.description));
    assert DescriptionError(d'.description) == DescriptionError(d.description);
    assert Check(d', Kind) == Check(d, Kind) && Check(d', ContactId) == Check(d, ContactId);
  }

  /** Opening a stored activity and submitting it unchanged hands back its
      type and contact, and its description trimmed (unchanged when it was
      already trimmed). */
  lemma EditRoundTrip(a: Record)
    requires TextLike(Get(a, "type")) && TextLike(Get(a, "description"))
    requires Truthy(Get(a, "type")) && Truthy(Get(a, "description")) && Truthy(Get(a, "contactId"))
    ensures Get(SubmitData(FromActivity(a)), "type") == Get(a, "type")
    ensures Get(SubmitData(FromActivity(a)), "contactId") == Get(a, "contactId")
    ensures Get(SubmitData(FromActivity(a)), "description") == Str(Trim(Get(a, "description").s))
    ensures Trim(Get(a, "description").s) == Get(a, "description").s ==>
      Get(SubmitData(FromActivity(a)), "description") == Get(a, "description")
  {
  }
}
