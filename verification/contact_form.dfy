/** The contact form. Unlike the other forms its data is a plain record: on
    edit it is the stored contact itself. Five text fields are required; the
    MRR input is coerced to an integer as it is typed. */
module ContactForm {
  import opened Maybe
  import opened JsText
  import opened JsValue
  import opened FormErrors
  import ContactService

  datatype Field = FirstName | LastName | Email | Phone | Company | Role | Status | Mrr | Notes

  /** The property of the record an input edits. */
  function Key(f: Field): string {
    match f
    case FirstName => "firstName"
    case LastName => "lastName"
    case Email => "email"
    case Phone => "phone"
    case Company => "company"
    case Role => "role"
    case Status => "status"
    case Mrr => "mrr"
    case Notes => "notes"
  }

  /** The fields checked on submit; phone, status, MRR and notes never are. */
  const Required: set<Field> := {FirstName, LastName, Email, Company, Role}

  datatype State = State(data: Record, errors: map<Field, string>)

  /** The value the MRR input hands to `handleChange`: `parseInt(text) || 0`. */
  function MrrInput(text: string): (v: Value)
    ensures v.Num?
    ensures ParseInt(text).Some? && ParseInt(text).value != 0 ==> v == Num(ParseInt(text).value)
    ensures !(ParseInt(text).Some? && ParseInt(text).value != 0) ==> v == Num(0)
  {
    Num(ParseIntOr(Str(text), 0))
  }

  /** `handleChange(field, value)`: one property changes and only its error is hidden. */
  function HandleChange(s: State, f: Field, v: Value): (r: State)
    ensures Get(r.data, Key(f)) == v && !Shows(r.errors, f)
    ensures forall k :: k != Key(f) ==> Get(r.data, k) == Get(s.data, k)
    ensures forall g :: g != f ==> (g in r.errors <==> g in s.errors)
    ensures forall g :: g != f && g in s.errors ==> r.errors[g] == s.errors[g]
  {
    State(s.data[Key(f) := v], Clear(s.errors, f))
  }

  /** The required property holds text, so `.trim()` can be called on it. */
  predicate IsText(d: Record, f: Field) {
    Get(d, Key(f)).Str?
  }

  /** `!value.trim()` on a required text field. */
  predicate Missing(d: Record, f: Field)
    requires IsText(d, f)
  {
    Trim(Get(d, Key(f)).s) == ""
  }

  /** The message shown for a required property left blank. */
  function Message(f: Field): (m: string)
    requires f in Required
    ensures m != ""
  {
    match f
    case FirstName => "First name is required"
    case LastName => "Last name is required"
    case Email => "Email is required"
    case Company => "Company is required"
    case Role => "Role is required"
    case _ => assert false; ""
  }

  /** How a submit attempt ends: a required property that is not text makes
      `.trim()` throw; otherwise the errors are shown, or the record is sent. */
  datatype Submission = Threw | Rejected(errors: map<Field, string>) | Sent(data: Record)

  /** Every required property holds text. */
  predicate AllText(d: Record) {
    forall f :: f in Required ==> IsText(d, f)
  }

  /** The messages for the required properties left blank. */
  function Errors(d: Record): (errs: map<Field, string>)
    requires AllText(d)
    ensures forall f :: f in errs <==> f in Required && Missing(d, f)
    ensures forall f :: f in errs ==> errs[f] == Message(f) && Shows(errs, f)
  {
    map f | f in Required && Missing(d, f) :: Message(f)
  }

  /** `handleSubmit` up to the service call. */
  function Submit(d: Record): (r: Submission)
    ensures r.Threw? <==> exists f :: f in Required && !IsText(d, f)
    ensures r.Rejected? ==> |r.errors| > 0 && forall f :: f in r.errors <==> f in Required && Missing(d, f)
    ensures r.Rejected? ==> forall f :: f in r.errors ==> r.errors[f] == Message(f) && Shows(r.errors, f)
    ensures r.Sent? <==> forall f :: f in Required ==> IsText(d, f) && !Missing(d, f)
    ensures r.Sent? ==> r.data == d
  {
    if !AllText(d) then Threw
    else if |Errors(d)| > 0 then Rejected(Errors(d))
    else
      assert forall f :: f in Required ==> f !in Errors(d);
      Sent(d)
  }

  /** An unchecked input edits a property no check reads. */
  lemma UncheckedKeyDiffers(f: Field, g: Field)
    requires f !in Required && g in Required
    ensures Key(f) != Key(g)
  {
  }

  /** Setting an unchecked property leaves every checked one as it was. */
  lemma UncheckedEditKeepsChecked(d: Record, f: Field, v: Value)
    requires f !in Required
    ensures forall g :: g in Required ==> Get(d[Key(f) := v], Key(g)) == Get(d, Key(g))
  {
    forall g | g in Required
      ensures Get(d[Key(f) := v], Key(g)) == Get(d, Key(g))
    {
      UncheckedKeyDiffers(f, g);
    }
  }

  /** The properties no check reads do not change how a submit ends. */
  lemma UncheckedFieldsDoNotMatter(d: Record, f: Field, v: Value)
    requires f !in Required
    ensures Submit(d[Key(f) := v]).Threw? <==> Submit(d).Threw?
    ensures Submit(d[Key(f) := v]).Sent? <==> Submit(d).Sent?
    ensures Submit(d[Key(f) := v]).Rejected? ==> Submit(d[Key(f) := v]) == Submit(d)
  {
    var d' := d[Key(f) := v];
    UncheckedEditKeepsChecked(d, f, v);
    assert AllText(d') <==> AllText(d);
    if AllText(d) {
      assert Errors(d').Keys == Errors(d).Keys;
      assert Errors(d') == Errors(d);
    }
  }

  /** Typing a non-blank value into a required input removes that input's
      error from the next submit. */
  lemma FillingAFieldClearsItsError(s: State, f: Field, text: string)
    requires f in Required && AllText(s.data) && Trim(text) != ""
    ensures var r := Submit(HandleChange(s, f, Str(text)).data);
      !r.Threw? && (r.Rejected? ==> f !in r.errors)
  {
    var d' := HandleChange(s, f, Str(text)).data;
    assert Get(d', Key(f)) == Str(text);
    assert forall g :: g in Required ==> IsText(d', g);
    assert AllText(d');
    assert !Missing(d', f);
  }

  /** The MRR a contact was saved with from this form is stored unchanged by
      the service, whose own `parseInt(mrr) || 0` is then the identity. */
  lemma TypedMrrSurvivesService(store: seq<Record>, d: Record, text: string, now: string)
    requires Get(d, "mrr") == MrrInput(text)
    ensures Get(ContactService.Create(store, d, now).out.value, "mrr") == MrrInput(text)
  {
    var n := MrrInput(text).n;
    assert ParseIntOf(Num(n)) == Some(n);
  }
}
