/** The error maps the forms keep next to their data. A message is shown when
    it is truthy; `handleChange` hides one by overwriting it with a falsy
    value (`undefined` in the company form, `''` in the others), modelled here
    as the empty string. */
module FormErrors {
  /** The field has a visible error message. */
  predicate Shows<F(==,!new)>(errs: map<F, string>, f: F) {
    f in errs && errs[f] != ""
  }

  /** `if (errors[f]) setErrors({...errors, [f]: falsy})` */
  function Clear<F(==,!new)>(errs: map<F, string>, f: F): (r: map<F, string>)
    ensures !Shows(r, f)
    ensures forall g :: g != f ==> (g in r <==> g in errs)
    ensures forall g :: g != f && g in errs ==> r[g] == errs[g]
    ensures forall g :: Shows(r, g) ==> Shows(errs, g)
  {
    if Shows(errs, f) then errs[f := ""] else errs
  }

  /** Clearing a field twice is clearing it once. */
  lemma ClearIdempotent<F(!new)>(errs: map<F, string>, f: F)
    ensures Clear(Clear(errs, f), f) == Clear(errs, f)
  {
  }

  /** `Object.keys(errors).length === 0` */
  predicate NoErrors<F(==,!new)>(errs: map<F, string>) {
    |errs| == 0
  }
}
