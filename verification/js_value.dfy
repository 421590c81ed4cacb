/** JavaScript values and plain objects as the client manipulates them:
    truthiness, strict equality, `String(v)`, `parseInt(v)`, the `x || d`
    fallback idiom and object spread. Numbers are integers; the two infinities
    appear because `Math.max()` of nothing is `-Infinity`. */
module JsValue {
  import opened Maybe
  import opened JsText

  datatype Value =
    | Undefined
    | Null
    | Bool(b: bool)
    | Num(n: int)
    | NaN
    | Infinity(negative: bool)
    | Str(s: string)
    | Obj(fields: map<string, Value>)

  /** A plain object; a key it does not have reads as `undefined`. */
  type Record = map<string, Value>

  /** `r[k]` */
  function Get(r: Record, k: string): Value {
    if k in r then r[k] else Undefined
  }

  /** The six falsy values: `undefined`, `null`, `false`, `0`, `NaN` and `''`. */
  const Falsy: set<Value> := {Undefined, Null, Bool(false), Num(0), NaN, Str("")}

  /** JavaScript truthiness, case by case. */
  predicate Truthy(v: Value) {
    match v
    case Undefined => false
    case Null => false
    case Bool(b) => b
    case Num(n) => n != 0
    case NaN => false
    case Infinity(_) => true
    case Str(s) => s != ""
    case Obj(_) => true
  }

  /** A value is truthy exactly when it is not one of the six falsy values. */
  lemma TruthyIffNotFalsy(v: Value)
    ensures Truthy(v) <==> v !in Falsy
  {
  }

  predicate Nullish(v: Value) {
    v.Undefined? || v.Null?
  }

  /** `a === b`. `NaN` equals nothing; objects are compared by contents
      (object identity is not modelled). */
  function StrictEq(a: Value, b: Value): (r: bool)
    ensures r ==> a == b
    ensures a == b ==> (r <==> !a.NaN?)
  {
    !a.NaN? && a == b
  }

  /** `String(v)`: text is itself, and a number prints as digits that
      `parseInt` reads back. */
  function ToStr(v: Value): (r: string)
    ensures v.Str? ==> r == v.s
    ensures r == "" <==> v == Str("")
    ensures v.Num? ==> ParseInt(r) == Some(v.n)
  {
    match v
    case Undefined => "undefined"
    case Null => "null"
    case Bool(b) => if b then "true" else "false"
    case Num(n) => ParseIntOfIntToString(n); IntToString(n)
    case NaN => "NaN"
    case Infinity(neg) => if neg then "-Infinity" else "Infinity"
    case Str(s) => s
    case Obj(_) => "[object Object]"
  }

  /** `parseInt(v)`; `None` is `NaN`. */
  function ParseIntOf(v: Value): Option<int> {
    match v
    case Num(n) => Some(n)
    case Str(s) => ParseInt(s)
    case _ => None
  }

  /** `parseInt` converts its argument with `String` first; the shortcut taken
      by `ParseIntOf` for non-strings agrees with that. */
  lemma ParseIntOfIsParseOfString(v: Value)
    ensures ParseIntOf(v) == ParseInt(ToStr(v))
  {
    match v {
      case Num(n) => ParseIntOfIntToString(n);
      case Str(_) =>
      case _ => NoDigitParsesToNaN(ToStr(v));
    }
  }

  /** Text that starts with a letter, possibly after a sign, has no number in it. */
  lemma NoDigitParsesToNaN(s: string)
    requires |s| >= 2
    requires !IsSpace(s[0]) && !IsDecDigit(s[0])
    requires !IsDecDigit(s[1])
    ensures ParseInt(s) == None
  {
    assert LeadingSpaces(s) == 0;
    assert s[0..] == s;
  }

  /** The value `parseInt(v)` evaluates to. */
  function ParseIntValue(v: Value): (r: Value)
    ensures r.Num? || r.NaN?
    ensures r.Num? <==> ParseIntOf(v).Some?
  {
    match ParseIntOf(v)
    case Some(n) => Num(n)
    case None => NaN
  }

  /** `parseInt(v) || fallback`: the parsed integer unless it is `NaN` or 0. */
  function ParseIntOr(v: Value, fallback: int): (r: int)
    ensures r == fallback || (ParseIntOf(v) == Some(r) && r != 0)
    ensures ParseIntOf(v).Some? && ParseIntOf(v).value != 0 ==> r == ParseIntOf(v).value
  {
    match ParseIntOf(v)
    case Some(n) => if n != 0 then n else fallback
    case None => fallback
  }

  /** `{...a, ...b}`: keys of both, `b` winning on the shared ones. */
  function Spread(a: Record, b: Record): (r: Record)
    ensures r.Keys == a.Keys + b.Keys
    ensures forall k :: k in b ==> r[k] == b[k]
    ensures forall k :: k in a && k !in b ==> r[k] == a[k]
  {
    a + b
  }

  /** `v.toLowerCase().includes(term.toLowerCase())`; `None` when `v` is not a
      string, where the method call throws. */
  function LowerIncludes(v: Value, term: string): (r: Option<bool>)
    ensures r.Some? <==> v.Str?
  {
    if v.Str? then Some(Includes(ToLower(v.s), ToLower(term))) else None
  }

  /** `v?.toLowerCase().includes(term.toLowerCase())`: `undefined` (falsy) on a
      nullish `v`, a throw on any other non-string. */
  function OptLowerIncludes(v: Value, term: string): (r: Option<bool>)
    ensures r.Some? <==> v.Str? || Nullish(v)
    ensures r == Some(true) <==> v.Str? && Includes(ToLower(v.s), ToLower(term))
  {
    if Nullish(v) then Some(false) else LowerIncludes(v, term)
  }

  /** `a || b` on two conditions whose evaluation may throw: `b` is reached
      only when `a` evaluated to false. */
  function OrElse(a: Option<bool>, b: Option<bool>): (r: Option<bool>)
    ensures r == Some(true) <==> a == Some(true) || (a == Some(false) && b == Some(true))
    ensures r.None? <==> a.None? || (a == Some(false) && b.None?)
  {
    match a
    case None => None
    case Some(x) => if x then a else b
  }
}
