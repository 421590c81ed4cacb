/** The JavaScript string operations the client leans on: `trim`,
    `toLowerCase`/`toUpperCase`, `startsWith`, `includes`, `split`/`join`,
    `String(n)` for integers and `parseInt` without a radix.

    Case mapping covers the ASCII letters only; the whitespace set is the one
    ECMAScript uses for `trim` and `parseInt` (WhiteSpace and LineTerminator). */
module JsText {
  import opened Maybe

  /** ECMAScript WhiteSpace or LineTerminator code point. */
  predicate IsSpace(c: char) {
    var n := c as int;
    || n == 0x09 || n == 0x0A || n == 0x0B || n == 0x0C || n == 0x0D || n == 0x20
    || n == 0xA0 || n == 0x1680 || (0x2000 <= n <= 0x200A) || n == 0x2028
    || n == 0x2029 || n == 0x202F || n == 0x205F || n == 0x3000 || n == 0xFEFF
  }

  predicate AllSpace(s: string) {
    forall k :: 0 <= k < |s| ==> IsSpace(s[k])
  }

  /** Number of whitespace characters at the start of `s`. */
  function LeadingSpaces(s: string): (n: nat)
    ensures n <= |s|
    ensures forall k :: 0 <= k < n ==> IsSpace(s[k])
    ensures n < |s| ==> !IsSpace(s[n])
  {
    if |s| == 0 || !IsSpace(s[0]) then 0 else 1 + LeadingSpaces(s[1..])
  }

  /** Number of whitespace characters at the end of `s`. */
  function TrailingSpaces(s: string): (n: nat)
    ensures n <= |s|
    ensures forall k :: |s| - n <= k < |s| ==> IsSpace(s[k])
    ensures n < |s| ==> !IsSpace(s[|s| - 1 - n])
  {
    if |s| == 0 || !IsSpace(s[|s| - 1]) then 0 else 1 + TrailingSpaces(s[..|s| - 1])
  }

  /** `s.trim()`: the slice of `s` between its leading and trailing whitespace. */
  function Trim(s: string): (r: string)
    ensures LeadingSpaces(s) + |r| <= |s|
    ensures r == s[LeadingSpaces(s)..LeadingSpaces(s) + |r|]
    ensures r == [] <==> AllSpace(s)
    ensures r != [] ==> !IsSpace(r[0]) && !IsSpace(r[|r| - 1])
    ensures AllSpace(s[LeadingSpaces(s) + |r|..])
  {
    var a := LeadingSpaces(s);
    var t := s[a..];
    var r := t[..|t| - TrailingSpaces(t)];
    assert r == s[a..a + |r|];
    TrimEnds(s, a, t);
    TrimTail(s, a, t);
    r
  }

  /** The trimmed text is empty exactly when `s` is all whitespace, and
      otherwise starts and ends with a non-blank character. */
  lemma TrimEnds(s: string, a: nat, t: string)
    requires a == LeadingSpaces(s) && t == s[a..]
    ensures |t| - TrailingSpaces(t) == 0 <==> AllSpace(s)
    ensures |t| - TrailingSpaces(t) > 0 ==>
      !IsSpace(t[0]) && !IsSpace(t[|t| - TrailingSpaces(t) - 1])
  {
    if a < |s| {
      TrailingSpacesOfTrimStart(s);
      assert t[0] == s[a];
    } else {
      assert forall k :: 0 <= k < |s| ==> IsSpace(s[k]);
    }
  }

  /** What follows the trimmed text in `s` is the trailing whitespace. */
  lemma TrimTail(s: string, a: nat, t: string)
    requires a <= |s| && t == s[a..]
    ensures AllSpace(s[a + (|t| - TrailingSpaces(t))..])
  {
    assert s[a + (|t| - TrailingSpaces(t))..] == t[|t| - TrailingSpaces(t)..];
  }

  /** Once leading whitespace is gone, trailing whitespace stops short of a
      non-blank remainder. */
  lemma TrailingSpacesOfTrimStart(s: string)
    ensures LeadingSpaces(s) < |s| ==>
      TrailingSpaces(s[LeadingSpaces(s)..]) < |s| - LeadingSpaces(s)
  {
    var a := LeadingSpaces(s);
    var t := s[a..];
    if a < |s| {
      assert t[0] == s[a];
    }
  }

  lemma TrimIdempotent(s: string)
    ensures Trim(Trim(s)) == Trim(s)
  {
    var r := Trim(s);
    assert LeadingSpaces(r) == 0;
    if r != [] {
      assert TrailingSpaces(r[LeadingSpaces(r)..]) == 0 by {
        assert r[LeadingSpaces(r)..] == r;
      }
    }
  }

  function LowerChar(c: char): char {
    if 'A' <= c <= 'Z' then (c as int + 32) as char else c
  }

  function UpperChar(c: char): char {
    if 'a' <= c <= 'z' then (c as int - 32) as char else c
  }

  /** `s.toLowerCase()` on the ASCII letters. */
  function ToLower(s: string): (r: string)
    ensures |r| == |s|
    ensures forall k :: 0 <= k < |s| ==> r[k] == LowerChar(s[k])
  {
    seq(|s|, k requires 0 <= k < |s| => LowerChar(s[k]))
  }

  /** `s.toUpperCase()` on the ASCII letters. */
  function ToUpper(s: string): (r: string)
    ensures |r| == |s|
    ensures forall k :: 0 <= k < |s| ==> r[k] == UpperChar(s[k])
  {
    seq(|s|, k requires 0 <= k < |s| => UpperChar(s[k]))
  }

  /** `s.startsWith(p)`. */
  predicate StartsWith(s: string, p: string) {
    |p| <= |s| && s[..|p|] == p
  }

  /** `h.includes(n)`: `n` occurs in `h` at some offset. */
  predicate Includes(h: string, n: string)
    decreases |h|
  {
    StartsWith(h, n) || (|h| > 0 && Includes(h[1..], n))
  }

  /** `includes` agrees with the positional definition of a substring. */
  lemma {:induction false} IncludesIffOccurs(h: string, n: string)
    ensures Includes(h, n) <==> exists i :: 0 <= i <= |h| && StartsWith(h[i..], n)
    decreases |h|
  {
    if Includes(h, n) {
      if StartsWith(h, n) {
        assert h[0..] == h;
      } else {
        IncludesIffOccurs(h[1..], n);
        var i :| 0 <= i <= |h| - 1 && StartsWith(h[1..][i..], n);
        assert h[1..][i..] == h[i + 1..];
      }
    } else {
      forall i | 0 <= i <= |h|
        ensures !StartsWith(h[i..], n)
      {
        if i > 0 {
          IncludesIffOccurs(h[1..], n);
          assert h[1..][i - 1..] == h[i..];
        }
      }
    }
  }

  /** Every string includes the empty string, so an empty search term keeps
      every string-valued field. */
  lemma {:induction false} IncludesEmpty(h: string)
    ensures Includes(h, "")
  {
    assert StartsWith(h, "");
  }

  /** `s.split(sep)` for a one-character separator: the pieces between the
      occurrences of `sep`, including empty ones; `"".split(sep)` is `[""]`. */
  function Split(s: string, sep: char): (parts: seq<string>)
    ensures |parts| >= 1
    ensures forall k :: 0 <= k < |parts| ==> sep !in parts[k]
  {
    if |s| == 0 then [""]
    else
      var rest := Split(s[1..], sep);
      if s[0] == sep then [""] + rest
      else [[s[0]] + rest[0]] + rest[1..]
  }

  /** `parts.join(sep)`. */
  function Join(parts: seq<string>, sep: string): string {
    if |parts| == 0 then ""
    else if |parts| == 1 then parts[0]
    else parts[0] + sep + Join(parts[1..], sep)
  }

  function CountChar(s: string, c: char): nat {
    if |s| == 0 then 0 else (if s[0] == c then 1 else 0) + CountChar(s[1..], c)
  }

  /** Splitting and joining back with the same separator gives the original string. */
  lemma {:induction false} JoinSplit(s: string, sep: char)
    ensures Join(Split(s, sep), [sep]) == s
  {
    if |s| > 0 {
      var rest := Split(s[1..], sep);
      JoinSplit(s[1..], sep);
      if s[0] == sep {
        assert Split(s, sep)[1..] == rest;
      } else {
        var parts := Split(s, sep);
        if |rest| == 1 {
          assert parts == [[s[0]] + rest[0]];
        } else {
          assert parts[1..] == rest[1..];
          assert Join(rest, [sep]) == rest[0] + [sep] + Join(rest[1..], [sep]);
        }
        assert s == [s[0]] + s[1..];
      }
    }
  }

  /** There is one more piece than there are separators. */
  lemma {:induction false} SplitCount(s: string, sep: char)
    ensures |Split(s, sep)| == CountChar(s, sep) + 1
  {
    if |s| > 0 {
      SplitCount(s[1..], sep);
    }
  }

  predicate IsDecDigit(c: char) {
    '0' <= c <= '9'
  }

  /** A digit of radix 16 when `hex`, of radix 10 otherwise. */
  predicate IsDigitOf(c: char, hex: bool) {
    IsDecDigit(c) || (hex && ('a' <= c <= 'f' || 'A' <= c <= 'F'))
  }

  function DigitValue(c: char): nat
    requires IsDigitOf(c, true)
  {
    if IsDecDigit(c) then c as int - '0' as int
    else if 'a' <= c <= 'f' then c as int - 'a' as int + 10
    else c as int - 'A' as int + 10
  }

  /** Length of the longest prefix of `s` made of digits of the radix. */
  function DigitRun(s: string, hex: bool): (n: nat)
    ensures n <= |s|
    ensures forall k :: 0 <= k < n ==> IsDigitOf(s[k], hex)
    ensures n < |s| ==> !IsDigitOf(s[n], hex)
  {
    if |s| == 0 || !IsDigitOf(s[0], hex) then 0 else 1 + DigitRun(s[1..], hex)
  }

  /** Positional value of a digit string in radix 16 or 10. */
  function DigitsValue(z: string, hex: bool): nat
    requires forall k :: 0 <= k < |z| ==> IsDigitOf(z[k], hex)
  {
    if |z| == 0 then 0
    else
      assert IsDigitOf(z[|z| - 1], hex);
      DigitsValue(z[..|z| - 1], hex) * (if hex then 16 else 10) + DigitValue(z[|z| - 1])
  }

  /** `parseInt(s)` without a radix: skip leading whitespace, take an optional
      sign, switch to radix 16 after a `0x`/`0X` prefix, then read the longest
      run of digits; no digits gives `NaN`, here `None`. */
  function ParseInt(s: string): (r: Option<int>)
    ensures LeadingSpaces(s) == |s| ==> r.None?
    ensures r.Some? && r.value < 0 ==> LeadingSpaces(s) < |s| && s[LeadingSpaces(s)] == '-'
  {
    var t := s[LeadingSpaces(s)..];
    var neg := |t| > 0 && t[0] == '-';
    var u := if |t| > 0 && (t[0] == '-' || t[0] == '+') then t[1..] else t;
    var hex := |u| >= 2 && u[0] == '0' && (u[1] == 'x' || u[1] == 'X');
    var w := if hex then u[2..] else u;
    var z := w[..DigitRun(w, hex)];
    if |z| == 0 then None
    else Some(if neg then -(DigitsValue(z, hex) as int) else DigitsValue(z, hex))
  }

  /** A number is read only from text that holds a decimal digit: even a hex
      run starts after the digit `0` of its `0x`. */
  lemma ParseIntNeedsADigit(s: string)
    requires ParseInt(s).Some?
    ensures exists k :: 0 <= k < |s| && IsDecDigit(s[k])
  {
  }

  function DigitChar(d: nat): (c: char)
    requires d < 10
    ensures IsDecDigit(c) && DigitValue(c) == d
  {
    ('0' as int + d) as char
  }

  /** `String(n)` for a natural number: its decimal digits, most significant first. */
  function NatToString(n: nat): (r: string)
    ensures |r| >= 1
    ensures forall k :: 0 <= k < |r| ==> IsDecDigit(r[k])
  {
    if n < 10 then [DigitChar(n)] else NatToString(n / 10) + [DigitChar(n % 10)]
  }

  /** `String(n)` for an integer (magnitudes below 10^21, where JavaScript
      still prints plain decimal). */
  function IntToString(n: int): string {
    if n < 0 then "-" + NatToString(-n) else NatToString(n)
  }

  lemma {:induction false} NatToStringValue(n: nat)
    ensures DigitsValue(NatToString(n), false) == n
  {
    if n >= 10 {
      var r := NatToString(n);
      NatToStringValue(n / 10);
      assert r[..|r| - 1] == NatToString(n / 10);
    }
  }

  lemma DecimalRunIsWhole(u: string)
    requires |u| >= 1
    requires forall k :: 0 <= k < |u| ==> IsDecDigit(u[k])
    ensures DigitRun(u, false) == |u|
    ensures !(|u| >= 2 && u[0] == '0' && (u[1] == 'x' || u[1] == 'X'))
  {
  }

  /** `parseInt(String(n)) === n`: printing an integer and parsing it back is
      the identity. */
  lemma ParseIntOfIntToString(n: int)
    ensures ParseInt(IntToString(n)) == Some(n)
  {
    var s := IntToString(n);
    var m: nat := if n < 0 then -n else n;
    var u := NatToString(m);
    assert LeadingSpaces(s) == 0;
    assert s[0..] == s;
    if n < 0 {
      assert s[1..] == u;
    }
    DecimalRunIsWhole(u);
    assert u[..|u|] == u;
    NatToStringValue(m);
  }

  /** `parseInt` of text with no leading digit is `NaN`. */
  lemma ParseIntNoDigits()
    ensures ParseInt("") == None
    ensures ParseInt("abc") == None
    ensures ParseInt("0x") == None
  {
    assert LeadingSpaces("") == 0 && ""[0..] == "";
    assert DigitRun("", false) == 0;
    assert !IsSpace('a') && LeadingSpaces("abc") == 0;
    assert "abc"[0..] == "abc";
    assert !IsDigitOf('a', false) && DigitRun("abc", false) == 0;
    assert !IsSpace('0') && LeadingSpaces("0x") == 0;
    assert "0x"[0..] == "0x";
    assert "0x"[2..] == "";
    assert DigitRun("", true) == 0;
  }

  /** `parseInt` skips leading blanks and stops at the first non-digit. */
  lemma ParseIntStopsAtNonDigit()
    ensures ParseInt(" 42px") == Some(42)
  {
    assert LeadingSpaces(" 42px") == 1;
    assert " 42px"[1..] == "42px";
    assert DigitRun("42px", false) == 2;
    assert "42px"[..2] == "42";
    assert "42"[..1] == "4";
    assert "4"[..0] == "";
    assert DigitsValue("4", false) == 4;
    assert DigitsValue("42", false) == 42;
  }

  /** `parseInt` reads a signed hexadecimal literal. */
  lemma ParseIntHex()
    ensures ParseInt("-0x1A") == Some(-26)
  {
    var s := "-0x1A";
    assert LeadingSpaces(s) == 0;
    assert s[0..] == s;
    assert s[1..] == "0x1A";
    assert "0x1A"[2..] == "1A";
    HexDigitsOneA();
  }

  lemma HexDigitsOneA()
    ensures DigitRun("1A", true) == 2
    ensures "1A"[..2] == "1A"
    ensures DigitsValue("1A", true) == 26
  {
    assert "1A"[..1] == "1";
    assert "1"[..0] == "";
    assert DigitsValue("1", true) == 1;
  }
}
