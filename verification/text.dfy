/** String helpers the backend and the client rely on: decimal text of
    numbers, Java's `Integer.valueOf`, Java's `String.isBlank`, JavaScript's
    `String.prototype.trim` and `slice(0, n)`, and the code-unit order that
    JavaScript's default `Array.prototype.sort` uses. */
module Text {
  import opened Wrappers

  // ---------------------------------------------------------------------
  // Decimal digits
  // ---------------------------------------------------------------------

  predicate IsDigit(c: char) {
    '0' <= c <= '9'
  }

  predicate AllDigits(s: string) {
    forall i :: 0 <= i < |s| ==> IsDigit(s[i])
  }

  function DigitValue(c: char): nat
    requires IsDigit(c)
  {
    (c as int) - ('0' as int)
  }

  function DigitChar(d: nat): (c: char)
    requires d < 10
    ensures IsDigit(c) && DigitValue(c) == d
  {
    (('0' as int) + d) as char
  }

  /** The number a string of decimal digits denotes (most significant first). */
  function DigitsValue(s: string): nat
    requires AllDigits(s)
    decreases |s|
  {
    if |s| == 0 then 0 else DigitsValue(s[..|s| - 1]) * 10 + DigitValue(s[|s| - 1])
  }

  /** Decimal text of a natural number, as `Long.toString` and JavaScript's
      number-to-string conversion write it: digits only, no leading zero. */
  function NatToString(n: nat): (s: string)
    ensures |s| > 0 && AllDigits(s)
    ensures DigitsValue(s) == n
    ensures s[0] == '0' ==> n == 0
    decreases n
  {
    if n < 10 then [DigitChar(n)]
    else
      var front := NatToString(n / 10);
      var s := front + [DigitChar(n % 10)];
      assert s[..|s| - 1] == front;
      s
  }

  /** `Long.toString` of any integer: a minus sign before the digits of a negative number. */
  function IntToString(n: int): (s: string)
    ensures |s| > 0
    ensures n < 0 <==> s[0] == '-'
  {
    if n < 0 then "-" + NatToString(-n) else NatToString(n)
  }

  /** Distinct numbers print differently. */
  lemma IntToStringInjective(a: int, b: int)
    requires IntToString(a) == IntToString(b)
    ensures a == b
  {
    var s := IntToString(a);
    if a < 0 {
      assert s[1..] == NatToString(-a) == NatToString(-b);
    }
  }

  // ---------------------------------------------------------------------
  // Java's Integer.valueOf(String)
  // ---------------------------------------------------------------------

  const IntMin: int := -0x8000_0000
  const IntMax: int := 0x7fff_ffff

  /** `Integer.valueOf(s)`: an optional `+` or `-`, then at least one digit,
      and a value that fits in 32 bits; anything else is a
      `NumberFormatException` (here: `None`). */
  function ParseJavaInt(s: string): (r: Option<int>)
    ensures r.Some? ==> IntMin <= r.value <= IntMax
    ensures r.Some? ==> |s| > 0 && (IsDigit(s[0]) || s[0] == '-' || s[0] == '+')
    ensures var k := if |s| > 0 && (s[0] == '-' || s[0] == '+') then 1 else 0;
      var magnitude := if k < |s| && AllDigits(s[k..]) then DigitsValue(s[k..]) else 0;
      var v := if k == 1 && s[0] == '-' then -magnitude else magnitude;
      && (r.Some? <==> k < |s| && AllDigits(s[k..]) && IntMin <= v <= IntMax)
      && (r.Some? ==> r.value == v)
  {
    if |s| == 0 then None
    else
      var signed := s[0] == '-' || s[0] == '+';
      var digits := if signed then s[1..] else s;
      if |digits| == 0 || !AllDigits(digits) then None
      else
        var v := if s[0] == '-' then -(DigitsValue(digits) as int) else DigitsValue(digits);
        if IntMin <= v <= IntMax then Some(v) else None
  }

  /** A parsed value is negative only after a minus sign, and a text
      without a sign parses to the number its digits spell. */
  lemma ParseJavaIntSign(s: string)
    requires ParseJavaInt(s).Some?
    ensures ParseJavaInt(s).value < 0 ==> s[0] == '-'
    ensures AllDigits(s) ==> ParseJavaInt(s).value == DigitsValue(s)
  {
  }

  /** Printing a 32-bit integer and parsing it back gives the integer again. */
  lemma ParseJavaIntOfIntToString(n: int)
    requires IntMin <= n <= IntMax
    ensures ParseJavaInt(IntToString(n)) == Some(n)
  {
    var s := IntToString(n);
    if n < 0 {
      assert s[1..] == NatToString(-n);
    }
  }

  // ---------------------------------------------------------------------
  // Java's String.isBlank
  // ---------------------------------------------------------------------

  /** `Character.isWhitespace`: the ASCII controls it names, and the Unicode
      space, line and paragraph separators other than the no-break spaces. */
  predicate JavaWhitespace(c: char) {
    || c == ' ' || c == '\t' || c == '\n' || c == '\U{000B}' || c == '\U{000C}' || c == '\r'
    || ('\U{001C}' <= c <= '\U{001F}')
    || c == '\U{1680}'
    || ('\U{2000}' <= c <= '\U{2006}')
    || ('\U{2008}' <= c <= '\U{200A}')
    || c == '\U{2028}' || c == '\U{2029}' || c == '\U{205F}' || c == '\U{3000}'
  }

  /** `String.isBlank`: empty, or whitespace only. */
  predicate JavaBlank(s: string) {
    forall i :: 0 <= i < |s| ==> JavaWhitespace(s[i])
  }

  // ---------------------------------------------------------------------
  // JavaScript's String.prototype.trim
  // ---------------------------------------------------------------------

  /** The characters `trim` removes: ECMAScript WhiteSpace and LineTerminator. */
  predicate JsWhitespace(c: char) {
    || c == '\t' || c == '\U{000B}' || c == '\U{000C}' || c == ' ' || c == '\U{00A0}' || c == '\U{FEFF}'
    || c == '\U{1680}' || ('\U{2000}' <= c <= '\U{200A}') || c == '\U{202F}' || c == '\U{205F}' || c == '\U{3000}'
    || c == '\n' || c == '\r' || c == '\U{2028}' || c == '\U{2029}'
  }

  predicate AllJsWhitespace(s: string) {
    forall i :: 0 <= i < |s| ==> JsWhitespace(s[i])
  }

  /** The end of the run of whitespace that starts at `i`. */
  function WhitespaceRunFrom(s: string, i: nat): (n: nat)
    requires i <= |s|
    ensures i <= n <= |s|
    ensures forall j :: i <= j < n ==> JsWhitespace(s[j])
    ensures n < |s| ==> !JsWhitespace(s[n])
    decreases |s| - i
  {
    if i < |s| && JsWhitespace(s[i]) then WhitespaceRunFrom(s, i + 1) else i
  }

  /** The start of the run of whitespace that ends at `n`. */
  function WhitespaceRunBefore(s: string, n: nat): (m: nat)
    requires n <= |s|
    ensures m <= n
    ensures forall j :: m <= j < n ==> JsWhitespace(s[j])
    ensures m > 0 ==> !JsWhitespace(s[m - 1])
  {
    if n > 0 && JsWhitespace(s[n - 1]) then WhitespaceRunBefore(s, n - 1) else n
  }

  function TrimStart(s: string): (r: string)
    ensures |r| <= |s| && r == s[|s| - |r|..]
    ensures AllJsWhitespace(s[..|s| - |r|])
    ensures |r| > 0 ==> !JsWhitespace(r[0])
  {
    s[WhitespaceRunFrom(s, 0)..]
  }

  function TrimEnd(s: string): (r: string)
    ensures |r| <= |s| && r == s[..|r|]
    ensures AllJsWhitespace(s[|r|..])
    ensures |r| > 0 ==> !JsWhitespace(r[|r| - 1])
  {
    s[..WhitespaceRunBefore(s, |s|)]
  }

  /** `s.trim()`: `s` without its leading and trailing whitespace. */
  function JsTrim(s: string): (r: string)
    ensures |r| <= |s|
    ensures |r| > 0 ==> !JsWhitespace(r[0]) && !JsWhitespace(r[|r| - 1])
    ensures exists i, j :: 0 <= i <= j <= |s| && r == s[i..j] && AllJsWhitespace(s[..i]) && AllJsWhitespace(s[j..])
  {
    var a := TrimStart(s);
    var r := TrimEnd(a);
    var i := |s| - |a|;
    var j := i + |r|;
    assert r == s[i..j] && s[j..] == a[|r|..];
    r
  }

  /** A string trims to the empty string exactly when it is whitespace only. */
  lemma JsTrimEmptyIffWhitespace(s: string)
    ensures JsTrim(s) == "" <==> AllJsWhitespace(s)
  {
    var a := TrimStart(s);
    var r := TrimEnd(a);
    assert s == s[..|s| - |a|] + a;
    if |a| == 0 {
      assert s == s[..|s|];
    } else {
      assert !JsWhitespace(s[|s| - |a|]);
    }
  }

  // ---------------------------------------------------------------------
  // JavaScript's slice(0, n)
  // ---------------------------------------------------------------------

  /** `s.slice(0, n)` for a non-negative `n`: the first `n` characters, or all of a shorter string. */
  function Prefix(s: string, n: nat): (r: string)
    ensures |r| == if |s| < n then |s| else n
    ensures r <= s
  {
    if |s| <= n then s else s[..n]
  }

  // ---------------------------------------------------------------------
  // Code-unit order (JavaScript's default sort comparator)
  // ---------------------------------------------------------------------

  /** `a` sorts strictly before `b`: a proper prefix, or smaller at the first difference. */
  predicate LexLess(a: string, b: string)
    decreases |a|
  {
    if |a| == 0 then |b| > 0
    else if |b| == 0 then false
    else if a[0] != b[0] then a[0] < b[0]
    else LexLess(a[1..], b[1..])
  }

  lemma {:induction false} LexLessIrreflexive(a: string)
    ensures !LexLess(a, a)
    decreases |a|
  {
    if |a| > 0 {
      LexLessIrreflexive(a[1..]);
    }
  }

  lemma {:induction false} LexLessTotal(a: string, b: string)
    requires a != b
    ensures LexLess(a, b) || LexLess(b, a)
    decreases |a|
  {
    if |a| > 0 && |b| > 0 && a[0] == b[0] {
      assert a == [a[0]] + a[1..] && b == [b[0]] + b[1..];
      LexLessTotal(a[1..], b[1..]);
    }
  }

  lemma {:induction false} LexLessTransitive(a: string, b: string, c: string)
    requires LexLess(a, b) && LexLess(b, c)
    ensures LexLess(a, c)
    decreases |a|
  {
    if |a| > 0 && a[0] == b[0] && b[0] == c[0] {
      LexLessTransitive(a[1..], b[1..], c[1..]);
    }
  }

  lemma LexLessAsymmetric(a: string, b: string)
    requires LexLess(a, b)
    ensures !LexLess(b, a)
  {
    if LexLess(b, a) {
      LexLessTransitive(a, b, a);
      LexLessIrreflexive(a);
    }
  }
}
