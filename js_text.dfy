/**
 * The JavaScript string and number primitives that the three pages rely on:
 * the `\s` and `\d` character classes, `trim`, `toLowerCase`/`toUpperCase`,
 * `includes`, `startsWith`, the decimal form of an integral number, the
 * conversion `Number(text)` and `Math.round` of a quotient.
 *
 * Numbers are exact: a finite `Number` is the rational mantissa / 10^scale,
 * so the model has no floating-point rounding.
 */
module JsText {

  // ---------------------------------------------------------------------------
  // Character classes
  // ---------------------------------------------------------------------------

  /** The class `\s` of a JavaScript regular expression. The same characters
      are the ones `String.prototype.trim` and `Number` strip. */
  predicate IsWhitespace(c: char) {
    || c == '\t' || c == '\n' || c == '\U{B}' || c == '\U{C}' || c == '\r' || c == ' '
    || c == '\U{A0}' || c == '\U{1680}' || ('\U{2000}' <= c <= '\U{200A}')
    || c == '\U{2028}' || c == '\U{2029}' || c == '\U{202F}' || c == '\U{205F}'
    || c == '\U{3000}' || c == '\U{FEFF}'
  }

  /** The class `\d`: an ASCII decimal digit. */
  predicate IsDigit(c: char) {
    '0' <= c <= '9'
  }

  /** `/\d/.test(s)`: some character of `s` is a digit. */
  function ContainsDigit(s: string): (r: bool)
    ensures r <==> exists i :: 0 <= i < |s| && IsDigit(s[i])
  {
    if s == [] then false
    else if IsDigit(s[0]) then true
    else
      var r := ContainsDigit(s[1..]);
      assert forall i :: 0 <= i < |s| - 1 ==> s[1..][i] == s[i + 1];
      r
  }

  /** Every character of `s` is a digit (true of the empty string). */
  function AllDigits(s: string): (r: bool)
    ensures r <==> forall i :: 0 <= i < |s| ==> IsDigit(s[i])
  {
    if s == [] then true
    else
      var r := IsDigit(s[0]) && AllDigits(s[1..]);
      assert forall i :: 0 <= i < |s| - 1 ==> s[1..][i] == s[i + 1];
      r
  }

  /** `/^\d+$/.test(s)`: `s` is a non-empty run of digits and nothing else. */
  predicate IsDigitRun(s: string) {
    |s| > 0 && AllDigits(s)
  }

  // ---------------------------------------------------------------------------
  // trim
  // ---------------------------------------------------------------------------

  /** `s` without its leading whitespace. */
  function TrimStart(s: string): (r: string)
    ensures |r| <= |s| && r == s[|s| - |r|..]
    ensures r == [] || !IsWhitespace(r[0])
    ensures forall i :: 0 <= i < |s| - |r| ==> IsWhitespace(s[i])
  {
    if s != [] && IsWhitespace(s[0]) then TrimStart(s[1..]) else s
  }

  /** `s` without its trailing whitespace. */
  function TrimEnd(s: string): (r: string)
    ensures |r| <= |s| && r == s[..|r|]
    ensures r == [] || !IsWhitespace(r[|r| - 1])
    ensures forall i :: |r| <= i < |s| ==> IsWhitespace(s[i])
  {
    if s != [] && IsWhitespace(s[|s| - 1]) then TrimEnd(s[..|s| - 1]) else s
  }

  /** `s.trim()`. */
  function Trim(s: string): string {
    TrimEnd(TrimStart(s))
  }

  /** `s.trim() === ''` exactly when every character of `s` is whitespace. */
  lemma TrimEmptyIffBlank(s: string)
    ensures Trim(s) == [] <==> forall i :: 0 <= i < |s| ==> IsWhitespace(s[i])
  {
    var t := TrimStart(s);
    if t != [] {
      // t starts with a non-whitespace character, which TrimEnd keeps
      assert !IsWhitespace(t[0]);
      assert TrimEnd(t) != [];
      assert !IsWhitespace(s[|s| - |t|]);
    }
  }

  /** A string that ends in a visible character does not trim to `''`. */
  lemma VisibleEndNotBlank(s: string)
    requires s != [] && !IsWhitespace(s[|s| - 1])
    ensures Trim(s) != []
  {
    TrimEmptyIffBlank(s);
  }

  /** A string that neither starts nor ends with whitespace is its own trim. */
  lemma TrimOfTrimmed(s: string)
    requires s == [] || (!IsWhitespace(s[0]) && !IsWhitespace(s[|s| - 1]))
    ensures Trim(s) == s
  {
  }

  // ---------------------------------------------------------------------------
  // Case mapping (ASCII letters only)
  // ---------------------------------------------------------------------------

  function LowerChar(c: char): char {
    if 'A' <= c <= 'Z' then (c as int + 32) as char else c
  }

  function UpperChar(c: char): char {
    if 'a' <= c <= 'z' then (c as int - 32) as char else c
  }

  /** `s.toLowerCase()`, for ASCII letters. */
  function ToLower(s: string): string {
    seq(|s|, i requires 0 <= i < |s| => LowerChar(s[i]))
  }

  /** `s.toUpperCase()`, for ASCII letters. */
  function ToUpper(s: string): string {
    seq(|s|, i requires 0 <= i < |s| => UpperChar(s[i]))
  }

  /** Upper-casing maps a character to `target` exactly when the character is
      `target` or its lower-case partner. */
  lemma UpperCharIs(c: char, target: char)
    requires 'A' <= target <= 'Z' || target == '+'
    ensures UpperChar(c) == target <==> c == target || ('A' <= target <= 'Z' && c as int == target as int + 32)
  {
  }

  // ---------------------------------------------------------------------------
  // includes and startsWith
  // ---------------------------------------------------------------------------

  /** `t` occurs in `s` at index `i`. */
  ghost predicate OccursAt(s: string, t: string, i: int) {
    0 <= i && i + |t| <= |s| && s[i..i + |t|] == t
  }

  lemma OccursAtTail(s: string, t: string, i: int)
    requires s != [] && 0 <= i
    ensures OccursAt(s[1..], t, i) <==> OccursAt(s, t, i + 1)
  {
    if 0 <= i && i + |t| <= |s| - 1 {
      assert s[1..][i..i + |t|] == s[i + 1..i + 1 + |t|];
    }
  }

  /** `s.includes(t)`: `t` occurs somewhere in `s`. */
  function Includes(s: string, t: string): (r: bool)
    ensures r <==> exists i :: OccursAt(s, t, i)
    decreases |s|
  {
    if t <= s then
      assert OccursAt(s, t, 0);
      true
    else if s == [] then
      assert forall i :: !OccursAt(s, t, i);
      false
    else
      var r := Includes(s[1..], t);
      assert !OccursAt(s, t, 0);
      assert (exists j :: OccursAt(s[1..], t, j)) ==> exists i :: OccursAt(s, t, i) by {
        if exists j :: OccursAt(s[1..], t, j) {
          var j :| OccursAt(s[1..], t, j);
          OccursAtTail(s, t, j);
        }
      }
      assert (exists i :: OccursAt(s, t, i)) ==> exists j :: OccursAt(s[1..], t, j) by {
        if exists i :: OccursAt(s, t, i) {
          var i :| OccursAt(s, t, i);
          OccursAtTail(s, t, i - 1);
        }
      }
      r
  }

  /** `s.startsWith(t)`. */
  predicate StartsWith(s: string, t: string) {
    t <= s
  }

  // ---------------------------------------------------------------------------
  // The decimal form of an integer: `n.toString()`
  // ---------------------------------------------------------------------------

  function DigitChar(d: int): char
    requires 0 <= d < 10
  {
    ('0' as int + d) as char
  }

  function DigitValue(c: char): nat
    requires IsDigit(c)
  {
    c as int - '0' as int
  }

  /** The value of a string of digits read in base ten. */
  function DigitsValue(s: string): nat
    requires AllDigits(s)
  {
    if s == [] then 0 else DigitsValue(s[..|s| - 1]) * 10 + DigitValue(s[|s| - 1])
  }

  /** The shortest decimal form of a natural number. */
  function NatToString(n: nat): (r: string)
    ensures |r| > 0 && AllDigits(r)
  {
    if n < 10 then [DigitChar(n)] else NatToString(n / 10) + [DigitChar(n % 10)]
  }

  /** `n.toString()` for an integral `n`. */
  function IntToString(n: int): string {
    if n < 0 then "-" + NatToString(-n) else NatToString(n)
  }

  lemma {:induction false} NatToStringValue(n: nat)
    ensures DigitsValue(NatToString(n)) == n
  {
    if n >= 10 {
      var s := NatToString(n);
      assert s[..|s| - 1] == NatToString(n / 10);
      NatToStringValue(n / 10);
    }
  }

  // ---------------------------------------------------------------------------
  // Number(text)
  // ---------------------------------------------------------------------------

  /** A JavaScript number as the pages see it: `NaN`, or the exact value
      mantissa / 10^scale. */
  datatype JsNumber = NaN | Finite(mantissa: int, scale: nat)

  function Pow10(k: nat): (r: nat)
    ensures r >= 1
  {
    if k == 0 then 1 else 10 * Pow10(k - 1)
  }

  /** `x < 0` (false for NaN). */
  predicate IsNegative(x: JsNumber) {
    x.Finite? && x.mantissa < 0
  }

  /** `x > k` for an integer `k` (false for NaN). */
  predicate GreaterThanInt(x: JsNumber, k: int) {
    x.Finite? && x.mantissa > k * Pow10(x.scale)
  }

  /** `x > y` (false when either is NaN). */
  predicate GreaterThan(x: JsNumber, y: JsNumber) {
    x.Finite? && y.Finite? && x.mantissa * Pow10(y.scale) > y.mantissa * Pow10(x.scale)
  }

  function Negate(x: JsNumber): JsNumber {
    match x
    case NaN => NaN
    case Finite(m, k) => Finite(-m, k)
  }

  /** The number of leading digits of `s`. */
  function DigitPrefix(s: string): (k: nat)
    ensures k <= |s| && AllDigits(s[..k])
    ensures k < |s| ==> !IsDigit(s[k])
  {
    if s != [] && IsDigit(s[0]) then
      var k := 1 + DigitPrefix(s[1..]);
      assert s[..k] == [s[0]] + s[1..][..k - 1];
      k
    else 0
  }

  /** An unsigned decimal literal: digits, optionally followed by a point and
      more digits, with at least one digit in all ("7", "7.", ".5", "7.25"). */
  function UnsignedDecimal(s: string): JsNumber {
    var k := DigitPrefix(s);
    var whole, rest := s[..k], s[k..];
    if rest == [] then
      if k > 0 then Finite(DigitsValue(whole), 0) else NaN
    else if rest[0] == '.' && AllDigits(rest[1..]) && (k > 0 || |rest| > 1) then
      Finite(DigitsValue(whole + rest[1..]), |rest| - 1)
    else NaN
  }

  /** `Number(s)` for a string: surrounding whitespace is ignored, a blank
      string is 0, and what remains is an optionally signed decimal literal. */
  function ToNumber(s: string): JsNumber {
    var t := Trim(s);
    if t == [] then Finite(0, 0)
    else if t[0] == '-' then Negate(UnsignedDecimal(t[1..]))
    else if t[0] == '+' then UnsignedDecimal(t[1..])
    else UnsignedDecimal(t)
  }

  lemma UnsignedDecimalOfDigits(s: string)
    requires |s| > 0 && AllDigits(s)
    ensures UnsignedDecimal(s) == Finite(DigitsValue(s), 0)
  {
    var k := DigitPrefix(s);
    assert k == |s|;
    assert s[..k] == s;
  }

  lemma ToNumberOfDigits(d: string)
    requires |d| > 0 && AllDigits(d)
    ensures ToNumber(d) == Finite(DigitsValue(d), 0)
  {
    assert IsDigit(d[0]) && IsDigit(d[|d| - 1]);
    TrimOfTrimmed(d);
    assert d[0] != '-' && d[0] != '+';
    assert ToNumber(d) == UnsignedDecimal(d);
    UnsignedDecimalOfDigits(d);
  }

  lemma ToNumberOfNegatedDigits(d: string)
    requires |d| > 0 && AllDigits(d)
    ensures ToNumber("-" + d) == Finite(-(DigitsValue(d) as int), 0)
  {
    var s := "-" + d;
    assert s[0] == '-' && s[1..] == d;
    assert IsDigit(d[|d| - 1]) && s[|s| - 1] == d[|d| - 1];
    TrimOfTrimmed(s);
    UnsignedDecimalOfDigits(d);
  }

  /** A text whose first and last characters are not blank and whose first
      character cannot begin a decimal literal is not a number. */
  lemma ToNumberOfNonNumeric(s: string)
    requires s != [] && !IsWhitespace(s[0]) && !IsWhitespace(s[|s| - 1])
    requires !IsDigit(s[0]) && s[0] !in {'-', '+', '.'}
    ensures ToNumber(s) == NaN
  {
    TrimOfTrimmed(s);
    assert DigitPrefix(s) == 0;
  }

  /** `Number(n.toString()) === n`: reading back the decimal form of an integer
      gives the integer. */
  lemma {:induction false} ToNumberOfIntString(n: int)
    ensures ToNumber(IntToString(n)) == Finite(n, 0)
  {
    if n < 0 {
      NatToStringValue(-n);
      ToNumberOfNegatedDigits(NatToString(-n));
    } else {
      NatToStringValue(n);
      ToNumberOfDigits(NatToString(n));
    }
  }

  // ---------------------------------------------------------------------------
  // Math.round
  // ---------------------------------------------------------------------------

  /** `Math.round(p / q)`: the integer nearest to p/q, a half rounded up
      towards positive infinity. */
  function RoundDiv(p: int, q: int): (r: int)
    requires q != 0
    ensures q > 0 ==> (2 * r - 1) * q <= 2 * p < (2 * r + 1) * q
    ensures q < 0 ==> (2 * r - 1) * -q <= -2 * p < (2 * r + 1) * -q
  {
    var p', q' := if q > 0 then p else -p, if q > 0 then q else -q;
    var r := (2 * p' + q') / (2 * q');
    assert 2 * p' + q' == 2 * q' * r + (2 * p' + q') % (2 * q');
    assert 2 * p' < (2 * r + 1) * q' && (2 * r - 1) * q' <= 2 * p';
    r
  }

  lemma MulMonotone(a: int, b: int, c: int)
    requires a <= b && c > 0
    ensures a * c <= b * c
  {
    assert b * c - a * c == (b - a) * c;
  }

  /** Only one integer is nearest to p/q, a half going up. */
  lemma NearestIsUnique(r: int, k: int, p: int, q: int)
    requires q > 0
    requires (2 * r - 1) * q <= 2 * p < (2 * r + 1) * q
    requires (2 * k - 1) * q <= 2 * p < (2 * k + 1) * q
    ensures r == k
  {
    if r > k {
      MulMonotone(2 * k + 1, 2 * r - 1, q);
    } else if r < k {
      MulMonotone(2 * r + 1, 2 * k - 1, q);
    }
  }

  /** A quotient known to lie between two integers rounds to one between them. */
  lemma RoundDivBetween(p: int, q: int, lo: int, hi: int)
    requires q > 0 && lo * q <= p <= hi * q
    ensures lo <= RoundDiv(p, q) <= hi
  {
    var r := RoundDiv(p, q);
    if r > hi {
      MulMonotone(2 * hi + 1, 2 * r - 1, q);
    } else if r < lo {
      MulMonotone(2 * r + 1, 2 * lo - 1, q);
    }
  }

  /** Dividing a multiple of q by q is exact. */
  lemma RoundDivExact(k: int, q: int)
    requires q != 0
    ensures RoundDiv(k * q, q) == k
  {
    var r := RoundDiv(k * q, q);
    if q > 0 {
      assert (2 * k - 1) * q <= 2 * (k * q) < (2 * k + 1) * q;
      NearestIsUnique(r, k, k * q, q);
    } else {
      assert (2 * k - 1) * -q <= -2 * (k * q) < (2 * k + 1) * -q;
      assert -2 * (k * q) == 2 * (k * -q);
      NearestIsUnique(r, k, k * -q, -q);
    }
  }
}
