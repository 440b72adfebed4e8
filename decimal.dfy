/**
 * Decimal text as the C++ streams and `std::to_string` / `std::stoi` produce and read it,
 * and the fixed-width integer conversions (`static_cast<size_t>`, the `int` range) the
 * program relies on.
 */
module Decimal {

  const INT_MIN: int := -0x8000_0000
  const INT_MAX: int := 0x7fff_ffff
  const SIZE_T_MODULUS: int := 0x1_0000_0000_0000_0000

  /** A value of C++ `int` (32 bits). */
  predicate IsInt(x: int) {
    INT_MIN <= x <= INT_MAX
  }

  /** `static_cast<size_t>(x)`: two's-complement reinterpretation modulo 2^64. */
  function SizeT(x: int): (r: nat)
    ensures r < SIZE_T_MODULUS
    ensures 0 <= x < SIZE_T_MODULUS ==> r == x
    ensures -SIZE_T_MODULUS <= x < 0 ==> r == x + SIZE_T_MODULUS
  {
    x % SIZE_T_MODULUS
  }

  /**
   * `static_cast<size_t>(width) * static_cast<size_t>(height)`, the pixel count both readers
   * use; the product wraps modulo 2^64 like any `size_t` arithmetic.
   */
  function PixelCount(width: int, height: int): (n: nat)
    ensures 1 <= width <= INT_MAX && 1 <= height <= INT_MAX ==> 1 <= n == width * height
  {
    if 1 <= width <= INT_MAX && 1 <= height <= INT_MAX then
      ProductBounds(width, height);
      SizeT(SizeT(width) * SizeT(height))
    else
      SizeT(SizeT(width) * SizeT(height))
  }

  /** The product of two positive `int`s is positive and fits a `size_t`. */
  lemma ProductBounds(a: int, b: int)
    requires 1 <= a <= INT_MAX && 1 <= b <= INT_MAX
    ensures 1 <= a * b < SIZE_T_MODULUS
  {
    MulMonotone(1, a, b);
    MulMonotone(a, INT_MAX, b);
    MulMonotone(b, INT_MAX, INT_MAX);
  }

  lemma MulMonotone(a: int, b: int, c: nat)
    requires a <= b
    ensures a * c <= b * c
  {
    assert b * c - a * c == (b - a) * c;
  }

  predicate IsDigit(c: char) {
    '0' <= c <= '9'
  }

  /** `std::isspace` in the "C" locale: space, \t, \n, \v, \f, \r. */
  predicate IsSpace(c: char) {
    c == ' ' || 9 <= c as int <= 13
  }

  function DigitChar(d: nat): (c: char)
    requires d < 10
    ensures IsDigit(c)
  {
    ('0' as int + d) as char
  }

  function DigitValue(c: char): (d: nat)
    requires IsDigit(c)
    ensures d < 10 && DigitChar(d) == c
  {
    c as int - '0' as int
  }

  predicate AllDigits(s: string) {
    forall i | 0 <= i < |s| :: IsDigit(s[i])
  }

  /** Decimal rendering of a natural number, as `std::to_string` or `operator<<` write it. */
  function NatToString(n: nat): (s: string)
    ensures 1 <= |s| && AllDigits(s)
    ensures s[0] == '0' ==> n == 0
  {
    if n < 10 then [DigitChar(n)] else NatToString(n / 10) + [DigitChar(n % 10)]
  }

  /** Decimal rendering of an integer with a leading '-' when negative. */
  function IntToString(x: int): (s: string)
    ensures 1 <= |s|
  {
    if x < 0 then "-" + NatToString(-x) else NatToString(x)
  }

  /** The number a string of digits denotes, read most significant digit first. */
  function DigitsValue(s: string): nat
    requires AllDigits(s)
  {
    if s == [] then 0 else DigitsValue(s[..|s| - 1]) * 10 + DigitValue(s[|s| - 1])
  }

  lemma {:induction false} DigitsValueOfNatToString(n: nat)
    ensures DigitsValue(NatToString(n)) == n
  {
    var s := NatToString(n);
    if n >= 10 {
      DigitsValueOfNatToString(n / 10);
      assert s[..|s| - 1] == NatToString(n / 10);
    }
  }

  /** The first index at or after `i` that does not hold a space. */
  function SkipSpaces(s: string, i: nat): (j: nat)
    requires i <= |s|
    ensures i <= j <= |s|
    ensures forall k | i <= k < j :: IsSpace(s[k])
    ensures j < |s| ==> !IsSpace(s[j])
    decreases |s| - i
  {
    if i < |s| && IsSpace(s[i]) then SkipSpaces(s, i + 1) else i
  }

  /** The first index at or after `i` that does not hold a digit. */
  function DigitsEnd(s: string, i: nat): (j: nat)
    requires i <= |s|
    ensures i <= j <= |s|
    ensures AllDigits(s[i..j])
    ensures j < |s| ==> !IsDigit(s[j])
    decreases |s| - i
  {
    if i < |s| && IsDigit(s[i]) then DigitsEnd(s, i + 1) else i
  }

  /** What a scan for a signed decimal number finds from a position on. */
  datatype NumberScan = NoDigits | Number(value: int, end: nat)

  /**
   * The common core of `std::stoi` and of `istream >> int`: leading spaces are skipped, then
   * an optional '+' or '-', then the longest run of digits; the scan stops at the first
   * character that is not a digit.
   */
  function ScanNumber(s: string, i: nat): (r: NumberScan)
    requires i <= |s|
    ensures r.Number? ==> i < r.end <= |s|
    ensures r.Number? ==> r.end == |s| || !IsDigit(s[r.end])
  {
    var j := SkipSpaces(s, i);
    var negative := j < |s| && s[j] == '-';
    var k := if j < |s| && (s[j] == '-' || s[j] == '+') then j + 1 else j;
    var e := DigitsEnd(s, k);
    if e == k then NoDigits
    else
      var magnitude: int := DigitsValue(s[k..e]);
      Number(if negative then -magnitude else magnitude, e)
  }

  lemma {:induction false} DigitsEndAt(s: string, i: nat, e: nat)
    requires i <= e <= |s|
    requires forall k | i <= k < e :: IsDigit(s[k])
    requires e == |s| || !IsDigit(s[e])
    ensures DigitsEnd(s, i) == e
    decreases e - i
  {
    if i < e {
      DigitsEndAt(s, i + 1, e);
    }
  }

  lemma {:induction false} SkipSpacesAt(s: string, i: nat, j: nat)
    requires i <= j < |s| && !IsSpace(s[j])
    requires forall k | i <= k < j :: IsSpace(s[k])
    ensures SkipSpaces(s, i) == j
    decreases j - i
  {
    if i < j {
      SkipSpacesAt(s, i + 1, j);
    }
  }

  /**
   * Spaces, then a rendered natural, then a non-digit (or the end): the scan finds exactly
   * that natural and stops right after its last digit.
   */
  lemma ScanRenderedNat(s: string, start: nat, i: nat, n: nat)
    requires start <= i && i + |NatToString(n)| <= |s|
    requires forall k | start <= k < i :: IsSpace(s[k])
    requires s[i..i + |NatToString(n)|] == NatToString(n)
    requires i + |NatToString(n)| == |s| || !IsDigit(s[i + |NatToString(n)|])
    ensures ScanNumber(s, start) == Number(n, i + |NatToString(n)|)
  {
    var digits := NatToString(n);
    var e := i + |digits|;
    assert s[i] == digits[0];
    SkipSpacesAt(s, start, i);
    assert s[i] != '-' && s[i] != '+';
    DigitsEndAt(s, i, e) by {
      assert forall k | i <= k < e :: s[k] == digits[k - i];
    }
    DigitsValueOfNatToString(n);
  }
}
