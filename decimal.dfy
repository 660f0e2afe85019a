/**
 * Decimal numerals as Python reads and writes them: `str(n)` for an
 * integer, `int(s)` for a string of decimal digits, and the two character
 * classes `str.isdecimal` and `str.isdigit`, which differ: every decimal
 * digit is a digit, but the characters of numeric type Digit (superscript,
 * circled and similar digits) are digits that `int()` refuses.
 */
module Decimal {

  /** An ASCII decimal digit; the characters `int()` turns into a value here. */
  predicate IsDecimalChar(c: char) {
    '0' <= c <= '9'
  }

  predicate AllDecimal(s: string) {
    forall i :: 0 <= i < |s| ==> IsDecimalChar(s[i])
  }

  /**
   * The 128 characters of Unicode numeric type Digit (Unicode 15.0):
   * `isdigit()` holds of them and `isdecimal()` does not.  They are the
   * superscript and subscript digits, the circled, double-circled,
   * parenthesized, full-stop and comma digits with their dingbat forms, and
   * the Ethiopic, New Tai Lue, Kharoshthi, Rumi and Brahmi digits of that
   * type.
   */
  predicate IsDigitOnly(c: char) {
    ('\U{B2}' <= c <= '\U{B3}') || c == '\U{B9}' || ('\U{1369}' <= c <= '\U{1371}') ||
    c == '\U{19DA}' || c == '\U{2070}' || ('\U{2074}' <= c <= '\U{2079}') ||
    ('\U{2080}' <= c <= '\U{2089}') || ('\U{2460}' <= c <= '\U{2468}') || ('\U{2474}' <= c <= '\U{247C}') ||
    ('\U{2488}' <= c <= '\U{2490}') || c == '\U{24EA}' || ('\U{24F5}' <= c <= '\U{24FD}') ||
    c == '\U{24FF}' || ('\U{2776}' <= c <= '\U{277E}') || ('\U{2780}' <= c <= '\U{2788}') ||
    ('\U{278A}' <= c <= '\U{2792}') || ('\U{10A40}' <= c <= '\U{10A43}') || ('\U{10E60}' <= c <= '\U{10E68}') ||
    ('\U{11052}' <= c <= '\U{1105A}') || ('\U{1F100}' <= c <= '\U{1F10A}')
  }

  /** `c.isdigit()` */
  predicate IsPyDigit(c: char) {
    IsDecimalChar(c) || IsDigitOnly(c)
  }

  /** `s.isdigit()`: non-empty and made of digits. */
  predicate IsDigitString(s: string) {
    |s| > 0 && forall i :: 0 <= i < |s| ==> IsPyDigit(s[i])
  }

  function DigitChar(d: nat): (c: char)
    requires d < 10
    ensures IsDecimalChar(c)
  {
    ('0' as int + d) as char
  }

  function DigitValue(c: char): (d: nat)
    requires IsDecimalChar(c)
    ensures d < 10
  {
    c as int - '0' as int
  }

  /** `str(n)` for a natural number: its decimal digits, no leading zero. */
  function NatToString(n: nat): (s: string)
    ensures |s| >= 1 && AllDecimal(s)
    ensures s[0] == '0' ==> n == 0
    decreases n
  {
    if n < 10 then [DigitChar(n)] else NatToString(n / 10) + [DigitChar(n % 10)]
  }

  /** `str(i)` for any integer. */
  function IntToString(i: int): string {
    if i < 0 then "-" + NatToString(-i) else NatToString(i)
  }

  /** `int(s)` for a string of decimal digits (leading zeros allowed). */
  function DecimalValue(s: string): nat
    requires AllDecimal(s)
  {
    if s == [] then 0 else DecimalValue(s[..|s| - 1]) * 10 + DigitValue(s[|s| - 1])
  }

  /** Reading back what `str` wrote gives the number. */
  lemma {:induction false} DecimalRoundTrip(n: nat)
    ensures DecimalValue(NatToString(n)) == n
    decreases n
  {
    if n >= 10 {
      DecimalRoundTrip(n / 10);
      var s := NatToString(n);
      assert s[..|s| - 1] == NatToString(n / 10);
    }
  }

  /** The longest prefix of `s` made of decimal digits. */
  function LeadingDigits(s: string): (r: string)
    ensures |r| <= |s| && r == s[..|r|] && AllDecimal(r)
    ensures |r| < |s| ==> !IsDecimalChar(s[|r|])
  {
    if |s| > 0 && IsDecimalChar(s[0]) then [s[0]] + LeadingDigits(s[1..]) else []
  }

  /** The digits of `str(n)` followed by a non-digit read back as exactly `n`. */
  lemma LeadingNumber(n: nat, tail: string)
    requires tail == [] || !IsDecimalChar(tail[0])
    ensures LeadingDigits(NatToString(n) + tail) == NatToString(n)
    ensures DecimalValue(LeadingDigits(NatToString(n) + tail)) == n
  {
    var d := NatToString(n);
    LeadingDigitsOfNumeral(d, tail);
    DecimalRoundTrip(n);
  }

  lemma {:induction false} LeadingDigitsOfNumeral(d: string, tail: string)
    requires AllDecimal(d)
    requires tail == [] || !IsDecimalChar(tail[0])
    ensures LeadingDigits(d + tail) == d
  {
    if d != [] {
      LeadingDigitsOfNumeral(d[1..], tail);
      assert (d + tail)[1..] == d[1..] + tail;
    } else {
      assert d + tail == tail;
    }
  }
}
