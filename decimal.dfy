/** Decimal rendering of integers, as Java's string concatenation renders a `long`:
    an optional leading '-', then the digits of the magnitude without leading zeros. */
module Decimal {

  predicate IsDigit(c: char) {
    '0' <= c <= '9'
  }

  predicate IsDigits(s: string) {
    forall i :: 0 <= i < |s| ==> IsDigit(s[i])
  }

  /** A canonical numeral: at least one digit and no leading zero unless it is "0". */
  predicate IsCanonical(s: string) {
    |s| > 0 && IsDigits(s) && (s[0] == '0' ==> |s| == 1)
  }

  function DigitChar(d: nat): (c: char)
    requires d < 10
    ensures IsDigit(c) && DigitValue(c) == d
  {
    (('0' as int) + d) as char
  }

  function DigitValue(c: char): nat
    requires IsDigit(c)
  {
    c as int - '0' as int
  }

  /** The digits of `n`, most significant first. */
  function NatToString(n: nat): (s: string)
    ensures IsCanonical(s)
    ensures n < 10 <==> |s| == 1
    decreases n
  {
    if n < 10 then [DigitChar(n)] else NatToString(n / 10) + [DigitChar(n % 10)]
  }

  /** The number a string of digits denotes. */
  function ValueOf(s: string): nat
    requires IsDigits(s)
  {
    if s == [] then 0 else ValueOf(s[..|s| - 1]) * 10 + DigitValue(s[|s| - 1])
  }

  /** `n` rendered like Java's `Long.toString`. */
  function IntToString(n: int): (s: string)
    ensures |s| > 0
    ensures n < 0 <==> s[0] == '-'
  {
    if n < 0 then "-" + NatToString(-n) else NatToString(n)
  }

  /** Digits, optionally after a minus sign. */
  predicate IsNumeral(s: string) {
    |s| > 0 && if s[0] == '-' then IsDigits(s[1..]) else IsDigits(s)
  }

  /** Reads back a numeral produced by IntToString. */
  function ParseInt(s: string): int
    requires IsNumeral(s)
  {
    if s[0] == '-' then -(ValueOf(s[1..]) as int) else ValueOf(s)
  }

  lemma {:induction false} ValueOfNatToString(n: nat)
    ensures ValueOf(NatToString(n)) == n
    decreases n
  {
    if n >= 10 {
      var p := NatToString(n / 10);
      var s := p + [DigitChar(n % 10)];
      assert s[..|s| - 1] == p;
      ValueOfNatToString(n / 10);
    }
  }

  /** A numeral whose first digit is d denotes at least d. */
  lemma {:induction false} ValueAtLeastLeadingDigit(s: string)
    requires |s| > 0 && IsDigits(s)
    ensures ValueOf(s) >= DigitValue(s[0])
    decreases |s|
  {
    if |s| > 1 {
      var p := s[..|s| - 1];
      assert p[0] == s[0];
      ValueAtLeastLeadingDigit(p);
    }
  }

  lemma {:induction false} NatToStringValueOf(s: string)
    requires IsCanonical(s)
    ensures NatToString(ValueOf(s)) == s
    decreases |s|
  {
    if |s| > 1 {
      var p := s[..|s| - 1];
      var d := DigitValue(s[|s| - 1]);
      assert p[0] == s[0] && p[0] != '0';
      assert IsCanonical(p);
      ValueAtLeastLeadingDigit(p);
      assert ValueOf(s) == ValueOf(p) * 10 + d;
      assert ValueOf(s) / 10 == ValueOf(p) && ValueOf(s) % 10 == d;
      NatToStringValueOf(p);
      assert DigitChar(d) == s[|s| - 1];
      assert s == p + [s[|s| - 1]];
    }
  }

  /** `s` is a numeral that reads back as `n`. */
  predicate Denotes(s: string, n: int) {
    IsNumeral(s) && ParseInt(s) == n
  }

  /** IntToString and ParseInt are inverse to each other. */
  lemma ParseIntToString(n: int)
    ensures Denotes(IntToString(n), n)
  {
    var s := IntToString(n);
    if n < 0 {
      assert s[1..] == NatToString(-n);
      ValueOfNatToString(-n);
    } else {
      ValueOfNatToString(n);
    }
  }

  /** Distinct integers render as distinct strings. */
  lemma IntToStringInjective(m: int, n: int)
    requires IntToString(m) == IntToString(n)
    ensures m == n
  {
    ParseIntToString(m);
    ParseIntToString(n);
  }
}
