/** Decimal digit strings and the natural numbers they denote, as Python's
    `int(s)` and `str(n)` see them for plain ASCII digit strings. */
module Decimal {

  predicate IsDigit(c: char) {
    '0' <= c <= '9'
  }

  predicate AllDigits(s: string) {
    forall i :: 0 <= i < |s| ==> IsDigit(s[i])
  }

  function DigitValue(c: char): nat
    requires IsDigit(c)
  {
    (c as int) - ('0' as int)
  }

  function DigitChar(d: nat): (c: char)
    requires d < 10
    ensures IsDigit(c) && DigitValue(c) == d
  {
    (('0' as int) + d) as char
  }

  function Pow10(n: nat): (r: nat)
    ensures r >= 1
  {
    if n == 0 then 1 else 10 * Pow10(n - 1)
  }

  /** The number a digit string denotes; leading zeros are allowed, as in `int("0123")`. */
  function Value(s: string): nat
    requires AllDigits(s)
    decreases |s|
  {
    if |s| == 0 then 0 else Value(s[..|s| - 1]) * 10 + DigitValue(s[|s| - 1])
  }

  lemma ValueAppend(s: string, c: char)
    requires AllDigits(s) && IsDigit(c)
    ensures AllDigits(s + [c])
    ensures Value(s + [c]) == Value(s) * 10 + DigitValue(c)
  {
    assert (s + [c])[..|s|] == s;
  }

  /** A string of n digits denotes a number below 10^n. */
  lemma {:induction false} ValueBelowPow10(s: string)
    requires AllDigits(s)
    ensures Value(s) < Pow10(|s|)
    decreases |s|
  {
    if |s| > 0 {
      ValueBelowPow10(s[..|s| - 1]);
    }
  }

  /** A string of n digits that does not start with '0' denotes at least 10^(n-1). */
  lemma {:induction false} ValueAtLeastPow10(s: string)
    requires AllDigits(s) && |s| > 0 && s[0] != '0'
    ensures Value(s) >= Pow10(|s| - 1)
    decreases |s|
  {
    if |s| > 1 {
      ValueAtLeastPow10(s[..|s| - 1]);
    }
  }

  /** A leading '0' does not change the denoted number. */
  lemma {:induction false} LeadingZeroIgnored(t: string)
    requires AllDigits(t)
    ensures AllDigits(['0'] + t)
    ensures Value(['0'] + t) == Value(t)
    decreases |t|
  {
    if |t| > 0 {
      var p := t[..|t| - 1];
      LeadingZeroIgnored(p);
      assert (['0'] + t)[..|t|] == ['0'] + p;
    }
  }

  /** `str(n)`: the canonical decimal spelling, with no leading zero. */
  function ToDecimal(n: nat): (r: string)
    ensures |r| > 0 && AllDigits(r)
    ensures r[0] == '0' <==> n == 0
    decreases n
  {
    if n < 10 then [DigitChar(n)] else ToDecimal(n / 10) + [DigitChar(n % 10)]
  }

  /** `int(str(n)) == n`. */
  lemma {:induction false} ToDecimalValue(n: nat)
    ensures Value(ToDecimal(n)) == n
    decreases n
  {
    if n >= 10 {
      ToDecimalValue(n / 10);
      ValueAppend(ToDecimal(n / 10), DigitChar(n % 10));
    }
  }

  /** `str(int(s)) == s` for every digit string without a superfluous leading zero. */
  lemma {:induction false} CanonicalRoundTrip(s: string)
    requires AllDigits(s) && |s| > 0
    requires s[0] != '0' || |s| == 1
    ensures ToDecimal(Value(s)) == s
    decreases |s|
  {
    var p := s[..|s| - 1];
    var d := DigitValue(s[|s| - 1]);
    if |s| == 1 {
      assert Value(s) == d;
      assert DigitChar(d) == s[0];
      assert [s[0]] == s;
    } else {
      ValueAtLeastPow10(p);
      CanonicalRoundTrip(p);
      var v := Value(s);
      assert v == Value(p) * 10 + d;
      assert v / 10 == Value(p) && v % 10 == d;
      assert DigitChar(d) == s[|s| - 1];
      assert p + [s[|s| - 1]] == s;
    }
  }
}
