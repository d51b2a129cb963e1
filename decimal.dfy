/**
 * Decimal text of an `int`, as C's `%d` conversion writes it: an optional
 * leading minus sign followed by the digits of the magnitude, most
 * significant first, with no leading zero. `DecimalValue` reads such a
 * token back; the round-trip lemma shows the rendering loses nothing.
 */
module Decimal {

  predicate IsDigit(c: char) {
    '0' <= c <= '9'
  }

  predicate AllDigits(s: string) {
    forall i :: 0 <= i < |s| ==> IsDigit(s[i])
  }

  /** The character of the decimal digit `d`. */
  function DigitChar(d: nat): (c: char)
    requires d < 10
    ensures IsDigit(c) && DigitValue(c) == d
  {
    (d + '0' as int) as char
  }

  /** The digit a character stands for. */
  function DigitValue(c: char): nat
    requires IsDigit(c)
  {
    c as int - '0' as int
  }

  /** The digits of `n`: never empty, and no leading zero; zero is written "0". */
  function NatToDecimal(n: nat): (s: string)
    ensures |s| > 0 && AllDigits(s)
    ensures s[0] == '0' ==> n == 0 && s == "0"
    decreases n
  {
    if n < 10 then [DigitChar(n)] else NatToDecimal(n / 10) + [DigitChar(n % 10)]
  }

  /** `%d`: the digits of the magnitude, preceded by '-' exactly when `x` is negative. */
  function IntToDecimal(x: int): (s: string)
    ensures |s| > 0
    ensures (s[0] == '-') <==> x < 0
    ensures AllDigits(s[1..]) && (IsDigit(s[0]) || s[0] == '-')
    ensures |s| > 1 && s[0] == '-' ==> s[1] != '0'
    ensures s[0] == '0' ==> s == "0"
  {
    if x < 0 then "-" + NatToDecimal(-x) else NatToDecimal(x)
  }

  /** A well-formed `%d` token shape: an optional '-' followed by at least one digit. */
  predicate IsDecimalToken(s: string) {
    if |s| > 0 && s[0] == '-' then |s| > 1 && AllDigits(s[1..]) else |s| > 0 && AllDigits(s)
  }

  /** The value of a run of digits, most significant first. */
  function DigitsValue(s: string): nat
    requires AllDigits(s)
  {
    if s == [] then 0 else DigitsValue(s[..|s| - 1]) * 10 + DigitValue(s[|s| - 1])
  }

  /** The value of a `%d` token, as `strtol` in base 10 would read it. */
  function DecimalValue(s: string): int
    requires IsDecimalToken(s)
  {
    if s[0] == '-' then -(DigitsValue(s[1..]) as int) else DigitsValue(s)
  }

  lemma {:induction false} NatToDecimalRoundTrip(n: nat)
    ensures DigitsValue(NatToDecimal(n)) == n
    decreases n
  {
    var s := NatToDecimal(n);
    if n >= 10 {
      NatToDecimalRoundTrip(n / 10);
      assert s[..|s| - 1] == NatToDecimal(n / 10);
    }
  }

  /** What `%d` writes is a well-formed token that reads back as the same integer. */
  lemma IntToDecimalRoundTrip(x: int)
    ensures IsDecimalToken(IntToDecimal(x))
    ensures DecimalValue(IntToDecimal(x)) == x
  {
    var s := IntToDecimal(x);
    if x < 0 {
      assert s[1..] == NatToDecimal(-x);
      NatToDecimalRoundTrip(-x);
    } else {
      NatToDecimalRoundTrip(x);
    }
  }

  /** Distinct integers are written as distinct tokens. */
  lemma IntToDecimalInjective(x: int, y: int)
    ensures IntToDecimal(x) == IntToDecimal(y) ==> x == y
  {
    IntToDecimalRoundTrip(x);
    IntToDecimalRoundTrip(y);
  }
}
