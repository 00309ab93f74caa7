/** Decimal text, as Python's `str(n)` writes an integer and `int(c)` reads
    one character. */
module Decimal {

  /** A character `int(c)` reads as a one-digit number (ASCII digits only). */
  predicate IsDigit(c: char) {
    '0' <= c <= '9'
  }

  function DigitValue(c: char): (d: nat)
    requires IsDigit(c)
    ensures d <= 9 && DigitChar(d) == c
  {
    c as int - '0' as int
  }

  function DigitChar(d: nat): (c: char)
    requires d <= 9
    ensures IsDigit(c) && c as int - '0' as int == d
  {
    ('0' as int + d) as char
  }

  /** `str(n)` for a natural number: the digits without leading zeros. */
  function NatString(n: nat): (s: string)
    ensures 1 <= |s| && forall i :: 0 <= i < |s| ==> IsDigit(s[i])
    decreases n
  {
    if n < 10 then [DigitChar(n)] else NatString(n / 10) + [DigitChar(n % 10)]
  }

  /** `str(v)` for any integer: a minus sign before the digits of a negative one. */
  function IntString(v: int): (s: string)
    ensures 1 <= |s|
    ensures |s| == 1 <==> 0 <= v <= 9
    ensures 0 <= v <= 9 ==> s == [DigitChar(v)]
  {
    if v < 0 then "-" + NatString(-v) else NatString(v)
  }
}
