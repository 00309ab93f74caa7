/** Lowercase hexadecimal text, as Python's `f'{n:x}'`, `f'{n:0Wx}'` and
    `int(s, 16)` produce and read it. */
module Hex {

  /** A character `int(s, 16)` accepts as a digit. */
  predicate IsDigit(c: char) {
    ('0' <= c <= '9') || ('a' <= c <= 'f') || ('A' <= c <= 'F')
  }

  predicate AllDigits(s: string) {
    forall i :: 0 <= i < |s| ==> IsDigit(s[i])
  }

  /** The value of one hexadecimal digit, in either case. */
  function DigitValue(c: char): (d: nat)
    requires IsDigit(c)
    ensures d < 16
  {
    if '0' <= c <= '9' then c as int - '0' as int
    else if 'a' <= c <= 'f' then c as int - 'a' as int + 10
    else c as int - 'A' as int + 10
  }

  /** The lowercase digit Python's `x` format writes for `d`. */
  function DigitChar(d: nat): (c: char)
    requires d < 16
    ensures IsDigit(c) && DigitValue(c) == d
    ensures '0' <= c <= '9' || 'a' <= c <= 'f'
  {
    if d < 10 then ('0' as int + d) as char else ('a' as int + d - 10) as char
  }

  /** `f'{n:x}'`: the shortest digit string, "0" for zero. */
  function Digits(n: nat): (s: string)
    ensures 1 <= |s| && AllDigits(s)
    decreases n
  {
    if n < 16 then [DigitChar(n)] else Digits(n / 16) + [DigitChar(n % 16)]
  }

  function Zeros(k: nat): (s: string)
    ensures |s| == k && forall i :: 0 <= i < k ==> s[i] == '0'
  {
    seq(k, _ => '0')
  }

  /** `f'{n:0Wx}'` with W = w: the digits of `n`, padded on the left with
      zeros to at least `w` characters (never cut). */
  function Padded(n: nat, w: nat): (s: string)
    ensures AllDigits(s)
    ensures |s| == if |Digits(n)| < w then w else |Digits(n)|
  {
    var d := Digits(n);
    if |d| < w then Zeros(w - |d|) + d else d
  }

  /** `int(s, 16)` on a string of hexadecimal digits. Python refuses the
      empty string; every string parsed in these scripts has two digits. */
  function Parse(s: string): nat
    requires AllDigits(s)
  {
    if s == [] then 0 else Parse(s[..|s| - 1]) * 16 + DigitValue(s[|s| - 1])
  }

  function Pow16(k: nat): (p: nat)
    ensures p >= 1
  {
    if k == 0 then 1 else 16 * Pow16(k - 1)
  }

  /** Reading back what the `x` format wrote gives the number. */
  lemma {:induction false} ParseDigits(n: nat)
    ensures Parse(Digits(n)) == n
    decreases n
  {
    if n >= 16 {
      var d := Digits(n);
      assert d[..|d| - 1] == Digits(n / 16);
      ParseDigits(n / 16);
    }
  }

  /** Leading zeros do not change the value `int(s, 16)` reads. */
  lemma {:induction false} ParseLeadingZeros(k: nat, s: string)
    requires AllDigits(s)
    ensures AllDigits(Zeros(k) + s) && Parse(Zeros(k) + s) == Parse(s)
    decreases |s|
  {
    var z := Zeros(k) + s;
    if s == [] {
      ParseZeros(k);
      assert z == Zeros(k);
    } else {
      assert z[..|z| - 1] == Zeros(k) + s[..|s| - 1];
      ParseLeadingZeros(k, s[..|s| - 1]);
    }
  }

  lemma {:induction false} ParseZeros(k: nat)
    ensures Parse(Zeros(k)) == 0
  {
    if k > 0 {
      assert Zeros(k)[..k - 1] == Zeros(k - 1);
      ParseZeros(k - 1);
    }
  }

  /** Reading back what the `0Wx` format wrote gives the number. */
  lemma ParsePadded(n: nat, w: nat)
    ensures Parse(Padded(n, w)) == n
  {
    var d := Digits(n);
    ParseDigits(n);
    if |d| < w {
      ParseLeadingZeros(w - |d|, d);
      assert Padded(n, w) == Zeros(w - |d|) + d;
    } else {
      assert Padded(n, w) == d;
    }
  }

  /** Two different numbers never format to the same padded text. */
  lemma PaddedInjective(m: nat, n: nat, w: nat)
    requires Padded(m, w) == Padded(n, w)
    ensures m == n
  {
    ParsePadded(m, w);
    ParsePadded(n, w);
  }

  /** A number below 16^k has at most k digits. */
  lemma {:induction false} DigitsLength(n: nat, k: nat)
    requires 1 <= k && n < Pow16(k)
    ensures |Digits(n)| <= k
    decreases k
  {
    if n >= 16 {
      assert Pow16(1) == 16;
      assert k >= 2;
      assert n / 16 < Pow16(k - 1);
      DigitsLength(n / 16, k - 1);
    }
  }

  /** `f'{n:0Wx}'` is exactly W characters long when n < 16^W. */
  lemma PaddedWidth(n: nat, w: nat)
    requires 1 <= w && n < Pow16(w)
    ensures |Padded(n, w)| == w
  {
    DigitsLength(n, w);
  }
}
