/** Facts about integer multiplication and floor division that the solver
    does not find alone: the arithmetic behind `i // cols`, `i % cols` and
    `int(total / count)`. */
module Arith {

  lemma MulMonotone(a: int, b: int, c: int)
    requires a <= b && 0 <= c
    ensures a * c <= b * c
  {
    var d := b - a;
    assert b * c == a * c + d * c;
  }

  lemma MulStrict(a: int, b: int, c: int)
    requires a < b && 0 < c
    ensures a * c < b * c
  {
    var d := b - a;
    assert b * c == a * c + d * c;
    assert d * c >= c by { MulMonotone(1, d, c); }
  }

  lemma MulSucc(a: int, n: int)
    ensures a * (n + 1) == a * n + a
  {
  }

  /** The quotient of a floor division, bracketed by the dividend. */
  lemma FloorDiv(t: int, n: int)
    requires 0 < n
    ensures (t / n) * n <= t < (t / n) * n + n
    ensures t == (t / n) * n + t % n && 0 <= t % n < n
  {
  }

  /** a < b moves a multiple of n up by at least n. */
  lemma MulStep(a: int, b: int, n: int)
    requires a < b && 0 <= n
    ensures a * n + n <= b * n
  {
    MulMonotone(a + 1, b, n);
    MulSucc(n, a);
  }

  /** A quotient and remainder are determined by the dividend. */
  lemma DivModUnique(t: int, n: int, q: int, r: int)
    requires 0 < n && 0 <= r < n && t == q * n + r
    ensures t / n == q && t % n == r
  {
    FloorDiv(t, n);
    var q' := t / n;
    if q' < q {
      MulStep(q', q, n);
    } else if q < q' {
      MulStep(q, q', n);
    }
  }

  lemma FloorDivBound(t: int, n: int, m: int)
    requires 0 < n && t <= m * n
    ensures t / n <= m
  {
    FloorDiv(t, n);
  }

  /** A floor mean of values between lo and hi is itself between them. */
  lemma FloorMeanWithin(t: int, n: int, c: int, lo: int, hi: int)
    requires 0 < n && c * n <= t < c * n + n
    requires lo * n <= t <= hi * n
    ensures lo <= c <= hi
  {
    if c < lo {
      assert (c + 1) * n == c * n + n;
      MulMonotone(c + 1, lo, n);
    }
    if c > hi {
      assert (hi + 1) * n == hi * n + n;
      MulMonotone(hi + 1, c, n);
    }
  }

  /** `a % n` is unchanged by adding multiples of `n`. */
  lemma ModAddMultiple(a: int, k: int, n: int)
    requires 0 < n
    ensures (a + k * n) % n == a % n
  {
    FloorDiv(a, n);
    assert a + k * n == (a / n + k) * n + a % n;
    DivModUnique(a + k * n, n, a / n + k, a % n);
  }

  /** Reducing a summand first does not change a sum's remainder. */
  lemma ModOfSum(a: int, b: int, n: int)
    requires 0 < n
    ensures (a % n + b) % n == (a + b) % n
  {
    FloorDiv(a, n);
    ModAddMultiple(a % n + b, a / n, n);
    assert a % n + b + (a / n) * n == a + b;
  }

  /** `int(n ** 0.5)` on exact arithmetic: the integer square root. */
  function FloorSqrt(n: nat): (r: nat)
    ensures r * r <= n < (r + 1) * (r + 1)
  {
    if n == 0 then 0
    else
      var r := FloorSqrt(n - 1);
      if (r + 1) * (r + 1) <= n then r + 1 else r
  }

  lemma SquareMonotone(a: nat, b: nat)
    requires a <= b
    ensures a * a <= b * b
  {
    MulMonotone(a, b, a);
    MulMonotone(a, b, b);
  }

  /** A number lies between the squares of only one pair of neighbours. */
  lemma RootUnique(n: int, r: nat, k: nat)
    requires r * r <= n < (r + 1) * (r + 1)
    requires k * k <= n < (k + 1) * (k + 1)
    ensures r == k
  {
    if r < k {
      SquareMonotone(r + 1, k);
    } else if k < r {
      SquareMonotone(k + 1, r);
    }
  }

  /** The integer square root of a perfect square is its root. */
  lemma FloorSqrtOfSquare(k: nat)
    ensures FloorSqrt(k * k) == k
  {
    assert (k + 1) * (k + 1) == k * k + 2 * k + 1;
    RootUnique(k * k, FloorSqrt(k * k), k);
  }
}
