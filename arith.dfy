/** Small facts of integer arithmetic that the solver does not find unaided. */
module Arith {

  /** d is a positive divisor of n. */
  predicate Divides(d: int, n: int) {
    d > 0 && n % d == 0
  }

  /** Division by a positive k has one quotient and one remainder. */
  lemma DivModUnique(x: int, k: int, q: int, r: int)
    requires k > 0 && 0 <= r < k && x == q * k + r
    ensures x / k == q && x % k == r
  {
    var q', r' := x / k, x % k;
    assert x == q' * k + r';
    var dq := q' - q;
    assert dq * k == q' * k - q * k;
    assert dq * k == r - r';
    if dq >= 1 {
      MulMono(1, dq, k);
    } else if dq <= -1 {
      MulMono(1, -dq, k);
    }
  }

  /** A divisor d of n comes with the co-factor n / d. */
  lemma CoFactor(d: int, n: int)
    requires Divides(d, n)
    ensures n == d * (n / d)
  {
    assert n == (n / d) * d + n % d;
  }

  lemma MulMono(a: int, b: int, c: int)
    requires 0 <= a <= b && c >= 0
    ensures a * c <= b * c
  {
    assert b * c - a * c == (b - a) * c;
  }

  /** A ratio of integers compared with 0.6, in integers. */
  lemma RatioAtLeastThreeFifths(c: int, m: int)
    requires m > 0
    ensures c as real / m as real >= 0.6 <==> 5 * c >= 3 * m
  {
    var x, r := c as real / m as real, m as real;
    assert x * r == c as real;
    assert (5.0 * x - 3.0) * r == (5 * c - 3 * m) as real;
    if 5.0 * x - 3.0 < 0.0 {
      assert (5.0 * x - 3.0) * r < 0.0;
    }
  }
}
