/** Primality, as the table uses it to size its array: trial division and an upward scan. */
module Primes {

  import opened Arith

  /** n is a prime number. */
  ghost predicate Prime(n: int) {
    n >= 2 && forall d :: 2 <= d < n ==> !Divides(d, n)
  }

  /** p is the smallest prime that is at least n. */
  ghost predicate LeastPrimeFrom(n: int, p: int) {
    n <= p && Prime(p) && forall m :: n <= m < p ==> !Prime(m)
  }

  /** A proper divisor of n, or its co-factor, is a divisor whose square is at most n. */
  lemma SmallDivisor(d: int, n: int) returns (e: int)
    requires 2 <= d < n && Divides(d, n)
    ensures 2 <= e && e * e <= n && Divides(e, n)
  {
    if d * d <= n {
      return d;
    }
    CoFactor(d, n);
    e := n / d;
    assert e >= 2 by {
      if e <= 1 {
        MulMono(e, 1, d);
      }
    }
    assert e < d by {
      if e >= d {
        MulMono(d, e, d);
      }
    }
    MulMono(e, d, e);
    DivModUnique(n, e, d, 0);
  }

  /** Trial division only has to try the candidates d with d * d <= n. */
  lemma PrimeByTrialDivision(n: int)
    requires n >= 2
    ensures Prime(n) <==> forall d :: 2 <= d && d * d <= n ==> !Divides(d, n)
  {
    if !Prime(n) {
      var d :| 2 <= d < n && Divides(d, n);
      var e := SmallDivisor(d, n);
    }
    if !forall d :: 2 <= d && d * d <= n ==> !Divides(d, n) {
      var d :| 2 <= d && d * d <= n && Divides(d, n);
      MulMono(2, d, d);
    }
  }

  /**
   * isPrime: false for 0 and 1; otherwise tries the divisors 2, 3, ... while
   * i * i <= n. For a negative n no divisor is tried and the answer is true,
   * just as the source's comparison with the square root of a negative number
   * (NaN) never holds.
   */
  method IsPrime(n: int) returns (b: bool)
    ensures b <==> n < 0 || Prime(n)
  {
    if n == 1 || n == 0 {
      return false;
    }
    var i := 2;
    while i * i <= n
      invariant 2 <= i
      invariant forall d :: 2 <= d < i ==> !Divides(d, n)
      decreases n - i
    {
      MulMono(2, i, i);
      if n % i == 0 {
        assert Divides(i, n);
        if n >= 2 {
          PrimeByTrialDivision(n);
        }
        return false;
      }
      i := i + 1;
    }
    if n >= 2 {
      forall d | 2 <= d && d * d <= n
        ensures !Divides(d, n)
      {
        if d >= i {
          MulMono(i, d, i);
          MulMono(i, d, d);
        }
      }
      PrimeByTrialDivision(n);
    }
    return true;
  }

  ghost function Factorial(n: nat): (f: nat)
    ensures f >= 1
  {
    if n == 0 then 1 else
      MulMono(1, n, Factorial(n - 1));
      n * Factorial(n - 1)
  }

  /** Every k in [1, n] divides n!. */
  lemma {:induction false} FactorialDivisible(n: nat, k: int)
    requires 1 <= k <= n
    ensures Divides(k, Factorial(n))
  {
    var f := Factorial(n - 1);
    if k == n {
      DivModUnique(n * f, n, f, 0);
    } else {
      FactorialDivisible(n - 1, k);
      CoFactor(k, f);
      var q := f / k;
      assert n * f == n * (k * q);
      assert n * (k * q) == (n * q) * k;
      DivModUnique(n * f, k, n * q, 0);
    }
  }

  /** Every number from 2 on has a prime divisor. */
  lemma {:induction false} PrimeDivisor(m: int)
    requires m >= 2
    ensures exists p :: Prime(p) && Divides(p, m)
    decreases m
  {
    if Prime(m) {
      DivModUnique(m, m, 1, 0);
      assert Divides(m, m);
    } else {
      var d :| 2 <= d < m && Divides(d, m);
      PrimeDivisor(d);
      var p :| Prime(p) && Divides(p, d);
      CoFactor(p, d);
      CoFactor(d, m);
      var a, c := d / p, m / d;
      assert m == (p * a) * c;
      assert (p * a) * c == (a * c) * p;
      DivModUnique(m, p, a * c, 0);
      assert Divides(p, m);
    }
  }

  /** There is a prime at least n: a prime divisor of n! + 1 is larger than n. */
  lemma PrimeAtLeast(n: int)
    ensures exists p :: n <= p && Prime(p)
  {
    if n < 2 {
      assert Prime(2);
    } else {
      var m := Factorial(n) + 1;
      PrimeDivisor(m);
      var p :| Prime(p) && Divides(p, m);
      if p <= n {
        FactorialDivisible(n, p);
        CoFactor(p, Factorial(n));
        DivModUnique(m, p, Factorial(n) / p, 1);
        assert false;
      }
    }
  }

  /**
   * nextPrime: scans upward from n until isPrime holds. For n >= 0 that is the
   * least prime at least n (n itself when n is prime); a negative n passes
   * isPrime at once and is returned unchanged.
   */
  method NextPrime(n: int) returns (r: int)
    ensures n < 0 ==> r == n
    ensures n >= 0 ==> LeastPrimeFrom(n, r)
    ensures Prime(n) ==> r == n
  {
    PrimeAtLeast(n);
    ghost var p :| n <= p && Prime(p);
    r := n;
    var b := IsPrime(r);
    while !b
      invariant n <= r <= p
      invariant b <==> r < 0 || Prime(r)
      invariant n < 0 ==> r == n
      invariant forall m :: n <= m < r ==> !Prime(m)
      decreases p - r
    {
      r := r + 1;
      b := IsPrime(r);
    }
  }
}
