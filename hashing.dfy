/**
 * The primary string hash of the table: Java's polynomial hash with multiplier
 * 31, computed in 32-bit `int` arithmetic, made non-negative with `Math.abs`
 * and reduced with Java's `%` by the capacity the table was built with.
 */
module Hashing {

  import opened Arith

  /** A Java `int`, as a mathematical integer in its range. */
  type Int32 = x: int | -0x8000_0000 <= x < 0x8000_0000

  const MinInt32: Int32 := -0x8000_0000

  /** A Java `char`: one UTF-16 code unit, which is what `String.charAt` returns. */
  type CodeUnit = c: int | 0 <= c < 0x1_0000

  /** A non-null Java `String`, as its sequence of code units. */
  type Key = seq<CodeUnit>

  /** x as a Java `int`: the value in [-2^31, 2^31) that agrees with x modulo 2^32. */
  function Wrap(x: int): (r: Int32)
    ensures (r - x) % 0x1_0000_0000 == 0
  {
    (x + 0x8000_0000) % 0x1_0000_0000 - 0x8000_0000
  }

  /** Integers that agree modulo 2^32 wrap to the same `int`. */
  lemma WrapCongruent(a: int, b: int)
    requires (a - b) % 0x1_0000_0000 == 0
    ensures Wrap(a) == Wrap(b)
  {
    var q := (a - b) / 0x1_0000_0000;
    assert a == b + q * 0x1_0000_0000;
  }

  /** Java's `Math.abs` on an `int`: the negation wraps, so MIN_VALUE is its own absolute value. */
  function Abs(x: Int32): (r: Int32)
    ensures x != MinInt32 ==> r >= 0 && (r == x || r == -x)
    ensures x == MinInt32 ==> r == MinInt32
  {
    if x < 0 then Wrap(0 - x as int) else x
  }

  /** Java's `%` for a positive divisor: the quotient truncates toward zero, so the remainder takes the sign of a. */
  function Rem(a: int, b: int): (r: int)
    requires b > 0
    ensures a >= 0 ==> 0 <= r < b
    ensures a < 0 ==> -b < r <= 0
    ensures (a - r) % b == 0
  {
    if a >= 0 then
      DivModUnique(a - a % b, b, a / b, 0);
      a % b
    else
      DivModUnique(a + (-a) % b, b, -((-a) / b), 0);
      -((-a) % b)
  }

  /** One turn of the hash loop: `hash = key.charAt(i) + ((hash << 5) - hash)`, every operation in `int`. */
  function Step(h: Int32, c: CodeUnit): Int32 {
    Wrap(c + Wrap(Wrap(h * 32) - h))
  }

  /** The loop's accumulator once it has consumed all of key. */
  function Accumulate(key: Key): Int32
    decreases |key|
  {
    if |key| == 0 then 0 else Step(Accumulate(key[..|key| - 1]), key[|key| - 1])
  }

  /** The polynomial key[0]*31^(n-1) + ... + key[n-1] over unbounded integers. */
  function Polynomial(key: Key): int
    decreases |key|
  {
    if |key| == 0 then 0 else 31 * Polynomial(key[..|key| - 1]) + key[|key| - 1]
  }

  /** The shift-and-subtract of one turn is multiplication by 31, modulo 2^32. */
  lemma StepTimes31(h: Int32, c: CodeUnit)
    ensures Step(h, c) == Wrap(c + 31 * h)
  {
    var s := Wrap(h * 32);
    var t := Wrap(s - h);
    assert (t - (31 * h)) % 0x1_0000_0000 == 0 by {
      var q1 := (s - h * 32) / 0x1_0000_0000;
      var q2 := (t - (s - h)) / 0x1_0000_0000;
      assert s == h * 32 + q1 * 0x1_0000_0000;
      assert t == s - h + q2 * 0x1_0000_0000;
      assert t - 31 * h == (q1 + q2) * 0x1_0000_0000;
    }
    WrapCongruent(c + t, c + 31 * h);
  }

  /** Multiplying by 31 and adding c respects agreement modulo 2^32. */
  lemma WrapTimes31(a: int, p: int, c: int)
    requires (a - p) % 0x1_0000_0000 == 0
    ensures Wrap(c + 31 * a) == Wrap(c + 31 * p)
  {
    var q := (a - p) / 0x1_0000_0000;
    assert a == p + q * 0x1_0000_0000;
    assert c + 31 * a == c + 31 * p + (31 * q) * 0x1_0000_0000;
    DivModUnique(c + 31 * a - (c + 31 * p), 0x1_0000_0000, 31 * q, 0);
    WrapCongruent(c + 31 * a, c + 31 * p);
  }

  /** One turn of the loop on the wrapped polynomial of a prefix gives the wrapped polynomial of the longer key. */
  lemma StepOfWrapped(p: int, c: CodeUnit)
    ensures Step(Wrap(p), c) == Wrap(31 * p + c)
  {
    var a := Wrap(p);
    StepTimes31(a, c);
    WrapTimes31(a, p, c);
  }

  /** The hash loop computes the 31-polynomial of the key, wrapped to 32 bits. */
  lemma {:induction false} AccumulateIsPolynomial(key: Key)
    ensures Accumulate(key) == Wrap(Polynomial(key))
    decreases |key|
  {
    if |key| > 0 {
      var pre, c := key[..|key| - 1], key[|key| - 1];
      AccumulateIsPolynomial(pre);
      StepOfWrapped(Polynomial(pre), c);
    }
  }

  /**
   * hash(key): the accumulator made non-negative by `Math.abs`, then
   * `% modulus` (the table passes initialCapacity). The result lies strictly
   * between -modulus and modulus, and it is non-negative unless the
   * accumulator is MIN_VALUE.
   */
  function Hash(key: Key, modulus: int): (r: int)
    requires modulus > 0
    ensures -modulus < r < modulus
    ensures Accumulate(key) != MinInt32 ==> r >= 0
  {
    var a := Accumulate(key);
    if a == MinInt32 then
      assert Abs(a) == MinInt32;
      Rem(Abs(a), modulus)
    else
      assert Abs(a) >= 0;
      Rem(Abs(a), modulus)
  }

  /**
   * The hash is negative exactly when the accumulator is MIN_VALUE, which
   * `Math.abs` leaves negative, and the modulus does not divide 2^31.
   */
  lemma HashRange(key: Key, modulus: int)
    requires modulus > 0
    ensures Hash(key, modulus) >= 0 <==> Accumulate(key) != MinInt32 || 0x8000_0000 % modulus == 0
    ensures Accumulate(key) == MinInt32 ==> Hash(key, modulus) == -(0x8000_0000 % modulus)
  {
    var a := Accumulate(key);
    if a == MinInt32 {
      assert Abs(a) == MinInt32;
      assert Hash(key, modulus) == -(0x8000_0000 % modulus);
    } else {
      assert Abs(a) >= 0;
    }
  }

  /** Extending a key by one code unit runs one more turn of the loop. */
  lemma AccumulateSnoc(pre: Key, c: CodeUnit)
    ensures Accumulate(pre + [c]) == Step(Accumulate(pre), c)
  {
    assert (pre + [c])[..|pre|] == pre;
  }

  /** Extending a key by one code unit is one more Horner step of the polynomial. */
  lemma PolynomialSnoc(pre: Key, c: CodeUnit)
    ensures Polynomial(pre + [c]) == 31 * Polynomial(pre) + c
  {
    assert (pre + [c])[..|pre|] == pre;
  }

  /** The key "GydZG_" drives the accumulator to MIN_VALUE, so the negative case of HashRange occurs. */
  lemma MinValueKey()
    ensures Accumulate([71, 121, 100, 90, 71, 95]) == MinInt32
  {
    assert Polynomial([71]) == 71 by {
      PolynomialSnoc([], 71);
      assert [] + [71] == [71];
    }
    assert Polynomial([71, 121]) == 2322 by {
      PolynomialSnoc([71], 121);
      assert [71] + [121] == [71, 121];
    }
    assert Polynomial([71, 121, 100]) == 72082 by {
      PolynomialSnoc([71, 121], 100);
      assert [71, 121] + [100] == [71, 121, 100];
    }
    assert Polynomial([71, 121, 100, 90]) == 2234632 by {
      PolynomialSnoc([71, 121, 100], 90);
      assert [71, 121, 100] + [90] == [71, 121, 100, 90];
    }
    assert Polynomial([71, 121, 100, 90, 71]) == 69273663 by {
      PolynomialSnoc([71, 121, 100, 90], 71);
      assert [71, 121, 100, 90] + [71] == [71, 121, 100, 90, 71];
    }
    assert Polynomial([71, 121, 100, 90, 71, 95]) == 2147483648 by {
      PolynomialSnoc([71, 121, 100, 90, 71], 95);
      assert [71, 121, 100, 90, 71] + [95] == [71, 121, 100, 90, 71, 95];
    }
    AccumulateIsPolynomial([71, 121, 100, 90, 71, 95]);
  }

  /** hash(key) as the source computes it: a loop over the characters, then `Math.abs` and `%`. */
  method HashCode(key: Key, modulus: int) returns (h: int)
    requires modulus > 0
    ensures h == Hash(key, modulus)
  {
    var hash: Int32 := 0;
    for i := 0 to |key|
      invariant hash == Accumulate(key[..i])
    {
      AccumulateSnoc(key[..i], key[i]);
      assert key[..i] + [key[i]] == key[..i + 1];
      hash := Wrap(key[i] + Wrap(Wrap(hash * 32) - hash));
    }
    assert key[..|key|] == key;
    if hash < 0 {
      hash := Abs(hash);
    }
    h := Rem(hash, modulus);
  }
}
