/**
 Finite double-precision numbers as the real numbers they stand for, and rounding to the nearest
 of them with ties to even (binary64 of IEEE 754-2008, sections 3.3 and 4.3.1).
 */
module Binary64 {
  import opened Powers

  const PRECISION: nat := 53
  const MIN_EXPONENT: int := -1074
  const MAX_EXPONENT: int := 971

  /** Two to the power e, for every integer e. */
  function Scale(e: int): (r: real)
    ensures r > 0.0
    decreases if e < 0 then -e else e
  {
    if e == 0 then 1.0 else if e > 0 then 2.0 * Scale(e - 1) else Scale(e + 1) / 2.0
  }

  function Abs(x: real): real {
    if x < 0.0 then -x else x
  }

  /** x is m * 2^e with a significand of at most 53 bits. */
  ghost predicate Represents(m: int, e: int, x: real) {
    && Pow2(PRECISION) > m && Pow2(PRECISION) > -m
    && MIN_EXPONENT <= e <= MAX_EXPONENT
    && x == m as real * Scale(e)
  }

  ghost predicate IsDouble(x: real) {
    exists m, e :: Represents(m, e, x)
  }

  ghost function Largest(): real {
    (Pow2(PRECISION) - 1) as real * Scale(MAX_EXPONENT)
  }

  /** The nearest integer, and the even one of two equally near. */
  function RoundHalfEven(y: real): (n: int)
    ensures n as real - 0.5 <= y <= n as real + 0.5
    ensures y == n as real - 0.5 || y == n as real + 0.5 ==> n % 2 == 0
  {
    var f := y.Floor;
    var rest := y - f as real;
    if rest < 0.5 || (rest == 0.5 && f % 2 == 0) then f else f + 1
  }

  /** The least exponent, from e upwards, whose significands reach a. */
  function ExponentFrom(a: real, e: int): (r: int)
    requires e <= MAX_EXPONENT
    ensures e <= r <= MAX_EXPONENT
    ensures a < Scale(r + PRECISION) || r == MAX_EXPONENT
    ensures r > e ==> a >= Scale(r - 1 + PRECISION)
    decreases MAX_EXPONENT - e
  {
    if e == MAX_EXPONENT || a < Scale(e + PRECISION) then e else ExponentFrom(a, e + 1)
  }

  /** Rounding to nearest, ties to even; values beyond the largest double are not modelled. */
  function Round(x: real): real {
    var e := ExponentFrom(Abs(x), MIN_EXPONENT);
    RoundHalfEven(x / Scale(e)) as real * Scale(e)
  }

  // ----- powers -----

  lemma ScaleStep(e: int)
    ensures Scale(e + 1) == 2.0 * Scale(e)
  {
  }

  lemma {:induction false} ScaleSum(e: int, n: nat)
    ensures Scale(e + n) == Scale(e) * Pow2(n) as real
  {
    if n > 0 {
      ScaleSum(e, n - 1);
      ScaleStep(e + n - 1);
      var p := Pow2(n - 1) as real;
      assert Pow2(n) as real == 2.0 * p;
      assert 2.0 * (Scale(e) * p) == Scale(e) * (2.0 * p);
    }
  }

  // ----- rounding is nearest -----

  lemma NearestInteger(y: real, k: int)
    ensures Abs(y - RoundHalfEven(y) as real) <= 0.5
    ensures Abs(y - RoundHalfEven(y) as real) <= Abs(y - k as real)
  {
    hide RoundHalfEven;
    var n := RoundHalfEven(y);
    if k < n {
      assert k as real <= n as real - 1.0;
    } else if k > n {
      assert k as real >= n as real + 1.0;
    }
  }

  /** Among the multiples of 2^e none is nearer to x than the rounded one. */
  lemma NearestMultiple(x: real, e: int, k: int, rounded: real, z: real)
    requires rounded == RoundHalfEven(x / Scale(e)) as real * Scale(e) && z == k as real * Scale(e)
    ensures Abs(x - rounded) <= Abs(x - z)
    ensures Abs(x - rounded) <= 0.5 * Scale(e)
  {
    hide RoundHalfEven, Abs, Scale;
    var s := Scale(e);
    var y := x / s;
    var n := RoundHalfEven(y);
    NearestInteger(y, k);
    ScaledDistance(x, y, n as real, s, rounded);
    ScaledDistance(x, y, k as real, s, z);
    ScaleOrder(Abs(y - n as real), Abs(y - k as real), s);
    ScaleOrder(Abs(y - n as real), 0.5, s);
  }

  lemma ScaledDistance(x: real, y: real, n: real, s: real, z: real)
    requires s > 0.0 && y == x / s && z == n * s
    ensures Abs(x - z) == Abs(y - n) * s
  {
  }

  lemma ScaleOrder(a: real, b: real, s: real)
    requires a <= b && s > 0.0
    ensures a * s <= b * s
  {
  }

  // Products with the scale, by name, so that the steps below stay linear.

  lemma FinerOrEqualGrid(m: int, ez: int, e: int, z: real) returns (k: int)
    requires ez >= e && z == m as real * Scale(ez)
    ensures z == k as real * Scale(e)
  {
    ScaleSum(e, ez - e);
    k := m * Pow2(ez - e);
    ProductsRegrouped(m as real, Scale(e), Pow2(ez - e) as real);
  }

  lemma ProductsRegrouped(a: real, s: real, p: real)
    ensures a * (s * p) == (a * p) * s
  {
  }

  lemma {:induction false} ScaleMonotone(a: int, b: int)
    requires a <= b
    ensures Scale(a) <= Scale(b)
    decreases b - a
  {
    if a < b {
      ScaleMonotone(a, b - 1);
      ScaleStep(b - 1);
    }
  }

  lemma SmallProduct(a: real, p: real, s: real, s': real, z: real)
    requires Abs(a) < p && 0.0 < s <= s' && z == a * s
    ensures Abs(z) < s' * p
  {
  }

  /** A double with a smaller exponent lies below 2^(e+52). */
  lemma SmallerExponentIsSmall(m: int, ez: int, e: int, z: real)
    requires Represents(m, ez, z) && ez < e
    ensures Abs(z) < Scale(e - 1 + PRECISION)
  {
    hide Scale, Pow2;
    ScaleMonotone(ez, e - 1);
    ScaleSum(e - 1, PRECISION);
    SmallProduct(m as real, Pow2(PRECISION) as real, Scale(ez), Scale(e - 1), z);
  }

  lemma RoundIsNearest(x: real, z: real)
    requires IsDouble(z)
    ensures Abs(x - Round(x)) <= Abs(x - z)
  {
    hide Scale, RoundHalfEven, ExponentFrom, Pow2;
    var m, ez :| Represents(m, ez, z);
    var e := ExponentFrom(Abs(x), MIN_EXPONENT);
    if ez >= e {
      var k := FinerOrEqualGrid(m, ez, e, z);
      NearestMultiple(x, e, k, Round(x), z);
    } else {
      SmallerExponentIsSmall(m, ez, e, z);
      BinadeStart(e);
      var b := Scale(e - 1 + PRECISION);
      var k: int := Pow2(PRECISION - 1);
      if x >= 0.0 {
        NearestMultiple(x, e, k, Round(x), b);
      } else {
        NegatedProduct(k as real, Scale(e));
        NearestMultiple(x, e, -k, Round(x), -b);
      }
    }
  }

  lemma NegatedProduct(k: real, s: real)
    ensures (-k) * s == -(k * s)
  {
  }

  lemma BinadeStart(e: int)
    ensures Scale(e - 1 + PRECISION) == Pow2(PRECISION - 1) as real * Scale(e)
  {
    hide Scale, Pow2;
    ScaleSum(e, PRECISION - 1);
  }

  lemma RoundHalfEvenIsOdd(y: real)
    ensures RoundHalfEven(-y) == -RoundHalfEven(y)
  {
  }

  lemma NegatedQuotient(x: real, s: real)
    requires s > 0.0
    ensures -x / s == -(x / s)
  {
  }

  lemma RoundIsOdd(x: real)
    ensures Round(-x) == -Round(x)
  {
    hide RoundHalfEven, ExponentFrom, Scale;
    var s := Scale(ExponentFrom(Abs(x), MIN_EXPONENT));
    NegatedQuotient(x, s);
    RoundHalfEvenIsOdd(x / s);
    NegatedProduct(RoundHalfEven(x / s) as real, s);
  }

  lemma QuotientBelow(y: real, s: real, x: real, top: real)
    requires s > 0.0 && x == y * s && Abs(x) < top * s
    ensures Abs(y) < top
  {
  }

  lemma RoundedBelow(y: real, top: int)
    requires Abs(y) < top as real
    ensures -top <= RoundHalfEven(y) <= top
  {
  }

  lemma RoundedWithin(y: real, top: int)
    requires Abs(y) <= top as real - 1.0
    ensures -top < RoundHalfEven(y) < top
  {
  }

  lemma TopIsTwice()
    ensures Pow2(PRECISION) == 2 * Pow2(PRECISION - 1)
  {
  }

  /** A significand of exactly 2^53 moves to the next exponent. */
  lemma CarriedSignificand(half: int, e: int, r: real)
    requires (half == Pow2(PRECISION - 1) || -half == Pow2(PRECISION - 1))
    requires MIN_EXPONENT <= e < MAX_EXPONENT && r == (2 * half) as real * Scale(e)
    ensures Represents(half, e + 1, r)
  {
    hide Scale, Pow2;
    TopIsTwice();
    ScaleStep(e);
    var h, s := half as real, Scale(e);
    assert (2 * half) as real == 2.0 * h;
    assert (2.0 * h) * s == h * (2.0 * s);
  }

  /** Rounding yields a double, up to the largest one. */
  lemma RoundIsDouble(x: real)
    requires Abs(x) <= Largest()
    ensures IsDouble(Round(x))
  {
    hide Scale, RoundHalfEven, ExponentFrom, Pow2;
    var e := ExponentFrom(Abs(x), MIN_EXPONENT);
    var s := Scale(e);
    var y := x / s;
    var n := RoundHalfEven(y);
    var top: int := Pow2(PRECISION);
    assert y * s == x;
    if e == MAX_EXPONENT {
      QuotientAtMost(y, s, x, top as real - 1.0);
      RoundedWithin(y, top);
      assert Represents(n, e, Round(x));
    } else {
      ScaleSum(e, PRECISION);
      QuotientBelow(y, s, x, top as real);
      RoundedBelow(y, top);
      TopIsTwice();
      if n == top {
        CarriedSignificand(Pow2(PRECISION - 1), e, Round(x));
      } else if n == -top {
        CarriedSignificand(-(Pow2(PRECISION - 1) as int), e, Round(x));
      } else {
        assert Represents(n, e, Round(x));
      }
    }
  }

  lemma QuotientAtMost(y: real, s: real, x: real, top: real)
    requires s > 0.0 && x == y * s && Abs(x) <= top * s
    ensures Abs(y) <= top
  {
  }

  // ----- the range of doubles, and ties -----

  lemma LeastMultiple(m: int, s: real, least: real, x: real)
    requires m > 0 && least > 0.0 && s >= least && x == m as real * s
    ensures x >= least
  {
    ScaleOrder(1.0, m as real, s);
  }

  lemma GreatestMultiple(m: int, top: int, s: real, most: real, x: real)
    requires 0 < m < top && 0.0 < s <= most && x == m as real * s
    ensures x <= (top - 1) as real * most
  {
    ScaleOrder(m as real, (top - 1) as real, s);
    ScaleOrder(s, most, (top - 1) as real);
  }

  lemma SignOfProduct(m: int, s: real, x: real)
    requires s > 0.0 && x == m as real * s && x > 0.0
    ensures m > 0
  {
  }

  /** The least positive double is 2^-1074 and the greatest one (2^53 - 1) * 2^971. */
  lemma RangeOfDoubles(x: real)
    ensures IsDouble(Scale(-1074)) && IsDouble(9_007_199_254_740_991.0 * Scale(971))
    ensures IsDouble(x) && x > 0.0 ==> Scale(-1074) <= x <= 9_007_199_254_740_991.0 * Scale(971)
  {
    hide Scale, Pow2;
    Pow2Of53();
    assert Represents(1, -1074, Scale(-1074));
    assert Represents(9_007_199_254_740_991, 971, 9_007_199_254_740_991.0 * Scale(971));
    if IsDouble(x) && x > 0.0 {
      var m, e :| Represents(m, e, x);
      ScaleMonotone(-1074, e);
      ScaleMonotone(e, 971);
      SignOfProduct(m, Scale(e), x);
      LeastMultiple(m, Scale(e), Scale(-1074), x);
      GreatestMultiple(m, Pow2(PRECISION), Scale(e), Scale(971), x);
    }
  }

  /** From 2^53 to 2^54 the rounding works on even numbers. */
  lemma ExponentAbove53(a: real)
    requires 9_007_199_254_740_992.0 <= a < 18_014_398_509_481_984.0
    ensures ExponentFrom(a, MIN_EXPONENT) == 1
  {
    hide Scale, Pow2, ExponentFrom;
    Pow2Of53();
    ScaleSum(0, 53);
    ScaleStep(53);
    ScaleZero();
    var r := ExponentFrom(a, MIN_EXPONENT);
    if r > 1 {
      ScaleMonotone(54, r - 1 + PRECISION);
    } else if r < 1 {
      ScaleMonotone(r + PRECISION, 53);
    }
  }

  lemma ScaleZero()
    ensures Scale(0) == 1.0 && Scale(1) == 2.0
  {
  }

  /** Between two doubles the rounding takes the one with the even significand, below and above. */
  lemma TiesToEven(k: int)
    requires 4_503_599_627_370_496 <= k < 9_007_199_254_740_991
    ensures Round((2 * k + 1) as real) == if k % 2 == 0 then (2 * k) as real else (2 * k + 2) as real
  {
    hide Scale, Pow2, ExponentFrom, RoundHalfEven;
    var x := (2 * k + 1) as real;
    ExponentAbove53(x);
    ScaleZero();
    HalfEvenTie(k);
    assert x / 2.0 == k as real + 0.5;
  }

  lemma HalfEvenTie(k: int)
    ensures RoundHalfEven(k as real + 0.5) == if k % 2 == 0 then k else k + 1
  {
  }
}
