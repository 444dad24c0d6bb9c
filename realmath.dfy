/**
 * Real-valued helpers.  The transcendental functions of numpy (`np.exp`,
 * `np.sqrt`) are not definable here, so members that use them take them as
 * function-valued parameters, and the laws the proofs need are stated as
 * predicates on those parameters.
 */
module RealMath {
  function Abs(x: real): (a: real)
    ensures 0.0 <= a
    ensures a == x || a == -x
  {
    if x < 0.0 then -x else x
  }

  function Max(x: real, y: real): (m: real)
    ensures x <= m && y <= m
    ensures m == x || m == y
  {
    if x < y then y else x
  }

  function Min(x: real, y: real): (m: real)
    ensures m <= x && m <= y
    ensures m == x || m == y
  {
    if x < y then x else y
  }

  /** The laws of `np.exp` the model relies on. */
  ghost predicate IsExp(exp: real -> real)
  {
    && exp(0.0) == 1.0
    && (forall x :: 0.0 < exp(x))
    && (forall x, y :: x <= y ==> exp(x) <= exp(y))
  }

  /** The laws of `np.sqrt` on non-negative arguments. */
  ghost predicate IsSqrt(sqrt: real -> real)
  {
    forall y :: 0.0 <= y ==> 0.0 <= sqrt(y) && sqrt(y) * sqrt(y) == y
  }

  /**
   * The laws of x -> x^p for a negative exponent p (the -0.7 spectral index
   * of the radio power law) on positive arguments: 1^p = 1, positive, and
   * strictly decreasing.
   */
  ghost predicate IsNegativePower(pw: real -> real)
  {
    && pw(1.0) == 1.0
    && (forall x :: 0.0 < x ==> 0.0 < pw(x))
    && (forall x, y :: 0.0 < x < y ==> pw(y) < pw(x))
  }

  lemma ExpOfNonPositive(exp: real -> real, x: real)
    requires IsExp(exp)
    requires x <= 0.0
    ensures 0.0 < exp(x) <= 1.0
  {
  }

  lemma MulPositive(a: real, b: real)
    requires 0.0 < a && 0.0 < b
    ensures 0.0 < a * b
  {
  }

  lemma MulNonNegative(a: real, b: real)
    requires 0.0 <= a && 0.0 <= b
    ensures 0.0 <= a * b
  {
  }

  lemma MulMonotone(a: real, x: real, y: real)
    requires 0.0 <= a && x <= y
    ensures a * x <= a * y
  {
    MulNonNegative(a, y - x);
  }

  lemma SquareNonNegative(x: real)
    ensures 0.0 <= x * x
  {
    if x < 0.0 {
      MulPositive(-x, -x);
    }
  }

  /** |x| <= |y| gives x*x <= y*y. */
  lemma SquareOfAbsMonotone(x: real, y: real)
    requires Abs(x) <= Abs(y)
    ensures x * x <= y * y
  {
    var a, b := Abs(x), Abs(y);
    assert a * a == x * x && b * b == y * y;
    MulMonotone(a, a, b);
    MulMonotone(b, a, b);
    calc {
      x * x;
    ==
      a * a;
    <=
      a * b;
    ==
      b * a;
    <=
      b * b;
    ==
      y * y;
    }
  }

  /** (x * y) / d == x * (y / d) */
  lemma MulDivAssoc(x: real, y: real, d: real)
    requires d != 0.0
    ensures x * y / d == x * (y / d)
  {
    var q := y / d;
    assert q * d == y;
    assert (x * q) * d == x * y;
  }

  /** d * (y / d) == y */
  lemma DivMulCancel(y: real, d: real)
    requires d != 0.0
    ensures d * (y / d) == y
  {
  }

  /** x * w - y * w == (x - y) * w */
  lemma MulSubDistrib(x: real, y: real, w: real)
    ensures x * w - y * w == (x - y) * w
  {
  }

  /** Multiplying by a positive number keeps a strict order. */
  lemma MulStrictMonotone(a: real, x: real, y: real)
    requires 0.0 < a && x < y
    ensures a * x < a * y
  {
    MulPositive(a, y - x);
    MulSubDistrib(y, x, a);
  }

  lemma DivMonotone(x: real, y: real, k: real)
    requires x <= y && 0.0 < k
    ensures x / k <= y / k
  {
    MulMonotone(1.0 / k, x, y);
  }

  lemma DivStrictMonotone(x: real, y: real, k: real)
    requires x < y && 0.0 < k
    ensures x / k < y / k
  {
    MulStrictMonotone(1.0 / k, x, y);
  }

  /** Squaring is strictly monotone on non-negative reals. */
  lemma SquareMonotone(s: real, t: real)
    ensures 0.0 <= t < s ==> t * t < s * s
  {
    if 0.0 <= t < s {
      assert s * s - t * t == (s - t) * (s + t);
      MulPositive(s - t, s + t);
    }
  }

  lemma SqrtZero(sqrt: real -> real)
    requires IsSqrt(sqrt)
    ensures sqrt(0.0) == 0.0
  {
    SquareMonotone(sqrt(0.0), 0.0);
  }

  lemma SqrtPositive(sqrt: real -> real, y: real)
    requires IsSqrt(sqrt)
    requires 0.0 < y
    ensures 0.0 < sqrt(y)
  {
    var s := sqrt(y);
    assert s * s == y;
  }

  /** A square root is monotone: 0 <= a <= b gives sqrt(a) <= sqrt(b). */
  lemma SqrtMonotone(sqrt: real -> real, a: real, b: real)
    requires IsSqrt(sqrt)
    requires 0.0 <= a <= b
    ensures sqrt(a) <= sqrt(b)
  {
    SquareMonotone(sqrt(a), sqrt(b));
  }

  /** ... and strictly so: 0 <= a < b gives sqrt(a) < sqrt(b). */
  lemma SqrtStrictlyMonotone(sqrt: real -> real, a: real, b: real)
    requires IsSqrt(sqrt)
    requires 0.0 <= a < b
    ensures sqrt(a) < sqrt(b)
  {
    SqrtMonotone(sqrt, a, b);
    assert sqrt(a) * sqrt(a) == a && sqrt(b) * sqrt(b) == b;
  }

  /** sqrt(x*x) == |x|. */
  lemma SqrtOfSquare(sqrt: real -> real, x: real)
    requires IsSqrt(sqrt)
    ensures sqrt(x * x) == Abs(x)
  {
    var s, a := sqrt(x * x), Abs(x);
    assert s * s == x * x == a * a;
    SquareMonotone(s, a);
    SquareMonotone(a, s);
  }

  /** sqrt(v*v + w) >= |v| whenever the radicand's extra part w is non-negative. */
  lemma SqrtOfSumOfSquares(sqrt: real -> real, v: real, w: real)
    requires IsSqrt(sqrt)
    requires 0.0 <= w
    ensures Abs(v) <= sqrt(v * v + w)
  {
    SqrtMonotone(sqrt, v * v, v * v + w);
    SqrtOfSquare(sqrt, v);
  }

  /** 1/g >= 1 for 0 < g <= 1. */
  lemma ReciprocalAtLeastOne(g: real)
    requires 0.0 < g <= 1.0
    ensures 1.0 <= 1.0 / g
  {
    DivMulCancel(1.0, g);
    if 1.0 / g < 1.0 {
      MulStrictMonotone(g, 1.0 / g, 1.0);
      assert false;
    }
  }

  /** The reciprocal is strictly decreasing on the positive reals. */
  lemma ReciprocalDecreasing(g1: real, g2: real)
    requires 0.0 < g1 < g2
    ensures 1.0 / g2 < 1.0 / g1
  {
    DivMulCancel(1.0, g1);
    DivMulCancel(1.0, g2);
    if 1.0 / g1 <= 1.0 / g2 {
      MulStrictMonotone(1.0 / g1, g1, g2);
      MulMonotone(g2, 1.0 / g1, 1.0 / g2);
      assert false;
    }
  }

  /** sqrt(t) > c for t > c*c and c >= 0. */
  lemma SqrtAbove(sqrt: real -> real, t: real, c: real)
    requires IsSqrt(sqrt)
    requires 0.0 <= c && c * c < t
    ensures c < sqrt(t)
  {
    SquareNonNegative(c);
    SqrtStrictlyMonotone(sqrt, c * c, t);
    SqrtOfSquare(sqrt, c);
  }

  /** a^2 + b^2, kept as a function so that square roots of it are matched as one term. */
  function SumOfSquares(a: real, b: real): real
  {
    a * a + b * b
  }

  /** A product, kept as a function so that squares are reasoned about as products of two factors. */
  function Product(a: real, b: real): real
  {
    a * b
  }

  lemma ProductPositive(a: real, b: real)
    requires (0.0 < a && 0.0 < b) || (a < 0.0 && b < 0.0)
    ensures 0.0 < Product(a, b)
  {
  }

  /** A square is never negative, and zero only for zero. */
  lemma SquareSign(d: real)
    ensures 0.0 <= Product(d, d)
    ensures Product(d, d) == 0.0 <==> d == 0.0
  {
    if d != 0.0 {
      ProductPositive(d, d);
    }
  }
}
