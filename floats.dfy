/**
 * IEEE-754 special values as numpy produces them: a finite number, the two
 * infinities and NaN.  Arithmetic on finite values is exact real arithmetic;
 * rounding is not modelled.
 */
module Floats {
  datatype Float = Num(v: real) | PosInf | NegInf | NaN

  /** `np.isfinite` */
  predicate IsFinite(f: Float) { f.Num? }

  /** `pd.isna` / `np.isnan` */
  predicate IsNaN(f: Float) { f.NaN? }

  /** `f < c` for a finite bound `c`: false for NaN, true for -inf. */
  predicate Less(f: Float, c: real)
  {
    match f
    case Num(x) => x < c
    case NegInf => true
    case PosInf => false
    case NaN => false
  }

  /** `f >= c` for a finite bound `c`: false for NaN. */
  predicate AtLeast(f: Float, c: real)
  {
    match f
    case Num(x) => c <= x
    case NegInf => false
    case PosInf => true
    case NaN => false
  }

  /** `f <= c` for a finite bound `c`: false for NaN, true for -inf. */
  predicate AtMost(f: Float, c: real)
  {
    match f
    case Num(x) => x <= c
    case NegInf => true
    case PosInf => false
    case NaN => false
  }

  /** `f * k` for a positive constant k: the infinities and NaN are unchanged. */
  function Scale(f: Float, k: real): (g: Float)
    requires 0.0 < k
    ensures g.Num? <==> f.Num?
    ensures g.Num? ==> g.v == f.v * k
    ensures !f.Num? ==> g == f
  {
    if f.Num? then Num(f.v * k) else f
  }

  /** numpy division of two finite values: x/0 is +-inf, 0/0 is NaN. */
  function Div(x: real, y: real): (q: Float)
    ensures y != 0.0 ==> q == Num(x / y)
    ensures y == 0.0 ==> (q.NaN? <==> x == 0.0)
    ensures y == 0.0 ==> !q.Num?
  {
    if y != 0.0 then Num(x / y)
    else if x > 0.0 then PosInf
    else if x < 0.0 then NegInf
    else NaN
  }

  /** numpy multiplication of a finite value by +inf: 0*inf is NaN. */
  function TimesInf(x: real): (p: Float)
    ensures p.NaN? <==> x == 0.0
    ensures p.PosInf? <==> x > 0.0
  {
    if x > 0.0 then PosInf else if x < 0.0 then NegInf else NaN
  }

  /** `np.sqrt` applied to a Float, with `sqrt` the square root on non-negative reals. */
  function SqrtF(sqrt: real -> real, f: Float): (s: Float)
    ensures s.Num? <==> f.Num? && f.v >= 0.0
    ensures s.Num? ==> s.v == sqrt(f.v)
    ensures f.NaN? || f.NegInf? ==> s.NaN?
  {
    match f
    case Num(x) => if x >= 0.0 then Num(sqrt(x)) else NaN
    case PosInf => PosInf
    case NegInf => NaN
    case NaN => NaN
  }
}
