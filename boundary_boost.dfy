/**
 * scripts/test_boundary_velocity_boost.py: the relativistic boundary boost
 * v_boost = sqrt(2 c^2 (1/gamma - 1)) of material leaving the g2 zone, the
 * predicted total sqrt(v_launch^2 + v_boost^2), the sigma verdict against
 * the measured 15 +- 1 km/s, and the piecewise velocity profile of the
 * boundary-signature figure.  gamma is a numpy value, so gamma = 0 gives an
 * infinite boost instead of raising.
 */
module BoundaryBoost {
  import opened RealMath
  import opened Floats
  import opened Profile
  import opened Ladder

  const CKms: real := 299792.458

  /** The boost term 2 c^2 (1/gamma - 1): the velocity excess of a "speed" 2 c^2. */
  function BoostTerm(g: real): real
    requires g != 0.0
  {
    VelocityExcess(2.0 * (CKms * CKms), g)
  }

  /** `velocity_boost(gamma_boundary)`: 0 for a negative term, its square root otherwise; +inf at gamma = 0. */
  function VelocityBoost(sqrt: real -> real, g: real): Float
  {
    if g == 0.0 then PosInf
    else if BoostTerm(g) < 0.0 then Num(0.0)
    else Num(sqrt(BoostTerm(g)))
  }

  /**
   * The boost is never negative or NaN; it is 0 for every gamma >= 1 (and
   * every negative gamma); for 0 < gamma < 1 it is positive and its square
   * is the boost term.
   */
  lemma VelocityBoostSpec(sqrt: real -> real, g: real)
    requires IsSqrt(sqrt)
    ensures var b := VelocityBoost(sqrt, g);
      && (b.Num? || b.PosInf?)
      && (b.Num? ==> 0.0 <= b.v)
      && (b.PosInf? <==> g == 0.0)
      && (1.0 <= g || g < 0.0 ==> b == Num(0.0))
      && (0.0 < g < 1.0 ==> b.Num? && 0.0 < b.v && b.v * b.v == BoostTerm(g))
  {
    var k := 2.0 * (CKms * CKms);
    if g != 0.0 {
      var t := BoostTerm(g);
      if 1.0 < g {
        ReciprocalDecreasing(1.0, g);
        MulStrictMonotone(k, 1.0 / g - 1.0, 0.0);
      } else if g < 0.0 {
        assert 1.0 / g < 0.0;
        MulStrictMonotone(k, 1.0 / g - 1.0, 0.0);
      } else if g == 1.0 {
        assert 1.0 / g - 1.0 == 0.0;
        assert t == 0.0;
        SqrtZero(sqrt);
      } else {
        ReciprocalDecreasing(g, 1.0);
        MulPositive(k, 1.0 / g - 1.0);
        SqrtPositive(sqrt, t);
      }
    }
  }

  /** On (0, 1] a smaller gamma never gives a smaller boost. */
  lemma VelocityBoostMonotone(sqrt: real -> real, g1: real, g2: real)
    requires IsSqrt(sqrt)
    requires 0.0 < g1 <= g2 <= 1.0
    ensures VelocityBoost(sqrt, g1).Num? && VelocityBoost(sqrt, g2).Num?
    ensures VelocityBoost(sqrt, g2).v <= VelocityBoost(sqrt, g1).v
  {
    var k := 2.0 * (CKms * CKms);
    ReciprocalAtLeastOne(g2);
    MulNonNegative(k, 1.0 / g2 - 1.0);
    if g1 < g2 {
      ReciprocalDecreasing(g1, g2);
      MulMonotone(k, 1.0 / g2 - 1.0, 1.0 / g1 - 1.0);
      SqrtMonotone(sqrt, BoostTerm(g2), BoostTerm(g1));
    }
  }

  /** `np.sqrt(v_launch**2 + v_boost**2)` for a boost that is a number or +inf. */
  function TotalVelocity(sqrt: real -> real, vLaunch: real, boost: Float): Float
  {
    match boost
    case Num(b) => Num(sqrt(SumOfSquares(vLaunch, b)))
    case NaN => NaN
    case _ => PosInf
  }

  /** A finite boost gives a finite total at least |v_launch|, and exactly |v_launch| without a boost. */
  lemma TotalVelocitySpec(sqrt: real -> real, vLaunch: real, boost: Float)
    requires IsSqrt(sqrt)
    ensures boost.Num? ==>
      TotalVelocity(sqrt, vLaunch, boost).Num? && Abs(vLaunch) <= TotalVelocity(sqrt, vLaunch, boost).v
    ensures boost == Num(0.0) ==> TotalVelocity(sqrt, vLaunch, boost) == Num(Abs(vLaunch))
  {
    if boost.Num? {
      SquareNonNegative(boost.v);
      SqrtOfSumOfSquares(sqrt, vLaunch, boost.v * boost.v);
      assert TotalVelocity(sqrt, vLaunch, boost) == Num(sqrt(vLaunch * vLaunch + boost.v * boost.v));
    }
    if boost == Num(0.0) {
      SqrtOfSquare(sqrt, vLaunch);
    }
  }

  /** The verdict bands of `test_G79_boundary`. */
  datatype Verdict = Excellent | Good | Acceptable | Discrepancy

  /** residual < err, < 2 err, < 3 err, otherwise a discrepancy; an infinite or NaN residual is a discrepancy. */
  function BoundaryVerdict(residual: Float, err: real): Verdict
  {
    var k := if residual.Num? then Rung(residual.v, [err, 2.0 * err, 3.0 * err]) else 3;
    if k == 0 then Excellent else if k == 1 then Good else if k == 2 then Acceptable else Discrepancy
  }

  /** Each verdict holds on exactly one band of residuals (for a positive error). */
  lemma BoundaryVerdictSpec(residual: Float, err: real)
    requires 0.0 < err
    ensures BoundaryVerdict(residual, err) == Excellent <==> residual.Num? && residual.v < err
    ensures BoundaryVerdict(residual, err) == Good <==> residual.Num? && err <= residual.v < 2.0 * err
    ensures BoundaryVerdict(residual, err) == Acceptable <==> residual.Num? && 2.0 * err <= residual.v < 3.0 * err
    ensures BoundaryVerdict(residual, err) == Discrepancy <==> !residual.Num? || 3.0 * err <= residual.v
  {
    if residual.Num? {
      var t := [err, 2.0 * err, 3.0 * err];
      RungSpec(residual.v, t);
      assert t[0] == err && t[1] == 2.0 * err && t[2] == 3.0 * err;
    }
  }

  /** The measured outer expansion, its error and the launch speed of `test_G79_boundary`, in km/s. */
  const VObsMeasured: real := 15.0
  const VObsError: real := 1.0
  const VLaunch: real := 10.0

  /** What `test_G79_boundary` reports for the gamma at the boundary. */
  datatype BoundaryReport = BoundaryReport(vBoost: Float, vObsPred: Float, residual: Float, verdict: Verdict)

  function Residual(vObsPred: Float): Float
  {
    match vObsPred
    case Num(v) => Num(Abs(v - VObsMeasured))
    case NaN => NaN
    case _ => PosInf
  }

  function G79Boundary(sqrt: real -> real, gammaB: real): BoundaryReport
  {
    var vBoost := VelocityBoost(sqrt, gammaB);
    var vObsPred := TotalVelocity(sqrt, VLaunch, vBoost);
    var residual := Residual(vObsPred);
    BoundaryReport(vBoost, vObsPred, residual, BoundaryVerdict(residual, VObsError))
  }

  /**
   * For a boundary gamma with 0 < gamma <= 0.9 (the test puts the boundary
   * where gamma = 0.9) the boost exceeds 100,000 km/s, so the prediction
   * misses the measured 15 km/s by more than 3 sigma: the verdict is a
   * discrepancy.
   */
  lemma G79BoundaryDiscrepancy(sqrt: real -> real, gammaB: real)
    requires IsSqrt(sqrt) && 0.0 < gammaB <= 0.9
    ensures G79Boundary(sqrt, gammaB).vBoost.Num? && 100000.0 < G79Boundary(sqrt, gammaB).vBoost.v
    ensures G79Boundary(sqrt, gammaB).verdict == Discrepancy
  {
    var k := 2.0 * (CKms * CKms);
    ReciprocalDecreasing(gammaB, 1.0);
    assert 1.0 / 0.9 - 1.0 == 1.0 / 9.0;
    if gammaB < 0.9 {
      ReciprocalDecreasing(gammaB, 0.9);
    }
    MulMonotone(k, 1.0 / 9.0, 1.0 / gammaB - 1.0);
    var t := BoostTerm(gammaB);
    assert 100000.0 * 100000.0 < t;
    SqrtAbove(sqrt, t, 100000.0);
    var b := sqrt(t);
    SquareNonNegative(b);
    var v := TotalVelocity(sqrt, VLaunch, Num(b));
    SquareNonNegative(VLaunch);
    SqrtOfSumOfSquares(sqrt, b, VLaunch * VLaunch);
    assert v == Num(sqrt(SumOfSquares(VLaunch, b)));
    assert SumOfSquares(VLaunch, b) == b * b + VLaunch * VLaunch;
    BoundaryVerdictSpec(Residual(v), VObsError);
  }

  /** `v_profile[i]` of `plot_boundary_signature`: v_inner inside the boundary, the boosted total outside. */
  function ProfileVelocity(exp: real -> real, sqrt: real -> real, r: real, rBoundary: real, vInner: real,
                           alpha: real, rc: real): Float
    requires rc != 0.0
  {
    if r < rBoundary then Num(vInner)
    else TotalVelocity(sqrt, vInner, VelocityBoost(sqrt, GammaSeg(exp, rBoundary, alpha, rc)))
  }

  /** The loop of `plot_boundary_signature` filling `v_profile` over the radial grid. */
  method BoundaryProfile(exp: real -> real, sqrt: real -> real, rs: seq<real>, rBoundary: real, vInner: real,
                         alpha: real, rc: real) returns (profile: array<Float>)
    requires rc != 0.0
    ensures fresh(profile) && profile.Length == |rs|
    ensures forall i :: 0 <= i < |rs| ==> profile[i] == ProfileVelocity(exp, sqrt, rs[i], rBoundary, vInner, alpha, rc)
  {
    profile := new Float[|rs|](_ => Num(0.0));
    for i := 0 to |rs|
      invariant forall k :: 0 <= k < i ==> profile[k] == ProfileVelocity(exp, sqrt, rs[k], rBoundary, vInner, alpha, rc)
    {
      if rs[i] < rBoundary {
        profile[i] := Num(vInner);
      } else {
        var gammaB := GammaSeg(exp, rBoundary, alpha, rc);
        var vBoost := VelocityBoost(sqrt, gammaB);
        profile[i] := TotalVelocity(sqrt, vInner, vBoost);
      }
    }
  }

  /**
   * The profile is a step: v_inner inside the boundary and one finite value
   * at least v_inner outside, so for 0 <= alpha < 1 and v_inner >= 0 it
   * never decreases outwards.
   */
  lemma ProfileVelocityStep(exp: real -> real, sqrt: real -> real, r1: real, r2: real, rBoundary: real,
                            vInner: real, alpha: real, rc: real)
    requires IsExp(exp) && IsSqrt(sqrt) && rc != 0.0
    requires 0.0 <= alpha < 1.0 && 0.0 <= vInner && r1 <= r2
    ensures ProfileVelocity(exp, sqrt, r1, rBoundary, vInner, alpha, rc).Num?
    ensures ProfileVelocity(exp, sqrt, r2, rBoundary, vInner, alpha, rc).Num?
    ensures vInner <= ProfileVelocity(exp, sqrt, r1, rBoundary, vInner, alpha, rc).v
      <= ProfileVelocity(exp, sqrt, r2, rBoundary, vInner, alpha, rc).v
    ensures rBoundary <= r1 ==>
      ProfileVelocity(exp, sqrt, r1, rBoundary, vInner, alpha, rc) == ProfileVelocity(exp, sqrt, r2, rBoundary, vInner, alpha, rc)
  {
    var g := GammaSeg(exp, rBoundary, alpha, rc);
    GammaPositive(exp, rBoundary, alpha, rc);
    VelocityBoostSpec(sqrt, g);
    TotalVelocitySpec(sqrt, vInner, VelocityBoost(sqrt, g));
  }
}
