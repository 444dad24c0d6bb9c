/**
 * scripts/test_boundary_v_realistic.py: the non-relativistic boundary boost
 * v_boost = 42 km/s * (1/gamma - 1), calibrated so that gamma = 0.88 gives
 * about 5 km/s, the predicted total sqrt(v_launch^2 + v_boost^2) and the
 * verdict on |v_boost - 5 km/s|.  The test passes a Python float, so
 * gamma = 0 raises and is excluded.
 */
module BoundaryRealistic {
  import opened RealMath
  import opened Profile
  import opened Ladder

  const VCalibration: real := 42.0
  const GammaBoundary: real := 0.88
  const VLaunch: real := 10.0
  const DeltaVObserved: real := 5.0

  /** `velocity_boost_realistic(gamma_boundary)`: the velocity excess of a 42 km/s speed. */
  function VelocityBoostRealistic(g: real): real
    requires g != 0.0
  {
    VelocityExcess(VCalibration, g)
  }

  /** The boost is 0 at gamma = 1, positive for 0 < gamma < 1 and negative above 1. */
  lemma VelocityBoostRealisticSign(g: real)
    requires g != 0.0
    ensures g == 1.0 ==> VelocityBoostRealistic(g) == 0.0
    ensures 0.0 < g < 1.0 ==> 0.0 < VelocityBoostRealistic(g)
    ensures 1.0 < g ==> VelocityBoostRealistic(g) < 0.0
  {
    if 0.0 < g < 1.0 {
      ReciprocalDecreasing(g, 1.0);
      MulPositive(VCalibration, 1.0 / g - 1.0);
    } else if 1.0 < g {
      ReciprocalDecreasing(1.0, g);
      MulStrictMonotone(VCalibration, 1.0 / g - 1.0, 0.0);
    }
  }

  /** On (0, inf) the boost is strictly decreasing in gamma. */
  lemma VelocityBoostRealisticDecreasing(g1: real, g2: real)
    requires 0.0 < g1 < g2
    ensures VelocityBoostRealistic(g2) < VelocityBoostRealistic(g1)
  {
    ReciprocalDecreasing(g1, g2);
    MulStrictMonotone(VCalibration, 1.0 / g2 - 1.0, 1.0 / g1 - 1.0);
  }

  /** `np.sqrt(v_launch**2 + v_boost**2)` */
  function PredictedTotal(sqrt: real -> real, vLaunch: real, boost: real): real
  {
    sqrt(SumOfSquares(vLaunch, boost))
  }

  /** The total is at least |v_launch| and at least |v_boost|, and |v_launch| without a boost. */
  lemma PredictedTotalSpec(sqrt: real -> real, vLaunch: real, boost: real)
    requires IsSqrt(sqrt)
    ensures Abs(vLaunch) <= PredictedTotal(sqrt, vLaunch, boost)
    ensures Abs(boost) <= PredictedTotal(sqrt, vLaunch, boost)
    ensures boost == 0.0 ==> PredictedTotal(sqrt, vLaunch, boost) == Abs(vLaunch)
  {
    SquareNonNegative(boost);
    SquareNonNegative(vLaunch);
    SqrtOfSumOfSquares(sqrt, vLaunch, boost * boost);
    assert SumOfSquares(vLaunch, boost) == boost * boost + vLaunch * vLaunch;
    SqrtOfSumOfSquares(sqrt, boost, vLaunch * vLaunch);
    if boost == 0.0 {
      SqrtOfSquare(sqrt, vLaunch);
    }
  }

  datatype Verdict = Excellent | Good | NeedsRefinement

  /** |v_boost - 5| < 1 is excellent, < 2 good, otherwise the formula needs refinement. */
  function RealisticVerdict(boost: real): Verdict
  {
    var k := Rung(Abs(boost - DeltaVObserved), [1.0, 2.0]);
    if k == 0 then Excellent else if k == 1 then Good else NeedsRefinement
  }

  lemma RealisticVerdictSpec(boost: real)
    ensures RealisticVerdict(boost) == Excellent <==> Abs(boost - DeltaVObserved) < 1.0
    ensures RealisticVerdict(boost) == Good <==> 1.0 <= Abs(boost - DeltaVObserved) < 2.0
    ensures RealisticVerdict(boost) == NeedsRefinement <==> 2.0 <= Abs(boost - DeltaVObserved)
  {
    var t := [1.0, 2.0];
    RungSpec(Abs(boost - DeltaVObserved), t);
    assert t[0] == 1.0 && t[1] == 2.0;
  }

  /**
   * At the calibration point gamma = 0.88 the boost is 63/11 km/s (about
   * 5.73), so `test_G79_realistic` reports excellent agreement, and the
   * total is at least the launch speed of 10 km/s.
   */
  lemma G79Realistic(sqrt: real -> real)
    requires IsSqrt(sqrt)
    ensures VelocityBoostRealistic(GammaBoundary) == 63.0 / 11.0
    ensures RealisticVerdict(VelocityBoostRealistic(GammaBoundary)) == Excellent
    ensures VLaunch <= PredictedTotal(sqrt, VLaunch, VelocityBoostRealistic(GammaBoundary))
  {
    assert 1.0 / GammaBoundary - 1.0 == 3.0 / 22.0;
    RealisticVerdictSpec(63.0 / 11.0);
    PredictedTotalSpec(sqrt, VLaunch, 63.0 / 11.0);
  }
}
