/**
 * scripts/core_mass_empirical.py: the core mass calibrated on the virial
 * mass of G79, M = 8.7 M_sun * (alpha / 0.12) * (r_c / 1.9 pc)^2.  The
 * boundary radius and the calibration mass are accepted but not used.
 */
module CoreMassEmpirical {
  import opened RealMath

  const AlphaRef: real := 0.12
  const RcRef: real := 1.9
  const MRef: real := 8.7

  /** `core_mass_empirical(alpha, r_c, R_boundary, M_calibration)` */
  function CoreMassEmpirical(alpha: real, rc: real, rBoundary: real, mCalibration: real): real
  {
    MRef * (alpha / AlphaRef) * ((rc / RcRef) * (rc / RcRef))
  }

  /**
   * The calibration point gives exactly 8.7 M_sun; the mass does not depend
   * on the boundary radius or the calibration mass; it is non-negative for
   * alpha >= 0.
   */
  lemma CoreMassEmpiricalSpec(alpha: real, rc: real, rBoundary: real, mCalibration: real, rBoundary2: real, mCalibration2: real)
    ensures CoreMassEmpirical(AlphaRef, RcRef, rBoundary, mCalibration) == MRef
    ensures CoreMassEmpirical(alpha, rc, rBoundary, mCalibration) == CoreMassEmpirical(alpha, rc, rBoundary2, mCalibration2)
    ensures 0.0 <= alpha ==> 0.0 <= CoreMassEmpirical(alpha, rc, rBoundary, mCalibration)
  {
    if 0.0 <= alpha {
      var q := rc / RcRef;
      SquareNonNegative(q);
      MulNonNegative(MRef * (alpha / AlphaRef), q * q);
    }
  }

  /**
   * The mass is linear in alpha (with r_c fixed, M(a1 + a2) = M(a1) + M(a2)
   * and M(k a) = k M(a)) and quadratic in r_c (scaling r_c by k scales the
   * mass by k^2).
   */
  lemma CoreMassEmpiricalScaling(alpha: real, alpha2: real, rc: real, k: real, rBoundary: real, mCalibration: real)
    ensures CoreMassEmpirical(alpha + alpha2, rc, rBoundary, mCalibration)
      == CoreMassEmpirical(alpha, rc, rBoundary, mCalibration) + CoreMassEmpirical(alpha2, rc, rBoundary, mCalibration)
    ensures CoreMassEmpirical(k * alpha, rc, rBoundary, mCalibration) == k * CoreMassEmpirical(alpha, rc, rBoundary, mCalibration)
    ensures CoreMassEmpirical(alpha, k * rc, rBoundary, mCalibration) == (k * k) * CoreMassEmpirical(alpha, rc, rBoundary, mCalibration)
  {
    var q := rc / RcRef;
    var s := q * q;
    var a := MRef * (alpha / AlphaRef);
    assert (k * rc) / RcRef == k * q;
    assert (k * q) * (k * q) == (k * k) * s;
    assert MRef * ((k * alpha) / AlphaRef) == k * a;
  }
}
