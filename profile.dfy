/**
 * The segmentation profile shared by every script: at radius r (pc) from the
 * nebula's centre, gamma_seg(r) = 1 - alpha * exp(-(r / r_c)^2).  The scripts
 * each define this one-liner; it is modelled once here.
 */
module Profile {
  import opened RealMath

  /** gamma_seg for amplitude `alpha` and core radius `rc`. */
  function GammaSeg(exp: real -> real, r: real, alpha: real, rc: real): real
    requires rc != 0.0
  {
    1.0 - alpha * exp(-((r / rc) * (r / rc)))
  }

  /** gamma_seg evaluated on an array of radii, as numpy broadcasts it. */
  function GammaSegs(exp: real -> real, rs: seq<real>, alpha: real, rc: real): (gs: seq<real>)
    requires rc != 0.0
    ensures |gs| == |rs|
    ensures forall i :: 0 <= i < |rs| ==> gs[i] == GammaSeg(exp, rs[i], alpha, rc)
  {
    if rs == [] then [] else [GammaSeg(exp, rs[0], alpha, rc)] + GammaSegs(exp, rs[1..], alpha, rc)
  }

  /** The exponent -(r/rc)^2 is never positive, so its exponential lies in (0, 1]. */
  lemma ProfileExpInUnit(exp: real -> real, r: real, rc: real)
    requires IsExp(exp) && rc != 0.0
    ensures 0.0 < exp(-((r / rc) * (r / rc))) <= 1.0
  {
    SquareNonNegative(r / rc);
    ExpOfNonPositive(exp, -((r / rc) * (r / rc)));
  }

  /** At the centre the profile is at its deepest: gamma_seg(0) = 1 - alpha. */
  lemma GammaAtCentre(exp: real -> real, alpha: real, rc: real)
    requires IsExp(exp) && rc != 0.0
    ensures GammaSeg(exp, 0.0, alpha, rc) == 1.0 - alpha
  {
    assert (0.0 / rc) * (0.0 / rc) == 0.0;
  }

  /** For a non-negative amplitude, 1 - alpha <= gamma_seg(r) <= 1 at every radius. */
  lemma GammaBounds(exp: real -> real, r: real, alpha: real, rc: real)
    requires IsExp(exp) && rc != 0.0
    requires 0.0 <= alpha
    ensures 1.0 - alpha <= GammaSeg(exp, r, alpha, rc) <= 1.0
  {
    var e := exp(-((r / rc) * (r / rc)));
    ProfileExpInUnit(exp, r, rc);
    MulMonotone(alpha, e, 1.0);
    MulNonNegative(alpha, e);
  }

  /** An amplitude below 1 keeps the profile strictly positive, so dividing by it is safe. */
  lemma GammaPositive(exp: real -> real, r: real, alpha: real, rc: real)
    requires IsExp(exp) && rc != 0.0
    requires alpha < 1.0
    ensures 0.0 < GammaSeg(exp, r, alpha, rc)
  {
    var e := exp(-((r / rc) * (r / rc)));
    ProfileExpInUnit(exp, r, rc);
    if 0.0 <= alpha {
      MulMonotone(alpha, e, 1.0);
    } else {
      MulPositive(-alpha, e);
    }
  }

  /** For a non-negative amplitude the profile rises with distance from the centre. */
  lemma GammaMonotone(exp: real -> real, r1: real, r2: real, alpha: real, rc: real)
    requires IsExp(exp) && rc != 0.0
    requires 0.0 <= alpha
    requires Abs(r1) <= Abs(r2)
    ensures GammaSeg(exp, r1, alpha, rc) <= GammaSeg(exp, r2, alpha, rc)
  {
    var q1, q2 := (r1 / rc) * (r1 / rc), (r2 / rc) * (r2 / rc);
    ScaledSquareMonotone(r1, r2, rc);
    assert exp(-q2) <= exp(-q1);
    MulMonotone(alpha, exp(-q2), exp(-q1));
  }

  lemma ScaledSquareMonotone(r1: real, r2: real, rc: real)
    requires rc != 0.0
    requires Abs(r1) <= Abs(r2)
    ensures (r1 / rc) * (r1 / rc) <= (r2 / rc) * (r2 / rc)
  {
    var k := 1.0 / rc;
    SquareOfAbsMonotone(r1, r2);
    SquareNonNegative(k);
    MulMonotone(k * k, r1 * r1, r2 * r2);
    assert r1 / rc == r1 * k && r2 / rc == r2 * k;
    calc {
      (r1 / rc) * (r1 / rc);
    ==
      (k * k) * (r1 * r1);
    <=
      (k * k) * (r2 * r2);
    ==
      (r2 / rc) * (r2 / rc);
    }
  }

  /** The temperature law T0 * gamma_seg(r) that several scripts define. */
  function Temperature(exp: real -> real, r: real, t0: real, alpha: real, rc: real): real
    requires rc != 0.0
  {
    t0 * GammaSeg(exp, r, alpha, rc)
  }

  /**
   * For 0 <= alpha and T0 >= 0 the temperature lies in [(1 - alpha) T0, T0]
   * and reaches (1 - alpha) T0 at the centre.
   */
  lemma TemperatureBounds(exp: real -> real, r: real, t0: real, alpha: real, rc: real)
    requires IsExp(exp) && rc != 0.0
    requires 0.0 <= alpha && 0.0 <= t0
    ensures (1.0 - alpha) * t0 <= Temperature(exp, r, t0, alpha, rc) <= t0
    ensures Temperature(exp, 0.0, t0, alpha, rc) == (1.0 - alpha) * t0
  {
    var g := GammaSeg(exp, r, alpha, rc);
    GammaBounds(exp, r, alpha, rc);
    GammaAtCentre(exp, alpha, rc);
    MulMonotone(t0, 1.0 - alpha, g);
    MulMonotone(t0, g, 1.0);
  }

  /** The velocity excess v0 * (1/gamma - 1) of a wind of speed v0 leaving a zone of factor gamma. */
  function VelocityExcess(v0: real, g: real): real
    requires g != 0.0
  {
    v0 * (1.0 / g - 1.0)
  }

  /** The observed velocity v0 / gamma. */
  function ObservedVelocity(v0: real, g: real): real
    requires g != 0.0
  {
    v0 / g
  }

  /**
   * No excess where gamma = 1; for 0 < gamma <= 1 and v0 >= 0 it is
   * non-negative and the observed velocity is at least v0; and the observed
   * velocity is always v0 plus the excess.
   */
  lemma VelocityExcessSpec(v0: real, g: real)
    requires g != 0.0
    ensures g == 1.0 ==> VelocityExcess(v0, g) == 0.0
    ensures 0.0 < g <= 1.0 && 0.0 <= v0 ==> 0.0 <= VelocityExcess(v0, g) && v0 <= ObservedVelocity(v0, g)
    ensures ObservedVelocity(v0, g) == v0 + VelocityExcess(v0, g)
  {
    if 0.0 < g <= 1.0 && 0.0 <= v0 {
      ReciprocalAtLeastOne(g);
      MulNonNegative(v0, 1.0 / g - 1.0);
    }
    MulDivAssoc(v0, 1.0, g);
  }
}
