/**
 * TEST_TEMPERATURE_EQUATIONS_COMPLETE.py: the dual-frame temperature and
 * energy-density relations of the segmented-spacetime picture.  Each takes
 * a radius and evaluates gamma_seg there (alpha = 0.12, r_c = 1.9 pc by
 * default); the relations themselves only depend on that gamma value.
 */
module TemperatureEquations {
  import opened RealMath
  import opened Profile

  const Alpha: real := 0.12
  const Rc: real := 1.9
  /** The outer H II temperature T_0 and the local temperature of the inner shell, in K. */
  const T0: real := 240.0
  const TLocalInner: real := 80.0

  /** `T_observed_g1(r, T_local)`: T_local / gamma_seg(r), as seen from the g1 frame. */
  function ObservedG1(exp: real -> real, r: real, tLocal: real, alpha: real, rc: real): real
    requires rc != 0.0 && GammaSeg(exp, r, alpha, rc) != 0.0
  {
    tLocal / GammaSeg(exp, r, alpha, rc)
  }

  /** `T_local_g2(r, T_obs)`: T_obs * gamma_seg(r), the inverse relation. */
  function LocalG2(exp: real -> real, r: real, tObs: real, alpha: real, rc: real): real
    requires rc != 0.0
  {
    tObs * GammaSeg(exp, r, alpha, rc)
  }

  /**
   * The two frames undo each other: T_observed_g1 times gamma gives back
   * T_local, T_local_g2 divided by gamma gives back T_obs, and each function
   * applied to the other's result returns the input.
   */
  lemma DualFrameRoundTrip(exp: real -> real, r: real, t: real, alpha: real, rc: real)
    requires rc != 0.0 && GammaSeg(exp, r, alpha, rc) != 0.0
    ensures ObservedG1(exp, r, t, alpha, rc) * GammaSeg(exp, r, alpha, rc) == t
    ensures LocalG2(exp, r, t, alpha, rc) / GammaSeg(exp, r, alpha, rc) == t
    ensures ObservedG1(exp, r, LocalG2(exp, r, t, alpha, rc), alpha, rc) == t
    ensures LocalG2(exp, r, ObservedG1(exp, r, t, alpha, rc), alpha, rc) == t
  {
    var g := GammaSeg(exp, r, alpha, rc);
    DivMulCancel(t, g);
  }

  /** `T_basic(r)`: the basic profile T_0 gamma_seg(r) with the script's defaults. */
  function Basic(exp: real -> real, r: real): real
  {
    Temperature(exp, r, T0, Alpha, Rc)
  }

  /**
   * The basic profile lies between 211.2 K (0.88 T_0, reached at the
   * centre) and T_0 = 240 K; it is T_local_g2 of T_0, so seen from the g1
   * frame it is T_0 again.
   */
  lemma BasicSpec(exp: real -> real, r: real)
    requires IsExp(exp)
    ensures 211.2 <= Basic(exp, r) <= 240.0
    ensures Basic(exp, 0.0) == 211.2
    ensures Basic(exp, r) == LocalG2(exp, r, T0, Alpha, Rc)
    ensures GammaSeg(exp, r, Alpha, Rc) != 0.0 && ObservedG1(exp, r, Basic(exp, r), Alpha, Rc) == T0
  {
    TemperatureBounds(exp, r, T0, Alpha, Rc);
    TemperatureBounds(exp, 0.0, T0, Alpha, Rc);
    GammaPositive(exp, r, Alpha, Rc);
    DualFrameRoundTrip(exp, r, T0, Alpha, Rc);
  }

  /** g^4, as the square of the square: never negative, and positive for g != 0. */
  function Pow4(g: real): (p: real)
    ensures 0.0 <= p
    ensures g != 0.0 ==> 0.0 < p
  {
    SquareSign(g);
    SquareSign(Product(g, g));
    Product(Product(g, g), Product(g, g))
  }

  /** `u_observed_g2(r, u_local)`: gamma_seg^4 * u_local, energy density compressed in g2. */
  function EnergyDensityG2(exp: real -> real, r: real, u: real, alpha: real, rc: real): real
    requires rc != 0.0
  {
    Pow4(GammaSeg(exp, r, alpha, rc)) * u
  }

  /** `u_observed_g1(r, u_local)`: u_local / gamma_seg^4, energy density diluted in g1. */
  function EnergyDensityG1(exp: real -> real, r: real, u: real, alpha: real, rc: real): real
    requires rc != 0.0 && GammaSeg(exp, r, alpha, rc) != 0.0
  {
    u / Pow4(GammaSeg(exp, r, alpha, rc))
  }

  /**
   * The two observed densities multiply to u_local^2 and, for u_local != 0,
   * their ratio is gamma_seg^8; for 0 < gamma_seg <= 1 and u_local >= 0 the
   * g2 density never exceeds u_local and the g1 density never falls below it.
   */
  lemma EnergyDensitySpec(exp: real -> real, r: real, u: real, alpha: real, rc: real)
    requires rc != 0.0 && GammaSeg(exp, r, alpha, rc) != 0.0
    ensures EnergyDensityG2(exp, r, u, alpha, rc) * EnergyDensityG1(exp, r, u, alpha, rc) == u * u
    ensures u != 0.0 ==>
      EnergyDensityG2(exp, r, u, alpha, rc) / EnergyDensityG1(exp, r, u, alpha, rc)
        == Pow4(GammaSeg(exp, r, alpha, rc)) * Pow4(GammaSeg(exp, r, alpha, rc))
    ensures 0.0 < GammaSeg(exp, r, alpha, rc) <= 1.0 && 0.0 <= u ==>
      EnergyDensityG2(exp, r, u, alpha, rc) <= u <= EnergyDensityG1(exp, r, u, alpha, rc)
  {
    var g := GammaSeg(exp, r, alpha, rc);
    DensityLaws(Pow4(g), u);
    if 0.0 < g <= 1.0 {
      Pow4AtMostOne(g);
    }
  }

  /** 0 < g <= 1 gives g^4 <= 1. */
  lemma Pow4AtMostOne(g: real)
    requires 0.0 < g <= 1.0
    ensures Pow4(g) <= 1.0
  {
    var s := Product(g, g);
    SquareSign(g);
    MulMonotone(g, g, 1.0);
    assert s == g * g;
    assert g * g <= g * 1.0;
    assert g * 1.0 == g;
    assert s <= g;
    MulMonotone(s, s, 1.0);
    assert Pow4(g) == s * s <= s * 1.0 == s;
  }

  /** The same relations for a positive factor p standing for gamma^4. */
  lemma DensityLaws(p: real, u: real)
    requires 0.0 < p
    ensures (p * u) * (u / p) == u * u
    ensures u != 0.0 ==> (p * u) / (u / p) == p * p
    ensures p <= 1.0 && 0.0 <= u ==> p * u <= u <= u / p
  {
    DivMulCancel(u, p);
    if u != 0.0 {
      assert (u / p) * (p * p) == p * u;
    }
    if p <= 1.0 && 0.0 <= u {
      MulMonotone(u, p, 1.0);
      ReciprocalAtLeastOne(p);
      MulMonotone(u, 1.0, 1.0 / p);
      MulDivAssoc(u, 1.0, p);
    }
  }

  /** `Delta_T_recouple(r, T_local)`: T_local * (1 - gamma_seg(r)), the temperature released on recoupling. */
  function DeltaTRecouple(exp: real -> real, r: real, tLocal: real, alpha: real, rc: real): real
    requires rc != 0.0
  {
    tLocal * (1.0 - GammaSeg(exp, r, alpha, rc))
  }

  /**
   * The released temperature is what T_local_g2 takes away from T, and for
   * T >= 0 and alpha >= 0 it lies in [0, alpha T], reaching alpha T at the
   * centre.
   */
  lemma DeltaTRecoupleSpec(exp: real -> real, r: real, t: real, alpha: real, rc: real)
    requires IsExp(exp) && rc != 0.0
    ensures DeltaTRecouple(exp, r, t, alpha, rc) == t - LocalG2(exp, r, t, alpha, rc)
    ensures 0.0 <= t && 0.0 <= alpha ==> 0.0 <= DeltaTRecouple(exp, r, t, alpha, rc) <= alpha * t
    ensures DeltaTRecouple(exp, 0.0, t, alpha, rc) == alpha * t
  {
    var g := GammaSeg(exp, r, alpha, rc);
    GammaAtCentre(exp, alpha, rc);
    if 0.0 <= t && 0.0 <= alpha {
      GammaBounds(exp, r, alpha, rc);
      MulNonNegative(t, 1.0 - g);
      MulMonotone(t, 1.0 - g, alpha);
    }
  }
}
