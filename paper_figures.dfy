/**
 * The core functions of GENERATE_ALL_PAPER_FIGURES.py (the paper's
 * equations the figures are drawn from): the temperature profile, the
 * velocity excess and observed velocity, the radio frequency shift and its
 * redshift z, the core mass normalised to 8.7 M_sun at 4.5 pc, and the
 * energy-release velocity.
 */
module PaperFigures {
  import opened RealMath
  import opened Floats
  import opened Profile
  import opened Trapezoid
  import opened Grid
  import RadioRedshift
  import EnergyRelease

  const Alpha: real := 0.12
  const Rc: real := 1.9
  const T0: real := 240.0
  const V0: real := 10.0
  const MCorePaper: real := 8.7
  /** The radius at which the core mass is normalised to the paper value. */
  const RRef: real := 4.5
  /** `np.linspace(0.01, r_max, 500)` */
  const GridStart: real := 0.01
  const GridPoints: nat := 500

  /** `frequency_shift(nu0, r)`: nu0 * gamma_seg(r). */
  function FrequencyShift(exp: real -> real, nu0: real, r: real, alpha: real, rc: real): real
    requires rc != 0.0
  {
    RadioRedshift.RedshiftedFrequency(nu0, GammaSeg(exp, r, alpha, rc))
  }

  /** The redshift z = (nu0 - nu') / nu' of the radio figure (numpy division). */
  function RedshiftZ(exp: real -> real, nu0: real, r: real, alpha: real, rc: real): Float
    requires rc != 0.0
  {
    var nuObs := FrequencyShift(exp, nu0, r, alpha, rc);
    Div(nu0 - nuObs, nuObs)
  }

  /**
   * For nu0 > 0 and 0 <= alpha < 1 the shifted frequency lies in (0, nu0],
   * and z is finite, non-negative and equal to 1/gamma - 1, so it does not
   * depend on nu0.
   */
  lemma RedshiftZSpec(exp: real -> real, nu0: real, r: real, alpha: real, rc: real)
    requires IsExp(exp) && rc != 0.0
    requires 0.0 < nu0 && 0.0 <= alpha < 1.0
    ensures 0.0 < FrequencyShift(exp, nu0, r, alpha, rc) <= nu0
    ensures var z := RedshiftZ(exp, nu0, r, alpha, rc);
      z.Num? && 0.0 <= z.v && z.v == 1.0 / GammaSeg(exp, r, alpha, rc) - 1.0
  {
    var g := GammaSeg(exp, r, alpha, rc);
    GammaBounds(exp, r, alpha, rc);
    GammaPositive(exp, r, alpha, rc);
    RadioRedshift.RedshiftSpec(nu0, g);
    assert FrequencyShift(exp, nu0, r, alpha, rc) == nu0 * g;
    ZOfGamma(nu0, g);
  }

  /** (nu0 - nu0 g) / (nu0 g) = 1/g - 1 >= 0 for nu0 > 0 and 0 < g <= 1. */
  lemma ZOfGamma(nu0: real, g: real)
    requires 0.0 < nu0 && 0.0 < g <= 1.0
    ensures Div(nu0 - nu0 * g, nu0 * g) == Num(1.0 / g - 1.0)
    ensures 0.0 <= 1.0 / g - 1.0
  {
    var nuObs, q := nu0 * g, 1.0 / g - 1.0;
    MulPositive(nu0, g);
    DivMulCancel(1.0, g);
    assert nuObs * q == nu0 * (g * (1.0 / g)) - nuObs;
    assert (nu0 - nuObs) / nuObs == q;
    ReciprocalAtLeastOne(g);
  }

  /** The integrand (1 - gamma_seg(r)) * r^2 on a grid of radii. */
  function CoreIntegrand(exp: real -> real, rs: seq<real>, alpha: real, rc: real): (ys: seq<real>)
    requires rc != 0.0
    ensures |ys| == |rs|
    ensures forall i :: 0 <= i < |rs| ==> ys[i] == (1.0 - GammaSeg(exp, rs[i], alpha, rc)) * (rs[i] * rs[i])
  {
    if rs == [] then [] else [(1.0 - GammaSeg(exp, rs[0], alpha, rc)) * (rs[0] * rs[0])] + CoreIntegrand(exp, rs[1..], alpha, rc)
  }

  /** The trapezoid integral of the integrand over `np.linspace(0.01, r_max, 500)`. */
  function MassScaled(exp: real -> real, rMax: real, alpha: real, rc: real): real
    requires rc != 0.0
  {
    var grid := Linspace(GridStart, rMax, GridPoints);
    Trapz(CoreIntegrand(exp, grid, alpha, rc), grid)
  }

  /** `M_core_integral(r_max)`: the integral up to r_max over the one up to 4.5 pc, times 8.7 M_sun (numpy division). */
  function MCoreIntegral(exp: real -> real, rMax: real, alpha: real, rc: real): Float
    requires rc != 0.0
  {
    Scale(Div(MassScaled(exp, rMax, alpha, rc), MassScaled(exp, RRef, alpha, rc)), MCorePaper)
  }

  /** Each integrand sample is alpha times a positive number, so it has alpha's sign. */
  lemma IntegrandSign(exp: real -> real, r: real, alpha: real, rc: real)
    requires IsExp(exp) && rc != 0.0 && 0.0 < r
    ensures 0.0 < alpha ==> 0.0 < (1.0 - GammaSeg(exp, r, alpha, rc)) * (r * r)
    ensures 0.0 <= alpha ==> 0.0 <= (1.0 - GammaSeg(exp, r, alpha, rc)) * (r * r)
  {
    ProfileExpInUnit(exp, r, rc);
    var e := exp(-((r / rc) * (r / rc)));
    assert 1.0 - GammaSeg(exp, r, alpha, rc) == alpha * e;
    MulPositive(r, r);
    if 0.0 < alpha {
      MulPositive(alpha, e);
      MulPositive(alpha * e, r * r);
    } else if 0.0 <= alpha {
      MulNonNegative(alpha, e);
      MulNonNegative(alpha * e, r * r);
    }
  }

  /**
   * On the grid from 0.01 pc outwards the integral is non-negative for
   * alpha >= 0 and positive for alpha > 0 and r_max > 0.01.
   */
  lemma MassScaledSign(exp: real -> real, rMax: real, alpha: real, rc: real)
    requires IsExp(exp) && rc != 0.0
    requires GridStart <= rMax
    ensures 0.0 <= alpha ==> 0.0 <= MassScaled(exp, rMax, alpha, rc)
    ensures 0.0 < alpha && GridStart < rMax ==> 0.0 < MassScaled(exp, rMax, alpha, rc)
  {
    var grid := Linspace(GridStart, rMax, GridPoints);
    var ys := CoreIntegrand(exp, grid, alpha, rc);
    LinspaceAscending(GridStart, rMax, GridPoints);
    forall i | 0 <= i < |ys|
      ensures (0.0 <= alpha ==> 0.0 <= ys[i]) && (0.0 < alpha ==> 0.0 < ys[i])
    {
      IntegrandSign(exp, grid[i], alpha, rc);
    }
    if 0.0 <= alpha {
      TrapzNonNegative(ys, grid);
    }
    if 0.0 < alpha && GridStart < rMax {
      LinspaceStrictlyAscending(GridStart, rMax, GridPoints);
      TrapzPositive(ys, grid);
    }
  }

  /** Without amplitude gamma_seg is 1 everywhere, the integrand vanishes and so does the integral, for any r_max. */
  lemma MassScaledZero(exp: real -> real, rMax: real, rc: real)
    requires rc != 0.0
    ensures MassScaled(exp, rMax, 0.0, rc) == 0.0
  {
    var grid := Linspace(GridStart, rMax, GridPoints);
    var ys := CoreIntegrand(exp, grid, 0.0, rc);
    forall i | 0 <= i < |ys|
      ensures ys[i] == 0.0
    {
      assert GammaSeg(exp, grid[i], 0.0, rc) == 1.0;
    }
    TrapzZero(ys, grid);
  }

  /**
   * At the reference radius the ratio is exactly 1, so the mass is exactly
   * 8.7 M_sun for any alpha > 0 (both integrals use the same grid); for
   * alpha > 0 and r_max >= 0.01 the mass is finite and non-negative; for
   * alpha = 0 both integrals vanish and the mass is NaN.
   */
  lemma MCoreIntegralSpec(exp: real -> real, rMax: real, alpha: real, rc: real)
    requires IsExp(exp) && rc != 0.0
    ensures 0.0 < alpha ==> MCoreIntegral(exp, RRef, alpha, rc) == Num(MCorePaper)
    ensures 0.0 < alpha && GridStart <= rMax ==>
      MCoreIntegral(exp, rMax, alpha, rc).Num? && 0.0 <= MCoreIntegral(exp, rMax, alpha, rc).v
    ensures alpha == 0.0 ==> MCoreIntegral(exp, rMax, alpha, rc) == NaN
  {
    var ref := MassScaled(exp, RRef, alpha, rc);
    if 0.0 < alpha {
      MassScaledSign(exp, RRef, alpha, rc);
      ScaledRatio(ref, ref);
      if GridStart <= rMax {
        MassScaledSign(exp, rMax, alpha, rc);
        ScaledRatio(MassScaled(exp, rMax, alpha, rc), ref);
      }
    }
    if alpha == 0.0 {
      MassScaledZero(exp, RRef, rc);
      MassScaledZero(exp, rMax, rc);
    }
  }

  /** (m / ref) * 8.7 for a positive reference: finite, non-negative for m >= 0, and 8.7 for m = ref. */
  lemma ScaledRatio(m: real, ref: real)
    requires 0.0 < ref
    ensures Scale(Div(m, ref), MCorePaper) == Num(m / ref * MCorePaper)
    ensures 0.0 <= m ==> 0.0 <= m / ref * MCorePaper
    ensures m == ref ==> m / ref * MCorePaper == MCorePaper
  {
    if 0.0 <= m {
      MulNonNegative(m, 1.0 / ref);
      MulDivAssoc(m, 1.0, ref);
      MulNonNegative(m / ref, MCorePaper);
    }
  }

  /** `energy_release_velocity(v_launch, r)`: the energy-release law with alpha_E = 1 at gamma_seg(r). */
  function EnergyReleaseVelocity(exp: real -> real, sqrt: real -> real, vLaunch: real, r: real, alpha: real, rc: real): Float
    requires rc != 0.0
  {
    EnergyRelease.ReleaseVelocity(sqrt, vLaunch, GammaSeg(exp, r, alpha, rc), 1.0)
  }

  /** For alpha >= 0 (so gamma_seg <= 1) the velocity is finite and at least |v_launch|; for alpha = 0 it is |v_launch|. */
  lemma EnergyReleaseVelocitySpec(exp: real -> real, sqrt: real -> real, vLaunch: real, r: real, alpha: real, rc: real)
    requires IsExp(exp) && IsSqrt(sqrt) && rc != 0.0
    ensures 0.0 <= alpha ==>
      EnergyReleaseVelocity(exp, sqrt, vLaunch, r, alpha, rc).Num?
      && Abs(vLaunch) <= EnergyReleaseVelocity(exp, sqrt, vLaunch, r, alpha, rc).v
    ensures alpha == 0.0 ==> EnergyReleaseVelocity(exp, sqrt, vLaunch, r, alpha, rc) == Num(Abs(vLaunch))
  {
    var g := GammaSeg(exp, r, alpha, rc);
    if 0.0 <= alpha {
      GammaBounds(exp, r, alpha, rc);
    }
    EnergyRelease.ReleaseVelocitySpec(sqrt, vLaunch, g, 1.0);
  }
}
