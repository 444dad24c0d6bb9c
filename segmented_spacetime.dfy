/**
 * scripts/test_segmented_spacetime_full.py: the `SegmentedSpacetimeModel`
 * (parameters fixed at construction, so a value), the fit of its
 * temperature law T0 * gamma_seg to the temperature profile, and the
 * paper comparison of `main`.
 */
module SegmentedSpacetime {
  import opened Wrappers
  import opened RealMath
  import opened Floats
  import opened Profile
  import opened Trapezoid
  import opened Grid
  import opened Stats
  import opened Fitting
  import RadioRedshift
  import FitProfile
  import CoreMass

  const CKms: real := 299792.458
  const GSi: real := 0.0000000000667430
  const MSunKg: real := 1988470000000000000000000000000.0
  const PcM: real := 30856775800000000.0
  const PaperDeltaV: real := 5.0

  /** `SegmentedSpacetimeModel(alpha, r_c, T0)`; no method reassigns the three fields. */
  datatype Model = Model(alpha: real, rc: real, t0: real)

  /** The constructor's defaults: the paper's alpha and r_c with T0 = 80 K. */
  const DefaultModel: Model := Model(0.12, 1.9, 80.0)

  /** `gamma_seg(r)` */
  function Gamma(exp: real -> real, m: Model, r: real): real
    requires m.rc != 0.0
  {
    GammaSeg(exp, r, m.alpha, m.rc)
  }

  /** `temperature(r)`: T0 * gamma_seg(r). */
  function Temperature(exp: real -> real, m: Model, r: real): real
    requires m.rc != 0.0
  {
    Profile.Temperature(exp, r, m.t0, m.alpha, m.rc)
  }

  /** `velocity_excess(r, v0)`: v0 * (1/gamma_seg - 1). */
  function VelocityExcess(exp: real -> real, m: Model, r: real, v0: real): real
    requires m.rc != 0.0 && Gamma(exp, m, r) != 0.0
  {
    Profile.VelocityExcess(v0, Gamma(exp, m, r))
  }

  /** The mass factor (c * 1000)^2 / G / M_sun of `core_mass`. */
  const MassFactor: real := (CKms * 1000.0) * (CKms * 1000.0) / GSi

  /**
   * `core_mass(r_max, n_points)`: the trapezoid integral of gamma_seg over
   * `np.linspace(0, r_max, n_points)` converted to metres, times
   * (c * 1000)^2 / G, in solar masses.
   */
  function CoreMassOf(exp: real -> real, m: Model, rMax: real, n: nat): real
    requires m.rc != 0.0
  {
    var grid := Linspace(0.0, rMax, n);
    MassFactor * Trapz(GammaSegs(exp, grid, m.alpha, m.rc), ScaleGrid(grid, PcM)) / MSunKg
  }

  /** With r_max > 0, at least two grid points and alpha < 1, the core mass is positive. */
  lemma CoreMassPositive(exp: real -> real, m: Model, rMax: real, n: nat)
    requires IsExp(exp) && m.rc != 0.0
    requires 0.0 < rMax && 2 <= n && m.alpha < 1.0
    ensures 0.0 < CoreMassOf(exp, m, rMax, n)
  {
    var grid := Linspace(0.0, rMax, n);
    var gs, xs := GammaSegs(exp, grid, m.alpha, m.rc), ScaleGrid(grid, PcM);
    LinspaceStrictlyAscending(0.0, rMax, n);
    ScaleGridStrictlyAscending(grid, PcM);
    forall i | 0 <= i < |gs|
      ensures 0.0 < gs[i]
    {
      GammaPositive(exp, grid[i], m.alpha, m.rc);
    }
    TrapzPositive(gs, xs);
    assert 0.0 < MassFactor;
    MulPositive(MassFactor, Trapz(gs, xs));
    MulPositive(MassFactor * Trapz(gs, xs), 1.0 / MSunKg);
    MulDivAssoc(MassFactor * Trapz(gs, xs), 1.0, MSunKg);
  }

  /** `radio_redshift(r, nu0_GHz)`: the shifted frequency nu0 * gamma_seg and the shift. */
  function RadioRedshiftOf(exp: real -> real, m: Model, r: real, nu0: real): (real, real)
    requires m.rc != 0.0
  {
    var g := Gamma(exp, m, r);
    (RadioRedshift.RedshiftedFrequency(nu0, g), RadioRedshift.FrequencyShift(nu0, g))
  }

  /** The two parts add up to nu0, and for nu0 > 0 and 0 <= alpha < 1 both are non-negative. */
  lemma RadioRedshiftOfSpec(exp: real -> real, m: Model, r: real, nu0: real)
    requires IsExp(exp) && m.rc != 0.0
    ensures RadioRedshiftOf(exp, m, r, nu0).0 + RadioRedshiftOf(exp, m, r, nu0).1 == nu0
    ensures 0.0 < nu0 && 0.0 <= m.alpha < 1.0 ==>
      0.0 < RadioRedshiftOf(exp, m, r, nu0).0 <= nu0 && 0.0 <= RadioRedshiftOf(exp, m, r, nu0).1
  {
    var g := Gamma(exp, m, r);
    if 0.0 <= m.alpha < 1.0 {
      GammaBounds(exp, r, m.alpha, m.rc);
      GammaPositive(exp, r, m.alpha, m.rc);
    }
    RadioRedshift.RedshiftSpec(nu0, g);
  }

  /** The request `fit_model_to_data` makes: T0 fitted too (3 parameters) or fixed (2). */
  function FitRequestOf(rs: seq<real>, ts: seq<real>, t0: Option<real>): FitRequest
    requires t0.None? ==> |ts| > 0
  {
    if t0.None? then
      var tMax := MaxOf(ts);
      FitRequest(rs, ts, [0.12, 1.9, tMax], Some(Box([0.0, 0.1, tMax * 0.8], [0.5, 5.0, tMax * 1.5])))
    else
      FitRequest(rs, ts, [0.12, 1.9], Some(Box([0.0, 0.1], [0.5, 5.0])))
  }

  /** `model, popt, pcov` */
  datatype Fitted = Fitted(model: Model, popt: seq<real>, pcov: seq<seq<Float>>)

  /**
   * `fit_model_to_data(r_data, T_data, T0)`.  `fit` is curve_fit on the
   * model's temperature law with the free parameters of the request.
   * `T_data.max()` of an empty profile raises when T0 is to be fitted.
   */
  function FitModelToData(fit: FitRequest -> Option<FitResult>, rs: seq<real>, ts: seq<real>, t0: Option<real>)
    : (r: Result<Fitted>)
    requires IsCurveFit(fit)
    ensures r.Err? <==> t0.None? && ts == []
  {
    if t0.None? && ts == [] then Err("zero-size array to reduction operation maximum which has no identity")
    else
      var req := FitRequestOf(rs, ts, t0);
      var res := FitOrGuess(fit, req);
      FitOrGuessSpec(fit, req);
      var model := if t0.None? then Model(res.popt[0], res.popt[1], res.popt[2]) else Model(res.popt[0], res.popt[1], t0.value);
      Ok(Fitted(model, res.popt, res.pcov))
  }

  /**
   * Three parameters when T0 is fitted, two when it is given; the model's T0
   * is the fitted one or the given one; a failed fit returns p0 with +inf on
   * the covariance diagonal; otherwise (and always, when the initial guess
   * is inside the bounds) 0 <= alpha <= 0.5 and 0.1 <= r_c <= 5 pc, with the
   * fitted T0 within [0.8, 1.5] times the hottest temperature.
   */
  lemma FitModelToDataSpec(fit: FitRequest -> Option<FitResult>, rs: seq<real>, ts: seq<real>, t0: Option<real>)
    requires IsCurveFit(fit)
    requires t0.None? ==> ts != []
    ensures var f, req := FitModelToData(fit, rs, ts, t0).value, FitRequestOf(rs, ts, t0);
      && |f.popt| == (if t0.None? then 3 else 2)
      && Square(f.pcov, |f.popt|)
      && f.model.alpha == f.popt[0] && f.model.rc == f.popt[1]
      && f.model.t0 == (if t0.None? then f.popt[2] else t0.value)
      && (fit(req).None? ==> f.popt == req.p0 && forall i :: 0 <= i < |f.popt| ==> f.pcov[i][i] == PosInf)
      && (fit(req).Some? || (t0.None? ==> 0.0 <= MaxOf(ts)) ==>
            && 0.0 <= f.model.alpha <= 0.5 && 0.1 <= f.model.rc <= 5.0
            && (t0.None? ==> MaxOf(ts) * 0.8 <= f.model.t0 <= MaxOf(ts) * 1.5))
  {
    var f, req := FitModelToData(fit, rs, ts, t0).value, FitRequestOf(rs, ts, t0);
    FitOrGuessSpec(fit, req);
    var box := req.bounds.value;
    if t0.None? && 0.0 <= MaxOf(ts) {
      assert WithinBox(req.p0, req.bounds);
    }
    if t0.Some? {
      assert WithinBox(req.p0, req.bounds);
    }
    if fit(req).Some? || (t0.None? ==> 0.0 <= MaxOf(ts)) {
      assert WithinBox(f.popt, req.bounds);
      assert box.lower[0] <= f.popt[0] <= box.upper[0];
      assert box.lower[1] <= f.popt[1] <= box.upper[1];
      if t0.None? {
        assert box.lower[2] <= f.popt[2] <= box.upper[2];
      }
    }
  }

  datatype Agreement = Excellent | Good | Marginal

  /** The summary verdict: all three deviations below 2 sigma, else all below 3, else marginal. */
  function Overall(alphaDev: real, rcDev: real, massDev: real): Agreement
  {
    if alphaDev < 2.0 && rcDev < 2.0 && massDev < 2.0 then Excellent
    else if alphaDev < 3.0 && rcDev < 3.0 && massDev < 3.0 then Good
    else Marginal
  }

  /** EXCELLENT exactly when every deviation is below 2 sigma; GOOD when all are below 3 but one is not below 2. */
  lemma OverallSpec(alphaDev: real, rcDev: real, massDev: real)
    ensures Overall(alphaDev, rcDev, massDev) == Excellent <==> alphaDev < 2.0 && rcDev < 2.0 && massDev < 2.0
    ensures Overall(alphaDev, rcDev, massDev) == Good <==>
      (alphaDev < 3.0 && rcDev < 3.0 && massDev < 3.0) && !(alphaDev < 2.0 && rcDev < 2.0 && massDev < 2.0)
    ensures Overall(alphaDev, rcDev, massDev) == Marginal <==> !(alphaDev < 3.0 && rcDev < 3.0 && massDev < 3.0)
  {
  }

  /** The figures `main` reports. */
  datatype Summary = Summary(
    fitted: Fitted, errors: seq<Float>, alphaDev: real, rcDev: real,
    coreMass: real, massDev: real, deltaV: real, deltaVAgrees: bool,
    nuShift: real, deltaNu: real, overall: Agreement)

  datatype Outcome = Exit(status: int) | Reported(summary: Summary)

  /**
   * `main`: without the temperature file it returns 1; otherwise it fits
   * (T0 free), takes the deviations of alpha, r_c and the core mass within
   * 2 pc, the velocity excess at 2 pc for v0 = 10 km/s and the radio shift
   * at 1 pc for 100 GHz, and the overall verdict.  `temperatures` holds the
   * `r_pc` and `T_K` columns when the file exists.
   */
  function Run(exp: real -> real, sqrt: real -> real, fit: FitRequest -> Option<FitResult>,
               temperatures: Option<(seq<real>, seq<real>)>): (r: Result<Outcome>)
    requires IsExp(exp) && IsCurveFit(fit)
    ensures temperatures.None? ==> r == Ok(Exit(1))
    ensures temperatures.Some? ==> (r.Err? <==> temperatures.value.1 == [])
  {
    if temperatures.None? then Ok(Exit(1))
    else
      var (rs, ts) := temperatures.value;
      if ts == [] then Err("zero-size array to reduction operation maximum which has no identity")
      else
        var f := FitModelToData(fit, rs, ts, None).value;
        FitModelToDataSpec(fit, rs, ts, None);
        var m := f.model;
        FitRequestBounds(fit, rs, ts, m);
        var errors := StdErrors(sqrt, f.pcov);
        var alphaDev, rcDev := FitProfile.AlphaDeviation(m.alpha), FitProfile.RcDeviation(m.rc);
        var mass := CoreMassOf(exp, m, 2.0, 1000);
        var massDev := CoreMass.PaperDeviation(mass);
        GammaPositive(exp, 2.0, m.alpha, m.rc);
        var deltaV := VelocityExcess(exp, m, 2.0, 10.0);
        var radio := RadioRedshiftOf(exp, m, 1.0, 100.0);
        Ok(Reported(Summary(f, errors, alphaDev, rcDev, mass, massDev, deltaV, Abs(deltaV - PaperDeltaV) < 2.0,
                            radio.0, radio.1, Overall(alphaDev, rcDev, massDev))))
  }

  /** The fitted alpha lies in [0, 0.5] (curve_fit's bounds, or p0's 0.12) and r_c is not 0. */
  lemma FitRequestBounds(fit: FitRequest -> Option<FitResult>, rs: seq<real>, ts: seq<real>, m: Model)
    requires IsCurveFit(fit) && ts != []
    requires m == FitModelToData(fit, rs, ts, None).value.model
    ensures m.rc != 0.0 && 0.0 <= m.alpha < 1.0
  {
    var f, req := FitModelToData(fit, rs, ts, None).value, FitRequestOf(rs, ts, None);
    FitModelToDataSpec(fit, rs, ts, None);
    if fit(req).None? {
      assert f.popt == [0.12, 1.9, MaxOf(ts)];
    }
  }

  /**
   * With the temperature file, the summary's core mass is positive, the
   * radio shift parts add up to 100 GHz, three standard errors are
   * reported, and the overall verdict is EXCELLENT exactly when the three
   * deviations are below 2 sigma.
   */
  lemma RunSpec(exp: real -> real, sqrt: real -> real, fit: FitRequest -> Option<FitResult>,
                temperatures: Option<(seq<real>, seq<real>)>)
    requires IsExp(exp) && IsCurveFit(fit)
    requires temperatures.Some? && temperatures.value.1 != []
    ensures var s := Run(exp, sqrt, fit, temperatures).value.summary;
      && |s.errors| == 3
      && 0.0 < s.coreMass
      && s.nuShift + s.deltaNu == 100.0
      && 0.0 < s.nuShift <= 100.0
      && (s.overall == Excellent <==> s.alphaDev < 2.0 && s.rcDev < 2.0 && s.massDev < 2.0)
  {
    var (rs, ts) := temperatures.value;
    var f := FitModelToData(fit, rs, ts, None).value;
    FitModelToDataSpec(fit, rs, ts, None);
    FitRequestBounds(fit, rs, ts, f.model);
    var s := Run(exp, sqrt, fit, temperatures).value.summary;
    CoreMassPositive(exp, f.model, 2.0, 1000);
    RadioRedshiftOfSpec(exp, f.model, 1.0, 100.0);
    OverallSpec(s.alphaDev, s.rcDev, s.massDev);
  }
}
