/**
 * scripts/fit_gamma_seg_profile.py: fitting gamma_seg(r) to a temperature
 * profile through the clipped model T(r) = T0 / gamma_seg(r), the fallback
 * to the initial guess when the fit fails, the standard errors, the
 * comparison with the paper's alpha = 0.12 +- 0.03 and r_c = 1.9 pc, the
 * filter of usable points and the reduced chi-square of `main`.
 */
module FitProfile {
  import opened Wrappers
  import opened RealMath
  import opened Floats
  import opened Profile
  import opened Ladder
  import opened Fitting

  const PaperAlpha: real := 0.12
  const PaperAlphaErr: real := 0.03
  const PaperRc: real := 1.9
  const PaperT0: real := 240.0

  /** `np.clip(x, lo, hi)` */
  function Clip(x: real, lo: real, hi: real): (c: real)
    ensures lo <= hi ==> lo <= c <= hi
    ensures lo <= x <= hi ==> c == x
  {
    if x < lo then lo else if hi < x then hi else x
  }

  /** `temperature_model(r, alpha, r_c, T0)`: T0 over gamma_seg clipped to [0.01, 1]. */
  function TemperatureModel(exp: real -> real, r: real, alpha: real, rc: real, t0: real): real
    requires rc != 0.0
  {
    t0 / Clip(GammaSeg(exp, r, alpha, rc), 0.01, 1.0)
  }

  /**
   * The divisor lies in [0.01, 1], so the model never divides by zero and a
   * non-negative T0 gives T0 <= T <= 100 T0; for 0 <= alpha <= 0.99 the clip
   * never acts and T * gamma_seg = T0.
   */
  lemma TemperatureModelSpec(exp: real -> real, r: real, alpha: real, rc: real, t0: real)
    requires IsExp(exp) && rc != 0.0
    ensures var g := Clip(GammaSeg(exp, r, alpha, rc), 0.01, 1.0);
      0.01 <= g <= 1.0 && TemperatureModel(exp, r, alpha, rc, t0) == t0 / g
    ensures 0.0 <= t0 ==> t0 <= TemperatureModel(exp, r, alpha, rc, t0) <= 100.0 * t0
    ensures 0.0 <= alpha <= 0.99 ==> TemperatureModel(exp, r, alpha, rc, t0) * GammaSeg(exp, r, alpha, rc) == t0
  {
    var gamma := GammaSeg(exp, r, alpha, rc);
    var g := Clip(gamma, 0.01, 1.0);
    if 0.0 <= t0 {
      DivByUnitInterval(t0, g);
    }
    if 0.0 <= alpha <= 0.99 {
      GammaBounds(exp, r, alpha, rc);
      assert g == gamma;
      DivMulCancel(t0, g);
    }
  }

  /** Dividing a non-negative t by a divisor in [0.01, 1] gives a value in [t, 100 t]. */
  lemma DivByUnitInterval(t: real, g: real)
    requires 0.0 <= t && 0.01 <= g <= 1.0
    ensures t <= t / g <= 100.0 * t
  {
    DivMulCancel(t, g);
    var q := t / g;
    assert g * q == t;
    if q < t {
      MulMonotone(q, g, 1.0);
      assert false;
    }
    if 100.0 * t < q {
      MulStrictMonotone(g, 100.0 * t, q);
      MulMonotone(100.0 * t, 0.01, g);
      assert false;
    }
  }

  /** The fitted parameters. */
  datatype Params = Params(alpha: real, rc: real)

  /** `bounds = ([0.0, 0.1], [1.0, 10.0])`: alpha in [0, 1], r_c in [0.1, 10] pc. */
  const FitBounds: Box := Box([0.0, 0.1], [1.0, 10.0])

  /** `initial_guess`, defaulting to the paper's values [0.12, 1.9]. */
  function InitialGuess(guess: Option<Params>): Params
  {
    if guess.None? then Params(PaperAlpha, PaperRc) else guess.value
  }

  /** The request `fit_gamma_seg` makes of curve_fit. */
  function Request(rs: seq<real>, ts: seq<real>, guess: Option<Params>): FitRequest
  {
    var p0 := InitialGuess(guess);
    FitRequest(rs, ts, [p0.alpha, p0.rc], Some(FitBounds))
  }

  /** `popt, pcov, gamma_fit` */
  datatype GammaFit = GammaFit(alpha: real, rc: real, pcov: seq<seq<Float>>, gammaFit: seq<real>)

  /** A guess the profile can be evaluated at. */
  predicate UsableGuess(guess: Option<Params>)
  {
    guess.Some? ==> guess.value.rc != 0.0
  }

  /**
   * `fit_gamma_seg(r_data, T_data, T0, initial_guess)`.  `fit` is curve_fit
   * on `temperature_model` with this T0.  A failed fit falls back to the
   * initial guess with an infinite covariance; gamma_fit is the profile at
   * the returned parameters.
   */
  function FitGammaSeg(exp: real -> real, fit: FitRequest -> Option<FitResult>, rs: seq<real>, ts: seq<real>,
                       guess: Option<Params>): GammaFit
    requires IsCurveFit(fit) && UsableGuess(guess)
  {
    var req := Request(rs, ts, guess);
    var res := FitOrGuess(fit, req);
    FitOrGuessSpec(fit, req);
    assert fit(req).Some? ==> WithinBox(res.popt, Some(FitBounds)) && FitBounds.lower[1] <= res.popt[1];
    GammaFit(res.popt[0], res.popt[1], res.pcov, GammaSegs(exp, rs, res.popt[0], res.popt[1]))
  }

  /**
   * A returned fit lies inside the bounds, a failed one is the initial guess
   * with +inf on the covariance diagonal, and gamma_fit is the profile at
   * the parameters, between 1 - alpha and 1 at every radius.
   */
  lemma FitGammaSegSpec(exp: real -> real, fit: FitRequest -> Option<FitResult>, rs: seq<real>, ts: seq<real>,
                        guess: Option<Params>)
    requires IsExp(exp) && IsCurveFit(fit) && UsableGuess(guess)
    ensures var f, req := FitGammaSeg(exp, fit, rs, ts, guess), Request(rs, ts, guess);
      && f.rc != 0.0
      && Square(f.pcov, 2)
      && (fit(req).Some? ==> 0.0 <= f.alpha <= 1.0 && 0.1 <= f.rc <= 10.0)
      && (fit(req).None? ==> Params(f.alpha, f.rc) == InitialGuess(guess) && f.pcov[0][0] == PosInf && f.pcov[1][1] == PosInf)
      && |f.gammaFit| == |rs|
      && (forall i :: 0 <= i < |rs| ==> f.gammaFit[i] == GammaSeg(exp, rs[i], f.alpha, f.rc))
      && (0.0 <= f.alpha ==> forall i :: 0 <= i < |rs| ==> 1.0 - f.alpha <= f.gammaFit[i] <= 1.0)
  {
    var f, req := FitGammaSeg(exp, fit, rs, ts, guess), Request(rs, ts, guess);
    FitOrGuessSpec(fit, req);
    if fit(req).Some? {
      var p := fit(req).value.popt;
      assert WithinBox(p, Some(FitBounds));
      assert FitBounds.lower[0] <= p[0] <= FitBounds.upper[0];
      assert FitBounds.lower[1] <= p[1] <= FitBounds.upper[1];
    }
    if 0.0 <= f.alpha {
      forall i | 0 <= i < |rs|
        ensures 1.0 - f.alpha <= f.gammaFit[i] <= 1.0
      {
        GammaBounds(exp, rs[i], f.alpha, f.rc);
      }
    }
  }

  /** `calculate_uncertainties(pcov)`: alpha_err and r_c_err. */
  function Uncertainties(sqrt: real -> real, pcov: seq<seq<Float>>): (errs: (Float, Float))
    requires Square(pcov, 2)
  {
    var e := StdErrors(sqrt, pcov);
    (e[0], e[1])
  }

  /** The deviation of alpha from the paper in sigma (the guard on a zero error never fires). */
  function AlphaDeviation(alpha: real): real
  {
    if PaperAlphaErr > 0.0 then Abs(alpha - PaperAlpha) / PaperAlphaErr else 0.0
  }

  /** The deviation of r_c from the paper, against an assumed 10% error (0.19 pc). */
  function RcDeviation(rc: real): real
  {
    Abs(rc - PaperRc) / (0.1 * PaperRc)
  }

  /**
   * Deviations are never negative, vanish exactly at the paper's values, and
   * lie below k sigma exactly when the parameter is within k * 0.03 of 0.12
   * (alpha) or k * 0.19 pc of 1.9 pc (r_c).
   */
  lemma DeviationSpec(alpha: real, rc: real, k: real)
    ensures 0.0 <= AlphaDeviation(alpha) && 0.0 <= RcDeviation(rc)
    ensures AlphaDeviation(alpha) == 0.0 <==> alpha == PaperAlpha
    ensures RcDeviation(rc) == 0.0 <==> rc == PaperRc
    ensures AlphaDeviation(alpha) < k <==> Abs(alpha - PaperAlpha) < 0.03 * k
    ensures RcDeviation(rc) < k <==> Abs(rc - PaperRc) < 0.19 * k
  {
    var a, b := Abs(alpha - PaperAlpha), Abs(rc - PaperRc);
    assert AlphaDeviation(alpha) == a / 0.03;
    assert RcDeviation(rc) == b / 0.19;
    DivMulCancel(a, 0.03);
    DivMulCancel(b, 0.19);
    ScaledBelow(a / 0.03, k, 0.03);
    ScaledBelow(b / 0.19, k, 0.19);
  }

  /** For a positive scale c, x < k exactly when c * x < c * k. */
  lemma ScaledBelow(x: real, k: real, c: real)
    requires 0.0 < c
    ensures x < k <==> c * x < c * k
  {
    if x < k {
      MulStrictMonotone(c, x, k);
    } else {
      MulMonotone(c, k, x);
    }
  }

  datatype Agreement = Excellent | Good | Marginal | Poor

  /** The verdict printed by `compare_with_paper` for one deviation. */
  function Verdict(dev: real): Agreement
  {
    match SigmaRung(dev)
    case 0 => Excellent
    case 1 => Good
    case 2 => Marginal
    case _ => Poor
  }

  /** The verdicts in order of worsening agreement. */
  function Rank(a: Agreement): nat
  {
    match a
    case Excellent => 0
    case Good => 1
    case Marginal => 2
    case Poor => 3
  }

  /** Each verdict holds on one band of deviations, and a larger deviation never earns a better one. */
  lemma VerdictSpec(dev: real, dev2: real)
    ensures Verdict(dev) == Excellent <==> dev < 1.0
    ensures Verdict(dev) == Good <==> 1.0 <= dev < 2.0
    ensures Verdict(dev) == Marginal <==> 2.0 <= dev < 3.0
    ensures Verdict(dev) == Poor <==> 3.0 <= dev
    ensures dev <= dev2 ==> Rank(Verdict(dev)) <= Rank(Verdict(dev2))
  {
    SigmaRungSpec(dev);
    SigmaRungSpec(dev2);
    if dev <= dev2 {
      RungMonotone(dev, dev2, [1.0, 2.0, 3.0]);
    }
  }

  /** The closing "Agreement with Paper" line of `main`: both within 2 sigma, both within 3 sigma, or neither. */
  function OverallAgreement(alphaDev: real, rcDev: real): Agreement
  {
    if alphaDev < 2.0 && rcDev < 2.0 then Excellent
    else if alphaDev < 3.0 && rcDev < 3.0 then Good
    else Marginal
  }

  /**
   * The overall line agrees with the two per-parameter verdicts: it is
   * EXCELLENT exactly when neither verdict is worse than good, GOOD exactly
   * when one is marginal and none poor, and MARGINAL when either is poor.
   */
  lemma OverallAgreementSpec(alphaDev: real, rcDev: real)
    ensures var a, b := Rank(Verdict(alphaDev)), Rank(Verdict(rcDev));
      var worst := if a < b then b else a;
      && (OverallAgreement(alphaDev, rcDev) == Excellent <==> worst <= 1)
      && (OverallAgreement(alphaDev, rcDev) == Good <==> worst == 2)
      && (OverallAgreement(alphaDev, rcDev) == Marginal <==> worst == 3)
  {
    VerdictSpec(alphaDev, alphaDev);
    VerdictSpec(rcDev, rcDev);
  }

  /** One usable row of the input: its radius and temperature. */
  datatype Point = Point(r: real, t: real)

  /** `mask = np.isfinite(r) & np.isfinite(T) & (T > 0)` applied to both arrays. */
  function ValidPoints(rs: seq<Float>, ts: seq<Float>): (ps: seq<Point>)
    requires |rs| == |ts|
    ensures |ps| <= |rs|
  {
    if rs == [] then []
    else (if rs[0].Num? && ts[0].Num? && 0.0 < ts[0].v then [Point(rs[0].v, ts[0].v)] else [])
         + ValidPoints(rs[1..], ts[1..])
  }

  /** A point is kept exactly when some row holds it with a finite radius and a finite positive temperature. */
  lemma {:induction false} ValidPointsMembership(rs: seq<Float>, ts: seq<Float>, p: Point)
    requires |rs| == |ts|
    ensures p in ValidPoints(rs, ts) <==> 0.0 < p.t && exists k :: 0 <= k < |rs| && rs[k] == Num(p.r) && ts[k] == Num(p.t)
  {
    if rs != [] {
      ValidPointsMembership(rs[1..], ts[1..], p);
      if exists k :: 0 <= k < |rs[1..]| && rs[1..][k] == Num(p.r) && ts[1..][k] == Num(p.t) {
        var k :| 0 <= k < |rs[1..]| && rs[1..][k] == Num(p.r) && ts[1..][k] == Num(p.t);
        assert rs[k + 1] == Num(p.r) && ts[k + 1] == Num(p.t);
      }
      if exists k :: 0 <= k < |rs| && rs[k] == Num(p.r) && ts[k] == Num(p.t) {
        var k :| 0 <= k < |rs| && rs[k] == Num(p.r) && ts[k] == Num(p.t);
        if k > 0 {
          assert rs[1..][k - 1] == rs[k] && ts[1..][k - 1] == ts[k];
        }
      }
    }
  }

  function Radii(ps: seq<Point>): (rs: seq<real>)
    ensures |rs| == |ps|
    ensures forall i :: 0 <= i < |ps| ==> rs[i] == ps[i].r
  {
    seq(|ps|, i requires 0 <= i < |ps| => ps[i].r)
  }

  function Temperatures(ps: seq<Point>): (ts: seq<real>)
    ensures |ts| == |ps|
    ensures forall i :: 0 <= i < |ps| ==> ts[i] == ps[i].t
  {
    seq(|ps|, i requires 0 <= i < |ps| => ps[i].t)
  }

  /** `temperature_model(r_data, alpha, r_c, T0)` on the array of radii. */
  function ModelTemperatures(exp: real -> real, rs: seq<real>, alpha: real, rc: real, t0: real): (ts: seq<real>)
    requires rc != 0.0
    ensures |ts| == |rs|
    ensures forall i :: 0 <= i < |rs| ==> ts[i] == TemperatureModel(exp, rs[i], alpha, rc, t0)
  {
    if rs == [] then [] else [TemperatureModel(exp, rs[0], alpha, rc, t0)] + ModelTemperatures(exp, rs[1..], alpha, rc, t0)
  }

  /** `np.sum((T_data - T_fit)**2)` */
  function SquaredResiduals(ts: seq<real>, fs: seq<real>): (s: real)
    requires |ts| == |fs|
    ensures 0.0 <= s
    ensures (forall i :: 0 <= i < |ts| ==> ts[i] == fs[i]) ==> s == 0.0
  {
    if ts == [] then 0.0
    else
      SquareNonNegative(ts[0] - fs[0]);
      (ts[0] - fs[0]) * (ts[0] - fs[0]) + SquaredResiduals(ts[1..], fs[1..])
  }

  /** `chi2_red = np.sum(residuals**2) / (len(r_data) - 2)`, a numpy division. */
  function ChiSquaredReduced(ts: seq<real>, fs: seq<real>): Float
    requires |ts| == |fs|
  {
    Div(SquaredResiduals(ts, fs), (|ts| - 2) as real)
  }

  /**
   * With more than two points chi2_red is finite and non-negative; with
   * exactly two it is +inf, or NaN for a perfect fit; with fewer it is a
   * finite value of at most 0.
   */
  lemma ChiSquaredReducedSpec(ts: seq<real>, fs: seq<real>)
    requires |ts| == |fs|
    ensures var c, s := ChiSquaredReduced(ts, fs), SquaredResiduals(ts, fs);
      && (|ts| > 2 ==> c.Num? && 0.0 <= c.v)
      && (|ts| == 2 ==> (s == 0.0 ==> c.NaN?) && (s != 0.0 ==> c.PosInf?))
      && (|ts| < 2 ==> c.Num? && c.v <= 0.0)
  {
    var s, n := SquaredResiduals(ts, fs), (|ts| - 2) as real;
    if |ts| > 2 {
      DivMonotone(0.0, s, n);
    } else if |ts| < 2 {
      assert s / n == -(s / -n);
      DivMonotone(0.0, s, -n);
    }
  }

  /** What `main` computes and writes once the data are loaded. */
  datatype Report = Report(
    points: seq<Point>, fitted: GammaFit, alphaErr: Float, rcErr: Float,
    tFit: seq<real>, residuals: seq<real>, chi2: Float, alphaDev: real, rcDev: real)

  /**
   * `main` from the point filter on: keep the usable points (an empty set
   * raises at `r_data.min()`), fit, take the uncertainties, the model
   * temperatures, the residuals and chi2_red, and compare with the paper.
   */
  function Analyse(exp: real -> real, sqrt: real -> real, fit: FitRequest -> Option<FitResult>,
                   rs: seq<Float>, ts: seq<Float>, t0: real): (r: Result<Report>)
    requires IsExp(exp) && IsCurveFit(fit) && |rs| == |ts|
    ensures r.Err? <==> ValidPoints(rs, ts) == []
  {
    var ps := ValidPoints(rs, ts);
    if ps == [] then Err("zero-size array to reduction operation minimum which has no identity")
    else
      var f := FitGammaSeg(exp, fit, Radii(ps), Temperatures(ps), None);
      FitGammaSegSpec(exp, fit, Radii(ps), Temperatures(ps), None);
      var errs := Uncertainties(sqrt, f.pcov);
      var tFit := ModelTemperatures(exp, Radii(ps), f.alpha, f.rc, t0);
      var residuals := seq(|ps|, i requires 0 <= i < |ps| => ps[i].t - tFit[i]);
      Ok(Report(ps, f, errs.0, errs.1, tFit, residuals,
                ChiSquaredReduced(Temperatures(ps), tFit), AlphaDeviation(f.alpha), RcDeviation(f.rc)))
  }

  /**
   * The report covers exactly the usable points; its model temperatures lie
   * in [T0, 100 T0] for T0 >= 0; chi2_red is finite once there are three
   * points; a fit curve_fit returned stays inside the bounds; and a failed
   * fit reports the paper's own values with infinite errors, so both
   * verdicts and the overall line read EXCELLENT.
   */
  lemma AnalyseSpec(exp: real -> real, sqrt: real -> real, fit: FitRequest -> Option<FitResult>,
                    rs: seq<Float>, ts: seq<Float>, t0: real)
    requires IsExp(exp) && IsCurveFit(fit) && |rs| == |ts| && ValidPoints(rs, ts) != []
    ensures var rep, ps := Analyse(exp, sqrt, fit, rs, ts, t0).value, ValidPoints(rs, ts);
      var req := Request(Radii(ps), Temperatures(ps), None);
      && rep.points == ps
      && (forall p :: p in rep.points ==> 0.0 < p.t)
      && |rep.tFit| == |ps| && |rep.residuals| == |ps|
      && (forall i :: 0 <= i < |ps| ==> rep.residuals[i] == ps[i].t - rep.tFit[i])
      && (0.0 <= t0 ==> forall i :: 0 <= i < |ps| ==> t0 <= rep.tFit[i] <= 100.0 * t0)
      && (|ps| > 2 ==> rep.chi2.Num? && 0.0 <= rep.chi2.v)
      && (fit(req).Some? ==> 0.0 <= rep.fitted.alpha <= 1.0 && 0.1 <= rep.fitted.rc <= 10.0)
      && (fit(req).None? ==>
            && rep.fitted.alpha == PaperAlpha && rep.fitted.rc == PaperRc
            && rep.alphaErr == PosInf && rep.rcErr == PosInf
            && Verdict(rep.alphaDev) == Excellent && Verdict(rep.rcDev) == Excellent
            && OverallAgreement(rep.alphaDev, rep.rcDev) == Excellent)
  {
    var ps := ValidPoints(rs, ts);
    var rep := Analyse(exp, sqrt, fit, rs, ts, t0).value;
    var req := Request(Radii(ps), Temperatures(ps), None);
    FitGammaSegSpec(exp, fit, Radii(ps), Temperatures(ps), None);
    forall p | p in ps
      ensures 0.0 < p.t
    {
      ValidPointsMembership(rs, ts, p);
    }
    if 0.0 <= t0 {
      forall i | 0 <= i < |ps|
        ensures t0 <= rep.tFit[i] <= 100.0 * t0
      {
        TemperatureModelSpec(exp, ps[i].r, rep.fitted.alpha, rep.fitted.rc, t0);
      }
    }
    ChiSquaredReducedSpec(Temperatures(ps), rep.tFit);
    if fit(req).None? {
      assert rep.fitted.pcov[0][0] == PosInf && rep.fitted.pcov[1][1] == PosInf;
      DeviationSpec(PaperAlpha, PaperRc, 1.0);
      VerdictSpec(rep.alphaDev, 0.0);
      VerdictSpec(rep.rcDev, 0.0);
    }
  }
}
