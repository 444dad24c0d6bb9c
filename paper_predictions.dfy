/**
 * scripts/verify_paper_predictions_FIXED.py: the paper's temperature model
 * T(r) = T0 gamma_seg(r) (`Profile.Temperature`) fitted to the ring
 * temperatures twice, once for T0 alone with the paper's alpha = 0.12 and
 * r_c = 1.9 pc and once for all three parameters inside box bounds; the mean
 * absolute and root-mean-square errors of both fits; whether the fitted
 * alpha and r_c fall in the paper's ranges; and the verdict on the MAE.
 * Neither fit is guarded, so a curve_fit failure is an error of the script.
 */
module PaperPredictions {
  import opened Wrappers
  import opened RealMath
  import opened Floats
  import opened Stats
  import opened Ladder
  import opened Profile
  import opened Fitting

  const PaperAlpha: real := 0.12
  const PaperRc: real := 1.9

  /** Method 1: fit T0 alone from p0 = [25], no bounds. */
  function Method1Request(rs: seq<real>, ts: seq<real>): FitRequest
  {
    FitRequest(rs, ts, [25.0], None)
  }

  /** Method 2 bounds: T0 in [10, 100] K, alpha in [0.01, 0.5], r_c in [0.5, 5] pc. */
  const Method2Bounds: Box := Box([10.0, 0.01, 0.5], [100.0, 0.5, 5.0])

  /** Method 2: fit (T0, alpha, r_c) from p0 = [25, 0.12, 1.9] inside `Method2Bounds`. */
  function Method2Request(rs: seq<real>, ts: seq<real>): FitRequest
  {
    FitRequest(rs, ts, [25.0, PaperAlpha, PaperRc], Some(Method2Bounds))
  }

  /** The dictionary `fit_model_to_data` returns, without the data columns it passes through. */
  datatype Fits = Fits(t0Fixed: real, t0All: real, alphaAll: real, rcAll: real)

  /**
   * `fit_model_to_data`: `fit1` is curve_fit on the T0-only model, `fit2` on
   * the three-parameter model; a failure of either raises.
   */
  function FitModelToData(fit1: FitRequest -> Option<FitResult>, fit2: FitRequest -> Option<FitResult>,
                          rs: seq<real>, ts: seq<real>): Result<Fits>
    requires IsCurveFit(fit1) && IsCurveFit(fit2)
  {
    var r1 := fit1(Method1Request(rs, ts));
    var r2 := fit2(Method2Request(rs, ts));
    if r1.None? then Err("curve_fit failed for T0 alone")
    else if r2.None? then Err("curve_fit failed for all three parameters")
    else Ok(Fits(r1.value.popt[0], r2.value.popt[0], r2.value.popt[1], r2.value.popt[2]))
  }

  /**
   * The fits succeed exactly when both curve_fit calls return, which needs
   * data; then T0 of method 1 is what the first fit found and the three
   * parameters of method 2 lie in their bounds, so in particular r_c > 0.
   */
  lemma FitModelToDataSpec(fit1: FitRequest -> Option<FitResult>, fit2: FitRequest -> Option<FitResult>,
                           rs: seq<real>, ts: seq<real>)
    requires IsCurveFit(fit1) && IsCurveFit(fit2)
    ensures var f := FitModelToData(fit1, fit2, rs, ts);
      && (f.Ok? <==> fit1(Method1Request(rs, ts)).Some? && fit2(Method2Request(rs, ts)).Some?)
      && (f.Ok? ==>
            && ts != []
            && f.value.t0Fixed == fit1(Method1Request(rs, ts)).value.popt[0]
            && 10.0 <= f.value.t0All <= 100.0
            && 0.01 <= f.value.alphaAll <= 0.5
            && 0.5 <= f.value.rcAll <= 5.0)
  {
    var req := Method2Request(rs, ts);
    if fit2(req).Some? {
      var p := fit2(req).value.popt;
      assert WithinBox(p, req.bounds);
      assert Method2Bounds.lower[0] == 10.0 && Method2Bounds.upper[0] == 100.0;
      assert Method2Bounds.lower[1] == 0.01 && Method2Bounds.upper[1] == 0.5;
      assert Method2Bounds.lower[2] == 0.5 && Method2Bounds.upper[2] == 5.0;
    }
  }

  /** `T0 * gamma_seg_paper(r_obs, alpha, r_c)` over the observed radii. */
  function Predictions(exp: real -> real, rs: seq<real>, t0: real, alpha: real, rc: real): (ps: seq<real>)
    requires rc != 0.0
    ensures |ps| == |rs|
    ensures forall i :: 0 <= i < |rs| ==> ps[i] == Temperature(exp, rs[i], t0, alpha, rc)
  {
    seq(|rs|, i requires 0 <= i < |rs| => Temperature(exp, rs[i], t0, alpha, rc))
  }

  /** `T_obs - T_pred` */
  function Residuals(ts: seq<real>, ps: seq<real>): (res: seq<real>)
    requires |ts| == |ps|
    ensures |res| == |ts|
    ensures forall i :: 0 <= i < |ts| ==> res[i] == ts[i] - ps[i]
  {
    seq(|ts|, i requires 0 <= i < |ts| => ts[i] - ps[i])
  }

  function AbsValues(s: seq<real>): (a: seq<real>)
    ensures |a| == |s|
    ensures forall i :: 0 <= i < |s| ==> a[i] == Abs(s[i])
  {
    seq(|s|, i requires 0 <= i < |s| => Abs(s[i]))
  }

  function Squares(s: seq<real>): (q: seq<real>)
    ensures |q| == |s|
    ensures forall i :: 0 <= i < |s| ==> q[i] == s[i] * s[i]
  {
    seq(|s|, i requires 0 <= i < |s| => s[i] * s[i])
  }

  /** `np.mean(np.abs(residuals))`; the mean of nothing is NaN. */
  function Mae(res: seq<real>): Float
  {
    if res == [] then NaN else Num(Mean(AbsValues(res)))
  }

  /** `np.sqrt(np.mean(residuals**2))`; the mean of nothing is NaN. */
  function Rmse(sqrt: real -> real, res: seq<real>): Float
  {
    if res == [] then NaN else SqrtF(sqrt, Num(Mean(Squares(res))))
  }

  /** A sum of non-negative values is 0 exactly when every value is 0. */
  lemma {:induction false} SumOfNonNegativeZero(s: seq<real>)
    requires forall i :: 0 <= i < |s| ==> 0.0 <= s[i]
    ensures 0.0 <= Sum(s)
    ensures Sum(s) == 0.0 <==> forall i :: 0 <= i < |s| ==> s[i] == 0.0
  {
    if s != [] {
      assert forall i :: 0 <= i < |s[1..]| ==> s[1..][i] == s[i + 1];
      SumOfNonNegativeZero(s[1..]);
      if Sum(s) == 0.0 {
        forall i | 0 <= i < |s|
          ensures s[i] == 0.0
        {
          if i > 0 {
            assert s[i] == s[1..][i - 1];
          }
        }
      }
    }
  }

  /** The mean of non-negative values is non-negative, and 0 exactly when every value is 0. */
  lemma MeanOfNonNegative(s: seq<real>)
    requires |s| > 0 && forall i :: 0 <= i < |s| ==> 0.0 <= s[i]
    ensures 0.0 <= Mean(s)
    ensures Mean(s) == 0.0 <==> forall i :: 0 <= i < |s| ==> s[i] == 0.0
  {
    SumOfNonNegativeZero(s);
    var n := |s| as real;
    DivMonotone(0.0, Sum(s), n);
    if Mean(s) == 0.0 {
      assert Sum(s) == Mean(s) * n;
    }
  }

  /**
   * The MAE is NaN exactly without data; otherwise it is a non-negative
   * number, 0 exactly when the model reproduces every point, and at most the
   * largest absolute residual.
   */
  lemma MaeSpec(res: seq<real>)
    ensures Mae(res).NaN? <==> res == []
    ensures res != [] ==>
      && Mae(res).Num? && 0.0 <= Mae(res).v
      && (Mae(res).v == 0.0 <==> forall i :: 0 <= i < |res| ==> res[i] == 0.0)
      && Mae(res).v <= MaxOf(AbsValues(res))
  {
    if res != [] {
      var a := AbsValues(res);
      MeanOfNonNegative(a);
      if Mae(res).v == 0.0 {
        assert forall i :: 0 <= i < |res| ==> Abs(res[i]) == 0.0;
      }
      MinMaxBound(a);
      SumBounds(a, MinOf(a), MaxOf(a));
      DivBounds(Sum(a), |a| as real, MinOf(a), MaxOf(a));
    }
  }

  /**
   * The RMSE is NaN exactly without data; otherwise it is a non-negative
   * number whose square is the mean squared residual, and it is 0 exactly
   * when the model reproduces every point.
   */
  lemma RmseSpec(sqrt: real -> real, res: seq<real>)
    requires IsSqrt(sqrt)
    ensures Rmse(sqrt, res).NaN? <==> res == []
    ensures res != [] ==>
      && Rmse(sqrt, res).Num? && 0.0 <= Rmse(sqrt, res).v
      && Rmse(sqrt, res).v * Rmse(sqrt, res).v == Mean(Squares(res))
      && (Rmse(sqrt, res).v == 0.0 <==> forall i :: 0 <= i < |res| ==> res[i] == 0.0)
  {
    if res != [] {
      var q := Squares(res);
      forall i | 0 <= i < |q|
        ensures 0.0 <= q[i]
      {
        SquareNonNegative(res[i]);
      }
      MeanOfNonNegative(q);
      var m := Mean(q);
      if m == 0.0 {
        SqrtZero(sqrt);
      } else {
        SqrtPositive(sqrt, m);
      }
      if forall i :: 0 <= i < |res| ==> res[i] == 0.0 {
        assert forall i :: 0 <= i < |q| ==> q[i] == 0.0;
      } else {
        var i :| 0 <= i < |res| && res[i] != 0.0;
        SquareSign(res[i]);
        assert q[i] != 0.0;
      }
    }
  }

  /** "within paper range (0.12 +/- 0.03)" */
  predicate AlphaInRange(alpha: real)
  {
    0.09 <= alpha <= 0.15
  }

  /** "close to paper value (1.9 pc)" */
  predicate RcInRange(rc: real)
  {
    1.5 <= rc <= 2.3
  }

  /**
   * The ranges are the paper's values with a tolerance: alpha within 0.03
   * of 0.12 and r_c within 0.4 of 1.9 pc; the paper's values themselves pass.
   */
  lemma RangeSpec(alpha: real, rc: real)
    ensures AlphaInRange(alpha) <==> Abs(alpha - PaperAlpha) <= 0.03
    ensures RcInRange(rc) <==> Abs(rc - PaperRc) <= 0.4
    ensures AlphaInRange(PaperAlpha) && RcInRange(PaperRc)
  {
  }

  datatype Verdict = Excellent | Good | Fair

  /** MAE < 5 K is excellent, < 10 K good, anything else (NaN included) fair. */
  function MaeVerdict(mae: Float): Verdict
  {
    if !mae.Num? then Fair
    else
      var k := Rung(mae.v, [5.0, 10.0]);
      if k == 0 then Excellent else if k == 1 then Good else Fair
  }

  lemma MaeVerdictSpec(mae: Float)
    ensures MaeVerdict(mae) == Excellent <==> mae.Num? && mae.v < 5.0
    ensures MaeVerdict(mae) == Good <==> mae.Num? && 5.0 <= mae.v < 10.0
    ensures MaeVerdict(mae) == Fair <==> !mae.Num? || 10.0 <= mae.v
  {
    if mae.Num? {
      var t := [5.0, 10.0];
      RungSpec(mae.v, t);
      assert t[0] == 5.0 && t[1] == 10.0;
    }
  }

  /** What `verify_paper_claims` reports. */
  datatype Claims = Claims(
    fits: Fits, maeFixed: Float, rmseFixed: Float, maeAll: Float, rmseAll: Float,
    alphaOk: bool, rcOk: bool, verdict: Verdict)

  /** `verify_paper_claims` on the columns `r_pc` and `T_K` of the ring table. */
  function VerifyPaperClaims(exp: real -> real, sqrt: real -> real,
                             fit1: FitRequest -> Option<FitResult>, fit2: FitRequest -> Option<FitResult>,
                             rs: seq<real>, ts: seq<real>): Result<Claims>
    requires IsCurveFit(fit1) && IsCurveFit(fit2) && |rs| == |ts|
  {
    var r := FitModelToData(fit1, fit2, rs, ts);
    if r.Err? then Err(r.error)
    else
      var f := r.value;
      FitModelToDataSpec(fit1, fit2, rs, ts);
      var resFixed := Residuals(ts, Predictions(exp, rs, f.t0Fixed, PaperAlpha, PaperRc));
      var resAll := Residuals(ts, Predictions(exp, rs, f.t0All, f.alphaAll, f.rcAll));
      var maeAll := Mae(resAll);
      Ok(Claims(f, Mae(resFixed), Rmse(sqrt, resFixed), maeAll, Rmse(sqrt, resAll),
                AlphaInRange(f.alphaAll), RcInRange(f.rcAll), MaeVerdict(maeAll)))
  }

  /**
   * The report exists exactly when both fits succeed, which needs data, so
   * its errors are non-negative numbers; the fitted alpha
   * and r_c are judged against the paper's ranges; and the verdict is
   * excellent exactly when the full fit's MAE is below 5 K.  When the
   * three-parameter fit reproduces every point the MAE is 0.
   */
  lemma VerifyPaperClaimsSpec(exp: real -> real, sqrt: real -> real,
                              fit1: FitRequest -> Option<FitResult>, fit2: FitRequest -> Option<FitResult>,
                              rs: seq<real>, ts: seq<real>)
    requires IsSqrt(sqrt) && IsCurveFit(fit1) && IsCurveFit(fit2) && |rs| == |ts|
    ensures var c := VerifyPaperClaims(exp, sqrt, fit1, fit2, rs, ts);
      && (c.Ok? <==> FitModelToData(fit1, fit2, rs, ts).Ok?)
      && (c.Ok? ==>
            var f := c.value.fits;
            && f == FitModelToData(fit1, fit2, rs, ts).value
            && rs != []
            && c.value.maeFixed.Num? && 0.0 <= c.value.maeFixed.v
            && c.value.rmseFixed.Num? && 0.0 <= c.value.rmseFixed.v
            && c.value.maeAll.Num? && 0.0 <= c.value.maeAll.v
            && c.value.rmseAll.Num? && 0.0 <= c.value.rmseAll.v
            && (c.value.alphaOk <==> Abs(f.alphaAll - PaperAlpha) <= 0.03)
            && (c.value.rcOk <==> Abs(f.rcAll - PaperRc) <= 0.4)
            && (c.value.verdict == Excellent <==> c.value.maeAll.Num? && c.value.maeAll.v < 5.0)
            && ((forall i :: 0 <= i < |rs| ==> ts[i] == Temperature(exp, rs[i], f.t0All, f.alphaAll, f.rcAll)) ==>
                  c.value.maeAll == Num(0.0)))
  {
    var c := VerifyPaperClaims(exp, sqrt, fit1, fit2, rs, ts);
    if c.Ok? {
      FitModelToDataSpec(fit1, fit2, rs, ts);
      var f := c.value.fits;
      var resFixed := Residuals(ts, Predictions(exp, rs, f.t0Fixed, PaperAlpha, PaperRc));
      var resAll := Residuals(ts, Predictions(exp, rs, f.t0All, f.alphaAll, f.rcAll));
      MaeSpec(resFixed);
      MaeSpec(resAll);
      RmseSpec(sqrt, resFixed);
      RmseSpec(sqrt, resAll);
      RangeSpec(f.alphaAll, f.rcAll);
      MaeVerdictSpec(c.value.maeAll);
    }
  }
}
