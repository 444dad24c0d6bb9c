/**
 * `scipy.optimize.curve_fit` as the scripts use it.  Its optimiser is not
 * modelled: a script receives it as a function from the request (data,
 * initial guess p0, box bounds) to the fitted parameters popt with their
 * covariance pcov, or None when it raises.  What curve_fit itself
 * guarantees is stated as `IsCurveFit`.
 */
module Fitting {
  import opened Wrappers
  import opened Floats

  /** Box bounds: one lower and one upper value per parameter. */
  datatype Box = Box(lower: seq<real>, upper: seq<real>)

  /** The data `xdata`, `ydata`, the initial guess `p0` and the optional `bounds`. */
  datatype FitRequest = FitRequest(xs: seq<real>, ys: seq<real>, p0: seq<real>, bounds: Option<Box>)

  /** `popt, pcov` */
  datatype FitResult = FitResult(popt: seq<real>, pcov: seq<seq<Float>>)

  /** A square n x n matrix. */
  predicate Square(m: seq<seq<Float>>, n: nat)
  {
    |m| == n && forall i :: 0 <= i < n ==> |m[i]| == n
  }

  /** Every value inside its bounds, when bounds are given. */
  predicate WithinBox(p: seq<real>, bounds: Option<Box>)
  {
    bounds.Some? ==>
      |bounds.value.lower| == |p| == |bounds.value.upper|
      && forall i :: 0 <= i < |p| ==> bounds.value.lower[i] <= p[i] <= bounds.value.upper[i]
  }

  /**
   * What curve_fit promises when it returns: it had data (an empty `ydata`
   * raises), and without bounds (method 'lm') at least as many points as
   * parameters; it gives one value per parameter of p0, each inside the
   * bounds, and a square covariance of that size.
   */
  ghost predicate IsCurveFit(fit: FitRequest -> Option<FitResult>)
  {
    forall req :: fit(req).Some? ==>
      && req.ys != []
      && (req.bounds.None? ==> |req.p0| <= |req.ys|)
      && |fit(req).value.popt| == |req.p0|
      && WithinBox(fit(req).value.popt, req.bounds)
      && Square(fit(req).value.pcov, |req.p0|)
  }

  /** `np.eye(n) * np.inf`: +inf on the diagonal and NaN (0 * inf) everywhere else. */
  function InfCovariance(n: nat): (m: seq<seq<Float>>)
    ensures Square(m, n)
    ensures forall i, j :: 0 <= i < n && 0 <= j < n ==> (i == j ==> m[i][j] == PosInf) && (i != j ==> m[i][j] == NaN)
  {
    var m := seq(n, i requires 0 <= i < n => InfRow(n, i));
    assert forall i, j :: 0 <= i < n && 0 <= j < n ==> m[i][j] == TimesInf(if i == j then 1.0 else 0.0);
    m
  }

  /** Row i of `np.eye(n) * np.inf`: 1 * inf on the diagonal, 0 * inf off it. */
  function InfRow(n: nat, i: nat): (row: seq<Float>)
    ensures |row| == n
    ensures forall j :: 0 <= j < n ==> row[j] == TimesInf(if i == j then 1.0 else 0.0)
  {
    seq(n, j requires 0 <= j < n => TimesInf(if i == j then 1.0 else 0.0))
  }

  /**
   * The `try: popt, pcov = curve_fit(...) except: popt = p0; pcov = eye * inf`
   * of the scripts.
   */
  function FitOrGuess(fit: FitRequest -> Option<FitResult>, req: FitRequest): FitResult
  {
    match fit(req)
    case Some(res) => res
    case None => FitResult(req.p0, InfCovariance(|req.p0|))
  }

  /**
   * The parameters always have the shape of p0 with a square covariance;
   * they lie inside the bounds whenever p0 does (curve_fit keeps them there,
   * the fallback returns p0 itself); and a failed fit, as any fit without
   * data or, unbounded, with fewer points than parameters, gives exactly p0
   * with an infinite diagonal.
   */
  lemma FitOrGuessSpec(fit: FitRequest -> Option<FitResult>, req: FitRequest)
    requires IsCurveFit(fit)
    ensures var r := FitOrGuess(fit, req);
      && |r.popt| == |req.p0|
      && Square(r.pcov, |req.p0|)
      && (WithinBox(req.p0, req.bounds) ==> WithinBox(r.popt, req.bounds))
      && (fit(req).None? ==> r.popt == req.p0 && forall i :: 0 <= i < |req.p0| ==> r.pcov[i][i] == PosInf)
      && (req.ys == [] || (req.bounds.None? && |req.ys| < |req.p0|) ==> fit(req).None?)
  {
  }

  /** `np.sqrt(np.diag(pcov))`: the standard errors of the parameters. */
  function StdErrors(sqrt: real -> real, pcov: seq<seq<Float>>): (errs: seq<Float>)
    requires Square(pcov, |pcov|)
    ensures |errs| == |pcov|
    ensures forall i :: 0 <= i < |pcov| ==> errs[i] == SqrtF(sqrt, pcov[i][i])
  {
    seq(|pcov|, i requires 0 <= i < |pcov| => SqrtF(sqrt, pcov[i][i]))
  }

  /**
   * A failed fit reports every standard error as +inf; a returned fit
   * reports sqrt of each finite non-negative variance, and NaN for a
   * negative or NaN one.
   */
  lemma StdErrorsSpec(sqrt: real -> real, fit: FitRequest -> Option<FitResult>, req: FitRequest)
    requires IsCurveFit(fit)
    ensures var r := FitOrGuess(fit, req);
      Square(r.pcov, |r.pcov|)
      && var errs := StdErrors(sqrt, r.pcov);
      && |errs| == |req.p0|
      && (fit(req).None? ==> forall i :: 0 <= i < |errs| ==> errs[i] == PosInf)
      && (forall i :: 0 <= i < |errs| && r.pcov[i][i].Num? && 0.0 <= r.pcov[i][i].v ==>
            errs[i] == Num(sqrt(r.pcov[i][i].v)))
      && (forall i :: 0 <= i < |errs| && (r.pcov[i][i].NaN? || (r.pcov[i][i].Num? && r.pcov[i][i].v < 0.0)) ==>
            errs[i] == NaN)
  {
    FitOrGuessSpec(fit, req);
  }
}
