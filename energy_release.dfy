/**
 * scripts/energy_release_model.py: the velocity a shell reaches when the
 * energy stored in the segmented zone is released at the g2 -> g1 boundary,
 * v_obs = sqrt(v_launch^2 + alpha_E * 50^2 * (1 - gamma)), the excess over
 * the launch speed, and the scan over gamma that looks for a 5 km/s excess.
 */
module EnergyRelease {
  import opened RealMath
  import opened Floats

  /** The characteristic velocity scale v_char, in km/s. */
  const VChar: real := 50.0

  /** The radicand v_launch^2 + alpha_E * v_char^2 * (1 - gamma). */
  function Radicand(vLaunch: real, g: real, alphaE: real): real
  {
    vLaunch * vLaunch + alphaE * (VChar * VChar) * (1.0 - g)
  }

  /** `energy_release_velocity(v_launch, gamma, alpha_energy)`: `np.sqrt` of the radicand, NaN when it is negative. */
  function ReleaseVelocity(sqrt: real -> real, vLaunch: real, g: real, alphaE: real): Float
  {
    SqrtF(sqrt, Num(Radicand(vLaunch, g, alphaE)))
  }

  /**
   * For alpha_E >= 0 and gamma <= 1 the velocity is finite and at least
   * |v_launch|; at gamma = 1 it is exactly |v_launch|; a negative radicand
   * (gamma far above 1) gives NaN.
   */
  lemma ReleaseVelocitySpec(sqrt: real -> real, vLaunch: real, g: real, alphaE: real)
    requires IsSqrt(sqrt)
    ensures 0.0 <= alphaE && g <= 1.0 ==>
      ReleaseVelocity(sqrt, vLaunch, g, alphaE).Num? && Abs(vLaunch) <= ReleaseVelocity(sqrt, vLaunch, g, alphaE).v
    ensures g == 1.0 ==> ReleaseVelocity(sqrt, vLaunch, g, alphaE) == Num(Abs(vLaunch))
    ensures Radicand(vLaunch, g, alphaE) < 0.0 ==> ReleaseVelocity(sqrt, vLaunch, g, alphaE) == NaN
  {
    if 0.0 <= alphaE && g <= 1.0 {
      MulNonNegative(alphaE * (VChar * VChar), 1.0 - g);
      SqrtOfSumOfSquares(sqrt, vLaunch, alphaE * (VChar * VChar) * (1.0 - g));
    }
    if g == 1.0 {
      SqrtOfSquare(sqrt, vLaunch);
    }
  }

  /** For fixed v_launch and alpha_E >= 0, a smaller gamma (stronger segmentation) never gives a smaller velocity. */
  lemma ReleaseVelocityMonotone(sqrt: real -> real, vLaunch: real, g1: real, g2: real, alphaE: real)
    requires IsSqrt(sqrt)
    requires 0.0 <= alphaE && g1 <= g2 <= 1.0
    ensures ReleaseVelocity(sqrt, vLaunch, g1, alphaE).Num? && ReleaseVelocity(sqrt, vLaunch, g2, alphaE).Num?
    ensures ReleaseVelocity(sqrt, vLaunch, g2, alphaE).v <= ReleaseVelocity(sqrt, vLaunch, g1, alphaE).v
  {
    var k := alphaE * (VChar * VChar);
    MulNonNegative(k, 1.0 - g2);
    MulMonotone(k, 1.0 - g2, 1.0 - g1);
    SquareNonNegative(vLaunch);
    SqrtMonotone(sqrt, Radicand(vLaunch, g2, alphaE), Radicand(vLaunch, g1, alphaE));
  }

  /** `f - c` on a Float: the infinities and NaN are unchanged. */
  function Minus(f: Float, c: real): (d: Float)
    ensures d.Num? <==> f.Num?
    ensures f.Num? ==> d.v == f.v - c
  {
    if f.Num? then Num(f.v - c) else f
  }

  /** `velocity_excess(v_launch, gamma)`: v_obs - v_launch, with alpha_E = 1. */
  function Excess(sqrt: real -> real, vLaunch: real, g: real): Float
  {
    Minus(ReleaseVelocity(sqrt, vLaunch, g, 1.0), vLaunch)
  }

  /** For v_launch >= 0 and gamma <= 1 the excess is finite and non-negative, and 0 at gamma = 1. */
  lemma ExcessSpec(sqrt: real -> real, vLaunch: real, g: real)
    requires IsSqrt(sqrt)
    requires 0.0 <= vLaunch && g <= 1.0
    ensures Excess(sqrt, vLaunch, g).Num? && 0.0 <= Excess(sqrt, vLaunch, g).v
    ensures g == 1.0 ==> Excess(sqrt, vLaunch, g) == Num(0.0)
  {
    ReleaseVelocitySpec(sqrt, vLaunch, g, 1.0);
  }

  /** One line of the scan: gamma, Delta v and v_obs. */
  datatype ScanRow = ScanRow(gamma: real, deltaV: Float, vObs: Float)

  function ScanRowOf(sqrt: real -> real, vLaunch: real, g: real): ScanRow
  {
    var vObs := ReleaseVelocity(sqrt, vLaunch, g, 1.0);
    ScanRow(g, Minus(vObs, vLaunch), vObs)
  }

  /** The gamma values the scan walks through, at v_launch = 10 km/s. */
  const ScanGammas: seq<real> := [0.95, 0.90, 0.88, 0.85, 0.80, 0.75, 0.70]
  const ScanLaunch: real := 10.0
  const TargetDelta: real := 5.0

  /** A row matches the observed excess when |Delta v - 5| < 0.5 (a NaN Delta v never does). */
  predicate IsMatch(row: ScanRow)
  {
    row.deltaV.Num? && Abs(row.deltaV.v - TargetDelta) < 0.5
  }

  /** The matching rows, in scan order. */
  function Matching(rows: seq<ScanRow>): seq<ScanRow>
  {
    if rows == [] then []
    else (if IsMatch(rows[0]) then [rows[0]] else []) + Matching(rows[1..])
  }

  /** A row is reported as a match exactly when it is a scanned row that meets the criterion. */
  lemma {:induction false} MatchingMembership(rows: seq<ScanRow>, row: ScanRow)
    ensures row in Matching(rows) <==> row in rows && IsMatch(row)
  {
    if rows != [] {
      MatchingMembership(rows[1..], row);
      assert rows == [rows[0]] + rows[1..];
    }
  }

  /**
   * `scan_gamma_seg_range`: one row per gamma in order, then the rows whose
   * excess is within 0.5 km/s of 5 km/s.
   */
  method ScanGammaSegRange(sqrt: real -> real, vLaunch: real, gammas: seq<real>)
    returns (results: seq<ScanRow>, matches: seq<ScanRow>)
    ensures |results| == |gammas|
    ensures forall i :: 0 <= i < |gammas| ==> results[i] == ScanRowOf(sqrt, vLaunch, gammas[i])
    ensures matches == Matching(results)
  {
    results := [];
    for k := 0 to |gammas|
      invariant |results| == k
      invariant forall i :: 0 <= i < k ==> results[i] == ScanRowOf(sqrt, vLaunch, gammas[i])
    {
      var vObs := ReleaseVelocity(sqrt, vLaunch, gammas[k], 1.0);
      results := results + [ScanRow(gammas[k], Minus(vObs, vLaunch), vObs)];
    }
    matches := [];
    var k := |results|;
    while k > 0
      invariant 0 <= k <= |results|
      invariant matches == Matching(results[k..])
    {
      k := k - 1;
      assert results[k..][1..] == results[k + 1..];
      if IsMatch(results[k]) {
        matches := [results[k]] + matches;
      }
    }
  }

  /**
   * Over gamma values at most 1 and a non-negative launch speed every row's
   * excess is finite and non-negative and v_obs = v_launch + Delta v; a row
   * is a match exactly when its excess is within 0.5 of 5 km/s.
   */
  lemma ScanSpec(sqrt: real -> real, vLaunch: real, gammas: seq<real>, results: seq<ScanRow>)
    requires IsSqrt(sqrt) && 0.0 <= vLaunch
    requires forall i :: 0 <= i < |gammas| ==> gammas[i] <= 1.0
    requires |results| == |gammas|
    requires forall i :: 0 <= i < |gammas| ==> results[i] == ScanRowOf(sqrt, vLaunch, gammas[i])
    ensures forall i :: 0 <= i < |results| ==>
      && results[i].deltaV.Num? && 0.0 <= results[i].deltaV.v
      && results[i].vObs == Num(vLaunch + results[i].deltaV.v)
    ensures forall row :: row in Matching(results) <==>
      row in results && Abs(row.deltaV.v - TargetDelta) < 0.5
  {
    forall i | 0 <= i < |results|
      ensures results[i].deltaV.Num? && 0.0 <= results[i].deltaV.v
    {
      ExcessSpec(sqrt, vLaunch, gammas[i]);
    }
    forall row
      ensures row in Matching(results) <==> row in results && Abs(row.deltaV.v - TargetDelta) < 0.5
    {
      MatchingMembership(results, row);
    }
  }
}
