/**
 * scripts/two_metric_model.py: the separation of the data into the bound,
 * segmented g2 domain and the free, classical g1 domain.  `is_bound` decides
 * with one of three criteria; `classify_regime` labels every row of the
 * table; the temperature and velocity laws of the two domains.
 */
module TwoMetric {
  import opened RealMath
  import opened Floats
  import opened Profile
  import opened Gas

  /** `is_bound(v_km_s, T_K, criterion)` */
  function IsBound(sqrt: real -> real, v: real, t: real, criterion: string): bool
  {
    if criterion == "mach" then Less(MachNumber(sqrt, v, t), 0.3)
    else if criterion == "velocity" then v < 3.0
    else if criterion == "pressure" then
      var cs := SoundSpeedSi(sqrt, t);
      cs.Num? && v * 1000.0 < cs.v
    else false
  }

  /**
   * The velocity criterion is v < 3 km/s; an unknown criterion is never
   * bound.  Above 0 K the Mach criterion is 1000 v < 0.3 c_s and the
   * pressure criterion 1000 v < c_s (c_s in m/s), so Mach-bound gas is
   * pressure-bound; at 0 K both hold exactly for v < 0; below 0 K neither.
   */
  lemma IsBoundSpec(sqrt: real -> real, v: real, t: real, criterion: string)
    requires IsSqrt(sqrt)
    ensures IsBound(sqrt, v, t, "velocity") <==> v < 3.0
    ensures criterion !in {"mach", "velocity", "pressure"} ==> !IsBound(sqrt, v, t, criterion)
    ensures 0.0 < t ==>
      var cs := SoundSpeedSi(sqrt, t);
      && cs.Num? && 0.0 < cs.v
      && (IsBound(sqrt, v, t, "mach") <==> v * 1000.0 < 0.3 * cs.v)
      && (IsBound(sqrt, v, t, "pressure") <==> v * 1000.0 < cs.v)
      && (IsBound(sqrt, v, t, "mach") ==> IsBound(sqrt, v, t, "pressure"))
    ensures t == 0.0 ==> (IsBound(sqrt, v, t, "mach") <==> v < 0.0) && (IsBound(sqrt, v, t, "pressure") <==> v < 0.0)
    ensures t < 0.0 ==> !IsBound(sqrt, v, t, "mach") && !IsBound(sqrt, v, t, "pressure")
  {
    SoundSpeedSpec(sqrt, t);
    MachNumberSpec(sqrt, v, t);
    if t == 0.0 {
      SqrtZero(sqrt);
      assert SoundSpeedSquared(t) == 0.0;
    }
    if 0.0 < t {
      var si := SoundSpeedSi(sqrt, t).v;
      var cs := SoundSpeed(sqrt, t).v;
      assert si == cs * 1000.0;
      assert 0.3 * si == (0.3 * cs) * 1000.0;
    }
  }

  /**
   * `temperature_g2(r_pc, T0, alpha, r_c)` is `Profile.Temperature`, T0
   * gamma_seg(r); its bounds are `Profile.TemperatureBounds`.  Further from
   * the centre the segmented gas is never cooler.
   */
  lemma TemperatureG2Monotone(exp: real -> real, r1: real, r2: real, t0: real, alpha: real, rc: real)
    requires IsExp(exp) && rc != 0.0 && 0.0 <= alpha && 0.0 <= t0
    requires Abs(r1) <= Abs(r2)
    ensures Temperature(exp, r1, t0, alpha, rc) <= Temperature(exp, r2, t0, alpha, rc)
  {
    GammaMonotone(exp, r1, r2, alpha, rc);
    MulMonotone(t0, GammaSeg(exp, r1, alpha, rc), GammaSeg(exp, r2, alpha, rc));
  }

  /** `temperature_g1_classical(r_pc, T_inner, r_shock)`: adiabatic cooling T_inner (r_shock / r)^2. */
  function TemperatureG1Classical(r: real, tInner: real, rShock: real): real
    requires r != 0.0
  {
    tInner * ((rShock / r) * (rShock / r))
  }

  /**
   * The classical temperature is T_inner at the shock radius, T r^2 is the
   * constant T_inner r_shock^2, and for T_inner >= 0 it falls with radius.
   */
  lemma TemperatureG1ClassicalSpec(r: real, r2: real, tInner: real, rShock: real)
    requires r != 0.0
    ensures rShock != 0.0 ==> TemperatureG1Classical(rShock, tInner, rShock) == tInner
    ensures TemperatureG1Classical(r, tInner, rShock) * (r * r) == tInner * (rShock * rShock)
    ensures 0.0 <= tInner && 0.0 < r <= r2 ==>
      TemperatureG1Classical(r2, tInner, rShock) <= TemperatureG1Classical(r, tInner, rShock)
  {
    if rShock != 0.0 {
      assert rShock / rShock == 1.0;
    }
    InverseSquare(r, tInner, rShock);
    if 0.0 <= tInner && 0.0 < r <= r2 {
      SquaresOfRatios(rShock, r, r2);
      MulMonotone(tInner, (rShock / r2) * (rShock / r2), (rShock / r) * (rShock / r));
    }
  }

  /** T r^2 = T_inner r_shock^2. */
  lemma InverseSquare(r: real, tInner: real, rShock: real)
    requires r != 0.0
    ensures TemperatureG1Classical(r, tInner, rShock) * (r * r) == tInner * (rShock * rShock)
  {
    var q := rShock / r;
    assert q * r == rShock;
    calc {
      tInner * (q * q) * (r * r);
      tInner * ((q * r) * (q * r));
      tInner * (rShock * rShock);
    }
  }

  /** (s / r2)^2 <= (s / r)^2 for 0 < r <= r2. */
  lemma SquaresOfRatios(s: real, r: real, r2: real)
    requires 0.0 < r <= r2
    ensures (s / r2) * (s / r2) <= (s / r) * (s / r)
  {
    var a, b := Abs(s / r2), Abs(s / r);
    assert a * a == (s / r2) * (s / r2) && b * b == (s / r) * (s / r);
    assert a == Abs(s) / r2 && b == Abs(s) / r;
    if r < r2 {
      ReciprocalDecreasing(r, r2);
      MulMonotone(Abs(s), 1.0 / r2, 1.0 / r);
      MulDivAssoc(Abs(s), 1.0, r2);
      MulDivAssoc(Abs(s), 1.0, r);
      MulMonotone(a, a, b);
      MulMonotone(b, a, b);
    }
  }

  /** `velocity_g1_momentum(v_launch, r_pc, r_launch)`: ballistic, no drag. */
  function VelocityG1Momentum(vLaunch: real, r: real, rLaunch: real): real
  {
    vLaunch
  }

  /** Ballistic motion keeps the launch speed at every radius, whatever the launch radius. */
  lemma VelocityG1MomentumSpec(vLaunch: real, r1: real, r2: real, l1: real, l2: real)
    ensures VelocityG1Momentum(vLaunch, r1, l1) == VelocityG1Momentum(vLaunch, r2, l2) == vLaunch
  {
  }

  datatype Regime = G1 | G2

  /** A row of the temperature table: radius (pc), temperature (K) and, when the column exists, velocity (km/s). */
  datatype Row = Row(r: real, t: real, v: real)

  /**
   * The test `classify_regime` applies to a row: the Mach criterion when the
   * table has a velocity column, r < 1 pc and T < 100 K otherwise.
   */
  predicate RowBound(sqrt: real -> real, row: Row, hasVelocity: bool)
  {
    if hasVelocity then IsBound(sqrt, row.v, row.t, "mach") else row.r < 1.0 && row.t < 100.0
  }

  /** `classify_regime(df)`: one label per row, 'g2' when the row is bound. */
  method ClassifyRegime(sqrt: real -> real, rows: seq<Row>, hasVelocity: bool) returns (regimes: seq<Regime>)
    ensures |regimes| == |rows|
    ensures forall i :: 0 <= i < |rows| ==> (regimes[i] == G2 <==> RowBound(sqrt, rows[i], hasVelocity))
  {
    regimes := [];
    for i := 0 to |rows|
      invariant |regimes| == i
      invariant forall k :: 0 <= k < i ==> (regimes[k] == G2 <==> RowBound(sqrt, rows[k], hasVelocity))
    {
      var row := rows[i];
      var bound: bool;
      if hasVelocity {
        bound := IsBound(sqrt, row.v, row.t, "mach");
      } else {
        if row.r < 1.0 && row.t < 100.0 {
          bound := true;
        } else {
          bound := false;
        }
      }
      regimes := regimes + [if bound then G2 else G1];
    }
  }

  /** `(df['regime'] == label).sum()` */
  function Count(regimes: seq<Regime>, r: Regime): nat
  {
    if regimes == [] then 0 else (if regimes[0] == r then 1 else 0) + Count(regimes[1..], r)
  }

  /** Every row is counted in exactly one domain: n_g1 + n_g2 = len(df). */
  lemma {:induction false} RegimeCounts(regimes: seq<Regime>)
    ensures Count(regimes, G1) + Count(regimes, G2) == |regimes|
  {
    if regimes != [] {
      RegimeCounts(regimes[1..]);
    }
  }

  /** The number of bound rows. */
  function BoundRows(sqrt: real -> real, rows: seq<Row>, hasVelocity: bool): nat
  {
    if rows == [] then 0 else (if RowBound(sqrt, rows[0], hasVelocity) then 1 else 0) + BoundRows(sqrt, rows[1..], hasVelocity)
  }

  /** The g2 count of a classification is the number of bound rows, and the g1 count the rest. */
  lemma {:induction false} RegimeCountsOfRows(sqrt: real -> real, rows: seq<Row>, hasVelocity: bool, regimes: seq<Regime>)
    requires |regimes| == |rows|
    requires forall i :: 0 <= i < |rows| ==> (regimes[i] == G2 <==> RowBound(sqrt, rows[i], hasVelocity))
    ensures Count(regimes, G2) == BoundRows(sqrt, rows, hasVelocity)
    ensures Count(regimes, G1) == |rows| - BoundRows(sqrt, rows, hasVelocity)
  {
    RegimeCounts(regimes);
    if rows != [] {
      RegimeCountsOfRows(sqrt, rows[1..], hasVelocity, regimes[1..]);
    }
  }
}
