/**
 * scripts/calculate_core_mass.py: the core mass as 2.02 (solar masses per pc)
 * times the trapezoid integral of gamma_seg over the radius in pc, the
 * cumulative mass array, the +-delta-gamma uncertainty, the loading of the
 * profile (missing columns, finite filter, sort by radius) and, from `main`,
 * the integration limits, the paper comparison and the zone breakdown.
 */
module CoreMass {
  import opened Wrappers
  import opened RealMath
  import opened Floats
  import opened Trapezoid
  import opened Sorting
  import opened Stats
  import opened Tables
  import opened Ladder

  /** `CALIBRATION_CONSTANT`, solar masses per pc. */
  const Calibration: real := 2.02
  /** `PAPER_M_CORE` and `PAPER_M_CORE_ERR`. */
  const PaperMass: real := 8.7
  const PaperMassErr: real := 1.5

  /** One profile point: radius (pc) and gamma_seg. */
  datatype Sample = Sample(r: real, gamma: real)

  function Radius(p: Sample): real
  {
    p.r
  }

  function Radii(ps: seq<Sample>): (rs: seq<real>)
    ensures |rs| == |ps|
    ensures forall k :: 0 <= k < |ps| ==> rs[k] == ps[k].r
  {
    seq(|ps|, k requires 0 <= k < |ps| => ps[k].r)
  }

  function Gammas(ps: seq<Sample>): (gs: seq<real>)
    ensures |gs| == |ps|
    ensures forall k :: 0 <= k < |ps| ==> gs[k] == ps[k].gamma
  {
    seq(|ps|, k requires 0 <= k < |ps| => ps[k].gamma)
  }

  /** The rows whose radius and gamma are both finite, as pairs, in their order. */
  function FinitePairs(rs: seq<Float>, gs: seq<Float>): (ps: seq<Sample>)
    requires |rs| == |gs|
    ensures |ps| <= |rs|
  {
    if rs == [] then []
    else (if rs[0].Num? && gs[0].Num? then [Sample(rs[0].v, gs[0].v)] else []) + FinitePairs(rs[1..], gs[1..])
  }

  /** A pair survives the filter exactly when some row holds it with both values finite. */
  lemma {:induction false} FinitePairsMembership(rs: seq<Float>, gs: seq<Float>, p: Sample)
    requires |rs| == |gs|
    ensures p in FinitePairs(rs, gs) <==> exists k :: 0 <= k < |rs| && rs[k] == Num(p.r) && gs[k] == Num(p.gamma)
  {
    if rs != [] {
      FinitePairsMembership(rs[1..], gs[1..], p);
      if exists k :: 0 <= k < |rs[1..]| && rs[1..][k] == Num(p.r) && gs[1..][k] == Num(p.gamma) {
        var k :| 0 <= k < |rs[1..]| && rs[1..][k] == Num(p.r) && gs[1..][k] == Num(p.gamma);
        assert rs[k + 1] == Num(p.r) && gs[k + 1] == Num(p.gamma);
      }
      if exists k :: 0 <= k < |rs| && rs[k] == Num(p.r) && gs[k] == Num(p.gamma) {
        var k :| 0 <= k < |rs| && rs[k] == Num(p.r) && gs[k] == Num(p.gamma);
        if k > 0 {
          assert rs[1..][k - 1] == rs[k] && gs[1..][k - 1] == gs[k];
        }
      }
    }
  }

  /**
   * `load_gamma_seg_profile(csv, r_column, gamma_column)` on the parsed CSV:
   * a missing radius or gamma column raises; otherwise the finite pairs
   * sorted by radius.
   */
  function LoadProfile(table: Table<Float>, rColumn: string, gammaColumn: string): (r: Result<seq<Sample>>)
    requires Rectangular(table)
    ensures r.Err? <==> rColumn !in table || gammaColumn !in table
  {
    if rColumn !in table then Err("radius column not found")
    else if gammaColumn !in table then Err("gamma column not found")
    else Ok(SortBy(FinitePairs(table[rColumn], table[gammaColumn]), Radius))
  }

  /**
   * A loaded profile holds exactly the rows whose radius and gamma are both
   * finite (each pair kept together, as many times as it occurs) and its
   * radii are ascending.
   */
  lemma LoadProfileSpec(table: Table<Float>, rColumn: string, gammaColumn: string)
    requires Rectangular(table) && rColumn in table && gammaColumn in table
    ensures var ps, rs, gs := LoadProfile(table, rColumn, gammaColumn).value, table[rColumn], table[gammaColumn];
      && multiset(ps) == multiset(FinitePairs(rs, gs))
      && (forall p :: p in ps <==> exists k :: 0 <= k < |rs| && rs[k] == Num(p.r) && gs[k] == Num(p.gamma))
      && Ascending(Radii(ps))
  {
    var ps, rs, gs := LoadProfile(table, rColumn, gammaColumn).value, table[rColumn], table[gammaColumn];
    forall p
      ensures p in ps <==> exists k :: 0 <= k < |rs| && rs[k] == Num(p.r) && gs[k] == Num(p.gamma)
    {
      FinitePairsMembership(rs, gs, p);
      assert p in ps <==> p in multiset(ps);
      assert p in FinitePairs(rs, gs) <==> p in multiset(FinitePairs(rs, gs));
    }
    forall i, j | 0 <= i <= j < |ps|
      ensures Radii(ps)[i] <= Radii(ps)[j]
    {
      if i < j {
        assert Radius(ps[i]) <= Radius(ps[j]);
      }
    }
  }

  /** `calculate_core_mass_integral(r_pc, gamma_seg)`: no conversion of the radii to metres. */
  function CoreMassIntegral(rs: seq<real>, gs: seq<real>): real
    requires |rs| == |gs|
  {
    Calibration * Trapz(gs, rs)
  }

  /** A non-negative profile on ascending radii has a non-negative mass. */
  lemma CoreMassNonNegative(rs: seq<real>, gs: seq<real>)
    requires |rs| == |gs| && Ascending(rs)
    requires forall i :: 0 <= i < |gs| ==> 0.0 <= gs[i]
    ensures 0.0 <= CoreMassIntegral(rs, gs)
  {
    TrapzNonNegative(gs, rs);
  }

  /** Raising gamma by c everywhere adds 2.02 * c * (r_last - r_first). */
  lemma CoreMassShift(rs: seq<real>, gs: seq<real>, c: real)
    requires |rs| == |gs| && 1 <= |rs|
    ensures CoreMassIntegral(rs, Shift(gs, c)) == CoreMassIntegral(rs, gs) + Calibration * (c * (rs[|rs| - 1] - rs[0]))
  {
    TrapzShift(gs, rs, c);
  }

  /** The cumulative masses: element i integrates over points 0 .. i. */
  function Cumulative(rs: seq<real>, gs: seq<real>): (m: seq<real>)
    requires |rs| == |gs|
    ensures |m| == |rs|
  {
    seq(|rs|, i requires 0 <= i < |rs| => CoreMassIntegral(rs[..i + 1], gs[..i + 1]))
  }

  /**
   * Assigning a float into an int64 array: `int(v)`, truncation toward zero.
   * The result is an integer of v's sign, less than 1 closer to 0 than v.
   */
  function TruncateTowardZero(v: real): (t: int)
    ensures 0.0 <= v ==> 0 <= t && t as real <= v < t as real + 1.0
    ensures v < 0.0 ==> t <= 0 && t as real - 1.0 < v <= t as real
  {
    if 0.0 <= v then v.Floor else -((-v).Floor)
  }

  /**
   * What an element of `np.zeros_like(r_pc)` holds after `M[i] = v`: v for a
   * float radius column, v truncated toward zero for an integer one.
   */
  function Stored(intRadii: bool, v: real): real
  {
    if intRadii then TruncateTowardZero(v) as real else v
  }

  /** The cumulative masses as the array of the radius column's dtype holds them. */
  function StoredCumulative(intRadii: bool, rs: seq<real>, gs: seq<real>): (m: seq<real>)
    requires |rs| == |gs|
    ensures |m| == |rs|
  {
    seq(|rs|, i requires 0 <= i < |rs| => Stored(intRadii, Cumulative(rs, gs)[i]))
  }

  /**
   * `calculate_cumulative_mass(r_pc, gamma_seg)`: `np.zeros_like(r_pc)`,
   * then element i for i >= 1 is written from the trapezoid over points 0 .. i.
   * The array takes the dtype of the radius column (`intRadii`: integers).
   */
  method CalculateCumulativeMass(rs: seq<real>, gs: seq<real>, intRadii: bool) returns (m: array<real>)
    requires |rs| == |gs|
    ensures fresh(m)
    ensures m[..] == StoredCumulative(intRadii, rs, gs)
  {
    m := new real[|rs|](_ => 0.0);
    if |rs| == 0 {
      return;
    }
    assert Trapz(gs[..1], rs[..1]) == 0.0;
    var i := 1;
    while i < |rs|
      invariant 1 <= i <= |rs| == m.Length
      invariant forall j :: 0 <= j < i ==> m[j] == Stored(intRadii, CoreMassIntegral(rs[..j + 1], gs[..j + 1]))
    {
      m[i] := Stored(intRadii, Calibration * Trapz(gs[..i + 1], rs[..i + 1]));
      i := i + 1;
    }
  }

  /**
   * A float radius column stores the cumulative masses exactly; an integer
   * one stores whole numbers, each less than 1 below the mass for a
   * non-negative mass, and still never decreasing where the masses do not.
   */
  lemma StoredCumulativeSpec(intRadii: bool, rs: seq<real>, gs: seq<real>)
    requires |rs| == |gs|
    ensures !intRadii ==> StoredCumulative(intRadii, rs, gs) == Cumulative(rs, gs)
    ensures forall i :: 0 <= i < |rs| && 0.0 <= Cumulative(rs, gs)[i] ==>
      StoredCumulative(intRadii, rs, gs)[i] <= Cumulative(rs, gs)[i] < StoredCumulative(intRadii, rs, gs)[i] + 1.0
    ensures intRadii ==> forall i :: 0 <= i < |rs| ==>
      StoredCumulative(intRadii, rs, gs)[i] == StoredCumulative(intRadii, rs, gs)[i].Floor as real
    ensures Ascending(rs) && (forall i :: 0 <= i < |gs| ==> 0.0 <= gs[i]) ==>
      forall i :: 1 <= i < |rs| ==> StoredCumulative(intRadii, rs, gs)[i - 1] <= StoredCumulative(intRadii, rs, gs)[i]
  {
    var c, m := Cumulative(rs, gs), StoredCumulative(intRadii, rs, gs);
    if Ascending(rs) && (forall i :: 0 <= i < |gs| ==> 0.0 <= gs[i]) {
      CumulativeNonDecreasing(rs, gs);
      if 1 <= |rs| {
        CumulativeSpec(rs, gs);
      }
      forall i | 1 <= i < |rs|
        ensures m[i - 1] <= m[i]
      {
        assert 0.0 <= c[i - 1] <= c[i] by {
          CumulativeNonNegative(rs, gs, i - 1);
        }
        if intRadii {
          FloorMonotone(c[i - 1], c[i]);
        }
      }
    }
  }

  /** Every cumulative mass of a non-negative profile on ascending radii is non-negative. */
  lemma CumulativeNonNegative(rs: seq<real>, gs: seq<real>, i: nat)
    requires |rs| == |gs| && i < |rs| && Ascending(rs)
    requires forall k :: 0 <= k < |gs| ==> 0.0 <= gs[k]
    ensures 0.0 <= Cumulative(rs, gs)[i]
  {
    assert Ascending(rs[..i + 1]);
    CoreMassNonNegative(rs[..i + 1], gs[..i + 1]);
  }

  lemma FloorMonotone(x: real, y: real)
    requires 0.0 <= x <= y
    ensures x.Floor <= y.Floor
  {
  }

  /**
   * Radii 0, 1, 2 pc in an integer column with gamma = 0.9 throughout: the
   * mass out to 1 pc is 2.02 * 0.9 = 1.818, and the array stores 1.
   */
  lemma IntegerRadiiTruncate()
    ensures Cumulative([0.0, 1.0, 2.0], [0.9, 0.9, 0.9])[1] == 1.818
    ensures StoredCumulative(true, [0.0, 1.0, 2.0], [0.9, 0.9, 0.9])[1] == 1.0
  {
    var rs, gs := [0.0, 1.0, 2.0], [0.9, 0.9, 0.9];
    assert rs[..2] == [0.0, 1.0] && gs[..2] == [0.9, 0.9];
    assert Trapz([0.9, 0.9], [0.0, 1.0]) == 0.9;
  }

  /**
   * The cumulative mass starts at 0, ends at the whole profile's core mass,
   * and each step adds 2.02 times one trapezoid panel.
   */
  lemma CumulativeSpec(rs: seq<real>, gs: seq<real>)
    requires |rs| == |gs| && 1 <= |rs|
    ensures Cumulative(rs, gs)[0] == 0.0
    ensures Cumulative(rs, gs)[|rs| - 1] == CoreMassIntegral(rs, gs)
    ensures forall i :: 1 <= i < |rs| ==>
      Cumulative(rs, gs)[i] == Cumulative(rs, gs)[i - 1] + Calibration * Panel(gs, rs, i - 1)
  {
    var m := Cumulative(rs, gs);
    assert Trapz(gs[..1], rs[..1]) == 0.0;
    assert rs[..|rs|] == rs && gs[..|gs|] == gs;
    forall i | 1 <= i < |rs|
      ensures m[i] == m[i - 1] + Calibration * Panel(gs, rs, i - 1)
    {
      TrapzPrefixStep(gs, rs, i);
    }
  }

  /** On ascending radii with non-negative gamma the cumulative mass never decreases. */
  lemma CumulativeNonDecreasing(rs: seq<real>, gs: seq<real>)
    requires |rs| == |gs| && Ascending(rs)
    requires forall i :: 0 <= i < |gs| ==> 0.0 <= gs[i]
    ensures forall i :: 1 <= i < |rs| ==> Cumulative(rs, gs)[i - 1] <= Cumulative(rs, gs)[i]
  {
    if |rs| >= 1 {
      var m := Cumulative(rs, gs);
      CumulativeSpec(rs, gs);
      forall i | 1 <= i < |rs|
        ensures m[i - 1] <= m[i]
      {
        assert m[i] == m[i - 1] + Calibration * Panel(gs, rs, i - 1);
        PanelNonNegative(gs, rs, i - 1);
      }
    }
  }

  lemma PanelNonNegative(gs: seq<real>, rs: seq<real>, i: nat)
    requires |rs| == |gs| && i + 1 < |rs|
    requires rs[i] <= rs[i + 1] && 0.0 <= gs[i] && 0.0 <= gs[i + 1]
    ensures 0.0 <= Panel(gs, rs, i)
  {
    MulNonNegative(rs[i + 1] - rs[i], gs[i] + gs[i + 1]);
  }

  /** `estimate_uncertainty(r_pc, gamma_seg, d_gamma)`: |M(gamma + d) - M(gamma - d)| / 2. */
  function EstimateUncertainty(rs: seq<real>, gs: seq<real>, d: real): real
    requires |rs| == |gs|
  {
    Abs(CoreMassIntegral(rs, Shift(gs, d)) - CoreMassIntegral(rs, Shift(gs, -d))) / 2.0
  }

  /**
   * By linearity of the trapezoid rule the uncertainty does not depend on
   * gamma at all: it is 2.02 * |d * (r_last - r_first)|, and 2.02 * d * (r_last - r_first)
   * for ascending radii and d >= 0.
   */
  lemma UncertaintyClosedForm(rs: seq<real>, gs: seq<real>, d: real)
    requires |rs| == |gs|
    ensures |rs| == 0 ==> EstimateUncertainty(rs, gs, d) == 0.0
    ensures |rs| >= 1 ==> EstimateUncertainty(rs, gs, d) == Calibration * Abs(d * (rs[|rs| - 1] - rs[0]))
    ensures |rs| >= 1 && Ascending(rs) && 0.0 <= d ==>
      EstimateUncertainty(rs, gs, d) == Calibration * (d * (rs[|rs| - 1] - rs[0]))
  {
    if |rs| >= 1 {
      var len := rs[|rs| - 1] - rs[0];
      CoreMassShift(rs, gs, d);
      CoreMassShift(rs, gs, -d);
      assert -d * len == -(d * len);
      if Ascending(rs) && 0.0 <= d {
        MulNonNegative(d, len);
      }
    }
  }

  /** The points with lo <= r <= hi, in their order: `mask = (r_pc >= r_min) & (r_pc <= r_max)`. */
  function Within(ps: seq<Sample>, lo: real, hi: real): (kept: seq<Sample>)
    ensures |kept| <= |ps|
  {
    if ps == [] then []
    else (if lo <= ps[0].r <= hi then [ps[0]] else []) + Within(ps[1..], lo, hi)
  }

  /** A point is kept exactly when it is in the profile and within the limits; order is kept. */
  lemma WithinSpec(ps: seq<Sample>, lo: real, hi: real)
    ensures forall p :: p in Within(ps, lo, hi) <==> p in ps && lo <= p.r <= hi
    ensures Ascending(Radii(ps)) ==> Ascending(Radii(Within(ps, lo, hi)))
  {
    WithinMembership(ps, lo, hi);
    if Ascending(Radii(ps)) {
      WithinAscending(ps, lo, hi);
    }
  }

  lemma {:induction false} WithinMembership(ps: seq<Sample>, lo: real, hi: real)
    ensures forall p :: p in Within(ps, lo, hi) <==> p in ps && lo <= p.r <= hi
  {
    if ps != [] {
      WithinMembership(ps[1..], lo, hi);
      assert ps == [ps[0]] + ps[1..];
    }
  }

  lemma {:induction false} WithinAscending(ps: seq<Sample>, lo: real, hi: real)
    requires Ascending(Radii(ps))
    ensures Ascending(Radii(Within(ps, lo, hi)))
  {
    if ps != [] {
      assert Ascending(Radii(ps[1..])) by {
        forall i, j | 0 <= i <= j < |ps| - 1
          ensures Radii(ps[1..])[i] <= Radii(ps[1..])[j]
        {
          assert Radii(ps)[i + 1] <= Radii(ps)[j + 1];
        }
      }
      WithinAscending(ps[1..], lo, hi);
      var rest, kept := Within(ps[1..], lo, hi), Within(ps, lo, hi);
      if lo <= ps[0].r <= hi {
        WithinMembership(ps[1..], lo, hi);
        forall i, j | 0 <= i <= j < |kept|
          ensures Radii(kept)[i] <= Radii(kept)[j]
        {
          if i == 0 && j > 0 {
            assert kept[j] == rest[j - 1] && kept[j] in ps[1..];
            var m :| 0 <= m < |ps[1..]| && ps[1..][m] == kept[j];
            assert Radii(ps)[0] <= Radii(ps)[m + 1];
          } else if i > 0 {
            assert Radii(kept)[i] == Radii(rest)[i - 1] && Radii(kept)[j] == Radii(rest)[j - 1];
          }
        }
      } else {
        assert kept == rest;
      }
    }
  }

  /**
   * The `--r-min`/`--r-max` limits of `main`: with neither, the profile is
   * unchanged; a missing one defaults to the data's smallest or largest
   * radius.  Reading that default needs a non-empty profile.
   */
  function ApplyLimits(ps: seq<Sample>, rMin: Option<real>, rMax: Option<real>): seq<Sample>
    requires rMin.None? != rMax.None? ==> |ps| > 0
  {
    if rMin.None? && rMax.None? then ps
    else
      var lo := if rMin.Some? then rMin.value else MinOf(Radii(ps));
      var hi := if rMax.Some? then rMax.value else MaxOf(Radii(ps));
      Within(ps, lo, hi)
  }

  /** Limits keep exactly the points on the given side(s) of them, and only those. */
  lemma ApplyLimitsSpec(ps: seq<Sample>, rMin: Option<real>, rMax: Option<real>)
    requires rMin.None? != rMax.None? ==> |ps| > 0
    ensures rMin.None? && rMax.None? ==> ApplyLimits(ps, rMin, rMax) == ps
    ensures forall p :: p in ApplyLimits(ps, rMin, rMax) <==>
      p in ps && (rMin.Some? ==> rMin.value <= p.r) && (rMax.Some? ==> p.r <= rMax.value)
    ensures Ascending(Radii(ps)) ==> Ascending(Radii(ApplyLimits(ps, rMin, rMax)))
  {
    if rMin.Some? || rMax.Some? {
      var lo := if rMin.Some? then rMin.value else MinOf(Radii(ps));
      var hi := if rMax.Some? then rMax.value else MaxOf(Radii(ps));
      WithinSpec(ps, lo, hi);
      if |ps| > 0 {
        MinMaxBound(Radii(ps));
        forall p | p in ps
          ensures MinOf(Radii(ps)) <= p.r <= MaxOf(Radii(ps))
        {
          var k :| 0 <= k < |ps| && ps[k] == p;
          assert Radii(ps)[k] == p.r;
        }
      }
    }
  }

  /** The paper comparison: the deviation |M - 8.7| / 1.5 in sigma. */
  function PaperDeviation(m: real): real
  {
    Abs(m - PaperMass) / PaperMassErr
  }

  /** The verdicts printed: the paper comparison ends on Significant, the observation comparison on Poor. */
  datatype Agreement = Excellent | Good | Marginal | Significant | Poor

  /** The verdict ladder of `main`: below 1, 2 and 3 sigma. */
  function PaperVerdict(m: real): Agreement
  {
    match SigmaRung(PaperDeviation(m))
    case 0 => Excellent
    case 1 => Good
    case 2 => Marginal
    case _ => Significant
  }

  /** Each verdict holds on exactly one band of deviations. */
  lemma PaperVerdictSpec(m: real)
    ensures PaperVerdict(m) == Excellent <==> PaperDeviation(m) < 1.0
    ensures PaperVerdict(m) == Good <==> 1.0 <= PaperDeviation(m) < 2.0
    ensures PaperVerdict(m) == Marginal <==> 2.0 <= PaperDeviation(m) < 3.0
    ensures PaperVerdict(m) == Significant <==> 3.0 <= PaperDeviation(m)
  {
    SigmaRungSpec(PaperDeviation(m));
  }

  /** The literature masses of `compare_with_observations`: ionized gas, dust and CO, and their error. */
  const ObservedIonized: real := 1.5
  const ObservedDust: real := 0.02
  const ObservedMolecular: real := 6.0
  const ObservedErr: real := 2.0

  function ObservedTotal(): real
  {
    ObservedIonized + ObservedDust + ObservedMolecular
  }

  /**
   * `compare_with_observations(M_core, M_core_err)`: the distance of M_core
   * from the observed total in units of the combined uncertainty
   * sqrt(M_core_err^2 + 2^2).  `main` only prints the value it returns.
   */
  function ObservationDeviation(sqrt: real -> real, m: real, err: real): real
    requires IsSqrt(sqrt)
  {
    CombinedErrorPositive(sqrt, err);
    Abs(m - ObservedTotal()) / sqrt(err * err + ObservedErr * ObservedErr)
  }

  /** The combined uncertainty is at least the 2 solar masses of the observations, and exactly that for M_core_err = 0. */
  lemma CombinedErrorPositive(sqrt: real -> real, err: real)
    requires IsSqrt(sqrt)
    ensures ObservedErr <= sqrt(err * err + ObservedErr * ObservedErr)
    ensures err == 0.0 ==> sqrt(err * err + ObservedErr * ObservedErr) == ObservedErr
  {
    SquareNonNegative(err);
    SqrtOfSumOfSquares(sqrt, ObservedErr, err * err);
    assert ObservedErr * ObservedErr + err * err == err * err + ObservedErr * ObservedErr;
    if err == 0.0 {
      SqrtOfSquare(sqrt, ObservedErr);
    }
  }

  /**
   * The observed total is 7.52 solar masses.  The deviation is non-negative,
   * 0 exactly at that total; times the combined uncertainty it is
   * abs(M_core - 7.52), so it never exceeds abs(M_core - 7.52)/2 and equals
   * it for M_core_err = 0.
   */
  lemma ObservationDeviationSpec(sqrt: real -> real, m: real, err: real)
    requires IsSqrt(sqrt)
    ensures ObservedTotal() == 7.52
    ensures var d := ObservationDeviation(sqrt, m, err);
      && 0.0 <= d
      && (d == 0.0 <==> m == 7.52)
      && d * sqrt(err * err + ObservedErr * ObservedErr) == Abs(m - 7.52)
      && d <= Abs(m - 7.52) / 2.0
      && (err == 0.0 ==> d == Abs(m - 7.52) / 2.0)
  {
    var a, c := Abs(m - 7.52), sqrt(err * err + ObservedErr * ObservedErr);
    CombinedErrorPositive(sqrt, err);
    QuotientBounds(a, c);
  }

  /** a/c for a >= 0 and c >= 2: non-negative, 0 exactly for a = 0, at most a/2, and below 1 exactly when a < c. */
  lemma QuotientBounds(a: real, c: real)
    requires 0.0 <= a && 2.0 <= c
    ensures 0.0 <= a / c && a / c * c == a
    ensures a / c == 0.0 <==> a == 0.0
    ensures a / c <= a / 2.0
    ensures a / c < 1.0 <==> a < c
  {
    var q := a / c;
    DivMulCancel(a, c);
    assert q * c == a;
    MulMonotone(q, 2.0, c);
    assert q * 2.0 <= a;
    RatioBelowOne(a, c);
  }

  /** a/c for c > 0 is below 1 exactly when a < c. */
  lemma RatioBelowOne(a: real, c: real)
    requires 0.0 < c
    ensures a / c < 1.0 <==> a < c
  {
    assert c / c == 1.0;
    if a < c {
      DivStrictMonotone(a, c, c);
    } else {
      DivMonotone(c, a, c);
    }
  }

  /** The verdict ladder of `compare_with_observations`: below 1, 2 and 3 sigma, else poor. */
  function ObservationVerdict(sqrt: real -> real, m: real, err: real): Agreement
    requires IsSqrt(sqrt)
  {
    match SigmaRung(ObservationDeviation(sqrt, m, err))
    case 0 => Excellent
    case 1 => Good
    case 2 => Marginal
    case _ => Poor
  }

  /** Each verdict holds on exactly one band of the deviation; Excellent means abs(M_core - 7.52) below the combined uncertainty. */
  lemma ObservationVerdictSpec(sqrt: real -> real, m: real, err: real)
    requires IsSqrt(sqrt)
    ensures var d, v := ObservationDeviation(sqrt, m, err), ObservationVerdict(sqrt, m, err);
      && (v == Excellent <==> d < 1.0)
      && (v == Good <==> 1.0 <= d < 2.0)
      && (v == Marginal <==> 2.0 <= d < 3.0)
      && (v == Poor <==> 3.0 <= d)
      && (v == Excellent <==> Abs(m - 7.52) < sqrt(err * err + ObservedErr * ObservedErr))
  {
    SigmaRungSpec(ObservationDeviation(sqrt, m, err));
    CombinedErrorPositive(sqrt, err);
    QuotientBounds(Abs(m - 7.52), sqrt(err * err + ObservedErr * ObservedErr));
  }

  /** One radial zone of the breakdown. */
  datatype Zone = Zone(lo: real, hi: real, title: string)

  /** The three zones; the outer one ends at the largest radius. */
  function Zones(ps: seq<Sample>): seq<Zone>
    requires |ps| > 0
  {
    [Zone(0.0, 1.0, "Inner (ionized core)"),
     Zone(1.0, 2.0, "Middle (PDR)"),
     Zone(2.0, MaxOf(Radii(ps)), "Outer (molecular shell)")]
  }

  /** A zone's mass, or None when no point lies in it (`np.any(mask)` is false). */
  function ZoneMass(ps: seq<Sample>, z: Zone): Option<real>
  {
    var w := Within(ps, z.lo, z.hi);
    if w == [] then None else Some(CoreMassIntegral(Radii(w), Gammas(w)))
  }

  /**
   * The zone breakdown of `main`: `r_pc.max()` raises on an empty profile;
   * otherwise one entry per zone.
   */
  function MassBreakdown(ps: seq<Sample>): (r: Result<seq<Option<real>>>)
    ensures r.Err? <==> ps == []
  {
    if ps == [] then Err("zero-size array to reduction operation maximum")
    else Ok(seq(3, k requires 0 <= k < 3 => ZoneMass(ps, Zones(ps)[k])))
  }

  /** Some point of the profile lies in the zone's closed range (`np.any(mask)`). */
  predicate Occupies(ps: seq<Sample>, z: Zone)
  {
    exists p :: p in ps && z.lo <= p.r <= z.hi
  }

  /** Ascending radii and non-negative gamma. */
  predicate NonNegativeProfile(ps: seq<Sample>)
  {
    Ascending(Radii(ps)) && forall i :: 0 <= i < |ps| ==> 0.0 <= ps[i].gamma
  }

  /**
   * A zone has a mass exactly when some point lies in it, and on an ascending
   * profile with non-negative gamma that mass is non-negative.
   */
  lemma MassBreakdownSpec(ps: seq<Sample>)
    requires ps != []
    ensures var zs, ms := Zones(ps), MassBreakdown(ps).value;
      && |ms| == 3
      && (forall k :: 0 <= k < 3 ==> (ms[k].Some? <==> Occupies(ps, zs[k])))
      && (NonNegativeProfile(ps) ==> forall k :: 0 <= k < 3 && ms[k].Some? ==> 0.0 <= ms[k].value)
  {
    var zs, ms := Zones(ps), MassBreakdown(ps).value;
    forall k | 0 <= k < 3
      ensures ms[k].Some? <==> Occupies(ps, zs[k])
      ensures NonNegativeProfile(ps) && ms[k].Some? ==> 0.0 <= ms[k].value
    {
      ZoneMassSpec(ps, zs[k]);
    }
  }

  /** The same for one zone. */
  lemma ZoneMassSpec(ps: seq<Sample>, z: Zone)
    ensures ZoneMass(ps, z).Some? <==> Occupies(ps, z)
    ensures NonNegativeProfile(ps) && ZoneMass(ps, z).Some? ==> 0.0 <= ZoneMass(ps, z).value
  {
    var w := Within(ps, z.lo, z.hi);
    WithinSpec(ps, z.lo, z.hi);
    if w != [] {
      assert w[0] in w;
    }
    if NonNegativeProfile(ps) && w != [] {
      forall i | 0 <= i < |w|
        ensures 0.0 <= Gammas(w)[i]
      {
        assert w[i] in ps;
      }
      CoreMassNonNegative(Radii(w), Gammas(w));
    }
  }
}
