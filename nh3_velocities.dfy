/**
 * scripts/analyze_nh3_velocities.py: the NH3 components of G79.29+0.46
 * (velocity range and rotational temperature of each), their centres and
 * widths, the total velocity spread compared with the predicted 5 km/s, and
 * the Mach-number domain of every component with a temperature.
 */
module Nh3Velocities {
  import opened Wrappers
  import opened RealMath
  import opened Floats
  import opened Stats
  import opened Ladder
  import opened Gas

  /** A row of the NH3 table; a missing `Trot_K` cell is `None`. */
  datatype Component = Component(name: string, vMin: real, vMax: real, tRot: Option<real>)

  const DataName: string := "G79_Rizzo2014_NH3_Table1.csv"

  /** The table under data/, or else at the repository root; `None` when neither exists (exit status 1). */
  function DataFile(repoRoot: string, fileExists: string -> bool): (p: Option<string>)
  {
    var primary := repoRoot + "/data/" + DataName;
    var alternate := repoRoot + "/" + DataName;
    if fileExists(primary) then Some(primary)
    else if fileExists(alternate) then Some(alternate)
    else None
  }

  /** The file found exists, the data/ copy wins, and nothing is found only when neither copy exists. */
  lemma DataFileSpec(repoRoot: string, fileExists: string -> bool)
    ensures var p := DataFile(repoRoot, fileExists);
      && (p.Some? ==> fileExists(p.value))
      && (fileExists(repoRoot + "/data/" + DataName) ==> p == Some(repoRoot + "/data/" + DataName))
      && (p.None? <==> !fileExists(repoRoot + "/data/" + DataName) && !fileExists(repoRoot + "/" + DataName))
  {
  }

  /** `v_center_kms`: the middle of the velocity range. */
  function Center(c: Component): real
  {
    (c.vMin + c.vMax) / 2.0
  }

  /** `delta_v_kms`: the width of the velocity range. */
  function Width(c: Component): real
  {
    c.vMax - c.vMin
  }

  /**
   * Centre and width give the range back (v_min = centre - width/2, v_max =
   * centre + width/2); for an ordered range the width is non-negative and
   * the centre lies inside it.
   */
  lemma CenterWidthSpec(c: Component)
    ensures Center(c) - Width(c) / 2.0 == c.vMin && Center(c) + Width(c) / 2.0 == c.vMax
    ensures c.vMin <= c.vMax ==> 0.0 <= Width(c) && c.vMin <= Center(c) <= c.vMax
  {
  }

  function VMins(cs: seq<Component>): (s: seq<real>)
    ensures |s| == |cs| && forall i :: 0 <= i < |cs| ==> s[i] == cs[i].vMin
  {
    seq(|cs|, i requires 0 <= i < |cs| => cs[i].vMin)
  }

  function VMaxs(cs: seq<Component>): (s: seq<real>)
    ensures |s| == |cs| && forall i :: 0 <= i < |cs| ==> s[i] == cs[i].vMax
  {
    seq(|cs|, i requires 0 <= i < |cs| => cs[i].vMax)
  }

  /** `delta_v_total = v_max.max() - v_min.min()`; pandas gives NaN for an empty table. */
  function TotalSpread(cs: seq<Component>): Float
  {
    if cs == [] then NaN else Num(MaxOf(VMaxs(cs)) - MinOf(VMins(cs)))
  }

  /**
   * The spread is NaN exactly for an empty table; otherwise it is at least
   * every component's width and is the distance from some component's v_min
   * to some component's v_max.
   */
  lemma TotalSpreadSpec(cs: seq<Component>)
    ensures TotalSpread(cs).NaN? <==> cs == []
    ensures cs != [] ==> TotalSpread(cs).Num?
    ensures cs != [] ==> forall i :: 0 <= i < |cs| ==> Width(cs[i]) <= TotalSpread(cs).v
    ensures cs != [] ==> exists i, j :: 0 <= i < |cs| && 0 <= j < |cs| && TotalSpread(cs).v == cs[j].vMax - cs[i].vMin
  {
    if cs != [] {
      var lo, hi := VMins(cs), VMaxs(cs);
      MinMaxBound(lo);
      MinMaxBound(hi);
      MinMaxAttained(lo);
      MinMaxAttained(hi);
      var i :| 0 <= i < |lo| && lo[i] == MinOf(lo);
      var j :| 0 <= j < |hi| && hi[j] == MaxOf(hi);
      assert TotalSpread(cs).v == cs[j].vMax - cs[i].vMin;
    }
  }

  const PredictedSpread: real := 5.0

  datatype Match = Excellent | Good | Discrepancy

  /** |delta_v_total - 5| < 1 is excellent, < 2 good, anything else (NaN included) a discrepancy. */
  function SpreadMatch(spread: Float): Match
  {
    if !spread.Num? then Discrepancy
    else
      var k := Rung(Abs(spread.v - PredictedSpread), [1.0, 2.0]);
      if k == 0 then Excellent else if k == 1 then Good else Discrepancy
  }

  lemma SpreadMatchSpec(spread: Float)
    ensures SpreadMatch(spread) == Excellent <==> spread.Num? && Abs(spread.v - PredictedSpread) < 1.0
    ensures SpreadMatch(spread) == Good <==> spread.Num? && 1.0 <= Abs(spread.v - PredictedSpread) < 2.0
    ensures SpreadMatch(spread) == Discrepancy <==> !spread.Num? || 2.0 <= Abs(spread.v - PredictedSpread)
  {
    if spread.Num? {
      var t := [1.0, 2.0];
      RungSpec(Abs(spread.v - PredictedSpread), t);
      assert t[0] == 1.0 && t[1] == 2.0;
    }
  }

  datatype Domain = G2 | G1

  /** What the Mach analysis reports for one component: its Mach number and its domain. */
  datatype MachEntry = MachEntry(name: string, mach: Float, domain: Domain)

  /** M < 0.3 is the segmented g2 domain; anything else (NaN included) the classical g1 domain. */
  function DomainOf(m: Float): Domain
  {
    if Less(m, 0.3) then G2 else G1
  }

  /** The entry of a component with a temperature: M = |v_center| / c_s(T_rot). */
  function Entry(sqrt: real -> real, c: Component): MachEntry
    requires c.tRot.Some?
  {
    var m := MachNumber(sqrt, Abs(Center(c)), c.tRot.value);
    MachEntry(c.name, m, DomainOf(m))
  }

  /**
   * A component is in the g2 domain exactly when it has a positive
   * temperature and its centre moves slower than 0.3 times the sound speed;
   * a zero or negative temperature (an infinite or NaN Mach number) is g1.
   */
  lemma EntrySpec(sqrt: real -> real, c: Component)
    requires IsSqrt(sqrt) && c.tRot.Some?
    ensures var t := c.tRot.value;
      Entry(sqrt, c).domain == G2 <==> 0.0 < t && Abs(Center(c)) < 0.3 * SoundSpeed(sqrt, t).v
  {
    MachNumberSpec(sqrt, Abs(Center(c)), c.tRot.value);
  }

  /** The entries of the components with a temperature, in table order. */
  function MachAnalysis(sqrt: real -> real, cs: seq<Component>): seq<MachEntry>
  {
    if cs == [] then []
    else
      var last := cs[|cs| - 1];
      MachAnalysis(sqrt, cs[..|cs| - 1]) + (if last.tRot.Some? then [Entry(sqrt, last)] else [])
  }

  /** The loop of `main` over the table, reporting every component whose `Trot_K` is present. */
  method AnalyzeMach(sqrt: real -> real, cs: seq<Component>) returns (entries: seq<MachEntry>)
    ensures entries == MachAnalysis(sqrt, cs)
  {
    entries := [];
    for i := 0 to |cs|
      invariant entries == MachAnalysis(sqrt, cs[..i])
    {
      assert cs[..i + 1][..i] == cs[..i];
      var c := cs[i];
      if c.tRot.Some? {
        var m := MachNumber(sqrt, Abs(Center(c)), c.tRot.value);
        var domain := if Less(m, 0.3) then G2 else G1;
        entries := entries + [MachEntry(c.name, m, domain)];
      }
    }
    assert cs[..|cs|] == cs;
  }

  /** The number of components with a temperature. */
  function WithTemperature(cs: seq<Component>): nat
  {
    if cs == [] then 0 else WithTemperature(cs[..|cs| - 1]) + (if cs[|cs| - 1].tRot.Some? then 1 else 0)
  }

  /** e is the entry of one of the components with a temperature. */
  predicate EntryOfSome(sqrt: real -> real, cs: seq<Component>, e: MachEntry)
  {
    exists i :: 0 <= i < |cs| && cs[i].tRot.Some? && e == Entry(sqrt, cs[i])
  }

  /**
   * The analysis has one entry per component with a temperature; every entry
   * is the entry of such a component, and every such component has its entry.
   */
  lemma {:induction false} MachAnalysisSpec(sqrt: real -> real, cs: seq<Component>)
    ensures |MachAnalysis(sqrt, cs)| == WithTemperature(cs)
    ensures forall e :: e in MachAnalysis(sqrt, cs) ==> EntryOfSome(sqrt, cs, e)
    ensures forall i :: 0 <= i < |cs| && cs[i].tRot.Some? ==> Entry(sqrt, cs[i]) in MachAnalysis(sqrt, cs)
  {
    if cs != [] {
      var init := cs[..|cs| - 1];
      MachAnalysisSpec(sqrt, init);
      var r0 := MachAnalysis(sqrt, init);
      var r := MachAnalysis(sqrt, cs);
      forall e | e in r
        ensures EntryOfSome(sqrt, cs, e)
      {
        if e in r0 {
          var i :| 0 <= i < |init| && init[i].tRot.Some? && e == Entry(sqrt, init[i]);
          assert cs[i] == init[i];
        } else {
          var last := |cs| - 1;
          assert cs[last].tRot.Some? && e == Entry(sqrt, cs[last]);
        }
      }
      forall i | 0 <= i < |cs| && cs[i].tRot.Some?
        ensures Entry(sqrt, cs[i]) in r
      {
        if i < |init| {
          assert cs[i] == init[i];
          assert Entry(sqrt, init[i]) in r0;
        }
      }
    }
  }
}
