/**
 * Binning catalog point sources into rings and aggregating their band
 * fluxes: `create_ring_bins` and `bin_sources_into_rings` of
 * RUN_COMPLETE_IR_ANALYSIS.py, whose loop scripts/catalog_to_rings.py runs
 * again in its `main`.  A source at radius r (pc) is in ring i when
 * edges[i] <= r < edges[i+1]; for each non-empty ring a row records the
 * edges, the midpoint, the source count and, per band column, the pandas
 * statistics of the ring's non-missing fluxes.
 */
module CatalogRings {
  import opened Wrappers
  import opened RealMath
  import opened Floats
  import opened Trapezoid
  import opened Grid
  import opened Stats
  import opened Rings
  import opened Tables

  /** A catalog's columns by name; a missing (NaN) flux cell is None. */
  type Columns = Table<Option<real>>

  /** Every column has one cell per source. */
  predicate Aligned(columns: Columns, radii: seq<Float>)
  {
    forall b :: b in columns ==> |columns[b]| == |radii|
  }

  /** `create_ring_bins(max_radius, ring_width)`: `np.arange(0, max_radius + ring_width, ring_width)`. */
  function CreateRingBins(maxRadius: real, width: real): seq<real>
    requires width != 0.0
  {
    Arange(0.0, maxRadius + width, width)
  }

  /**
   * For a positive width the bins start at 0, are `width` apart, strictly
   * increase, and the last edge reaches `max_radius` (when there is one).
   */
  lemma RingBinsSpec(maxRadius: real, width: real)
    requires 0.0 < width
    ensures var e := CreateRingBins(maxRadius, width);
      && (|e| > 0 ==> e[0] == 0.0 && maxRadius <= e[|e| - 1] < maxRadius + width)
      && (forall i :: 0 <= i < |e| - 1 ==> e[i + 1] - e[i] == width)
      && StrictlyAscending(e)
  {
    var e := CreateRingBins(maxRadius, width);
    ArangeBelowStop(0.0, maxRadius + width, width);
    if |e| > 0 {
      var n := |e| - 1;
      assert e[n] == (n as real) * width;
      assert (|e| as real) * width == e[n] + width;
    }
  }

  /** `series.dropna()`: the present values, in order. */
  function Dropna(col: seq<Option<real>>): (vals: seq<real>)
    ensures |vals| <= |col|
  {
    if col == [] then [] else (if col[0].Some? then [col[0].value] else []) + Dropna(col[1..])
  }

  /** A value survives `dropna` exactly when some cell holds it. */
  lemma {:induction false} DropnaMembership(col: seq<Option<real>>, x: real)
    ensures x in Dropna(col) <==> Some(x) in col
  {
    if col != [] {
      DropnaMembership(col[1..], x);
      assert col == [col[0]] + col[1..];
    }
  }

  /** The statistics of one band in one ring: `<band>_mean`, `_median`, `_std`, `_err`, `_n`. */
  datatype BandStats = BandStats(mean: Float, median: Float, std: Float, err: Float, n: nat)

  /** A Float divided by a positive real: NaN and the infinities stay as they are. */
  function DivBy(f: Float, d: real): Float
    requires 0.0 < d
  {
    if f.Num? then Num(f.v / d) else f
  }

  /**
   * pandas statistics of the valid values: mean, median, the sample standard
   * deviation (ddof = 1, NaN for a single value) and std/sqrt(n); all NaN
   * and n = 0 when there are no valid values.
   */
  function BandSummary(sqrt: real -> real, vals: seq<real>): BandStats
    requires IsSqrt(sqrt)
  {
    if |vals| > 0 then
      var std := SampleStd(sqrt, vals);
      SqrtPositive(sqrt, |vals| as real);
      BandStats(Num(Mean(vals)), Num(Median(vals)), std, DivBy(std, sqrt(|vals| as real)), |vals|)
    else
      BandStats(NaN, NaN, NaN, NaN, 0)
  }

  /** What a band's statistics promise about its valid values. */
  predicate BandFacts(sqrt: real -> real, vals: seq<real>, st: BandStats)
  {
    && st.n == |vals|
    && (|vals| == 0 ==> st.mean.NaN? && st.median.NaN? && st.std.NaN? && st.err.NaN?)
    && (|vals| > 0 ==>
          && st.mean.Num? && st.median.Num?
          && MinOf(vals) <= st.mean.v <= MaxOf(vals)
          && MinOf(vals) <= st.median.v <= MaxOf(vals))
    && (st.std.Num? <==> |vals| >= 2)
    && (st.err.Num? <==> |vals| >= 2)
    && (st.std.Num? ==> 0.0 <= st.std.v && st.err.v * sqrt(|vals| as real) == st.std.v)
  }

  lemma BandSummarySpec(sqrt: real -> real, vals: seq<real>)
    requires IsSqrt(sqrt)
    ensures BandFacts(sqrt, vals, BandSummary(sqrt, vals))
  {
    SampleStdDefinedFromTwo(sqrt, vals);
    if |vals| > 0 {
      MeanBetweenMinAndMax(vals);
      MedianBetweenMinAndMax(vals);
      SqrtPositive(sqrt, |vals| as real);
    }
  }

  /** The valid fluxes of band column `col` among the sources in [lo, hi). */
  function RingFluxes(radii: seq<Float>, col: seq<Option<real>>, lo: real, hi: real): (vals: seq<real>)
    requires |col| == |radii|
    ensures |vals| <= CountIn(radii, lo, hi)
  {
    Dropna(Pick(radii, col, lo, hi))
  }

  /**
   * The band statistics of one ring, bands taken in order; a band that is not
   * a column is skipped.
   */
  function BandColumns(sqrt: real -> real, columns: Columns, radii: seq<Float>, bands: seq<string>, lo: real, hi: real)
    : (m: map<string, BandStats>)
    requires IsSqrt(sqrt) && Aligned(columns, radii)
    ensures forall b :: b in m <==> b in bands && b in columns
    ensures forall b :: b in m ==> m[b] == BandSummary(sqrt, RingFluxes(radii, columns[b], lo, hi))
  {
    if bands == [] then map[]
    else
      var m := BandColumns(sqrt, columns, radii, bands[..|bands| - 1], lo, hi);
      var band := bands[|bands| - 1];
      assert bands == bands[..|bands| - 1] + [band];
      if band in columns then m[band := BandSummary(sqrt, RingFluxes(radii, columns[band], lo, hi))] else m
  }

  /** One output row. */
  datatype SourceRing = SourceRing(
    ring: nat, rMin: real, rMax: real, radius: real, nSources: nat, bands: map<string, BandStats>)

  /** The row of an occupied ring. */
  function SourceRow(sqrt: real -> real, columns: Columns, radii: seq<Float>, bands: seq<string>, edges: seq<real>, j: nat)
    : SourceRing
    requires IsSqrt(sqrt) && Aligned(columns, radii)
    requires RingCount(radii, edges, j) > 0
  {
    SourceRing(j, edges[j], edges[j + 1], 0.5 * (edges[j] + edges[j + 1]), CountIn(radii, edges[j], edges[j + 1]),
               BandColumns(sqrt, columns, radii, bands, edges[j], edges[j + 1]))
  }

  /** `SourceRow` as the row function of `Emit`. */
  function SourceRowOf(sqrt: real -> real, columns: Columns, radii: seq<Float>, bands: seq<string>, edges: seq<real>)
    : nat --> SourceRing
    requires IsSqrt(sqrt) && Aligned(columns, radii)
  {
    (j: nat) requires RingCount(radii, edges, j) > 0 => SourceRow(sqrt, columns, radii, bands, edges, j)
  }

  /** The rows emitted for rings 0 .. k-1. */
  function SourceRows(sqrt: real -> real, columns: Columns, radii: seq<Float>, bands: seq<string>, edges: seq<real>, k: nat)
    : seq<SourceRing>
    requires IsSqrt(sqrt) && Aligned(columns, radii)
    requires k <= NumRings(edges)
  {
    Emit(radii, edges, k, SourceRowOf(sqrt, columns, radii, bands, edges))
  }

  /** The `for band in bands` loop that fills one row's band columns. */
  method AggregateBands(sqrt: real -> real, columns: Columns, radii: seq<Float>, bands: seq<string>, lo: real, hi: real)
    returns (stats: map<string, BandStats>)
    requires IsSqrt(sqrt) && Aligned(columns, radii)
    ensures stats == BandColumns(sqrt, columns, radii, bands, lo, hi)
  {
    stats := map[];
    var b := 0;
    while b < |bands|
      invariant b <= |bands|
      invariant stats == BandColumns(sqrt, columns, radii, bands[..b], lo, hi)
    {
      var band := bands[b];
      assert bands[..b + 1][..b] == bands[..b];
      if band in columns {
        stats := stats[band := BandSummary(sqrt, RingFluxes(radii, columns[band], lo, hi))];
      }
      b := b + 1;
    }
    assert bands[..b] == bands;
  }

  /** `bin_sources_into_rings(df, r_pc, bands, ring_edges)` */
  method BinSourcesIntoRings(sqrt: real -> real, columns: Columns, radii: seq<Float>, bands: seq<string>, edges: seq<real>)
    returns (rows: seq<SourceRing>)
    requires IsSqrt(sqrt) && Aligned(columns, radii)
    ensures rows == SourceRows(sqrt, columns, radii, bands, edges, NumRings(edges))
  {
    rows := [];
    var i := 0;
    while i < NumRings(edges)
      invariant i <= NumRings(edges)
      invariant rows == SourceRows(sqrt, columns, radii, bands, edges, i)
    {
      var lo, hi := edges[i], edges[i + 1];
      var n := CountIn(radii, lo, hi);
      if n > 0 {
        var stats := AggregateBands(sqrt, columns, radii, bands, lo, hi);
        rows := rows + [SourceRing(i, lo, hi, 0.5 * (lo + hi), n, stats)];
      }
      i := i + 1;
    }
  }

  /**
   * Rows appear in strictly increasing ring order, and ring j < k has a row
   * exactly when a source lies in it.
   */
  lemma SourceRowsOrder(sqrt: real -> real, columns: Columns, radii: seq<Float>, bands: seq<string>, edges: seq<real>, k: nat)
    requires IsSqrt(sqrt) && Aligned(columns, radii)
    requires k <= NumRings(edges)
    ensures var rows := SourceRows(sqrt, columns, radii, bands, edges, k);
      && (forall a, b :: 0 <= a < b < |rows| ==> rows[a].ring < rows[b].ring)
      && (forall j :: 0 <= j < k ==> (RingCount(radii, edges, j) > 0 <==> exists a :: 0 <= a < |rows| && rows[a].ring == j))
  {
    var rows, js := SourceRows(sqrt, columns, radii, bands, edges, k), Occupied(radii, edges, k);
    EmitIsOccupiedMap(radii, edges, k, SourceRowOf(sqrt, columns, radii, bands, edges));
    OccupiedSpec(radii, edges, k);
    assert forall a :: 0 <= a < |rows| ==> rows[a].ring == js[a];
    forall j | 0 <= j < k
      ensures RingCount(radii, edges, j) > 0 <==> exists a :: 0 <= a < |rows| && rows[a].ring == j
    {
      if RingCount(radii, edges, j) > 0 {
        assert j in js;
        var a :| 0 <= a < |js| && js[a] == j;
        assert rows[a].ring == j;
      }
    }
  }

  /** What every emitted row records about its ring. */
  ghost predicate SourceRowFacts(sqrt: real -> real, columns: Columns, radii: seq<Float>, bands: seq<string>, edges: seq<real>,
                           row: SourceRing)
    requires Aligned(columns, radii)
  {
    && row.ring + 1 < |edges|
    && row.rMin == edges[row.ring] && row.rMax == edges[row.ring + 1]
    && row.radius == (row.rMin + row.rMax) / 2.0
    && row.nSources == CountIn(radii, row.rMin, row.rMax) >= 1
    && (forall b :: b in row.bands <==> b in bands && b in columns)
    && forall b :: b in row.bands ==>
         row.bands[b].n <= row.nSources && BandFacts(sqrt, RingFluxes(radii, columns[b], row.rMin, row.rMax), row.bands[b])
  }

  lemma SourceRowSpec(sqrt: real -> real, columns: Columns, radii: seq<Float>, bands: seq<string>, edges: seq<real>, j: nat)
    requires IsSqrt(sqrt) && Aligned(columns, radii)
    requires RingCount(radii, edges, j) > 0
    ensures SourceRowFacts(sqrt, columns, radii, bands, edges, SourceRow(sqrt, columns, radii, bands, edges, j))
  {
    var row := SourceRow(sqrt, columns, radii, bands, edges, j);
    forall b | b in row.bands
      ensures BandFacts(sqrt, RingFluxes(radii, columns[b], row.rMin, row.rMax), row.bands[b])
    {
      BandSummarySpec(sqrt, RingFluxes(radii, columns[b], row.rMin, row.rMax));
    }
  }

  /**
   * Each row carries its ring's edges, their midpoint and its source count
   * n_sources >= 1; it has statistics for exactly the requested bands that
   * are columns, each over at most n_sources valid values and satisfying
   * `BandFacts`.
   */
  lemma SourceRowsFacts(sqrt: real -> real, columns: Columns, radii: seq<Float>, bands: seq<string>, edges: seq<real>, k: nat)
    requires IsSqrt(sqrt) && Aligned(columns, radii)
    requires k <= NumRings(edges)
    ensures var rows := SourceRows(sqrt, columns, radii, bands, edges, k);
      forall a :: 0 <= a < |rows| ==> SourceRowFacts(sqrt, columns, radii, bands, edges, rows[a])
  {
    var rows, js := SourceRows(sqrt, columns, radii, bands, edges, k), Occupied(radii, edges, k);
    EmitIsOccupiedMap(radii, edges, k, SourceRowOf(sqrt, columns, radii, bands, edges));
    forall a | 0 <= a < |rows|
      ensures SourceRowFacts(sqrt, columns, radii, bands, edges, rows[a])
    {
      SourceRowSpec(sqrt, columns, radii, bands, edges, js[a]);
    }
  }

  function NSources(row: SourceRing): nat
  {
    row.nSources
  }

  /**
   * Over ascending edges, the n_sources of the rows add up to the number of
   * sources with edges[0] <= r < edges[k]: no source is counted twice or lost.
   */
  lemma SourcesCover(sqrt: real -> real, columns: Columns, radii: seq<Float>, bands: seq<string>, edges: seq<real>, k: nat)
    requires IsSqrt(sqrt) && Aligned(columns, radii)
    requires k <= NumRings(edges) && k < |edges| && Ascending(edges)
    ensures SumSizes(SourceRows(sqrt, columns, radii, bands, edges, k), NSources) == CountIn(radii, edges[0], edges[k])
  {
    EmitSizesCover(radii, edges, k, SourceRowOf(sqrt, columns, radii, bands, edges), NSources);
  }
}
