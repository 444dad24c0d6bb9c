/**
 * The ring-averaging loop over a 2-D image that `fits_2d_to_rings`
 * (scripts/fetch_and_extract_complete.py) and the `main` of
 * scripts/extract_akari_rings.py both run: for each ring, select the finite
 * pixels with edges[i] <= r < edges[i+1]; if there are any, append a row with
 * the edges, the midpoint radius, the mean, median and population standard
 * deviation of the selected values, the standard error std/sqrt(n) and the
 * pixel count.  Images are flattened in row-major order; `radii[k]` is the
 * radius (pc) of pixel k.
 */
module RingAverages {
  import opened RealMath
  import opened Floats
  import opened Trapezoid
  import opened Stats
  import opened Rings

  /** A pixel of a 2-D image: its radius from the centre (pc, from the WCS) and its value. */
  datatype Pixel = Pixel(r: Float, value: Float)

  function Radii(pixels: seq<Pixel>): (rs: seq<Float>)
    ensures |rs| == |pixels|
  {
    seq(|pixels|, k requires 0 <= k < |pixels| => pixels[k].r)
  }

  function Values(pixels: seq<Pixel>): (vs: seq<Float>)
    ensures |vs| == |pixels|
  {
    seq(|pixels|, k requires 0 <= k < |pixels| => pixels[k].value)
  }

  datatype RingAverage = RingAverage(
    ring: nat, rInner: real, rOuter: real, radius: real,
    mean: real, median: real, std: real, err: real, nPixels: nat)

  /** The pixel mask of ring j is not empty. */
  predicate Lit(radii: seq<Float>, data: seq<Float>, edges: seq<real>, j: nat)
    requires |radii| == |data|
  {
    j + 1 < |edges| && CountIn(PixelRadii(radii, data), edges[j], edges[j + 1]) > 0
  }

  /** The row of an occupied ring. */
  function Average(sqrt: real -> real, radii: seq<Float>, data: seq<Float>, edges: seq<real>, j: nat): RingAverage
    requires IsSqrt(sqrt) && |radii| == |data|
    requires Lit(radii, data, edges, j)
  {
    var vals := RingPixels(radii, data, edges[j], edges[j + 1]);
    var n := |vals|;
    var std := PopulationStd(sqrt, vals);
    SqrtPositive(sqrt, n as real);
    RingAverage(j, edges[j], edges[j + 1], 0.5 * (edges[j] + edges[j + 1]),
                Mean(vals), Median(vals), std, std / sqrt(n as real), n)
  }

  /** `Average` as the row function of `Emit`. */
  function AverageOf(sqrt: real -> real, radii: seq<Float>, data: seq<Float>, edges: seq<real>): nat --> RingAverage
    requires IsSqrt(sqrt) && |radii| == |data|
  {
    (j: nat) requires Lit(radii, data, edges, j) => Average(sqrt, radii, data, edges, j)
  }

  /** The rows emitted for rings 0 .. k-1. */
  function Rows(sqrt: real -> real, radii: seq<Float>, data: seq<Float>, edges: seq<real>, k: nat): seq<RingAverage>
    requires IsSqrt(sqrt) && |radii| == |data|
    requires k <= NumRings(edges)
  {
    Emit(PixelRadii(radii, data), edges, k, AverageOf(sqrt, radii, data, edges))
  }

  /** The ring loop. */
  method AverageRings(sqrt: real -> real, radii: seq<Float>, data: seq<Float>, edges: seq<real>)
    returns (rows: seq<RingAverage>)
    requires IsSqrt(sqrt) && |radii| == |data|
    ensures rows == Rows(sqrt, radii, data, edges, NumRings(edges))
  {
    rows := [];
    var i := 0;
    while i < NumRings(edges)
      invariant i <= NumRings(edges)
      invariant rows == Rows(sqrt, radii, data, edges, i)
    {
      var vals := RingPixels(radii, data, edges[i], edges[i + 1]);
      if |vals| > 0 {
        rows := rows + [Average(sqrt, radii, data, edges, i)];
      }
      i := i + 1;
    }
  }

  /**
   * Rows appear in strictly increasing ring order, and ring j < k has a row
   * exactly when one of its pixels is finite.
   */
  lemma RowsOrder(sqrt: real -> real, radii: seq<Float>, data: seq<Float>, edges: seq<real>, k: nat)
    requires IsSqrt(sqrt) && |radii| == |data|
    requires k <= NumRings(edges)
    ensures var rows := Rows(sqrt, radii, data, edges, k);
      && (forall a, b :: 0 <= a < b < |rows| ==> rows[a].ring < rows[b].ring)
      && (forall j :: 0 <= j < k ==> (Lit(radii, data, edges, j) <==> exists a :: 0 <= a < |rows| && rows[a].ring == j))
  {
    var rows, js := Rows(sqrt, radii, data, edges, k), Occupied(PixelRadii(radii, data), edges, k);
    EmitIsOccupiedMap(PixelRadii(radii, data), edges, k, AverageOf(sqrt, radii, data, edges));
    OccupiedSpec(PixelRadii(radii, data), edges, k);
    assert forall a :: 0 <= a < |rows| ==> rows[a].ring == js[a];
    forall j | 0 <= j < k
      ensures Lit(radii, data, edges, j) <==> exists a :: 0 <= a < |rows| && rows[a].ring == j
    {
      if Lit(radii, data, edges, j) {
        assert j in js;
        var a :| 0 <= a < |js| && js[a] == j;
        assert rows[a].ring == j;
      }
    }
  }

  /**
   * Each row carries its ring's edges and their midpoint, n_pixels >= 1
   * selected values, a mean and a median between the smallest and largest
   * of them, a non-negative std and err = std/sqrt(n_pixels).
   */
  lemma RowsFacts(sqrt: real -> real, radii: seq<Float>, data: seq<Float>, edges: seq<real>, k: nat)
    requires IsSqrt(sqrt) && |radii| == |data|
    requires k <= NumRings(edges)
    ensures var rows := Rows(sqrt, radii, data, edges, k);
      forall a :: 0 <= a < |rows| ==> RowFacts(sqrt, radii, data, edges, rows[a])
  {
    var rows, js := Rows(sqrt, radii, data, edges, k), Occupied(PixelRadii(radii, data), edges, k);
    EmitIsOccupiedMap(PixelRadii(radii, data), edges, k, AverageOf(sqrt, radii, data, edges));
    forall a | 0 <= a < |rows|
      ensures RowFacts(sqrt, radii, data, edges, rows[a])
    {
      AverageFacts(sqrt, radii, data, edges, js[a]);
    }
  }

  /** The facts every emitted row satisfies. */
  predicate RowFacts(sqrt: real -> real, radii: seq<Float>, data: seq<Float>, edges: seq<real>, row: RingAverage)
    requires |radii| == |data|
  {
    && row.ring + 1 < |edges|
    && row.rInner == edges[row.ring] && row.rOuter == edges[row.ring + 1]
    && row.radius == (row.rInner + row.rOuter) / 2.0
    && var vals := RingPixels(radii, data, row.rInner, row.rOuter);
    && row.nPixels == |vals| >= 1
    && MinOf(vals) <= row.mean <= MaxOf(vals)
    && MinOf(vals) <= row.median <= MaxOf(vals)
    && 0.0 <= row.std
    && row.err * sqrt(row.nPixels as real) == row.std
  }

  lemma AverageFacts(sqrt: real -> real, radii: seq<Float>, data: seq<Float>, edges: seq<real>, j: nat)
    requires IsSqrt(sqrt) && |radii| == |data|
    requires Lit(radii, data, edges, j)
    ensures RowFacts(sqrt, radii, data, edges, Average(sqrt, radii, data, edges, j))
  {
    var vals := RingPixels(radii, data, edges[j], edges[j + 1]);
    MeanBetweenMinAndMax(vals);
    MedianBetweenMinAndMax(vals);
    PopulationStdNonNegative(sqrt, vals);
    SqrtPositive(sqrt, |vals| as real);
  }

  function NPixels(row: RingAverage): nat
  {
    row.nPixels
  }

  /**
   * Over ascending edges, the rows account for every finite pixel with
   * edges[0] <= r < edges[k] exactly once.
   */
  lemma TotalPixelsCover(sqrt: real -> real, radii: seq<Float>, data: seq<Float>, edges: seq<real>, k: nat)
    requires IsSqrt(sqrt) && |radii| == |data|
    requires k <= NumRings(edges) && k < |edges| && Ascending(edges)
    ensures SumSizes(Rows(sqrt, radii, data, edges, k), NPixels) == CountIn(PixelRadii(radii, data), edges[0], edges[k])
  {
    EmitSizesCover(PixelRadii(radii, data), edges, k, AverageOf(sqrt, radii, data, edges), NPixels);
  }
}
