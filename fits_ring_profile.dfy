/**
 * scripts/fits_to_ring_profile.py: `create_ring_profile_2d` and the 2-D path
 * of `main` (ring-edge construction, file check, empty-profile check).
 */
module FitsRingProfile {
  import opened Wrappers
  import opened RealMath
  import opened Floats
  import opened Trapezoid
  import opened Grid
  import opened Stats
  import opened Rings
  import opened RingAverages

  datatype ProfileRing = ProfileRing(
    ring: nat, radius: real, rInner: real, rOuter: real,
    mean: real, std: real, sem: real, median: real, min: real, max: real, nPixels: nat)

  /** The row of an occupied ring: nanmean, nanstd, nanmedian, nanmin, nanmax and the standard error. */
  function ProfileRow(sqrt: real -> real, radii: seq<Float>, data: seq<Float>, edges: seq<real>, j: nat): ProfileRing
    requires IsSqrt(sqrt) && |radii| == |data|
    requires Lit(radii, data, edges, j)
  {
    var vals := RingPixels(radii, data, edges[j], edges[j + 1]);
    var n := |vals|;
    var std := PopulationStd(sqrt, vals);
    SqrtPositive(sqrt, n as real);
    var sem := if n > 1 then std / sqrt(n as real) else std;
    ProfileRing(j, 0.5 * (edges[j] + edges[j + 1]), edges[j], edges[j + 1],
                Mean(vals), std, sem, Median(vals), MinOf(vals), MaxOf(vals), n)
  }

  /** `ProfileRow` as the row function of `Emit`. */
  function ProfileRowOf(sqrt: real -> real, radii: seq<Float>, data: seq<Float>, edges: seq<real>): nat --> ProfileRing
    requires IsSqrt(sqrt) && |radii| == |data|
  {
    (j: nat) requires Lit(radii, data, edges, j) => ProfileRow(sqrt, radii, data, edges, j)
  }

  /** The rows emitted for rings 0 .. k-1. */
  function ProfileRows(sqrt: real -> real, radii: seq<Float>, data: seq<Float>, edges: seq<real>, k: nat): seq<ProfileRing>
    requires IsSqrt(sqrt) && |radii| == |data|
    requires k <= NumRings(edges)
  {
    Emit(PixelRadii(radii, data), edges, k, ProfileRowOf(sqrt, radii, data, edges))
  }

  /** `create_ring_profile_2d(data, r_pc, r_edges)` */
  method CreateRingProfile2D(sqrt: real -> real, data: seq<Float>, radii: seq<Float>, edges: seq<real>)
    returns (rows: seq<ProfileRing>)
    requires IsSqrt(sqrt) && |radii| == |data|
    ensures rows == ProfileRows(sqrt, radii, data, edges, NumRings(edges))
  {
    rows := [];
    var i := 0;
    while i < NumRings(edges)
      invariant i <= NumRings(edges)
      invariant rows == ProfileRows(sqrt, radii, data, edges, i)
    {
      var vals := RingPixels(radii, data, edges[i], edges[i + 1]);
      if |vals| > 0 {
        rows := rows + [ProfileRow(sqrt, radii, data, edges, i)];
      }
      i := i + 1;
    }
  }

  /** What every emitted row records about its ring. */
  predicate ProfileRowFacts(sqrt: real -> real, radii: seq<Float>, data: seq<Float>, edges: seq<real>, row: ProfileRing)
    requires |radii| == |data|
  {
    && row.ring + 1 < |edges|
    && row.rInner == edges[row.ring] && row.rOuter == edges[row.ring + 1]
    && row.radius == (row.rInner + row.rOuter) / 2.0
    && var vals := RingPixels(radii, data, row.rInner, row.rOuter);
    && row.nPixels == |vals| >= 1
    && row.min in vals && row.max in vals
    && (forall i :: 0 <= i < |vals| ==> row.min <= vals[i] <= row.max)
    && row.min <= row.mean <= row.max
    && row.min <= row.median <= row.max
    && 0.0 <= row.std
    && (row.nPixels > 1 ==> row.sem * sqrt(row.nPixels as real) == row.std)
    && (row.nPixels == 1 ==> row.sem == row.std)
  }

  lemma ProfileRowSpec(sqrt: real -> real, radii: seq<Float>, data: seq<Float>, edges: seq<real>, j: nat)
    requires IsSqrt(sqrt) && |radii| == |data|
    requires Lit(radii, data, edges, j)
    ensures ProfileRowFacts(sqrt, radii, data, edges, ProfileRow(sqrt, radii, data, edges, j))
  {
    var vals := RingPixels(radii, data, edges[j], edges[j + 1]);
    var row := ProfileRow(sqrt, radii, data, edges, j);
    assert row.ring == j && row.rInner == edges[j] && row.rOuter == edges[j + 1];
    assert row.radius == (row.rInner + row.rOuter) / 2.0;
    assert row.nPixels == |vals|;
    ProfileRowRange(sqrt, radii, data, edges, j);
    ProfileRowSem(sqrt, radii, data, edges, j);
  }

  /** I_min and I_max are the extremes of the selected values and bracket I_mean and I_median. */
  lemma ProfileRowRange(sqrt: real -> real, radii: seq<Float>, data: seq<Float>, edges: seq<real>, j: nat)
    requires IsSqrt(sqrt) && |radii| == |data|
    requires Lit(radii, data, edges, j)
    ensures var row, vals := ProfileRow(sqrt, radii, data, edges, j), RingPixels(radii, data, edges[j], edges[j + 1]);
      && row.min in vals && row.max in vals
      && (forall i :: 0 <= i < |vals| ==> row.min <= vals[i] <= row.max)
      && row.min <= row.mean <= row.max
      && row.min <= row.median <= row.max
  {
    var vals := RingPixels(radii, data, edges[j], edges[j + 1]);
    MeanBetweenMinAndMax(vals);
    MedianBetweenMinAndMax(vals);
    MinMaxAttained(vals);
    MinMaxBound(vals);
  }

  /** I_std >= 0, and I_sem = I_std/sqrt(n) for n > 1, I_std for n = 1. */
  lemma ProfileRowSem(sqrt: real -> real, radii: seq<Float>, data: seq<Float>, edges: seq<real>, j: nat)
    requires IsSqrt(sqrt) && |radii| == |data|
    requires Lit(radii, data, edges, j)
    ensures var row := ProfileRow(sqrt, radii, data, edges, j);
      && row.nPixels >= 1
      && 0.0 <= row.std
      && (row.nPixels > 1 ==> row.sem * sqrt(row.nPixels as real) == row.std)
      && (row.nPixels == 1 ==> row.sem == row.std)
  {
    var vals := RingPixels(radii, data, edges[j], edges[j + 1]);
    var row := ProfileRow(sqrt, radii, data, edges, j);
    assert row.nPixels == |vals| && row.std == PopulationStd(sqrt, vals);
    PopulationStdNonNegative(sqrt, vals);
    SqrtPositive(sqrt, |vals| as real);
    if row.nPixels > 1 {
      assert row.sem == row.std / sqrt(|vals| as real);
      DivMulCancel(row.std, sqrt(|vals| as real));
    }
  }

  /**
   * The profile lists rings in strictly increasing order and has a row for
   * ring j exactly when a finite pixel lies in it.
   */
  lemma ProfileRowsOrder(sqrt: real -> real, radii: seq<Float>, data: seq<Float>, edges: seq<real>, k: nat)
    requires IsSqrt(sqrt) && |radii| == |data|
    requires k <= NumRings(edges)
    ensures var rows := ProfileRows(sqrt, radii, data, edges, k);
      && (forall a, b :: 0 <= a < b < |rows| ==> rows[a].ring < rows[b].ring)
      && (forall j :: 0 <= j < k ==> (Lit(radii, data, edges, j) <==> exists a :: 0 <= a < |rows| && rows[a].ring == j))
  {
    var rows, js := ProfileRows(sqrt, radii, data, edges, k), Occupied(PixelRadii(radii, data), edges, k);
    EmitIsOccupiedMap(PixelRadii(radii, data), edges, k, ProfileRowOf(sqrt, radii, data, edges));
    OccupiedSpec(PixelRadii(radii, data), edges, k);
    assert forall a :: 0 <= a < |rows| ==> rows[a].ring == js[a];
    forall j | 0 <= j < k
      ensures Lit(radii, data, edges, j) <==> exists a :: 0 <= a < |rows| && rows[a].ring == j
    {
      if Lit(radii, data, edges, j) {
        assert j in js;
        var a :| 0 <= a < |js| && js[a] == j;
        assert rows[a].ring == j;
      }
    }
  }

  /**
   * Every row satisfies `ProfileRowFacts`: I_min and I_max are the smallest
   * and largest of the n_pixels selected values, I_mean and I_median lie
   * between them, and I_sem = I_std/sqrt(n) for n > 1, I_std for n = 1.
   */
  lemma ProfileRowsFacts(sqrt: real -> real, radii: seq<Float>, data: seq<Float>, edges: seq<real>, k: nat)
    requires IsSqrt(sqrt) && |radii| == |data|
    requires k <= NumRings(edges)
    ensures var rows := ProfileRows(sqrt, radii, data, edges, k);
      forall a :: 0 <= a < |rows| ==> ProfileRowFacts(sqrt, radii, data, edges, rows[a])
  {
    var rows, js := ProfileRows(sqrt, radii, data, edges, k), Occupied(PixelRadii(radii, data), edges, k);
    EmitIsOccupiedMap(PixelRadii(radii, data), edges, k, ProfileRowOf(sqrt, radii, data, edges));
    forall a | 0 <= a < |rows|
      ensures ProfileRowFacts(sqrt, radii, data, edges, rows[a])
    {
      ProfileRowSpec(sqrt, radii, data, edges, js[a]);
    }
  }

  datatype Outcome = Exit(status: int) | Written(csv: string, rows: seq<ProfileRing>)

  /**
   * The 2-D path of `main`: edges `np.arange(r_min, r_max + r_step, r_step)`
   * (a zero step raises, and an empty edge list raises when its first edge
   * is printed), a missing file returns 1, an empty profile returns 1, and
   * otherwise the rows are written to `--output` (default "ring_profile.csv").
   * `load` gives the image's pixels with their WCS radii (None: it raised).
   */
  method Run(sqrt: real -> real, fitsPath: string, output: string, rMin: real, rMax: real, rStep: real,
             fileExists: string -> bool, load: string -> Option<seq<Pixel>>)
    returns (r: Result<Outcome>)
    requires IsSqrt(sqrt)
    ensures rStep == 0.0 ==> r.Err?
    ensures rStep != 0.0 && |Arange(rMin, rMax + rStep, rStep)| == 0 ==> r.Err?
    ensures rStep != 0.0 && |Arange(rMin, rMax + rStep, rStep)| > 0 ==>
      && (!fileExists(fitsPath) ==> r == Ok(Exit(1)))
      && (fileExists(fitsPath) && load(fitsPath).None? ==> r.Err?)
      && (fileExists(fitsPath) && load(fitsPath).Some? ==>
            var px, edges := load(fitsPath).value, Arange(rMin, rMax + rStep, rStep);
            var rows := ProfileRows(sqrt, Radii(px), Values(px), edges, NumRings(edges));
            r == if rows == [] then Ok(Exit(1)) else Ok(Written(output, rows)))
  {
    if rStep == 0.0 {
      return Err("arange: step is zero");
    }
    var edges := Arange(rMin, rMax + rStep, rStep);
    if |edges| == 0 {
      return Err("index 0 is out of bounds for the empty edge array");
    }
    if !fileExists(fitsPath) {
      return Ok(Exit(1));
    }
    var image := load(fitsPath);
    if image.None? {
      return Err("cannot read FITS image");
    }
    var rows := CreateRingProfile2D(sqrt, Values(image.value), Radii(image.value), edges);
    if rows == [] {
      return Ok(Exit(1));
    }
    return Ok(Written(output, rows));
  }
}
