/**
 * Radial rings.  A point (a catalog source or an image pixel) with radius r
 * (pc) lies in ring i when edges[i] <= r < edges[i+1], the mask
 * `(r_pc >= r_min) & (r_pc < r_max)` of every ring script.  A NaN radius
 * compares false and falls in no ring.
 */
module Rings {
  import opened Floats
  import opened Trapezoid

  predicate InRing(r: Float, lo: real, hi: real)
  {
    r.Num? && lo <= r.v < hi
  }

  /** `np.sum(mask)` */
  function CountIn(rs: seq<Float>, lo: real, hi: real): nat
  {
    if rs == [] then 0
    else (if InRing(rs[0], lo, hi) then 1 else 0) + CountIn(rs[1..], lo, hi)
  }

  /** `col[mask]`: the entries of `col` whose radius lies in [lo, hi), in their original order. */
  function Pick<T>(rs: seq<Float>, col: seq<T>, lo: real, hi: real): (p: seq<T>)
    requires |rs| == |col|
    ensures |p| == CountIn(rs, lo, hi)
  {
    if rs == [] then []
    else (if InRing(rs[0], lo, hi) then [col[0]] else []) + Pick(rs[1..], col[1..], lo, hi)
  }

  /**
   * The radii an image contributes: a pixel whose value is not finite gets a
   * NaN radius, so that `InRing` on these radii is the mask
   * `(r_pc >= r_min) & (r_pc < r_max) & np.isfinite(data)`.
   */
  function PixelRadii(rs: seq<Float>, data: seq<Float>): (m: seq<Float>)
    requires |rs| == |data|
    ensures |m| == |rs|
    ensures forall k :: 0 <= k < |rs| ==> m[k] == (if data[k].Num? then rs[k] else NaN)
  {
    seq(|rs|, k requires 0 <= k < |rs| => if data[k].Num? then rs[k] else NaN)
  }

  /** `data[mask]` for the pixel mask above; every selected value is finite. */
  function RingPixels(rs: seq<Float>, data: seq<Float>, lo: real, hi: real): (v: seq<real>)
    requires |rs| == |data|
    ensures |v| == CountIn(PixelRadii(rs, data), lo, hi)
  {
    if rs == [] then []
    else
      assert PixelRadii(rs, data)[1..] == PixelRadii(rs[1..], data[1..]);
      (if InRing(rs[0], lo, hi) && data[0].Num? then [data[0].v] else [])
      + RingPixels(rs[1..], data[1..], lo, hi)
  }

  /** A value is selected for the ring exactly when some finite pixel with that value lies in it. */
  lemma {:induction false} RingPixelsMembership(rs: seq<Float>, data: seq<Float>, lo: real, hi: real, x: real)
    requires |rs| == |data|
    ensures x in RingPixels(rs, data, lo, hi) <==>
      exists k :: 0 <= k < |rs| && InRing(rs[k], lo, hi) && data[k] == Num(x)
  {
    if rs != [] {
      RingPixelsMembership(rs[1..], data[1..], lo, hi, x);
      if exists k :: 0 <= k < |rs| && InRing(rs[k], lo, hi) && data[k] == Num(x) {
        var k :| 0 <= k < |rs| && InRing(rs[k], lo, hi) && data[k] == Num(x);
        if k > 0 {
          assert InRing(rs[1..][k - 1], lo, hi) && data[1..][k - 1] == Num(x);
        }
      }
      if exists k :: 0 <= k < |rs| - 1 && InRing(rs[1..][k], lo, hi) && data[1..][k] == Num(x) {
        var k :| 0 <= k < |rs| - 1 && InRing(rs[1..][k], lo, hi) && data[1..][k] == Num(x);
        assert InRing(rs[k + 1], lo, hi) && data[k + 1] == Num(x);
      }
    }
  }

  /** Counting over [lo, hi) is counting over [lo, mid) plus [mid, hi). */
  lemma {:induction false} CountSplit(rs: seq<Float>, lo: real, mid: real, hi: real)
    requires lo <= mid <= hi
    ensures CountIn(rs, lo, hi) == CountIn(rs, lo, mid) + CountIn(rs, mid, hi)
  {
    if rs != [] {
      CountSplit(rs[1..], lo, mid, hi);
    }
  }

  /** Two different rings of an ascending edge list never share a point. */
  lemma RingsDisjoint(r: Float, edges: seq<real>, i: nat, j: nat)
    requires Ascending(edges) && i < j && j + 1 < |edges|
    ensures !(InRing(r, edges[i], edges[i + 1]) && InRing(r, edges[j], edges[j + 1]))
  {
    assert edges[i + 1] <= edges[j];
  }

  /** The number of rings an edge list defines: `zip(edges[:-1], edges[1:])`. */
  function NumRings(edges: seq<real>): nat
  {
    if |edges| == 0 then 0 else |edges| - 1
  }

  /** Indices j < k of the rings that hold at least one point, in increasing order. */
  function Occupied(rs: seq<Float>, edges: seq<real>, k: nat): seq<nat>
    requires k <= NumRings(edges)
  {
    if k == 0 then []
    else Occupied(rs, edges, k - 1) + (if CountIn(rs, edges[k - 1], edges[k]) > 0 then [k - 1] else [])
  }

  /**
   * The occupied rings are listed in strictly increasing order, and a ring
   * j < k is listed exactly when it holds a point.
   */
  lemma {:induction false} OccupiedSpec(rs: seq<Float>, edges: seq<real>, k: nat)
    requires k <= NumRings(edges)
    ensures var js := Occupied(rs, edges, k);
      && (forall a, b :: 0 <= a < b < |js| ==> js[a] < js[b])
      && (forall a :: 0 <= a < |js| ==> js[a] < k)
      && (forall j :: 0 <= j < k ==> (j in js <==> CountIn(rs, edges[j], edges[j + 1]) > 0))
  {
    if k > 0 {
      OccupiedSpec(rs, edges, k - 1);
    }
  }

  /** The number of points in ring j (0 for an index past the last ring). */
  function RingCount(rs: seq<Float>, edges: seq<real>, j: nat): nat
  {
    if j + 1 < |edges| then CountIn(rs, edges[j], edges[j + 1]) else 0
  }

  /**
   * The skeleton every ring script shares: walk the rings 0 .. k-1 in order
   * and append `row(j)` for each ring j that holds at least one point.
   */
  function Emit<R>(rs: seq<Float>, edges: seq<real>, k: nat, row: nat --> R): seq<R>
    requires k <= NumRings(edges)
    requires forall j :: 0 <= j < k && RingCount(rs, edges, j) > 0 ==> row.requires(j)
  {
    if k == 0 then []
    else
      var prev := Emit(rs, edges, k - 1, row);
      if RingCount(rs, edges, k - 1) > 0 then prev + [row(k - 1)] else prev
  }

  /** The emitted rows are the rows of the occupied rings, one each, in order. */
  lemma {:induction false} EmitIsOccupiedMap<R>(rs: seq<Float>, edges: seq<real>, k: nat, row: nat --> R)
    requires k <= NumRings(edges)
    requires forall j :: 0 <= j < k && RingCount(rs, edges, j) > 0 ==> row.requires(j)
    ensures var rows, js := Emit(rs, edges, k, row), Occupied(rs, edges, k);
      && |rows| == |js|
      && forall a :: 0 <= a < |rows| ==> js[a] < k && RingCount(rs, edges, js[a]) > 0 && rows[a] == row(js[a])
  {
    OccupiedSpec(rs, edges, k);
    if k > 0 {
      EmitIsOccupiedMap(rs, edges, k - 1, row);
    }
  }

  function SumSizes<R>(rows: seq<R>, size: R -> nat): nat
  {
    if rows == [] then 0 else SumSizes(rows[..|rows| - 1], size) + size(rows[|rows| - 1])
  }

  /**
   * When each row records its ring's count, the recorded counts add up to
   * the number of points with edges[0] <= r < edges[k] (ascending edges).
   */
  lemma {:induction false} EmitSizesCover<R>(rs: seq<Float>, edges: seq<real>, k: nat, row: nat --> R, size: R -> nat)
    requires k <= NumRings(edges) && k < |edges| && Ascending(edges)
    requires forall j :: 0 <= j < k && RingCount(rs, edges, j) > 0 ==> row.requires(j)
    requires forall j :: 0 <= j < k && RingCount(rs, edges, j) > 0 ==> size(row(j)) == RingCount(rs, edges, j)
    ensures SumSizes(Emit(rs, edges, k, row), size) == CountIn(rs, edges[0], edges[k])
  {
    if k == 0 {
      CountSplit(rs, edges[0], edges[0], edges[0]);
    } else {
      var prev := Emit(rs, edges, k - 1, row);
      EmitSizesCover(rs, edges, k - 1, row, size);
      CountSplit(rs, edges[0], edges[k - 1], edges[k]);
      if RingCount(rs, edges, k - 1) > 0 {
        var rows := prev + [row(k - 1)];
        assert rows[..|rows| - 1] == prev;
      }
    }
  }
}
