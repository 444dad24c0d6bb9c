/** Sample grids: `np.linspace` and `np.arange`. */
module Grid {
  import opened Trapezoid

  /** The spacing of `np.linspace(a, b, n)`: (b - a)/(n - 1), and 0 for a single sample. */
  function LinspaceStep(a: real, b: real, n: nat): real
  {
    if n < 2 then 0.0 else (b - a) / ((n - 1) as real)
  }

  /** `np.linspace(a, b, n)`: sample i is a + i * step, for n evenly spaced samples from a to b inclusive. */
  function Linspace(a: real, b: real, n: nat): (s: seq<real>)
    ensures |s| == n
  {
    seq(n, i requires 0 <= i < n => a + (i as real) * LinspaceStep(a, b, n))
  }

  /** The grid starts at a, ends at b and is evenly spaced by (b - a)/(n - 1). */
  lemma LinspaceEnds(a: real, b: real, n: nat)
    requires 2 <= n
    ensures Linspace(a, b, n)[0] == a
    ensures Linspace(a, b, n)[n - 1] == b
    ensures forall i :: 0 <= i < n - 1 ==>
      Linspace(a, b, n)[i + 1] - Linspace(a, b, n)[i] == (b - a) / ((n - 1) as real)
  {
    var s, w := Linspace(a, b, n), LinspaceStep(a, b, n);
    RealMath.DivMulCancel(b - a, (n - 1) as real);
    assert s[n - 1] == a + ((n - 1) as real) * w;
    forall i | 0 <= i < n - 1
      ensures s[i + 1] - s[i] == w
    {
      RealMath.MulSubDistrib((i + 1) as real, i as real, w);
    }
  }

  /** For a < b the grid strictly ascends. */
  lemma LinspaceStrictlyAscending(a: real, b: real, n: nat)
    requires a < b
    ensures StrictlyAscending(Linspace(a, b, n))
  {
    var s, w := Linspace(a, b, n), LinspaceStep(a, b, n);
    if n >= 2 {
      assert 0.0 < w;
      forall i, j | 0 <= i < j < n
        ensures s[i] < s[j]
      {
        RealMath.MulStrictMonotone(w, i as real, j as real);
      }
    }
  }

  /** For a <= b the grid ascends and never drops below a. */
  lemma LinspaceAscending(a: real, b: real, n: nat)
    requires a <= b
    ensures Ascending(Linspace(a, b, n))
    ensures forall i :: 0 <= i < n ==> a <= Linspace(a, b, n)[i]
  {
    var s, w := Linspace(a, b, n), LinspaceStep(a, b, n);
    assert 0.0 <= w;
    forall i, j | 0 <= i <= j < n
      ensures a <= s[i] <= s[j]
    {
      LinspaceSampleOrder(a, w, i, j);
    }
  }

  /** a <= a + i w <= a + j w for a non-negative spacing and 0 <= i <= j. */
  lemma LinspaceSampleOrder(a: real, w: real, i: nat, j: nat)
    requires 0.0 <= w && i <= j
    ensures a <= a + (i as real) * w <= a + (j as real) * w
  {
    RealMath.MulNonNegative(i as real, w);
    RealMath.MulMonotone(w, i as real, j as real);
    assert (i as real) * w == w * (i as real) && (j as real) * w == w * (j as real);
  }

  /** Ceiling of a real. */
  function Ceil(q: real): (c: int)
    ensures q <= c as real < q + 1.0
  {
    -((-q).Floor)
  }

  /** `len(np.arange(start, stop, step))`: ceil((stop - start)/step), never negative. */
  function ArangeLength(start: real, stop: real, step: real): nat
    requires step != 0.0
  {
    var c := Ceil((stop - start) / step);
    if c < 0 then 0 else c
  }

  /** `np.arange(start, stop, step)`. */
  function Arange(start: real, stop: real, step: real): (s: seq<real>)
    requires step != 0.0
    ensures |s| == ArangeLength(start, stop, step)
    ensures forall i :: 0 <= i < |s| ==> s[i] == start + (i as real) * step
  {
    seq(ArangeLength(start, stop, step), i requires 0 <= i => start + (i as real) * step)
  }

  /**
   * For a positive step, arange is exactly the values start + i*step that lie
   * below stop: every element is below stop, the next one would not be, and
   * the elements strictly ascend.
   */
  lemma ArangeBelowStop(start: real, stop: real, step: real)
    requires 0.0 < step
    ensures var s := Arange(start, stop, step);
      && (forall i :: 0 <= i < |s| ==> s[i] < stop)
      && start + (|s| as real) * step >= stop
      && StrictlyAscending(s)
  {
    var s := Arange(start, stop, step);
    var q := (stop - start) / step;
    assert start + q * step == stop by {
      RealMath.DivMulCancel(stop - start, step);
    }
    assert q <= |s| as real;
    forall i | 0 <= i < |s|
      ensures s[i] < stop
    {
      assert (i as real) < q;
      AffineStrict(start, step, i as real, q);
    }
    AffineMonotone(start, step, q, |s| as real);
    forall i, j | 0 <= i < j < |s|
      ensures s[i] < s[j]
    {
      AffineStrict(start, step, i as real, j as real);
    }
  }

  lemma AffineStrict(start: real, step: real, x: real, y: real)
    requires 0.0 < step && x < y
    ensures start + x * step < start + y * step
  {
    RealMath.MulStrictMonotone(step, x, y);
  }

  lemma AffineMonotone(start: real, step: real, x: real, y: real)
    requires 0.0 < step && x <= y
    ensures start + x * step <= start + y * step
  {
    RealMath.MulMonotone(step, x, y);
  }

  /** `x * k` on a whole grid (a unit conversion). */
  function ScaleGrid(xs: seq<real>, k: real): (ys: seq<real>)
    ensures |ys| == |xs|
    ensures forall i :: 0 <= i < |xs| ==> ys[i] == xs[i] * k
  {
    if xs == [] then [] else [xs[0] * k] + ScaleGrid(xs[1..], k)
  }

  /** A positive factor keeps a grid strictly ascending. */
  lemma ScaleGridStrictlyAscending(xs: seq<real>, k: real)
    requires 0.0 < k && StrictlyAscending(xs)
    ensures StrictlyAscending(ScaleGrid(xs, k))
  {
    var ys := ScaleGrid(xs, k);
    forall i, j | 0 <= i < j < |ys|
      ensures ys[i] < ys[j]
    {
      RealMath.MulStrictMonotone(k, xs[i], xs[j]);
    }
  }
}
