/**
 * The composite trapezoid rule of `np.trapz(y, x)` (also `scipy.integrate.trapezoid`):
 * the sum over neighbouring samples of (x[i+1] - x[i]) * (y[i] + y[i+1]) / 2.
 * Fewer than two samples integrate to 0.
 */
module Trapezoid {
  import opened RealMath

  /** The panel between samples i and i + 1. */
  function Panel(y: seq<real>, x: seq<real>, i: nat): real
    requires |y| == |x| && i + 1 < |x|
  {
    (x[i + 1] - x[i]) * (y[i] + y[i + 1]) / 2.0
  }

  function Trapz(y: seq<real>, x: seq<real>): real
    requires |y| == |x|
    decreases |x|
  {
    if |x| < 2 then 0.0
    else Trapz(y[..|y| - 1], x[..|x| - 1]) + Panel(y, x, |x| - 2)
  }

  /** `y + c` element-wise. */
  function Shift(y: seq<real>, c: real): (s: seq<real>)
    ensures |s| == |y|
    ensures forall i :: 0 <= i < |y| ==> s[i] == y[i] + c
  {
    seq(|y|, i requires 0 <= i < |y| => y[i] + c)
  }

  predicate Ascending(x: seq<real>)
  {
    forall i, j :: 0 <= i <= j < |x| ==> x[i] <= x[j]
  }

  predicate StrictlyAscending(x: seq<real>)
  {
    forall i, j :: 0 <= i < j < |x| ==> x[i] < x[j]
  }

  /** Integrating over the first i + 1 samples adds exactly panel i - 1 to the integral over the first i. */
  lemma {:induction false} TrapzPrefixStep(y: seq<real>, x: seq<real>, i: nat)
    requires |y| == |x| && 1 <= i < |x|
    ensures Trapz(y[..i + 1], x[..i + 1]) == Trapz(y[..i], x[..i]) + Panel(y, x, i - 1)
  {
    var ys, xs := y[..i + 1], x[..i + 1];
    assert ys[..|ys| - 1] == y[..i] && xs[..|xs| - 1] == x[..i];
    assert Panel(ys, xs, |xs| - 2) == Panel(y, x, i - 1);
  }

  /**
   * Linearity of the rule: raising every sample by c raises the integral by
   * c times the length of the interval.
   */
  lemma {:induction false} TrapzShift(y: seq<real>, x: seq<real>, c: real)
    requires |y| == |x| && 1 <= |x|
    ensures Trapz(Shift(y, c), x) == Trapz(y, x) + c * (x[|x| - 1] - x[0])
  {
    if |x| >= 2 {
      var n := |x|;
      var ys := Shift(y, c);
      assert ys[..n - 1] == Shift(y[..n - 1], c);
      TrapzShift(y[..n - 1], x[..n - 1], c);
      calc {
        Trapz(ys, x);
      ==
        Trapz(Shift(y[..n - 1], c), x[..n - 1]) + Panel(ys, x, n - 2);
      ==
        Trapz(y[..n - 1], x[..n - 1]) + c * (x[n - 2] - x[0]) + Panel(ys, x, n - 2);
      ==
        { assert Panel(ys, x, n - 2) == Panel(y, x, n - 2) + c * (x[n - 1] - x[n - 2]); }
        Trapz(y[..n - 1], x[..n - 1]) + Panel(y, x, n - 2) + c * (x[n - 1] - x[0]);
      }
    }
  }

  /** Non-negative samples on an ascending grid integrate to a non-negative value. */
  lemma {:induction false} TrapzNonNegative(y: seq<real>, x: seq<real>)
    requires |y| == |x|
    requires Ascending(x)
    requires forall i :: 0 <= i < |y| ==> 0.0 <= y[i]
    ensures 0.0 <= Trapz(y, x)
  {
    if |x| >= 2 {
      var n := |x|;
      TrapzNonNegative(y[..n - 1], x[..n - 1]);
      MulNonNegative(x[n - 1] - x[n - 2], y[n - 2] + y[n - 1]);
    }
  }

  /** Positive samples on a strictly ascending grid of two or more points integrate to a positive value. */
  lemma {:induction false} TrapzPositive(y: seq<real>, x: seq<real>)
    requires |y| == |x| && 2 <= |x|
    requires StrictlyAscending(x)
    requires forall i :: 0 <= i < |y| ==> 0.0 < y[i]
    ensures 0.0 < Trapz(y, x)
  {
    var n := |x|;
    var ys, xs := y[..n - 1], x[..n - 1];
    var p := Panel(y, x, n - 2);
    assert x[n - 2] < x[n - 1];
    MulPositive(x[n - 1] - x[n - 2], y[n - 2] + y[n - 1]);
    assert 0.0 < p;
    if n > 2 {
      assert StrictlyAscending(xs);
      assert forall i :: 0 <= i < |ys| ==> 0.0 < ys[i];
      TrapzPositive(ys, xs);
    } else {
      assert Trapz(ys, xs) == 0.0;
    }
    assert Trapz(y, x) == Trapz(ys, xs) + p;
  }

  /** All-zero samples integrate to 0 on any grid. */
  lemma {:induction false} TrapzZero(y: seq<real>, x: seq<real>)
    requires |y| == |x|
    requires forall i :: 0 <= i < |y| ==> y[i] == 0.0
    ensures Trapz(y, x) == 0.0
  {
    if |x| >= 2 {
      TrapzZero(y[..|y| - 1], x[..|x| - 1]);
    }
  }
}
