/**
 * The verdict ladders of the scripts: `if x < t0: ... elif x < t1: ... else: ...`.
 * The rung a value reaches is the index of the first threshold above it
 * (the number of thresholds when none is).
 */
module Ladder {
  function Rung(x: real, t: seq<real>): (k: nat)
    ensures k <= |t|
  {
    if t == [] then 0 else if x < t[0] then 0 else 1 + Rung(x, t[1..])
  }

  /** x has passed every threshold below its rung and is under the threshold of its rung. */
  lemma {:induction false} RungSpec(x: real, t: seq<real>)
    ensures forall i :: 0 <= i < Rung(x, t) ==> t[i] <= x
    ensures Rung(x, t) < |t| ==> x < t[Rung(x, t)]
  {
    if t != [] && t[0] <= x {
      RungSpec(x, t[1..]);
      forall i | 0 <= i < Rung(x, t)
        ensures t[i] <= x
      {
        if i > 0 {
          assert t[i] == t[1..][i - 1];
        }
      }
    }
  }

  /** A larger value never reaches a lower rung. */
  lemma {:induction false} RungMonotone(x: real, y: real, t: seq<real>)
    requires x <= y
    ensures Rung(x, t) <= Rung(y, t)
  {
    if t != [] && t[0] <= x {
      RungMonotone(x, y, t[1..]);
    }
  }

  /** The sigma ladder of the paper comparisons, `< 1`, `< 2`, `< 3`, else: rungs 0 to 3. */
  function SigmaRung(dev: real): (k: nat)
    ensures k <= 3
  {
    Rung(dev, [1.0, 2.0, 3.0])
  }

  /** Each rung of the sigma ladder holds on exactly one band of deviations. */
  lemma SigmaRungSpec(dev: real)
    ensures SigmaRung(dev) == 0 <==> dev < 1.0
    ensures SigmaRung(dev) == 1 <==> 1.0 <= dev < 2.0
    ensures SigmaRung(dev) == 2 <==> 2.0 <= dev < 3.0
    ensures SigmaRung(dev) == 3 <==> 3.0 <= dev
  {
    var t := [1.0, 2.0, 3.0];
    RungSpec(dev, t);
    assert t[0] == 1.0 && t[1] == 2.0 && t[2] == 3.0;
  }
}
