/**
 * TEST_THREE_PHASE_DECOUPLING.py: the three-phase picture of the outflow,
 * a subsonic phase inside the segmented zone, a transition where the metric
 * recouples and the velocity is boosted to v_base / gamma, and an inertial
 * expansion outside; the phase masks over the radius grid, the apparent
 * temperature T_local / gamma and the temperature released on recoupling.
 * gamma_seg is `Profile.GammaSeg` with the script's alpha = 0.12 and
 * r_c = 1.9 pc; numpy applies every law element-wise over the grid.
 */
module ThreePhase {
  import opened RealMath
  import opened Profile
  import opened Grid
  import opened Trapezoid

  const Alpha: real := 0.12
  const Rc: real := 1.9
  /** The internal temperature in K. */
  const TLocal: real := 80.0
  /** The sound speed of cold molecular gas in m/s. */
  const CS: real := 500.0
  /** The base expansion velocity in km/s. */
  const VBase: real := 10.0

  /** `gamma_seg(r)` */
  function Gamma(exp: real -> real, r: real): real
  {
    GammaSeg(exp, r, Alpha, Rc)
  }

  lemma GammaRange(exp: real -> real, r: real)
    requires IsExp(exp)
    ensures 1.0 - Alpha <= Gamma(exp, r) <= 1.0
  {
    GammaBounds(exp, r, Alpha, Rc);
  }

  /** `v_internal(r)`, in m/s: 0.1 c_s (1 - gamma). */
  function VInternal(exp: real -> real, r: real): real
  {
    CS * 0.1 * (1.0 - Gamma(exp, r))
  }

  /**
   * The internal velocity lies in [0, 0.1 c_s alpha] = [0, 6] m/s, so it is
   * subsonic (Mach at most 0.012); it is largest at the centre and falls off
   * outwards.
   */
  lemma VInternalSpec(exp: real -> real, r: real, r2: real)
    requires IsExp(exp)
    ensures 0.0 <= VInternal(exp, r) <= 0.1 * CS * Alpha
    ensures VInternal(exp, r) / CS <= 0.012 < 1.0
    ensures VInternal(exp, 0.0) == 0.1 * CS * Alpha
    ensures Abs(r) <= Abs(r2) ==> VInternal(exp, r2) <= VInternal(exp, r)
  {
    GammaRange(exp, r);
    GammaAtCentre(exp, Alpha, Rc);
    if Abs(r) <= Abs(r2) {
      GammaMonotone(exp, r, r2, Alpha, Rc);
    }
  }

  /** `v_transition(r)`, in km/s: the base velocity boosted by recoupling, v_base / gamma. */
  function VTransition(exp: real -> real, r: real): real
    requires IsExp(exp)
  {
    GammaPositive(exp, r, Alpha, Rc);
    VBase / Gamma(exp, r)
  }

  /**
   * The transition velocity is the observed velocity of the base flow
   * (v_base plus its excess); it lies in [10, 10 / 0.88] km/s; it is
   * largest at the centre and falls off outwards; and its Mach number
   * against c_s = 0.5 km/s is at least 20.
   */
  lemma VTransitionSpec(exp: real -> real, r: real, r2: real)
    requires IsExp(exp)
    ensures VTransition(exp, r) == VBase + VelocityExcess(VBase, Gamma(exp, r))
    ensures VBase <= VTransition(exp, r) <= VBase / (1.0 - Alpha)
    ensures 20.0 <= VTransition(exp, r) * 1000.0 / CS
    ensures Abs(r) <= Abs(r2) ==> VTransition(exp, r2) <= VTransition(exp, r)
  {
    var g := Gamma(exp, r);
    GammaRange(exp, r);
    VelocityExcessSpec(VBase, g);
    if g < 1.0 {
      ReciprocalDecreasing(g, 1.0);
    }
    if 1.0 - Alpha < g {
      ReciprocalDecreasing(1.0 - Alpha, g);
    }
    MulDivAssoc(VBase, 1.0, g);
    MulDivAssoc(VBase, 1.0, 1.0 - Alpha);
    if Abs(r) <= Abs(r2) {
      var g2 := Gamma(exp, r2);
      GammaMonotone(exp, r, r2, Alpha, Rc);
      GammaRange(exp, r2);
      if g < g2 {
        ReciprocalDecreasing(g, g2);
      }
      MulDivAssoc(VBase, 1.0, g2);
    }
  }

  /** `v_external(r)`, in km/s: 10 + 6 (1 - gamma). */
  function VExternal(exp: real -> real, r: real): real
  {
    10.0 + 6.0 * (1.0 - Gamma(exp, r))
  }

  /** The external velocity lies in [10, 10 + 6 alpha] km/s, peaks at the centre and falls off outwards. */
  lemma VExternalSpec(exp: real -> real, r: real, r2: real)
    requires IsExp(exp)
    ensures 10.0 <= VExternal(exp, r) <= 10.0 + 6.0 * Alpha
    ensures VExternal(exp, 0.0) == 10.0 + 6.0 * Alpha
    ensures Abs(r) <= Abs(r2) ==> VExternal(exp, r2) <= VExternal(exp, r)
  {
    GammaRange(exp, r);
    GammaAtCentre(exp, Alpha, Rc);
    if Abs(r) <= Abs(r2) {
      GammaMonotone(exp, r, r2, Alpha, Rc);
    }
  }

  /** `r_range = np.linspace(0.1, 5.0, 200)` */
  function RRange(): (rs: seq<real>)
    ensures |rs| == 200
  {
    Linspace(0.1, 5.0, 200)
  }

  /** `phase1_mask = r_range < 1.5` */
  function Phase1Mask(rs: seq<real>): (m: seq<bool>)
    ensures |m| == |rs| && forall i :: 0 <= i < |rs| ==> m[i] == (rs[i] < 1.5)
  {
    seq(|rs|, i requires 0 <= i < |rs| => rs[i] < 1.5)
  }

  /** `phase2_mask = (r_range >= 1.5) & (r_range <= 2.5)` */
  function Phase2Mask(rs: seq<real>): (m: seq<bool>)
    ensures |m| == |rs| && forall i :: 0 <= i < |rs| ==> m[i] == (1.5 <= rs[i] && rs[i] <= 2.5)
  {
    seq(|rs|, i requires 0 <= i < |rs| => 1.5 <= rs[i] && rs[i] <= 2.5)
  }

  /** `phase3_mask = r_range > 2.5` */
  function Phase3Mask(rs: seq<real>): (m: seq<bool>)
    ensures |m| == |rs| && forall i :: 0 <= i < |rs| ==> m[i] == (rs[i] > 2.5)
  {
    seq(|rs|, i requires 0 <= i < |rs| => rs[i] > 2.5)
  }

  datatype Phase = Subsonic | Transonic | Supersonic

  /** The phase a radius belongs to, ordered from the centre outwards. */
  function PhaseOf(r: real): Phase
  {
    if r < 1.5 then Subsonic else if r <= 2.5 then Transonic else Supersonic
  }

  function PhaseIndex(p: Phase): nat
  {
    match p
    case Subsonic => 1
    case Transonic => 2
    case Supersonic => 3
  }

  /**
   * The three masks partition any grid: every radius is in exactly one
   * phase, the one `PhaseOf` names; along an ascending grid the phases
   * never go backwards; and on `r_range` the first radius is subsonic and
   * the last supersonic, so the first and third masks are not empty.
   */
  lemma MasksPartition(rs: seq<real>)
    ensures forall i :: 0 <= i < |rs| ==>
      && (Phase1Mask(rs)[i] <==> PhaseOf(rs[i]) == Subsonic)
      && (Phase2Mask(rs)[i] <==> PhaseOf(rs[i]) == Transonic)
      && (Phase3Mask(rs)[i] <==> PhaseOf(rs[i]) == Supersonic)
    ensures forall i :: 0 <= i < |rs| ==>
      (if Phase1Mask(rs)[i] then 1 else 0) + (if Phase2Mask(rs)[i] then 1 else 0) + (if Phase3Mask(rs)[i] then 1 else 0) == 1
    ensures Ascending(rs) ==> forall i, j :: 0 <= i <= j < |rs| ==> PhaseIndex(PhaseOf(rs[i])) <= PhaseIndex(PhaseOf(rs[j]))
    ensures Phase1Mask(RRange())[0] && Phase3Mask(RRange())[199]
  {
    LinspaceEnds(0.1, 5.0, 200);
  }

  /** `T_obs = T_local / gamma_seg(r)`: the apparent temperature in the outer frame. */
  function TObs(exp: real -> real, r: real): real
    requires IsExp(exp)
  {
    GammaPositive(exp, r, Alpha, Rc);
    TLocal / Gamma(exp, r)
  }

  /**
   * The apparent temperature is never below the local one and at most
   * T_local / (1 - alpha); times gamma it gives T_local back.
   */
  lemma TObsSpec(exp: real -> real, r: real)
    requires IsExp(exp)
    ensures TLocal <= TObs(exp, r) <= TLocal / (1.0 - Alpha)
    ensures TObs(exp, r) * Gamma(exp, r) == TLocal
  {
    var g := Gamma(exp, r);
    GammaRange(exp, r);
    if g < 1.0 {
      ReciprocalDecreasing(g, 1.0);
    }
    if 1.0 - Alpha < g {
      ReciprocalDecreasing(1.0 - Alpha, g);
    }
    MulDivAssoc(TLocal, 1.0, g);
    MulDivAssoc(TLocal, 1.0, 1.0 - Alpha);
  }

  /** `DT_recouple = T_LOCAL * (1 - gamma_seg(r))` */
  function DeltaTRecouple(exp: real -> real, r: real): real
  {
    TLocal * (1.0 - Gamma(exp, r))
  }

  /**
   * The released temperature lies in [0, alpha T_local] and is largest at
   * the centre; the internal and external velocities are fixed multiples of
   * it above their floors (v_internal = c_s/800 dT, v_external = 10 +
   * 3/40 dT), so all three peak together.
   */
  lemma DeltaTRecoupleSpec(exp: real -> real, r: real)
    requires IsExp(exp)
    ensures 0.0 <= DeltaTRecouple(exp, r) <= Alpha * TLocal
    ensures DeltaTRecouple(exp, 0.0) == Alpha * TLocal
    ensures VInternal(exp, r) == (CS / 800.0) * DeltaTRecouple(exp, r)
    ensures VExternal(exp, r) == 10.0 + (3.0 / 40.0) * DeltaTRecouple(exp, r)
  {
    GammaRange(exp, r);
    GammaAtCentre(exp, Alpha, Rc);
  }

  /** `E_kinetic = 0.5 * (v_trans * 1000)**2`, in J/kg. */
  function EKinetic(exp: real -> real, r: real): real
    requires IsExp(exp)
  {
    0.5 * ((VTransition(exp, r) * 1000.0) * (VTransition(exp, r) * 1000.0))
  }

  /** The specific kinetic energy is at least that of the base flow, 0.5 (10 km/s)^2 = 5e7 J/kg. */
  lemma EKineticSpec(exp: real -> real, r: real)
    requires IsExp(exp)
    ensures 50000000.0 <= EKinetic(exp, r)
  {
    VTransitionSpec(exp, r, r);
    var w := VTransition(exp, r) * 1000.0;
    MulMonotone(10000.0, 10000.0, w);
    MulMonotone(w, 10000.0, w);
  }
}
