/**
 * The isothermal sound speed c_s = sqrt(k_B T / (mu m_H)) of molecular gas
 * (mu = 2.3) and the Mach number v / c_s, as `sound_speed` and
 * `calculate_mach_number` of scripts/analyze_nh3_velocities.py compute them
 * and `is_bound` of scripts/two_metric_model.py repeats them.  The values
 * are numpy floats: a negative temperature gives a NaN sound speed, and a
 * zero sound speed an infinite or NaN Mach number.
 */
module Gas {
  import opened RealMath
  import opened Floats

  /** Boltzmann's constant in J/K, the hydrogen mass in kg, the mean molecular weight. */
  const KB: real := 1.380649 / 100000000000000000000000.0
  const MH: real := 1.673557 / 1000000000000000000000000000.0
  const Mu: real := 2.3

  /** k_B T / (mu m_H), the square of the sound speed in m/s. */
  function SoundSpeedSquared(t: real): real
  {
    KB * t / (Mu * MH)
  }

  /** The sound speed in m/s, `np.sqrt(k_B * T / (mu * m_H))`. */
  function SoundSpeedSi(sqrt: real -> real, t: real): Float
  {
    SqrtF(sqrt, Num(SoundSpeedSquared(t)))
  }

  /** `sound_speed(T_K)`: the sound speed in km/s. */
  function SoundSpeed(sqrt: real -> real, t: real): Float
  {
    Scale(SoundSpeedSi(sqrt, t), 0.001)
  }

  /**
   * A negative temperature has no sound speed (NaN); otherwise it is a
   * non-negative number whose square, back in m/s, is k_B T / (mu m_H), and
   * it is positive for a positive temperature.
   */
  lemma SoundSpeedSpec(sqrt: real -> real, t: real)
    requires IsSqrt(sqrt)
    ensures t < 0.0 <==> SoundSpeed(sqrt, t).NaN?
    ensures 0.0 <= t ==>
      && SoundSpeed(sqrt, t).Num? && 0.0 <= SoundSpeed(sqrt, t).v
      && (1000.0 * SoundSpeed(sqrt, t).v) * (1000.0 * SoundSpeed(sqrt, t).v) == SoundSpeedSquared(t)
      && SoundSpeed(sqrt, t).v * 1000.0 == SoundSpeedSi(sqrt, t).v
    ensures 0.0 < t ==> 0.0 < SoundSpeed(sqrt, t).v
  {
    var x := SoundSpeedSquared(t);
    if t < 0.0 {
      assert x < 0.0;
    } else {
      MulNonNegative(KB, t);
      assert 0.0 <= x;
      if 0.0 < t {
        MulPositive(KB, t);
        SqrtPositive(sqrt, x);
      }
    }
  }

  /** A hotter gas never has a slower sound speed. */
  lemma SoundSpeedMonotone(sqrt: real -> real, t1: real, t2: real)
    requires IsSqrt(sqrt)
    requires 0.0 <= t1 <= t2
    ensures SoundSpeed(sqrt, t1).Num? && SoundSpeed(sqrt, t2).Num?
    ensures SoundSpeed(sqrt, t1).v <= SoundSpeed(sqrt, t2).v
  {
    SoundSpeedSpec(sqrt, t1);
    SoundSpeedSpec(sqrt, t2);
    MulMonotone(KB, t1, t2);
    DivMonotone(KB * t1, KB * t2, Mu * MH);
    SqrtMonotone(sqrt, SoundSpeedSquared(t1), SoundSpeedSquared(t2));
  }

  /** numpy's `x / d` for a finite x: a finite divisor as in `Div`, an infinite one gives 0, NaN stays NaN. */
  function DivBy(x: real, d: Float): Float
  {
    match d
    case Num(y) => Div(x, y)
    case NaN => NaN
    case _ => Num(0.0)
  }

  /** `calculate_mach_number(v_km_s, T_K)`: v / c_s. */
  function MachNumber(sqrt: real -> real, v: real, t: real): Float
  {
    DivBy(v, SoundSpeed(sqrt, t))
  }

  /**
   * For a positive temperature the Mach number is finite, times the sound
   * speed it gives back v, it is non-negative for v >= 0, and M < 0.3
   * exactly when v < 0.3 c_s.  At T = 0 it is +inf, NaN or -inf by the sign
   * of v; below 0 K it is NaN.
   */
  lemma MachNumberSpec(sqrt: real -> real, v: real, t: real)
    requires IsSqrt(sqrt)
    ensures 0.0 < t ==>
      var m, cs := MachNumber(sqrt, v, t), SoundSpeed(sqrt, t);
      && m.Num? && cs.Num? && m.v * cs.v == v
      && (0.0 <= v ==> 0.0 <= m.v)
      && (Less(m, 0.3) <==> v < 0.3 * cs.v)
    ensures t == 0.0 ==> MachNumber(sqrt, v, t) == Div(v, 0.0)
    ensures t < 0.0 ==> MachNumber(sqrt, v, t).NaN?
  {
    SoundSpeedSpec(sqrt, t);
    if t == 0.0 {
      SqrtZero(sqrt);
      assert SoundSpeedSquared(t) == 0.0;
    }
    if 0.0 < t {
      var cs := SoundSpeed(sqrt, t).v;
      var m := v / cs;
      assert MachNumber(sqrt, v, t) == Num(m);
      DivMulCancel(v, cs);
      if 0.0 <= v {
        DivMonotone(0.0, v, cs);
      }
      if m < 0.3 {
        MulStrictMonotone(cs, m, 0.3);
      } else {
        MulMonotone(cs, 0.3, m);
      }
    }
  }
}
