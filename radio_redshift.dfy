/**
 * scripts/radio_redshift_prediction.py: the redshifted frequency
 * nu' = nu0 * gamma_seg, the wavelength conversion table, the radio band
 * ladder, the emission-law dispatch with its normalisation, the Effelsberg
 * verdict, and the frequency shift and radio mask of `main`.  Frequencies
 * and wavelengths computed from numpy values follow numpy's division:
 * a zero frequency gives an infinite (or NaN) wavelength.
 */
module RadioRedshift {
  import opened Wrappers
  import opened RealMath
  import opened Floats
  import opened Stats

  /** `C`, the speed of light in m/s. */
  const C: real := 299792458.0

  /** `calculate_redshifted_frequency(nu_0, gamma_seg)` */
  function RedshiftedFrequency(nu0: real, gamma: real): real
  {
    nu0 * gamma
  }

  /** `delta_nu = nu0 - nu_prime` of `main`. */
  function FrequencyShift(nu0: real, gamma: real): real
  {
    nu0 - RedshiftedFrequency(nu0, gamma)
  }

  /**
   * The shift and the redshifted frequency add up to nu0; for nu0 > 0 and
   * 0 < gamma <= 1 the redshifted frequency is positive and never above nu0,
   * so the shift is non-negative, and it is zero exactly when gamma = 1.
   */
  lemma RedshiftSpec(nu0: real, gamma: real)
    ensures FrequencyShift(nu0, gamma) + RedshiftedFrequency(nu0, gamma) == nu0
    ensures 0.0 < nu0 && 0.0 < gamma <= 1.0 ==>
      && 0.0 < RedshiftedFrequency(nu0, gamma) <= nu0
      && 0.0 <= FrequencyShift(nu0, gamma)
      && (FrequencyShift(nu0, gamma) == 0.0 <==> gamma == 1.0)
  {
    if 0.0 < nu0 && 0.0 < gamma <= 1.0 {
      MulPositive(nu0, gamma);
      MulMonotone(nu0, gamma, 1.0);
      if gamma < 1.0 {
        MulStrictMonotone(nu0, gamma, 1.0);
      }
    }
  }

  /** The `conversions` table of `frequency_to_wavelength`: metres to each unit. */
  const Conversions: map<string, real> :=
    map["m" := 1.0, "cm" := 100.0, "mm" := 1000.0, "um" := 1000000.0, "nm" := 1000000000.0]

  /** `frequency_to_wavelength(nu, unit)`: c / nu in metres, times the unit's factor; an unknown unit raises. */
  function FrequencyToWavelength(nu: real, unit: string): (r: Result<Float>)
    ensures r.Err? <==> unit !in Conversions
  {
    if unit !in Conversions then Err("Unknown unit")
    else Ok(Scale(Div(C, nu), Conversions[unit]))
  }

  /**
   * For a non-zero frequency the wavelength is c / nu times the table factor,
   * and it multiplied by nu gives back c times that factor; the cm value is
   * 100 times the m value and the mm value 10 times the cm value.  A zero
   * frequency gives +inf in every unit.
   */
  lemma WavelengthSpec(nu: real)
    ensures forall u :: u in Conversions ==> FrequencyToWavelength(nu, u).Ok?
    ensures nu != 0.0 ==> forall u :: u in Conversions ==>
      && FrequencyToWavelength(nu, u) == Ok(Num(C / nu * Conversions[u]))
      && FrequencyToWavelength(nu, u).value.v * nu == C * Conversions[u]
    ensures FrequencyToWavelength(nu, "cm") == Ok(Scale(FrequencyToWavelength(nu, "m").value, 100.0))
    ensures FrequencyToWavelength(nu, "mm") == Ok(Scale(FrequencyToWavelength(nu, "cm").value, 10.0))
    ensures nu == 0.0 ==> forall u :: u in Conversions ==> FrequencyToWavelength(nu, u) == Ok(PosInf)
  {
    assert Conversions["m"] == 1.0 && Conversions["cm"] == 100.0 && Conversions["mm"] == 1000.0;
    if nu != 0.0 {
      forall u | u in Conversions
        ensures FrequencyToWavelength(nu, u).value.v * nu == C * Conversions[u]
      {
        var k := Conversions[u];
        assert C / nu * k * nu == (C / nu * nu) * k;
      }
    }
  }

  datatype RadioBand = SubMm | Mm | Cm | Dm | M

  /** `classify_radio_band(nu)` */
  function ClassifyRadioBand(nu: real): RadioBand
  {
    if nu >= 300000000000.0 then SubMm
    else if nu >= 30000000000.0 then Mm
    else if nu >= 3000000000.0 then Cm
    else if nu >= 300000000.0 then Dm
    else M
  }

  /** The bands by wavelength, shortest first. */
  function BandIndex(b: RadioBand): nat
  {
    match b
    case SubMm => 0
    case Mm => 1
    case Cm => 2
    case Dm => 3
    case M => 4
  }

  /**
   * The band of nu is the one whose frequency interval holds nu, and the
   * ladder is monotone: a higher frequency never lands in a longer-wavelength band.
   */
  lemma ClassifyRadioBandSpec(nu: real, nu2: real)
    ensures ClassifyRadioBand(nu) == SubMm <==> 3e11 <= nu
    ensures ClassifyRadioBand(nu) == Mm <==> 3e10 <= nu < 3e11
    ensures ClassifyRadioBand(nu) == Cm <==> 3e9 <= nu < 3e10
    ensures ClassifyRadioBand(nu) == Dm <==> 3e8 <= nu < 3e9
    ensures ClassifyRadioBand(nu) == M <==> nu < 3e8
    ensures nu <= nu2 ==> BandIndex(ClassifyRadioBand(nu2)) <= BandIndex(ClassifyRadioBand(nu))
  {
  }

  /** `I_radio /= np.max(I_radio)`, with numpy division (0/0 is NaN). */
  function Normalize(xs: seq<real>): (ys: seq<Float>)
    requires |xs| > 0
    ensures |ys| == |xs|
  {
    var m := MaxOf(xs);
    seq(|xs|, i requires 0 <= i < |xs| => Div(xs[i], m))
  }

  /** With a positive maximum every value becomes finite, at most 1, and the maximum itself becomes exactly 1. */
  lemma NormalizeSpec(xs: seq<real>)
    requires |xs| > 0 && 0.0 < MaxOf(xs)
    ensures var ys := Normalize(xs);
      && (forall i :: 0 <= i < |ys| ==> ys[i].Num? && ys[i].v <= 1.0)
      && (exists i :: 0 <= i < |ys| && ys[i] == Num(1.0))
      && ((forall i :: 0 <= i < |xs| ==> 0.0 <= xs[i]) ==> forall i :: 0 <= i < |ys| ==> 0.0 <= ys[i].v)
  {
    var m, ys := MaxOf(xs), Normalize(xs);
    MinMaxBound(xs);
    MinMaxAttained(xs);
    forall i | 0 <= i < |ys|
      ensures ys[i].Num? && ys[i].v <= 1.0
      ensures 0.0 <= xs[i] ==> 0.0 <= ys[i].v
    {
      DivByMax(xs[i], m);
    }
    var k :| 0 <= k < |xs| && xs[k] == m;
    DivByMax(xs[k], m);
    assert ys[k] == Div(xs[k], m);
  }

  lemma DivByMax(x: real, m: real)
    requires 0.0 < m && x <= m
    ensures Div(x, m).Num? && Div(x, m).v <= 1.0
    ensures 0.0 <= x ==> 0.0 <= Div(x, m).v
    ensures x == m ==> Div(x, m) == Num(1.0)
  {
    DivMonotone(x, m, m);
    assert m / m == 1.0;
    if 0.0 <= x {
      DivMonotone(0.0, x, m);
    }
  }

  /** The thermal law (1 - gamma)^2 at one gamma: never negative, and zero exactly at gamma = 1. */
  function ThermalAt(g: real): (x: real)
    ensures 0.0 <= x
    ensures x == 0.0 <==> g == 1.0
  {
    SquareSign(1.0 - g);
    Product(1.0 - g, 1.0 - g)
  }

  /** The thermal law over the profile. */
  function Thermal(gs: seq<real>): (xs: seq<real>)
    ensures |xs| == |gs|
    ensures forall i :: 0 <= i < |gs| ==> xs[i] == ThermalAt(gs[i])
  {
    if gs == [] then [] else [ThermalAt(gs[0])] + Thermal(gs[1..])
  }

  /**
   * The power law `(nu' / nu0)^alpha` at every gamma, `pw` standing for
   * `x -> x^-0.7`: since nu' = nu0 * gamma, each value is the law at gamma.
   */
  function PowerLaw(pw: real -> real, gs: seq<real>, nu0: real): (xs: seq<real>)
    requires nu0 != 0.0
    ensures |xs| == |gs|
    ensures forall i :: 0 <= i < |gs| ==> xs[i] == pw(gs[i])
  {
    if gs == [] then []
    else
      assert RedshiftedFrequency(nu0, gs[0]) / nu0 == gs[0];
      [pw(RedshiftedFrequency(nu0, gs[0]) / nu0)] + PowerLaw(pw, gs[1..], nu0)
  }

  /**
   * `predict_radio_emission(r_pc, gamma_seg, nu_0, emission_law)`: 'power'
   * applies the -0.7 power law `pw` to nu'/nu0 = gamma, 'thermal' takes
   * (1 - gamma)^2; any other law raises, and so does the maximum of an empty
   * profile.  The result is divided by its maximum.
   */
  function PredictRadioEmission(pw: real -> real, gs: seq<real>, nu0: real, law: string): (r: Result<seq<Float>>)
    requires law == "power" ==> nu0 != 0.0
    ensures r.Err? <==> (law != "power" && law != "thermal") || gs == []
  {
    if law != "power" && law != "thermal" then Err("Unknown emission law")
    else if gs == [] then Err("zero-size array to reduction operation maximum")
    else if law == "power" then Ok(Normalize(PowerLaw(pw, gs, nu0)))
    else Ok(Normalize(Thermal(gs)))
  }

  /**
   * The thermal prediction lies in [0, 1] and reaches 1 whenever some gamma
   * differs from 1; when every gamma is 1 the maximum is 0 and every value is NaN.
   */
  lemma ThermalPredictionSpec(pw: real -> real, gs: seq<real>, nu0: real)
    requires gs != []
    ensures var ys := PredictRadioEmission(pw, gs, nu0, "thermal").value;
      && ((exists i :: 0 <= i < |gs| && gs[i] != 1.0) ==>
            && (forall i :: 0 <= i < |ys| ==> ys[i].Num? && 0.0 <= ys[i].v <= 1.0)
            && (exists i :: 0 <= i < |ys| && ys[i] == Num(1.0)))
      && ((forall i :: 0 <= i < |gs| ==> gs[i] == 1.0) ==> forall i :: 0 <= i < |ys| ==> ys[i].NaN?)
  {
    if exists i :: 0 <= i < |gs| && gs[i] != 1.0 {
      var i :| 0 <= i < |gs| && gs[i] != 1.0;
      ThermalPeak(gs, i);
    }
    if forall i :: 0 <= i < |gs| ==> gs[i] == 1.0 {
      ThermalFlat(gs);
    }
  }

  /** A gamma other than 1 makes the thermal maximum positive, so `Normalize` keeps [0, 1] and reaches 1. */
  lemma ThermalPeak(gs: seq<real>, i: nat)
    requires i < |gs| && gs[i] != 1.0
    ensures var ys := Normalize(Thermal(gs));
      && (forall i :: 0 <= i < |ys| ==> ys[i].Num? && 0.0 <= ys[i].v <= 1.0)
      && (exists i :: 0 <= i < |ys| && ys[i] == Num(1.0))
  {
    var xs := Thermal(gs);
    MinMaxBound(xs);
    assert 0.0 < xs[i];
    NormalizeSpec(xs);
  }

  /** When every gamma is 1 the thermal values are all 0, and 0/0 is NaN everywhere. */
  lemma ThermalFlat(gs: seq<real>)
    requires gs != [] && forall i :: 0 <= i < |gs| ==> gs[i] == 1.0
    ensures var ys := Normalize(Thermal(gs));
      forall i :: 0 <= i < |ys| ==> ys[i].NaN?
  {
    var xs := Thermal(gs);
    MinMaxAttained(xs);
    var k :| 0 <= k < |xs| && xs[k] == MaxOf(xs);
    assert MaxOf(xs) == 0.0;
  }

  /**
   * The power-law prediction is the law at each gamma divided by the largest
   * of them: with a positive law it lies in [0, 1] and reaches 1.
   */
  lemma PowerPredictionSpec(pw: real -> real, gs: seq<real>, nu0: real)
    requires gs != [] && nu0 != 0.0
    requires forall i :: 0 <= i < |gs| ==> 0.0 < pw(gs[i])
    ensures var ys := PredictRadioEmission(pw, gs, nu0, "power").value;
      && |ys| == |gs|
      && (forall i :: 0 <= i < |ys| ==> ys[i] == Div(pw(gs[i]), MaxOf(PowerLaw(pw, gs, nu0))))
      && (forall i :: 0 <= i < |ys| ==> ys[i].Num? && 0.0 <= ys[i].v <= 1.0)
      && (exists i :: 0 <= i < |ys| && ys[i] == Num(1.0))
  {
    var xs := PowerLaw(pw, gs, nu0);
    MinMaxBound(xs);
    assert 0.0 < xs[0] <= MaxOf(xs);
    NormalizeSpec(xs);
  }

  /**
   * With `pw` a negative power, the power-law prediction over positive gammas
   * strictly falls as gamma grows: the emission is strongest where time runs
   * slowest.  A point reaches the normalised peak 1 exactly when its gamma is
   * the profile's smallest.
   */
  lemma PowerPredictionDecreasing(pw: real -> real, gs: seq<real>, nu0: real)
    requires IsNegativePower(pw) && gs != [] && nu0 != 0.0
    requires forall i :: 0 <= i < |gs| ==> 0.0 < gs[i]
    ensures var ys := PredictRadioEmission(pw, gs, nu0, "power").value;
      && (forall i :: 0 <= i < |ys| ==> ys[i].Num?)
      && (forall i, j :: 0 <= i < |gs| && 0 <= j < |gs| && gs[i] < gs[j] ==> ys[j].v < ys[i].v)
      && (forall i :: 0 <= i < |gs| ==> (ys[i] == Num(1.0) <==> gs[i] == MinOf(gs)))
  {
    var xs := PowerLaw(pw, gs, nu0);
    LawPeak(pw, gs, nu0);
    LawDecreasing(pw, gs, nu0);
    NormalizeByPeak(xs, pw(MinOf(gs)));
  }

  /** Over positive gammas a larger gamma gives a strictly smaller law value. */
  lemma LawDecreasing(pw: real -> real, gs: seq<real>, nu0: real)
    requires IsNegativePower(pw) && nu0 != 0.0
    requires forall i :: 0 <= i < |gs| ==> 0.0 < gs[i]
    ensures var xs := PowerLaw(pw, gs, nu0);
      forall i, j :: 0 <= i < |gs| && 0 <= j < |gs| && gs[i] < gs[j] ==> xs[j] < xs[i]
  {
  }

  /** Dividing by a positive maximum m keeps the order, and gives 1 exactly for the values equal to m. */
  lemma NormalizeByPeak(xs: seq<real>, m: real)
    requires |xs| > 0 && 0.0 < m == MaxOf(xs)
    ensures var ys := Normalize(xs);
      && (forall i :: 0 <= i < |ys| ==> ys[i] == Num(xs[i] / m))
      && (forall i, j :: 0 <= i < |xs| && 0 <= j < |xs| && xs[j] < xs[i] ==> ys[j].v < ys[i].v)
      && (forall i :: 0 <= i < |xs| ==> (ys[i] == Num(1.0) <==> xs[i] == m))
  {
    var ys := Normalize(xs);
    assert forall i :: 0 <= i < |ys| ==> ys[i] == Div(xs[i], m);
    forall i, j | 0 <= i < |xs| && 0 <= j < |xs| && xs[j] < xs[i]
      ensures ys[j].v < ys[i].v
    {
      DivStrictMonotone(xs[j], xs[i], m);
    }
    forall i | 0 <= i < |xs|
      ensures ys[i] == Num(1.0) <==> xs[i] == m
    {
      DivIsOne(xs[i], m);
    }
  }

  lemma DivIsOne(x: real, m: real)
    requires 0.0 < m
    ensures x / m == 1.0 <==> x == m
  {
    DivMulCancel(x, m);
    if x == m {
      DivMulCancel(m, m);
      assert m * (m / m) == m * 1.0;
    }
  }

  /** The largest power-law value is the law at the smallest gamma, and only smallest gammas reach it. */
  lemma LawPeak(pw: real -> real, gs: seq<real>, nu0: real)
    requires IsNegativePower(pw) && gs != [] && nu0 != 0.0
    requires forall i :: 0 <= i < |gs| ==> 0.0 < gs[i]
    ensures 0.0 < pw(MinOf(gs)) == MaxOf(PowerLaw(pw, gs, nu0))
    ensures forall i :: 0 <= i < |gs| && gs[i] != MinOf(gs) ==> pw(gs[i]) < pw(MinOf(gs))
  {
    var xs := PowerLaw(pw, gs, nu0);
    MinMaxBound(gs);
    MinMaxAttained(gs);
    MinMaxBound(xs);
    MinMaxAttained(xs);
    var top :| 0 <= top < |xs| && xs[top] == MaxOf(xs);
    var lo :| 0 <= lo < |gs| && gs[lo] == MinOf(gs);
    assert xs[lo] <= MaxOf(xs);
    NegativePowerAntitone(pw, MinOf(gs), gs[top]);
  }

  /** A negative power never grows: 0 < x <= y gives pw(y) <= pw(x). */
  lemma NegativePowerAntitone(pw: real -> real, x: real, y: real)
    requires IsNegativePower(pw) && 0.0 < x <= y
    ensures pw(y) <= pw(x)
  {
    if x < y {
      assert pw(y) < pw(x);
    }
  }

  /** `radio_mask = (lambda_cm >= 0.1) & (lambda_cm <= 100)`: NaN and the infinities are outside. */
  function RadioMask(lambdaCm: seq<Float>): (mask: seq<bool>)
    ensures |mask| == |lambdaCm|
  {
    seq(|lambdaCm|, i requires 0 <= i < |lambdaCm| => AtLeast(lambdaCm[i], 0.1) && AtMost(lambdaCm[i], 100.0))
  }

  /** The radio points of `main`: exactly the finite wavelengths between 1 mm and 1 m. */
  lemma RadioMaskSpec(lambdaCm: seq<Float>)
    ensures forall i :: 0 <= i < |lambdaCm| ==>
      (RadioMask(lambdaCm)[i] <==> lambdaCm[i].Num? && 0.1 <= lambdaCm[i].v <= 100.0)
  {
  }

  datatype Match = Excellent | GoodMatch | Differs

  /** The verdict of `compare_with_effelsberg` on lambda' in cm (NaN compares false). */
  function EffelsbergVerdict(lambdaCm: Float): Match
  {
    if AtLeast(lambdaCm, 4.0) && AtMost(lambdaCm, 8.0) then Excellent
    else if AtLeast(lambdaCm, 2.0) && AtMost(lambdaCm, 10.0) then GoodMatch
    else Differs
  }

  /**
   * The verdict bands: EXCELLENT on [4, 8] cm, GOOD on the rest of [2, 10]
   * cm, and a difference anywhere else, including NaN and the infinities.
   */
  lemma EffelsbergVerdictSpec(lambdaCm: Float)
    ensures EffelsbergVerdict(lambdaCm) == Excellent <==> lambdaCm.Num? && 4.0 <= lambdaCm.v <= 8.0
    ensures EffelsbergVerdict(lambdaCm) == GoodMatch <==>
      lambdaCm.Num? && 2.0 <= lambdaCm.v <= 10.0 && !(4.0 <= lambdaCm.v <= 8.0)
    ensures EffelsbergVerdict(lambdaCm) == Differs <==> !(lambdaCm.Num? && 2.0 <= lambdaCm.v <= 10.0)
  {
  }

  /**
   * With the defaults (a far-IR source at 3e12 Hz and gamma = 0.92) the
   * predicted wavelength is c / (2.76e12 Hz), about 0.011 cm, far from the
   * 6 cm band: the verdict is a difference, not a match.
   */
  lemma DefaultComparisonDiffers()
    ensures var l := FrequencyToWavelength(RedshiftedFrequency(3000000000000.0, 0.92), "cm");
      && l.Ok? && l.value.Num? && l.value.v < 0.02
      && EffelsbergVerdict(l.value) == Differs
  {
    WavelengthSpec(RedshiftedFrequency(3000000000000.0, 0.92));
    assert RedshiftedFrequency(3000000000000.0, 0.92) == 2760000000000.0;
    assert Conversions["cm"] == 100.0;
  }
}
