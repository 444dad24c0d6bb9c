/**
 * scripts/extract_radial_profile_from_fits.py: classify a FITS file by the
 * dimensionality of its data HDU, bin the finite pixels of the image (or of
 * a cube's moment-0 map) into `n_bins` radial bins with their mean and
 * standard error, and write the profile as CSV lines.
 */
module RadialProfile {
  import opened Wrappers
  import opened RealMath
  import opened Floats
  import opened Trapezoid
  import opened Grid
  import opened Stats
  import opened Text
  import opened Paths
  import opened RingAverages

  /**
   * The data of an HDU: its number of axes, its pixels with their radii from
   * the WCS (for a cube, the pixels of its moment-0 map, `np.nansum` over
   * the velocity axis), and the largest radius that stays inside the image,
   * `min(x0, y0, nx - x0, ny - y0)` pixels times the pixel scale.
   */
  datatype Image = Image(ndim: nat, pixels: seq<Pixel>, rMax: real)

  /** A header-data unit; `data` is None when it carries no array. */
  datatype Hdu = Hdu(data: Option<Image>)

  const TwoD: string := "2D image"
  const ThreeD: string := "3D cube (likely velocity cube)"
  const FourD: string := "4D cube (stokes + velocity)"
  const Unknown: string := "Unknown"

  /** The HDU `load_fits_file` describes: the first extension when the primary HDU is empty and one exists. */
  function DataHdu(hdus: seq<Hdu>): (k: nat)
    requires |hdus| > 0
    ensures k < |hdus|
  {
    if hdus[0].data.None? && |hdus| > 1 then 1 else 0
  }

  /** `len(data.shape)`, or 0 without data. */
  function NDim(hdu: Hdu): nat
  {
    if hdu.data.Some? then hdu.data.value.ndim else 0
  }

  function FileTypeOf(ndim: nat): string
  {
    if ndim == 2 then TwoD
    else if ndim == 3 then ThreeD
    else if ndim == 4 then FourD
    else Unknown
  }

  /** The file type `load_fits_file` reports. */
  function FileType(hdus: seq<Hdu>): string
    requires |hdus| > 0
  {
    FileTypeOf(NDim(hdus[DataHdu(hdus)]))
  }

  /**
   * The type describes HDU 1 exactly when the primary HDU has no data and
   * an extension exists; a "2D image" or "3D cube" type means that HDU has
   * data with 2 or 3 axes; every other dimensionality is "4D cube" (4) or
   * "Unknown".
   */
  lemma FileTypeSpec(hdus: seq<Hdu>)
    requires |hdus| > 0
    ensures var h := hdus[DataHdu(hdus)];
      && (h == hdus[1] <== hdus[0].data.None? && |hdus| > 1)
      && (h == hdus[0] <== hdus[0].data.Some? || |hdus| == 1)
      && (FileType(hdus) == TwoD <==> h.data.Some? && h.data.value.ndim == 2)
      && (FileType(hdus) == ThreeD <==> h.data.Some? && h.data.value.ndim == 3)
      && (FileType(hdus) == FourD <==> h.data.Some? && h.data.value.ndim == 4)
      && (FileType(hdus) == Unknown <==> h.data.None? || h.data.value.ndim !in {2, 3, 4})
  {
  }

  /** `main`'s dispatch: the type names "2D" only for 2-axis data and "3D" only for 3-axis data. */
  lemma DispatchSpec(ndim: nat)
    ensures Contains(FileTypeOf(ndim), "2D") <==> ndim == 2
    ensures Contains(FileTypeOf(ndim), "3D") <==> ndim == 3
  {
    if ndim == 2 {
      NamesIn(TwoD, "2D", "3D");
    } else if ndim == 3 {
      NamesIn(ThreeD, "3D", "2D");
    } else if ndim == 4 {
      NotContainsEither(FourD, "2D", "3D");
    } else {
      NotContainsEither(Unknown, "2D", "3D");
    }
  }

  /** A type name starting with `yes` and without the first character of `no` contains the one and not the other. */
  lemma NamesIn(name: string, yes: string, no: string)
    requires |yes| <= |name| && name[..|yes|] == yes
    requires |no| > 0 && forall i :: 0 <= i < |name| ==> name[i] != no[0]
    ensures Contains(name, yes) && !Contains(name, no)
  {
    NotContains(name, no);
  }

  /** A name lacking the first characters of both markers contains neither. */
  lemma NotContainsEither(name: string, t: string, u: string)
    requires |t| > 0 && |u| > 0
    requires forall i :: 0 <= i < |name| ==> name[i] != t[0] && name[i] != u[0]
    ensures !Contains(name, t) && !Contains(name, u)
  {
    NotContains(name, t);
    NotContains(name, u);
  }

  /** The radial bins of `extract_radial_profile_2d`: bin 0 holds r < radii[0], bin i > 0 holds radii[i-1] <= r < radii[i]. */
  predicate InBin(r: Float, radii: seq<real>, i: nat)
    requires i < |radii|
  {
    r.Num? && (if i == 0 then r.v < radii[0] else radii[i - 1] <= r.v < radii[i])
  }

  /**
   * On strictly ascending bin radii every finite radius below the last one
   * lies in exactly one bin.
   */
  lemma BinsPartition(r: real, radii: seq<real>)
    requires StrictlyAscending(radii) && |radii| > 0 && r < radii[|radii| - 1]
    ensures exists i :: 0 <= i < |radii| && InBin(Num(r), radii, i)
    ensures forall i, j :: 0 <= i < |radii| && 0 <= j < |radii| && InBin(Num(r), radii, i) && InBin(Num(r), radii, j) ==> i == j
  {
    if r < radii[0] {
      assert InBin(Num(r), radii, 0);
    } else {
      var i := 1;
      while radii[i] <= r
        invariant 1 <= i < |radii| && radii[i - 1] <= r
        decreases |radii| - i
      {
        i := i + 1;
      }
      assert InBin(Num(r), radii, i);
    }
  }

  /** `data[mask]` with the non-finite values dropped: the finite values of the pixels in bin i, in pixel order. */
  function BinPixels(pixels: seq<Pixel>, radii: seq<real>, i: nat): seq<real>
    requires i < |radii|
  {
    if pixels == [] then []
    else
      (if InBin(pixels[0].r, radii, i) && pixels[0].value.Num? then [pixels[0].value.v] else [])
      + BinPixels(pixels[1..], radii, i)
  }

  /** A value is in bin i exactly when a finite pixel of that value lies in the bin. */
  lemma {:induction false} BinPixelsMembership(pixels: seq<Pixel>, radii: seq<real>, i: nat, x: real)
    requires i < |radii|
    ensures x in BinPixels(pixels, radii, i) <==>
      exists k :: 0 <= k < |pixels| && InBin(pixels[k].r, radii, i) && pixels[k].value == Num(x)
  {
    if pixels != [] {
      BinPixelsMembership(pixels[1..], radii, i, x);
      if x in BinPixels(pixels[1..], radii, i) {
        var k :| 0 <= k < |pixels[1..]| && InBin(pixels[1..][k].r, radii, i) && pixels[1..][k].value == Num(x);
        assert pixels[k + 1] == pixels[1..][k];
      }
      if exists k :: 0 <= k < |pixels| && InBin(pixels[k].r, radii, i) && pixels[k].value == Num(x) {
        var k :| 0 <= k < |pixels| && InBin(pixels[k].r, radii, i) && pixels[k].value == Num(x);
        if k > 0 {
          assert pixels[1..][k - 1] == pixels[k];
        }
      }
    }
  }

  /** `np.mean` of the bin's values, NaN for an empty bin. */
  function BinValue(pixels: seq<Pixel>, radii: seq<real>, i: nat): Float
    requires i < |radii|
  {
    var v := BinPixels(pixels, radii, i);
    if |v| > 0 then Num(Mean(v)) else NaN
  }

  /** `np.std / np.sqrt(n)` of the bin's values, NaN for an empty bin. */
  function BinError(sqrt: real -> real, pixels: seq<Pixel>, radii: seq<real>, i: nat): Float
    requires IsSqrt(sqrt) && i < |radii|
  {
    var v := BinPixels(pixels, radii, i);
    if |v| > 0 then
      SqrtPositive(sqrt, |v| as real);
      Num(PopulationStd(sqrt, v) / sqrt(|v| as real))
    else NaN
  }

  /**
   * A bin's value and error are NaN exactly when no finite pixel lies in it;
   * otherwise the value lies between the bin's smallest and largest value and
   * the error is non-negative, with error * sqrt(n) = std.
   */
  lemma BinSpec(sqrt: real -> real, pixels: seq<Pixel>, radii: seq<real>, i: nat)
    requires IsSqrt(sqrt) && i < |radii|
    ensures var v := BinPixels(pixels, radii, i);
      && (BinValue(pixels, radii, i).NaN? <==> v == [])
      && (BinError(sqrt, pixels, radii, i).NaN? <==> v == [])
      && (v != [] ==>
            && MinOf(v) <= BinValue(pixels, radii, i).v <= MaxOf(v)
            && 0.0 <= BinError(sqrt, pixels, radii, i).v
            && BinError(sqrt, pixels, radii, i).v * sqrt(|v| as real) == PopulationStd(sqrt, v))
  {
    var v := BinPixels(pixels, radii, i);
    if v != [] {
      MeanBetweenMinAndMax(v);
      PopulationStdNonNegative(sqrt, v);
      SqrtPositive(sqrt, |v| as real);
      var s, q := PopulationStd(sqrt, v), sqrt(|v| as real);
      DivMonotone(0.0, s, q);
      DivMulCancel(s, q);
    }
  }

  /** The bin radii, the values and the errors. */
  datatype Profile = Profile(radii: seq<real>, values: seq<Float>, errors: seq<Float>)

  /** The profile of an image over `np.linspace(0.1, r_max, n_bins)`. */
  function ProfileOf(sqrt: real -> real, image: Image, nBins: nat): (p: Profile)
    requires IsSqrt(sqrt)
    ensures |p.radii| == |p.values| == |p.errors| == nBins
  {
    var radii := Linspace(0.1, image.rMax, nBins);
    Profile(radii,
            seq(nBins, i requires 0 <= i < nBins => BinValue(image.pixels, radii, i)),
            seq(nBins, i requires 0 <= i < nBins => BinError(sqrt, image.pixels, radii, i)))
  }

  /** The binning loop of `extract_radial_profile_2d`: fills the preallocated `values` and `errors` bin by bin. */
  method ExtractRadialProfile2D(sqrt: real -> real, image: Image, nBins: nat)
    returns (radii: seq<real>, values: array<Float>, errors: array<Float>)
    requires IsSqrt(sqrt)
    ensures fresh(values) && fresh(errors)
    ensures Profile(radii, values[..], errors[..]) == ProfileOf(sqrt, image, nBins)
  {
    radii := Linspace(0.1, image.rMax, nBins);
    values := new Float[nBins](_ => Num(0.0));
    errors := new Float[nBins](_ => Num(0.0));
    for i := 0 to nBins
      invariant forall k :: 0 <= k < i ==>
        values[k] == BinValue(image.pixels, radii, k) && errors[k] == BinError(sqrt, image.pixels, radii, k)
    {
      var inRing := BinPixels(image.pixels, radii, i);
      if |inRing| > 0 {
        values[i] := Num(Mean(inRing));
        SqrtPositive(sqrt, |inRing| as real);
        errors[i] := Num(PopulationStd(sqrt, inRing) / sqrt(|inRing| as real));
      } else {
        values[i] := NaN;
        errors[i] := NaN;
      }
    }
    assert values[..] == ProfileOf(sqrt, image, nBins).values;
    assert errors[..] == ProfileOf(sqrt, image, nBins).errors;
  }

  /**
   * `extract_radial_profile_2d(hdu, ..., n_bins)`: an HDU without data, data
   * that is not 2-D (`ny, nx = data.shape`), a negative bin count
   * (`np.linspace`) and no bins at all (the report of `radii_pc[0]`) raise.
   */
  function Extract2D(sqrt: real -> real, hdu: Hdu, nBins: int): Result<Profile>
    requires IsSqrt(sqrt)
  {
    if hdu.data.None? then Err("'NoneType' object has no attribute 'shape'")
    else if hdu.data.value.ndim != 2 then Err("data.shape does not unpack into (ny, nx)")
    else if nBins < 0 then Err("Number of samples must be non-negative")
    else if nBins == 0 then Err("index 0 is out of bounds for axis 0 with size 0")
    else Ok(ProfileOf(sqrt, hdu.data.value, nBins))
  }

  /**
   * The 2-D path succeeds exactly on 2-axis data with a positive bin count,
   * and then bin i's value is NaN exactly when no finite pixel lies in it.
   */
  lemma Extract2DSpec(sqrt: real -> real, hdu: Hdu, nBins: int)
    requires IsSqrt(sqrt)
    ensures Extract2D(sqrt, hdu, nBins).Ok? <==> hdu.data.Some? && hdu.data.value.ndim == 2 && nBins > 0
    ensures Extract2D(sqrt, hdu, nBins).Ok? ==>
      var p := Extract2D(sqrt, hdu, nBins).value;
      && |p.radii| == |p.values| == |p.errors| == nBins
      && forall i :: 0 <= i < nBins ==>
           (p.values[i].NaN? <==> BinPixels(hdu.data.value.pixels, p.radii, i) == [])
  {
    if Extract2D(sqrt, hdu, nBins).Ok? {
      var p := Extract2D(sqrt, hdu, nBins).value;
      forall i | 0 <= i < nBins
        ensures p.values[i].NaN? <==> BinPixels(hdu.data.value.pixels, p.radii, i) == []
      {
        BinSpec(sqrt, hdu.data.value.pixels, p.radii, i);
      }
    }
  }

  /** The intensity profile with the velocity and velocity-error arrays (zeros: moment 1 is not extracted). */
  datatype CubeProfile = CubeProfile(intensity: Profile, velocity: seq<Float>, velocityErr: seq<Float>)

  function Zeros(n: nat): (z: seq<Float>)
    ensures |z| == n && forall i :: 0 <= i < n ==> z[i] == Num(0.0)
  {
    seq(n, _ => Num(0.0))
  }

  /**
   * `extract_radial_profile_3d`: the 2-D profile of the moment-0 map, which
   * is 2-D only for 3-axis data, with zero velocities.
   */
  function Extract3D(sqrt: real -> real, hdu: Hdu, nBins: int): Result<CubeProfile>
    requires IsSqrt(sqrt)
  {
    if hdu.data.None? then Err("np.nansum of no data")
    else if hdu.data.value.ndim == 0 then Err("axis 0 is out of bounds")
    else
      var cube := hdu.data.value;
      match Extract2D(sqrt, Hdu(Some(Image(cube.ndim - 1, cube.pixels, cube.rMax))), nBins)
      case Err(e) => Err(e)
      case Ok(p) => Ok(CubeProfile(p, Zeros(|p.values|), Zeros(|p.values|)))
  }

  /**
   * The 3-D path succeeds exactly on 3-axis data with a positive bin
   * count; its intensity is the moment-0 map's profile and its velocity and
   * velocity-error arrays are zeros of the intensity's length.
   */
  lemma Extract3DSpec(sqrt: real -> real, hdu: Hdu, nBins: int)
    requires IsSqrt(sqrt)
    ensures Extract3D(sqrt, hdu, nBins).Ok? <==> hdu.data.Some? && hdu.data.value.ndim == 3 && nBins > 0
    ensures Extract3D(sqrt, hdu, nBins).Ok? ==>
      var c := Extract3D(sqrt, hdu, nBins).value;
      && c.intensity == ProfileOf(sqrt, Image(2, hdu.data.value.pixels, hdu.data.value.rMax), nBins)
      && |c.velocity| == |c.velocityErr| == |c.intensity.values| == nBins
      && forall i :: 0 <= i < nBins ==> c.velocity[i] == Num(0.0) && c.velocityErr[i] == Num(0.0)
  {
  }

  /** One data line: `f"{i},{r:.3f},{v:.6e},{e:.6e}"`, with the float formatting as parameters. */
  function DataLine(i: nat, r: real, v: Float, e: Float, fixed3: real -> string, sci6: Float -> string): string
  {
    Join([DecimalString(i), fixed3(r), sci6(v), sci6(e)], ',')
  }

  function ColumnHeader(valueName: string): string
  {
    "ring,radius_pc," + valueName + "," + valueName + "_err"
  }

  /** The lines `save_profile_csv` writes: five comment lines, the column header, one line per bin. */
  function ProfileCsv(p: Profile, valueName: string, sourceInfo: string, today: string,
                      fixed3: real -> string, sci6: Float -> string): (lines: seq<string>)
    requires |p.radii| == |p.values| == |p.errors|
    ensures |lines| == 6 + |p.radii|
  {
    ["# G79.29+0.46 Radial Profile",
     "# Source: " + sourceInfo,
     "# Extraction method: Radial binning from FITS",
     "# Date: " + today,
     "#",
     ColumnHeader(valueName)]
    + seq(|p.radii|, i requires 0 <= i < |p.radii| => DataLine(i, p.radii[i], p.values[i], p.errors[i], fixed3, sci6))
  }

  /** Python's float formatting never produces a comma. */
  ghost predicate CommaFree<T(!new)>(f: T -> string)
  {
    forall x :: ',' !in f(x)
  }

  /**
   * The CSV has the column header "ring,radius_pc,{name},{name}_err" and
   * exactly one data line per bin; data line i splits on commas into four
   * fields whose first reads back as i and whose others are bin i's radius,
   * value and error.
   */
  lemma ProfileCsvSpec(p: Profile, valueName: string, sourceInfo: string, today: string,
                       fixed3: real -> string, sci6: Float -> string)
    requires |p.radii| == |p.values| == |p.errors|
    requires CommaFree(fixed3) && CommaFree(sci6)
    ensures var lines := ProfileCsv(p, valueName, sourceInfo, today, fixed3, sci6);
      && |lines| == 6 + |p.radii|
      && lines[5] == ColumnHeader(valueName)
      && forall i :: 0 <= i < |p.radii| ==>
           var fields := SplitOn(lines[6 + i], ',');
           && fields == [DecimalString(i), fixed3(p.radii[i]), sci6(p.values[i]), sci6(p.errors[i])]
           && IsDigits(fields[0]) && ParseDecimal(fields[0]) == i
  {
    var lines := ProfileCsv(p, valueName, sourceInfo, today, fixed3, sci6);
    forall i | 0 <= i < |p.radii|
      ensures SplitOn(lines[6 + i], ',') == [DecimalString(i), fixed3(p.radii[i]), sci6(p.values[i]), sci6(p.errors[i])]
      ensures ParseDecimal(DecimalString(i)) == i
    {
      var fields := [DecimalString(i), fixed3(p.radii[i]), sci6(p.values[i]), sci6(p.errors[i])];
      assert ',' !in fields[0];
      assert ',' !in fields[1] && ',' !in fields[2] && ',' !in fields[3];
      SplitJoin(fields, ',');
      ParseDecimalString(i);
    }
  }

  /** `main`'s result: an early `return 1`, or the CSV written to `path` followed by `return 0`. */
  datatype Outcome = Exit(status: int) | Written(path: string, lines: seq<string>)

  /**
   * `main` once the file is open, with `hdu` the HDU handed to the
   * extractors: the 2-D path when the type contains "2D", the 3-D path when
   * it contains "3D", otherwise return 1.
   */
  function Dispatch(sqrt: real -> real, fitsPath: string, output: string, nBins: int, today: string,
                    fixed3: real -> string, sci6: Float -> string, hdus: seq<Hdu>, hdu: Hdu): Result<Outcome>
    requires IsSqrt(sqrt) && |hdus| > 0
  {
    var fileType := FileType(hdus);
    var sourceInfo := Name(fitsPath) + " (" + fileType + ")";
    if Contains(fileType, "2D") then
      match Extract2D(sqrt, hdu, nBins)
      case Err(e) => Err(e)
      case Ok(p) => Ok(Written(output, ProfileCsv(p, "intensity", sourceInfo, today, fixed3, sci6)))
    else if Contains(fileType, "3D") then
      match Extract3D(sqrt, hdu, nBins)
      case Err(e) => Err(e)
      case Ok(c) => Ok(Written(output, ProfileCsv(c.intensity, "intensity", sourceInfo, today, fixed3, sci6)))
    else Ok(Exit(1))
  }

  /**
   * Dispatch on the type of the classified HDU: neither 2-D nor 3-D returns
   * 1; when the HDU handed over has the data of that type and the bin count
   * is non-negative, the CSV is written with one data line per bin; a
   * handed-over HDU without data raises.
   */
  lemma DispatchOutcome(sqrt: real -> real, fitsPath: string, output: string, nBins: int, today: string,
                        fixed3: real -> string, sci6: Float -> string, hdus: seq<Hdu>, hdu: Hdu)
    requires IsSqrt(sqrt) && |hdus| > 0
    ensures var r := Dispatch(sqrt, fitsPath, output, nBins, today, fixed3, sci6, hdus, hdu);
      var n := NDim(hdus[DataHdu(hdus)]);
      && (n != 2 && n != 3 ==> r == Ok(Exit(1)))
      && ((n == 2 || n == 3) && hdu.data.None? ==> r.Err?)
      && ((n == 2 || n == 3) && NDim(hdu) == n && 0 < nBins ==>
            r.Ok? && r.value.Written? && r.value.path == output && |r.value.lines| == 6 + nBins)
  {
    var n := NDim(hdus[DataHdu(hdus)]);
    var fileType := FileType(hdus);
    DispatchSpec(n);
    var sourceInfo := Name(fitsPath) + " (" + fileType + ")";
    if n == 2 {
      assert Contains(fileType, "2D");
      if NDim(hdu) == 2 && 0 < nBins {
        var p := ProfileOf(sqrt, hdu.data.value, nBins);
        assert Extract2D(sqrt, hdu, nBins) == Ok(p);
        assert Dispatch(sqrt, fitsPath, output, nBins, today, fixed3, sci6, hdus, hdu)
          == Ok(Written(output, ProfileCsv(p, "intensity", sourceInfo, today, fixed3, sci6)));
      }
    } else if n == 3 {
      assert !Contains(fileType, "2D") && Contains(fileType, "3D");
      if NDim(hdu) == 3 && 0 < nBins {
        Extract3DSpec(sqrt, hdu, nBins);
        var c := Extract3D(sqrt, hdu, nBins).value;
        assert Dispatch(sqrt, fitsPath, output, nBins, today, fixed3, sci6, hdus, hdu)
          == Ok(Written(output, ProfileCsv(c.intensity, "intensity", sourceInfo, today, fixed3, sci6)));
      }
    } else {
      assert !Contains(fileType, "2D") && !Contains(fileType, "3D");
    }
  }

  /**
   * `main` as written: a missing file returns 1; `fits.open` is `open`
   * (None: it raised); the extractors are handed `hdu_list[0]` whatever HDU
   * the type was taken from.
   */
  function MainAsWritten(sqrt: real -> real, fitsPath: string, output: string, nBins: int, today: string,
                         fixed3: real -> string, sci6: Float -> string,
                         fileExists: string -> bool, open: string -> Option<seq<Hdu>>): Result<Outcome>
    requires IsSqrt(sqrt)
  {
    if !fileExists(fitsPath) then Ok(Exit(1))
    else if open(fitsPath).None? || open(fitsPath).value == [] then Err("cannot open FITS file")
    else
      var hdus := open(fitsPath).value;
      Dispatch(sqrt, fitsPath, output, nBins, today, fixed3, sci6, hdus, hdus[0])
  }

  /** `main` with the extractors handed the HDU `load_fits_file` classified. */
  function Main(sqrt: real -> real, fitsPath: string, output: string, nBins: int, today: string,
                fixed3: real -> string, sci6: Float -> string,
                fileExists: string -> bool, open: string -> Option<seq<Hdu>>): Result<Outcome>
    requires IsSqrt(sqrt)
  {
    if !fileExists(fitsPath) then Ok(Exit(1))
    else if open(fitsPath).None? || open(fitsPath).value == [] then Err("cannot open FITS file")
    else
      var hdus := open(fitsPath).value;
      Dispatch(sqrt, fitsPath, output, nBins, today, fixed3, sci6, hdus, hdus[DataHdu(hdus)])
  }

  /**
   * A file whose primary HDU is empty and whose first extension is a 2-D
   * image is reported as "2D image", yet `main` as written hands the empty
   * primary HDU to the 2-D extractor, which raises; handed the classified
   * HDU it writes the profile.
   */
  lemma MainAsWrittenMissesExtension(sqrt: real -> real, fixed3: real -> string, sci6: Float -> string)
    requires IsSqrt(sqrt)
    ensures var hdus := [Hdu(None), Hdu(Some(Image(2, [], 1.0)))];
      && FileType(hdus) == TwoD
      && MainAsWritten(sqrt, "g79.fits", "radial_profile.csv", 10, "today", fixed3, sci6, _ => true, _ => Some(hdus)).Err?
      && Main(sqrt, "g79.fits", "radial_profile.csv", 10, "today", fixed3, sci6, _ => true, _ => Some(hdus)).Ok?
  {
    var hdus := [Hdu(None), Hdu(Some(Image(2, [], 1.0)))];
    DispatchOutcome(sqrt, "g79.fits", "radial_profile.csv", 10, "today", fixed3, sci6, hdus, hdus[0]);
    DispatchOutcome(sqrt, "g79.fits", "radial_profile.csv", 10, "today", fixed3, sci6, hdus, hdus[1]);
  }

  /**
   * `main` returns 1 for a missing file and for data that is neither 2-D nor
   * 3-D; for 2-D and 3-D data and a positive bin count it always writes
   * the CSV, with one data line per bin.
   */
  lemma MainSpec(sqrt: real -> real, fitsPath: string, output: string, nBins: int, today: string,
                 fixed3: real -> string, sci6: Float -> string,
                 fileExists: string -> bool, open: string -> Option<seq<Hdu>>)
    requires IsSqrt(sqrt)
    ensures var r := Main(sqrt, fitsPath, output, nBins, today, fixed3, sci6, fileExists, open);
      && (!fileExists(fitsPath) ==> r == Ok(Exit(1)))
      && (fileExists(fitsPath) && open(fitsPath).Some? && open(fitsPath).value != [] ==>
            var hdus := open(fitsPath).value;
            var n := NDim(hdus[DataHdu(hdus)]);
            && (n != 2 && n != 3 ==> r == Ok(Exit(1)))
            && ((n == 2 || n == 3) && 0 < nBins ==>
                  r.Ok? && r.value.Written? && r.value.path == output && |r.value.lines| == 6 + nBins))
  {
    if fileExists(fitsPath) && open(fitsPath).Some? && open(fitsPath).value != [] {
      var hdus := open(fitsPath).value;
      DispatchOutcome(sqrt, fitsPath, output, nBins, today, fixed3, sci6, hdus, hdus[DataHdu(hdus)]);
    }
  }
}
