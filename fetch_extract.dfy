/**
 * scripts/fetch_and_extract_complete.py: the default ring edges, the
 * `--local` processing of a 2-D FITS image in `main` and the output naming.
 * The ring loop itself is `RingAverages.AverageRings`.
 */
module FetchExtract {
  import opened Wrappers
  import opened RealMath
  import opened Floats
  import opened Trapezoid
  import opened Grid
  import opened Paths
  import opened Rings
  import opened RingAverages

  /** `DEFAULT_R_EDGES = np.arange(0.0, 2.0 + 0.2, 0.2)` */
  function DefaultEdges(): seq<real>
  {
    Arange(0.0, 2.0 + 0.2, 0.2)
  }

  /** The default edges are 0, 0.2, ..., 2.0 pc: eleven edges, ten rings. */
  lemma DefaultEdgesSpec()
    ensures |DefaultEdges()| == 11
    ensures forall i :: 0 <= i < 11 ==> DefaultEdges()[i] == 0.2 * (i as real)
    ensures DefaultEdges()[0] == 0.0 && DefaultEdges()[10] == 2.0
    ensures StrictlyAscending(DefaultEdges())
  {
    assert (2.0 + 0.2 - 0.0) / 0.2 == 11.0;
    assert Ceil(11.0) == 11;
    ArangeBelowStop(0.0, 2.0 + 0.2, 0.2);
  }

  /** Output name: `--output` if given, else the FITS stem + "_rings.csv". */
  function OutputCsv(fitsPath: string, output: Option<string>): string
  {
    if output.None? then Stem(fitsPath) + "_rings.csv" else output.value
  }

  /** Without `--output` the CSV is named after the image: its own stem is the image's stem + "_rings". */
  lemma DefaultOutputNamedAfterImage(fitsPath: string)
    requires Stem(fitsPath) != ""
    ensures StemOfName(OutputCsv(fitsPath, None)) == Stem(fitsPath) + "_rings"
  {
    var stem := Stem(fitsPath) + "_rings";
    assert OutputCsv(fitsPath, None) == stem + ".csv";
    StemOfSuffixed(stem, ".csv");
  }

  /**
   * The end of the `--local` branch: an exit status, the rows saved to a CSV,
   * or the rows extracted with nothing saved (an empty output name).
   */
  datatype Outcome = Exit(status: int) | Written(csv: string, rows: seq<RingAverage>) | Unsaved(rows: seq<RingAverage>)

  /**
   * `main --local FITS [--output CSV]` for a 2-D image: a missing file
   * returns 1; otherwise the rings over the default edges are extracted and,
   * when the output name is not empty (`if output_csv:`), written to it.  `load` is the FITS reader (None: it raised, which ends the
   * program).
   */
  method ProcessLocal(sqrt: real -> real, fitsPath: string, output: Option<string>,
                      fileExists: string -> bool, load: string -> Option<seq<Pixel>>)
    returns (r: Result<Outcome>)
    requires IsSqrt(sqrt)
    ensures !fileExists(fitsPath) ==> r == Ok(Exit(1))
    ensures fileExists(fitsPath) && load(fitsPath).None? ==> r.Err?
    ensures fileExists(fitsPath) && load(fitsPath).Some? ==>
      var px := load(fitsPath).value;
      var rows := Rows(sqrt, Radii(px), Values(px), DefaultEdges(), NumRings(DefaultEdges()));
      r == Ok(if OutputCsv(fitsPath, output) == "" then Unsaved(rows) else Written(OutputCsv(fitsPath, output), rows))
    ensures r.Ok? && r.value.Written? ==> r.value.csv != ""
    ensures output == Some("") && fileExists(fitsPath) ==> r.Err? || r.value.Unsaved?
  {
    if !fileExists(fitsPath) {
      return Ok(Exit(1));
    }
    var csv := OutputCsv(fitsPath, output);
    var image := load(fitsPath);
    if image.None? {
      return Err("cannot open FITS file");
    }
    var rows := AverageRings(sqrt, Radii(image.value), Values(image.value), DefaultEdges());
    if csv == "" {
      return Ok(Unsaved(rows));
    }
    return Ok(Written(csv, rows));
  }
}
