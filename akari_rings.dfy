/**
 * scripts/extract_akari_rings.py: argument check, output naming and the ring
 * extraction of `main`.  The ring loop is the same computation as
 * `RingAverages.AverageRings`; only the CSV column names differ.
 */
module AkariRings {
  import opened Wrappers
  import opened RealMath
  import opened Floats
  import opened Paths
  import opened Rings
  import opened RingAverages
  import FetchExtract

  /** `r_edges_pc = np.arange(0.0, 2.0 + 0.2, 0.2)`, the same edges as the fetch pipeline. */
  function Edges(): seq<real>
  {
    FetchExtract.DefaultEdges()
  }

  /** `fits_path.stem + "_rings_REAL.csv"` */
  function OutputCsv(fitsPath: string): string
  {
    Stem(fitsPath) + "_rings_REAL.csv"
  }

  /** The CSV's own stem is the image's stem + "_rings_REAL". */
  lemma OutputNamedAfterImage(fitsPath: string)
    requires Stem(fitsPath) != ""
    ensures StemOfName(OutputCsv(fitsPath)) == Stem(fitsPath) + "_rings_REAL"
  {
    var stem := Stem(fitsPath) + "_rings_REAL";
    assert OutputCsv(fitsPath) == stem + ".csv";
    StemOfSuffixed(stem, ".csv");
  }

  datatype Outcome = Exit(status: int) | Written(csv: string, rows: seq<RingAverage>, status: int)

  /**
   * `main()` with `argv = sys.argv`.  Fewer than two entries, a missing file
   * or a FITS reader failure return 1 before anything is written.  Otherwise
   * the ring rows over the 0..2 pc edges are written; the closing summary
   * reads the `radius_pc` column, which an empty table lacks, so an image
   * with no occupied ring ends in an error after the write.
   */
  method Run(sqrt: real -> real, argv: seq<string>,
             fileExists: string -> bool, load: string -> Option<seq<Pixel>>)
    returns (r: Outcome)
    requires IsSqrt(sqrt)
    ensures |argv| < 2 ==> r == Exit(1)
    ensures |argv| >= 2 && !fileExists(argv[1]) ==> r == Exit(1)
    ensures |argv| >= 2 && fileExists(argv[1]) && load(argv[1]).None? ==> r == Exit(1)
    ensures |argv| >= 2 && fileExists(argv[1]) && load(argv[1]).Some? ==>
      var px := load(argv[1]).value;
      var rows := Rows(sqrt, Radii(px), Values(px), Edges(), NumRings(Edges()));
      r == Written(OutputCsv(argv[1]), rows, if rows == [] then 1 else 0)
  {
    if |argv| < 2 {
      return Exit(1);
    }
    var fitsPath := argv[1];
    if !fileExists(fitsPath) {
      return Exit(1);
    }
    var csv := OutputCsv(fitsPath);
    var image := load(fitsPath);
    if image.None? {
      return Exit(1);
    }
    var rows := AverageRings(sqrt, Radii(image.value), Values(image.value), Edges());
    var status := if rows == [] then 1 else 0;
    return Written(csv, rows, status);
  }
}
