/**
 * scripts/catalog_to_rings.py: `main` turns a catalog of point sources into
 * a ring profile.  It parses the `--bands` list, names the output, checks
 * that the coordinate and band columns exist, and bins the sources into the
 * 0..2 pc rings with the loop of `CatalogRings.BinSourcesIntoRings`.
 */
module CatalogToRings {
  import opened Wrappers
  import opened RealMath
  import opened Floats
  import opened Paths
  import opened Text
  import opened Tables
  import opened Rings
  import opened CatalogRings
  import FetchExtract

  /** `R_EDGES_PC = np.arange(0.0, 2.0 + 0.2, 0.2)`, the edges of the fetch pipeline. */
  function Edges(): seq<real>
  {
    FetchExtract.DefaultEdges()
  }

  /** Ten rings of width 0.2 pc, from 0 to 2 pc. */
  lemma EdgesSpec()
    ensures NumRings(Edges()) == 10
    ensures Edges()[0] == 0.0 && Edges()[10] == 2.0
    ensures forall i :: 0 <= i < 10 ==> Edges()[i + 1] - Edges()[i] == 0.2
  {
    FetchExtract.DefaultEdgesSpec();
    forall i | 0 <= i < 10
      ensures Edges()[i + 1] - Edges()[i] == 0.2
    {
      assert Edges()[i + 1] == 0.2 * ((i + 1) as real) && Edges()[i] == 0.2 * (i as real);
    }
  }

  /** `[b.strip() for b in args.bands.split(',')]` */
  function ParseBands(arg: string): (bands: seq<string>)
    ensures |bands| == |SplitOn(arg, ',')|
  {
    var parts := SplitOn(arg, ',');
    seq(|parts|, k requires 0 <= k < |parts| => Strip(parts[k]))
  }

  /**
   * The band list is never empty; no band contains a comma or starts or ends
   * with whitespace; and when `--bands` holds no whitespace at all, the bands
   * joined back with commas give the argument again.
   */
  lemma ParseBandsSpec(arg: string)
    ensures var bands := ParseBands(arg);
      && |bands| >= 1
      && (forall k :: 0 <= k < |bands| ==> ',' !in bands[k])
      && (forall k :: 0 <= k < |bands| && bands[k] != [] ==>
            !IsSpace(bands[k][0]) && !IsSpace(bands[k][|bands[k]| - 1]))
      && ((forall k :: 0 <= k < |arg| ==> !IsSpace(arg[k])) ==> Join(bands, ',') == arg)
  {
    var parts, bands := SplitOn(arg, ','), ParseBands(arg);
    SplitPiecesFree(arg, ',');
    forall k | 0 <= k < |bands|
      ensures ',' !in bands[k]
      ensures bands[k] != [] ==> !IsSpace(bands[k][0]) && !IsSpace(bands[k][|bands[k]| - 1])
    {
      TrimSpec(parts[k], IsSpace);
      var t, i := bands[k], |parts[k]| - |TrimLeft(parts[k], IsSpace)|;
      assert t == parts[k][i..i + |t|];
      assert forall ch :: ch in t ==> ch in parts[k];
    }
    if forall k :: 0 <= k < |arg| ==> !IsSpace(arg[k]) {
      forall k | 0 <= k < |parts|
        ensures bands[k] == parts[k]
      {
        forall m | 0 <= m < |parts[k]|
          ensures !IsSpace(parts[k][m])
        {
          assert parts[k][m] in parts[k];
          assert parts[k][m] in arg;
        }
        TrimNothing(parts[k], IsSpace);
      }
      assert bands == parts;
      JoinSplit(arg, ',');
    }
  }

  /** Output name: `--output` when it is given and non-empty, else the catalog's stem + "_rings.csv". */
  function OutputCsv(catalogFile: string, output: Option<string>): string
  {
    if output.Some? && output.value != "" then output.value else Stem(catalogFile) + "_rings.csv"
  }

  /** A non-empty `--output` is used as is; otherwise the CSV's own stem is the catalog's stem + "_rings". */
  lemma OutputCsvSpec(catalogFile: string, output: Option<string>)
    requires Stem(catalogFile) != ""
    ensures output.Some? && output.value != "" ==> OutputCsv(catalogFile, output) == output.value
    ensures output.None? || output.value == "" ==> StemOfName(OutputCsv(catalogFile, output)) == Stem(catalogFile) + "_rings"
  {
    var stem := Stem(catalogFile) + "_rings";
    if output.None? || output.value == "" {
      assert OutputCsv(catalogFile, output) == stem + ".csv";
      StemOfSuffixed(stem, ".csv");
    }
  }

  /** `[c for c in required_cols if c not in df_cat.columns]` */
  function Missing(required: seq<string>, columns: Columns): (missing: seq<string>)
    ensures |missing| <= |required|
    ensures forall c :: c in missing <==> c in required && c !in columns
  {
    if required == [] then []
    else (if required[0] in columns then [] else [required[0]]) + Missing(required[1..], columns)
  }

  /** The separation oracle gives one radius per source. */
  ghost predicate OneRadiusPerSource(separation: (seq<Option<real>>, seq<Option<real>>) -> Option<seq<Float>>)
  {
    forall ra, dec :: separation(ra, dec).Some? ==> |separation(ra, dec).value| == |ra|
  }

  /** How `main()` ends: a returned status, an uncaught exception, or the rows written and the status. */
  datatype Outcome = Exit(status: int) | Raised(error: string) | Written(csv: string, rows: seq<SourceRing>, status: int)

  /**
   * `main()`.  `catalog` is the table that was read (or generated when the
   * file is absent or unreadable); `separation(ra, dec)` is the radius in pc
   * of each source from the nebula's centre, None when SkyCoord raises.
   * A missing required column or a coordinate failure returns 1 before any
   * binning.  An empty catalog raises at the printed radial range
   * (`r_pc.min()` of no radii) before anything is written.  Otherwise the
   * rows are written; every requested band has its statistics in every row.  The closing summary reads the `radius_pc`
   * column, which an empty table lacks, so a catalog with no source inside
   * 2 pc ends in an error after the write.
   */
  method Run(sqrt: real -> real, catalogFile: string, bandsArg: string, raCol: string, decCol: string,
             output: Option<string>, catalog: Columns,
             separation: (seq<Option<real>>, seq<Option<real>>) -> Option<seq<Float>>)
    returns (r: Outcome)
    requires IsSqrt(sqrt) && Rectangular(catalog) && OneRadiusPerSource(separation)
    ensures var bands := ParseBands(bandsArg);
      && (Missing([raCol, decCol] + bands, catalog) != [] ==> r == Exit(1))
      && (Missing([raCol, decCol] + bands, catalog) == [] ==>
            var radii := separation(catalog[raCol], catalog[decCol]);
            && (radii.None? ==> r == Exit(1))
            && (radii.Some? && |radii.value| == 0 ==> r.Raised?)
            && (radii.Some? && |radii.value| > 0 ==>
                  Aligned(catalog, radii.value)
                  && var rows := SourceRows(sqrt, catalog, radii.value, bands, Edges(), NumRings(Edges()));
                  && r == Written(OutputCsv(catalogFile, output), rows, if rows == [] then 1 else 0)
                  && forall a :: 0 <= a < |rows| ==> forall b :: b in rows[a].bands <==> b in bands))
  {
    var bands := ParseBands(bandsArg);
    var csv := OutputCsv(catalogFile, output);
    var missing := Missing([raCol, decCol] + bands, catalog);
    if missing != [] {
      return Exit(1);
    }
    assert raCol in [raCol, decCol] + bands && decCol in [raCol, decCol] + bands;
    var radii := separation(catalog[raCol], catalog[decCol]);
    if radii.None? {
      return Exit(1);
    }
    if |radii.value| == 0 {
      return Raised("ValueError: zero-size array to reduction operation minimum which has no identity");
    }
    var rows := BinSourcesIntoRings(sqrt, catalog, radii.value, bands, Edges());
    SourceRowsFacts(sqrt, catalog, radii.value, bands, Edges(), NumRings(Edges()));
    forall b | b in bands
      ensures b in catalog
    {
      assert b in [raCol, decCol] + bands;
    }
    var status := if rows == [] then 1 else 0;
    return Written(csv, rows, status);
  }
}
