/**
 * CREATE_ANIMATION_VARIANTS.py: for every original GIF in animations/,
 * a 5-second preview (the first frames up to about 5 s at the average frame
 * duration), a 30-second repeat (the animation three times) and a
 * 30-second slow version (every frame held three times as long).  Originals
 * are the GIFs whose stem names no variant; without any the script exits
 * with status 1.  The files themselves are not written here: a variant is
 * its name, frames and durations.
 */
module AnimationVariants {
  import opened Wrappers
  import opened Text
  import opened Paths
  import opened Gifs
  import opened RealMath

  /** `img.info.get('duration', 100)`: a frame without a duration counts as 100 ms. */
  function DurationOf(f: Frame): nat
  {
    if f.duration.Some? then f.duration.value else 100
  }

  /** The frames' durations, in order. */
  function Durations(g: Gif): (ds: seq<nat>)
    ensures |ds| == |Frames(g)|
    ensures forall i :: 0 <= i < |ds| ==> ds[i] == DurationOf(Frames(g)[i])
  {
    seq(|Frames(g)|, i requires 0 <= i < |Frames(g)| => DurationOf(Frames(g)[i]))
  }

  /**
   * The seek loop of `create_variants`: copy the frame and record its
   * duration, then seek to the next until the seek runs past the last frame.
   * Pictures and durations are appended in lockstep.
   */
  method LoadFrames(g: Gif) returns (frames: seq<Picture>, durations: seq<nat>)
    ensures frames == Pictures(g) && durations == Durations(g)
  {
    var fs := Frames(g);
    var pos := 0;
    frames := [fs[0].picture];
    durations := [DurationOf(fs[0])];
    while pos + 1 < |fs|
      invariant 0 <= pos < |fs|
      invariant frames == Pictures(g)[..pos + 1]
      invariant durations == Durations(g)[..pos + 1]
    {
      pos := pos + 1;
      frames := frames + [fs[pos].picture];
      durations := durations + [DurationOf(fs[pos])];
    }
  }

  /** `sum(durations)` */
  function Total(ds: seq<nat>): nat
  {
    if ds == [] then 0 else ds[0] + Total(ds[1..])
  }

  /** `avg_duration = sum(durations) / len(durations)`, in ms: times the count it gives the total back. */
  function Average(ds: seq<nat>): (avg: real)
    requires |ds| > 0
    ensures avg * (|ds| as real) == Total(ds) as real
    ensures Total(ds) > 0 ==> 0.0 < avg
  {
    var t, n := Total(ds) as real, |ds| as real;
    DivMulCancel(t, n);
    DivPositive(t, n);
    t / n
  }

  /** `int(5000 / avg_duration)`: the quotient is not negative, so int() is floor. */
  function TargetFrames(avg: real): int
    requires 0.0 < avg
  {
    (5000.0 / avg).Floor
  }

  /**
   * The target is the largest frame count that lasts at most 5000 ms at the
   * average duration: target * avg <= 5000 < (target + 1) * avg.  It is never
   * negative, and it is 0 exactly when the average frame lasts longer than 5 s.
   */
  lemma TargetFramesSpec(avg: real)
    requires 0.0 < avg
    ensures 0 <= TargetFrames(avg)
    ensures (TargetFrames(avg) as real) * avg <= 5000.0 < (TargetFrames(avg) as real) * avg + avg
    ensures TargetFrames(avg) == 0 <==> 5000.0 < avg
  {
    FloorOfDivision(5000.0, avg, TargetFrames(avg));
    FloorOfDivisionZero(5000.0, avg);
  }

  lemma DivPositive(c: real, d: real)
    requires 0.0 < d
    ensures 0.0 < c ==> 0.0 < c / d
  {
    DivMulCancel(c, d);
    if c / d <= 0.0 {
      MulMonotone(d, c / d, 0.0);
    }
  }

  /** f = floor(c / d) for c >= 0 and d > 0 is the largest integer with f d <= c. */
  lemma FloorOfDivision(c: real, d: real, f: int)
    requires 0.0 <= c && 0.0 < d && f == (c / d).Floor
    ensures 0 <= f
    ensures (f as real) * d <= c
    ensures c < (f as real) * d + d
  {
    var q := c / d;
    var fr := f as real;
    DivMulCancel(c, d);
    assert d * q == c;
    if q < 0.0 {
      MulStrictMonotone(d, q, 0.0);
      assert false;
    }
    assert fr <= q < fr + 1.0;
    MulMonotone(d, fr, q);
    assert d * fr <= c;
    var g := fr + 1.0;
    MulStrictMonotone(d, q, g);
    calc {
      c;
    ==
      d * q;
    <
      d * g;
    }
    assert d * g == fr * d + d;
  }

  /** floor(c / d) is 0 exactly when c < d. */
  lemma FloorOfDivisionZero(c: real, d: real)
    requires 0.0 <= c && 0.0 < d
    ensures (c / d).Floor == 0 <==> c < d
  {
    var q := c / d;
    QuotientBelowOne(c, d, q);
    FloorBelowOne(q);
  }

  /** A quotient c / d of a non-negative c is non-negative, and below 1 exactly when c < d. */
  lemma QuotientBelowOne(c: real, d: real, q: real)
    requires 0.0 <= c && 0.0 < d && q == c / d
    ensures 0.0 <= q
    ensures q < 1.0 <==> c < d
  {
    DivMulCancel(c, d);
    if q < 0.0 {
      MulStrictMonotone(d, q, 0.0);
      assert false;
    }
    assert d * q == c;
    if q < 1.0 {
      MulStrictMonotone(d, q, 1.0);
      assert c < d * 1.0;
    } else {
      MulMonotone(d, 1.0, q);
      assert d * 1.0 <= c;
    }
  }

  lemma FloorBelowOne(q: real)
    requires 0.0 <= q
    ensures q.Floor == 0 <==> q < 1.0
  {
  }

  /** `min(target_5s_frames, total_frames)` as written: 0 when the average frame is longer than 5 s. */
  function PreviewCountAsWritten(ds: seq<nat>): int
    requires |ds| > 0 && Total(ds) > 0
  {
    var target := TargetFrames(Average(ds));
    if target < |ds| then target else |ds|
  }

  /** The preview length with at least the first frame kept. */
  function PreviewCount(ds: seq<nat>): int
    requires |ds| > 0 && Total(ds) > 0
  {
    var k := PreviewCountAsWritten(ds);
    if k < 1 then 1 else k
  }

  /** A written variant: file name, frames and per-frame durations. */
  datatype Variant = Variant(name: string, frames: seq<Picture>, durations: seq<nat>)

  function PreviewName(stem: string): string { stem + "_5s.gif" }
  function RepeatName(stem: string): string { stem + "_30s_repeat.gif" }
  function SlowName(stem: string): string { stem + "_30s_slow.gif" }

  /** `frames * 3` */
  function Repeat3<T>(s: seq<T>): seq<T>
  {
    s + s + s
  }

  /** Three times the list: length 3 n, and element i is element i mod n of the original. */
  lemma Repeat3Spec<T>(s: seq<T>)
    ensures |Repeat3(s)| == 3 * |s|
    ensures forall i :: 0 <= i < 3 * |s| ==> Repeat3(s)[i] == s[i % |s|]
  {
    var n := |s|;
    forall i | 0 <= i < 3 * n
      ensures Repeat3(s)[i] == s[i % n]
    {
      if i < n {
        assert i % n == i;
      } else if i < 2 * n {
        assert i % n == i - n;
      } else {
        assert i % n == i - 2 * n;
      }
    }
  }

  /** `[d * 3 for d in durations]` */
  function Slowed(ds: seq<nat>): (ss: seq<nat>)
    ensures |ss| == |ds|
    ensures forall i :: 0 <= i < |ds| ==> ss[i] == 3 * ds[i]
  {
    seq(|ds|, i requires 0 <= i < |ds| => 3 * ds[i])
  }

  /** Holding every frame three times as long makes the animation three times as long. */
  lemma {:induction false} SlowedTotal(ds: seq<nat>)
    ensures Total(Slowed(ds)) == 3 * Total(ds)
  {
    if ds != [] {
      assert Slowed(ds)[1..] == Slowed(ds[1..]);
      SlowedTotal(ds[1..]);
    }
  }

  /** The three variants for a preview of k frames. */
  function Build(stem: string, frames: seq<Picture>, ds: seq<nat>, k: int): seq<Variant>
    requires |frames| == |ds| && 0 < k <= |ds|
  {
    [ Variant(PreviewName(stem), frames[..k], ds[..k]),
      Variant(RepeatName(stem), Repeat3(frames), Repeat3(ds)),
      Variant(SlowName(stem), frames, Slowed(ds)) ]
  }

  /**
   * `create_variants` after loading, as written: an all-zero duration list
   * divides by zero, and an empty preview fails at `frames_5s[0]`.
   */
  function VariantsAsWritten(stem: string, frames: seq<Picture>, ds: seq<nat>): Result<seq<Variant>>
    requires |frames| == |ds| > 0
  {
    if Total(ds) == 0 then Err("ZeroDivisionError: division by zero")
    else
      var k := PreviewCountAsWritten(ds);
      if k <= 0 then Err("IndexError: list index out of range")
      else Ok(Build(stem, frames, ds, k))
  }

  /**
   * As written, the variants fail not only for an all-zero duration list but
   * for every animation whose average frame lasts longer than 5 s: the
   * preview is then empty.
   */
  lemma VariantsAsWrittenFails(stem: string, frames: seq<Picture>, ds: seq<nat>)
    requires |frames| == |ds| > 0
    ensures VariantsAsWritten(stem, frames, ds).Err? <==> Total(ds) == 0 || 5000.0 < Average(ds)
  {
    if Total(ds) > 0 {
      TargetFramesSpec(Average(ds));
    }
  }

  /** `create_variants` after loading, with the preview keeping at least one frame. */
  function Variants(stem: string, frames: seq<Picture>, ds: seq<nat>): Result<seq<Variant>>
    requires |frames| == |ds| > 0
  {
    if Total(ds) == 0 then Err("ZeroDivisionError: division by zero")
    else
      TargetFramesSpec(Average(ds));
      Ok(Build(stem, frames, ds, PreviewCount(ds)))
  }

  /** A single frame held for 6 s: as written there is no preview and the script fails; corrected, the preview is that frame. */
  lemma LongFramePreview()
    ensures VariantsAsWritten("slides", [[0]], [6000]).Err?
    ensures Variants("slides", [[0]], [6000]).Ok?
    ensures Variants("slides", [[0]], [6000]).value[0].frames == [[0]]
  {
    var ds: seq<nat> := [6000];
    assert Total(ds) == 6000 by {
      assert ds[1..] == [];
    }
    VariantsAsWrittenFails("slides", [[0]], ds);
    TargetFramesSpec(Average(ds));
    assert PreviewCount(ds) == 1;
  }

  /**
   * The variants fail only for an all-zero duration list.  Otherwise there
   * are three, named stem_5s.gif, stem_30s_repeat.gif and stem_30s_slow.gif:
   * a preview that is a non-empty prefix of the frames with their own
   * durations, min(target, n) long whenever that is positive; the animation
   * three times over with its durations; and the same frames three times as
   * slow.  Where the code as written succeeds, the result is the same.
   */
  lemma VariantsSpec(stem: string, frames: seq<Picture>, ds: seq<nat>)
    requires |frames| == |ds| > 0
    ensures Variants(stem, frames, ds).Err? <==> Total(ds) == 0
    ensures VariantsAsWritten(stem, frames, ds).Ok? ==> Variants(stem, frames, ds) == VariantsAsWritten(stem, frames, ds)
    ensures Variants(stem, frames, ds).Ok? ==>
      var vs := Variants(stem, frames, ds).value;
      var k := |vs[0].frames|;
      && |vs| == 3
      && vs[0].name == PreviewName(stem) && vs[1].name == RepeatName(stem) && vs[2].name == SlowName(stem)
      && 1 <= k <= |frames|
      && vs[0].frames == frames[..k] && vs[0].durations == ds[..k]
      && (0 < TargetFrames(Average(ds)) ==> k == if TargetFrames(Average(ds)) < |ds| then TargetFrames(Average(ds)) else |ds|)
      && |vs[1].frames| == 3 * |frames| && |vs[1].durations| == 3 * |ds|
      && (forall i :: 0 <= i < 3 * |frames| ==> vs[1].frames[i] == frames[i % |frames|] && vs[1].durations[i] == ds[i % |ds|])
      && vs[2].frames == frames
      && (forall i :: 0 <= i < |ds| ==> vs[2].durations[i] == 3 * ds[i])
      && Total(vs[2].durations) == 3 * Total(ds)
  {
    if Total(ds) > 0 {
      TargetFramesSpec(Average(ds));
      Repeat3Spec(frames);
      Repeat3Spec(ds);
      SlowedTotal(ds);
    }
  }

  /** `create_variants(original_file)` on an opened GIF, as written. */
  method CreateVariants(stem: string, g: Gif) returns (r: Result<seq<Variant>>)
    ensures r == VariantsAsWritten(stem, Pictures(g), Durations(g))
  {
    var frames, durations := LoadFrames(g);
    r := VariantsAsWritten(stem, frames, durations);
  }

  /** `ANIMATIONS_DIR.glob("*.gif")` keeps the names ending in ".gif". */
  predicate IsGifName(name: string)
  {
    4 <= |name| && name[|name| - 4..] == ".gif"
  }

  /** Neither "_5s" nor "_30s" occurs in the stem. */
  predicate IsOriginal(name: string)
  {
    !Contains(StemOfName(name), "_5s") && !Contains(StemOfName(name), "_30s")
  }

  /** `original_gifs`: the GIFs of the directory listing that are not variants, in listing order. */
  function Originals(names: seq<string>): (os: seq<string>)
    ensures |os| <= |names|
  {
    if names == [] then []
    else (if IsGifName(names[0]) && IsOriginal(names[0]) then [names[0]] else []) + Originals(names[1..])
  }

  /** A name is processed exactly when it is a listed GIF that is not a variant. */
  lemma {:induction false} OriginalsSpec(names: seq<string>)
    ensures forall x :: x in Originals(names) <==> x in names && IsGifName(x) && IsOriginal(x)
  {
    if names != [] {
      OriginalsSpec(names[1..]);
      assert forall x :: x in names <==> x == names[0] || x in names[1..];
    }
  }

  /** The stem of stem + marker + ".gif" is stem + marker. */
  lemma StemOfVariant(stem: string, marker: string)
    requires |marker| > 0 && forall j :: 0 <= j < |marker| ==> marker[j] != '.'
    ensures StemOfName(stem + marker + ".gif") == stem + marker
  {
    StemOfSuffixed(stem + marker, ".gif");
  }

  /**
   * The variants the script writes are GIFs that a later run does not take
   * for originals: their stems contain "_5s" or "_30s".
   */
  lemma VariantNamesNotOriginal(stem: string)
    ensures IsGifName(PreviewName(stem)) && !IsOriginal(PreviewName(stem))
    ensures IsGifName(RepeatName(stem)) && !IsOriginal(RepeatName(stem))
    ensures IsGifName(SlowName(stem)) && !IsOriginal(SlowName(stem))
  {
    assert PreviewName(stem) == stem + "_5s" + ".gif";
    StemOfVariant(stem, "_5s");
    ContainsSuffix(stem, "_5s");
    assert RepeatName(stem) == (stem + "_30s") + "_repeat" + ".gif";
    StemOfVariant(stem + "_30s", "_repeat");
    ContainsSuffix(stem, "_30s");
    ContainsAppend(stem + "_30s", "_repeat", "_30s");
    assert SlowName(stem) == (stem + "_30s") + "_slow" + ".gif";
    StemOfVariant(stem + "_30s", "_slow");
    ContainsAppend(stem + "_30s", "_slow", "_30s");
  }

  /** How the script ends: exit status 1, every original processed, or an exception. */
  datatype Outcome = Exit(status: int) | Done(created: seq<seq<Variant>>) | Raised(error: string)

  /** The variants of every file in order, stopping at the first exception. */
  function ProcessAll(files: seq<string>, open: string -> Gif): Result<seq<seq<Variant>>>
  {
    if files == [] then Ok([])
    else
      var before := ProcessAll(files[..|files| - 1], open);
      var last := files[|files| - 1];
      if before.Err? then before
      else
        var g := open(last);
        var r := VariantsAsWritten(StemOfName(last), Pictures(g), Durations(g));
        if r.Err? then Err(r.error) else Ok(before.value + [r.value])
  }

  function RunOutcome(names: seq<string>, open: string -> Gif): Outcome
  {
    var originals := Originals(names);
    if originals == [] then Exit(1)
    else
      match ProcessAll(originals, open)
      case Ok(created) => Done(created)
      case Err(e) => Raised(e)
  }

  /** The module-level code: collect the originals, exit 1 without any, otherwise process each. */
  method Run(names: seq<string>, open: string -> Gif) returns (outcome: Outcome)
    ensures outcome == RunOutcome(names, open)
  {
    var originals := Originals(names);
    if originals == [] {
      return Exit(1);
    }
    var created: seq<seq<Variant>> := [];
    for i := 0 to |originals|
      invariant ProcessAll(originals[..i], open) == Ok(created)
    {
      assert originals[..i + 1][..i] == originals[..i];
      var r := CreateVariants(StemOfName(originals[i]), open(originals[i]));
      if r.Err? {
        ProcessAllStops(originals, i + 1, open);
        return Raised(r.error);
      }
      created := created + [r.value];
    }
    assert originals[..|originals|] == originals;
    return Done(created);
  }

  /** The first exception ends the processing: what follows a failed prefix is not processed. */
  lemma {:induction false} ProcessAllStops(files: seq<string>, i: nat, open: string -> Gif)
    requires i <= |files| && ProcessAll(files[..i], open).Err?
    ensures ProcessAll(files, open) == ProcessAll(files[..i], open)
    decreases |files| - i
  {
    if i == |files| {
      assert files[..i] == files;
    } else {
      var init := files[..|files| - 1];
      assert init[..i] == files[..i];
      ProcessAllStops(init, i, open);
    }
  }

  /**
   * `create_variants` raises on g: every frame lasts 0 ms, so the average
   * divides by zero, or the average frame lasts longer than 5 s, so the
   * preview is empty and `frames_5s[0]` fails.
   */
  predicate Fails(g: Gif)
  {
    Total(Durations(g)) == 0 || 5000.0 < Average(Durations(g))
  }

  /** Processing raises exactly when some file has only zero durations or an average frame over 5 s. */
  lemma {:induction false} ProcessAllFails(files: seq<string>, open: string -> Gif)
    ensures ProcessAll(files, open).Err? <==> exists i :: 0 <= i < |files| && Fails(open(files[i]))
  {
    if files != [] {
      var init := files[..|files| - 1];
      var last := files[|files| - 1];
      ProcessAllFails(init, open);
      VariantsAsWrittenFails(StemOfName(last), Pictures(open(last)), Durations(open(last)));
      if ProcessAll(init, open).Err? {
        var i :| 0 <= i < |init| && Fails(open(init[i]));
        assert files[i] == init[i];
      } else {
        assert forall i :: 0 <= i < |init| ==> files[i] == init[i];
      }
    }
  }

  /**
   * A completed processing has one entry per file, in order, each the
   * variants of that file; these are also the variants of the corrected
   * preview, since the two agree wherever the code as written succeeds.
   */
  lemma {:induction false} ProcessAllCreates(files: seq<string>, open: string -> Gif)
    ensures ProcessAll(files, open).Ok? ==>
      var created := ProcessAll(files, open).value;
      && |created| == |files|
      && forall i :: 0 <= i < |files| ==>
           var g := open(files[i]);
           && VariantsAsWritten(StemOfName(files[i]), Pictures(g), Durations(g)) == Ok(created[i])
           && Variants(StemOfName(files[i]), Pictures(g), Durations(g)) == Ok(created[i])
  {
    if files != [] {
      var init := files[..|files| - 1];
      var last := files[|files| - 1];
      ProcessAllCreates(init, open);
      VariantsSpec(StemOfName(last), Pictures(open(last)), Durations(open(last)));
      assert forall i :: 0 <= i < |init| ==> files[i] == init[i];
    }
  }

  /**
   * Without originals the exit status is 1; otherwise the run raises exactly
   * when some original has only zero durations or an average frame longer
   * than 5 s, and a completed run has one entry per original.
   */
  lemma RunOutcomeSpec(names: seq<string>, open: string -> Gif)
    ensures RunOutcome(names, open) == Exit(1) <==> Originals(names) == []
    ensures RunOutcome(names, open).Raised? <==>
      exists i :: 0 <= i < |Originals(names)| && Fails(open(Originals(names)[i]))
    ensures RunOutcome(names, open).Done? ==> |RunOutcome(names, open).created| == |Originals(names)|
  {
    ProcessAllFails(Originals(names), open);
    ProcessAllCreates(Originals(names), open);
  }
}
