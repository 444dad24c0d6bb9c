/**
 * CREATE_ANIMATION_VARIANTS_FINAL.py: for every final_animations/Anim*.gif,
 * in sorted order, a 5-second version (at most 50 frames, sampled evenly
 * from longer animations, 100 ms each), a 30-second repeat (the frames
 * three times, 100 ms each) and a 30-second slow version (the frames at
 * 300 ms each).  The names are those of `AnimationVariants`; the files
 * themselves are not written here.
 */
module AnimationVariantsFinal {
  import opened Gifs
  import opened Paths
  import opened Sorting
  import opened RealMath
  import AV = AnimationVariants

  /** `glob("Anim*.gif")`: the names that start with "Anim" and end with ".gif". */
  predicate IsAnimName(name: string)
  {
    8 <= |name| && name[..4] == "Anim" && name[|name| - 4..] == ".gif"
  }

  /** The directory listing's animations, in listing order. */
  function AnimFiles(names: seq<string>): (fs: seq<string>)
    ensures |fs| <= |names|
  {
    if names == [] then []
    else (if IsAnimName(names[0]) then [names[0]] else []) + AnimFiles(names[1..])
  }

  lemma {:induction false} AnimFilesSpec(names: seq<string>)
    ensures forall x :: x in AnimFiles(names) <==> x in names && IsAnimName(x)
  {
    if names != [] {
      AnimFilesSpec(names[1..]);
      assert forall x :: x in names <==> x == names[0] || x in names[1..];
    }
  }

  /** `base_gifs = sorted(ANIMATIONS_DIR.glob("Anim*.gif"))` */
  function Inputs(names: seq<string>): seq<string>
  {
    SortNames(AnimFiles(names))
  }

  /** The inputs are in ascending name order and are exactly the listed animations, each as often as listed. */
  lemma InputsSpec(names: seq<string>)
    ensures LexSorted(Inputs(names))
    ensures multiset(Inputs(names)) == multiset(AnimFiles(names))
    ensures forall x :: x in Inputs(names) <==> x in names && IsAnimName(x)
  {
    AnimFilesSpec(names);
    forall x
      ensures x in Inputs(names) <==> x in AnimFiles(names)
    {
      assert x in Inputs(names) <==> x in multiset(Inputs(names));
      assert x in AnimFiles(names) <==> x in multiset(AnimFiles(names));
    }
  }

  /** The seek loop: copy every frame until the seek runs past the last one. */
  method LoadPictures(g: Gif) returns (pictures: seq<Picture>)
    ensures pictures == Pictures(g)
  {
    var fs := Frames(g);
    var pos := 0;
    pictures := [fs[0].picture];
    while pos + 1 < |fs|
      invariant 0 <= pos < |fs|
      invariant pictures == Pictures(g)[..pos + 1]
    {
      pos := pos + 1;
      pictures := pictures + [fs[pos].picture];
    }
  }

  /** `target_frames_5s` */
  const PreviewFrames: nat := 50

  /** `int(i * step)` with step = len(frames) / 50: the i-th sampled frame of n > 50. */
  function SampleIndex(i: nat, n: nat): (k: int)
    requires PreviewFrames < n && i < PreviewFrames
    ensures i <= k < n
  {
    SampleBounds(i, n);
    ((i as real) * ((n as real) / 50.0)).Floor
  }

  /** i <= i * step < n for step = n / 50 and i < 50. */
  lemma SampleBounds(i: nat, n: nat)
    requires PreviewFrames < n && i < PreviewFrames
    ensures i as real <= (i as real) * ((n as real) / 50.0) < n as real
  {
    var step := (n as real) / 50.0;
    StepAboveOne(n);
    MulMonotone(i as real, 1.0, step);
    MulStrictMonotone(step, i as real, 50.0);
    assert (i as real) * step == step * (i as real);
  }

  /** step = n / 50 exceeds 1 for n > 50, and 50 steps make n. */
  lemma StepAboveOne(n: nat)
    requires PreviewFrames < n
    ensures 1.0 < (n as real) / 50.0
    ensures (n as real) / 50.0 * 50.0 == n as real
  {
  }

  /** Later samples come from strictly later frames: no frame is taken twice and the order is kept. */
  lemma SampleIndexIncreasing(i: nat, j: nat, n: nat)
    requires PreviewFrames < n && i < j < PreviewFrames
    ensures SampleIndex(i, n) < SampleIndex(j, n)
  {
    var step := (n as real) / 50.0;
    StepAboveOne(n);
    var d := (j - i) as real;
    MulMonotone(step, 1.0, d);
    assert (j as real) * step == (i as real) * step + d * step;
    assert (i as real) * step + 1.0 < (j as real) * step;
  }

  /** `frames_5s`: 50 evenly sampled frames of a longer animation, the whole of a shorter one. */
  function Preview(frames: seq<Picture>): seq<Picture>
  {
    var n := |frames|;
    if n > PreviewFrames then seq(PreviewFrames, i requires 0 <= i < PreviewFrames => frames[SampleIndex(i, n)])
    else frames
  }

  /**
   * The preview has min(50, n) frames, so at 100 ms it lasts at most 5 s.  A
   * short animation is kept whole; a long one gives 50 of its frames in
   * order, the first one first, never the same frame twice.
   */
  lemma PreviewSpec(frames: seq<Picture>)
    ensures |Preview(frames)| == if |frames| > PreviewFrames then PreviewFrames else |frames|
    ensures |Preview(frames)| * 100 <= 5000
    ensures |frames| <= PreviewFrames ==> Preview(frames) == frames
    ensures |frames| > PreviewFrames ==>
      && Preview(frames)[0] == frames[0]
      && (forall i :: 0 <= i < PreviewFrames ==> Preview(frames)[i] == frames[SampleIndex(i, |frames|)])
      && (forall i, j :: 0 <= i < j < PreviewFrames ==> SampleIndex(i, |frames|) < SampleIndex(j, |frames|))
  {
    var n := |frames|;
    if n > PreviewFrames {
      assert SampleIndex(0, n) == 0;
      forall i, j | 0 <= i < j < PreviewFrames
        ensures SampleIndex(i, n) < SampleIndex(j, n)
      {
        SampleIndexIncreasing(i, j, n);
      }
    }
  }

  /** A written variant: its name, frames and the one duration every frame gets (ms). */
  datatype Variant = Variant(name: string, frames: seq<Picture>, duration: nat)

  /** The three variants of one animation. */
  function Variants(stem: string, frames: seq<Picture>): seq<Variant>
  {
    [ Variant(AV.PreviewName(stem), Preview(frames), 100),
      Variant(AV.RepeatName(stem), AV.Repeat3(frames), 100),
      Variant(AV.SlowName(stem), frames, 300) ]
  }

  /** The playing time of a variant, in ms. */
  function PlayingTime(v: Variant): nat
  {
    |v.frames| * v.duration
  }

  /**
   * The preview plays at most 5 s; the repeat is the animation three times
   * over, and the slow version the same frames three times as long, so both
   * play three times as long as the original at 100 ms a frame.
   */
  lemma VariantsSpec(stem: string, frames: seq<Picture>)
    ensures |Variants(stem, frames)| == 3
    ensures PlayingTime(Variants(stem, frames)[0]) <= 5000
    ensures Variants(stem, frames)[1].frames == AV.Repeat3(frames)
    ensures forall i :: 0 <= i < 3 * |frames| ==> Variants(stem, frames)[1].frames[i] == frames[i % |frames|]
    ensures Variants(stem, frames)[2].frames == frames
    ensures PlayingTime(Variants(stem, frames)[1]) == PlayingTime(Variants(stem, frames)[2]) == 3 * (|frames| * 100)
  {
    PreviewSpec(frames);
    AV.Repeat3Spec(frames);
  }

  /**
   * Every variant of an animation is itself named Anim*.gif, so a later run
   * takes the variants of this run for animations and makes variants of them.
   */
  lemma VariantsMatchInputPattern(stem: string)
    requires 4 <= |stem| && stem[..4] == "Anim"
    ensures IsAnimName(AV.PreviewName(stem)) && IsAnimName(AV.RepeatName(stem)) && IsAnimName(AV.SlowName(stem))
  {
    assert AV.PreviewName(stem)[..4] == stem[..4];
    assert AV.RepeatName(stem)[..4] == stem[..4];
    assert AV.SlowName(stem)[..4] == stem[..4];
  }

  /** The variants of every input, one entry per input in sorted order. */
  function Created(names: seq<string>, open: string -> Gif): (created: seq<seq<Variant>>)
    ensures |created| == |Inputs(names)|
  {
    var inputs := Inputs(names);
    seq(|inputs|, i requires 0 <= i < |inputs| => Variants(StemOfName(inputs[i]), Pictures(open(inputs[i]))))
  }

  /** The script: load each input in sorted order and make its three variants. */
  method Run(names: seq<string>, open: string -> Gif) returns (created: seq<seq<Variant>>)
    ensures created == Created(names, open)
  {
    var inputs := Inputs(names);
    created := [];
    for k := 0 to |inputs|
      invariant created == Created(names, open)[..k]
    {
      var frames := LoadPictures(open(inputs[k]));
      var stem := StemOfName(inputs[k]);
      created := created + [Variants(stem, frames)];
    }
  }
}
