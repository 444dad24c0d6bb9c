/**
 * An animated GIF as PIL's `Image.open` presents it: a first frame, then
 * the frames `img.seek(img.tell() + 1)` reaches before it raises EOFError.
 * A frame is its image (`img.copy()`, pixels not interpreted) and the
 * `duration` entry of `img.info`, when the frame has one.
 */
module Gifs {
  import opened Wrappers

  /** Pixel rows stand in for a PIL image; nothing here looks inside them. */
  type Picture = seq<int>

  datatype Frame = Frame(picture: Picture, duration: Option<nat>)

  /** A GIF that opens has at least one frame. */
  datatype Gif = Gif(first: Frame, rest: seq<Frame>)

  function Frames(g: Gif): (fs: seq<Frame>)
    ensures |fs| > 0 && fs[0] == g.first
  {
    [g.first] + g.rest
  }

  /** The frames' pictures, in order. */
  function Pictures(g: Gif): (ps: seq<Picture>)
    ensures |ps| == |Frames(g)|
    ensures forall i :: 0 <= i < |ps| ==> ps[i] == Frames(g)[i].picture
  {
    seq(|Frames(g)|, i requires 0 <= i < |Frames(g)| => Frames(g)[i].picture)
  }
}
