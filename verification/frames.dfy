/** Decoded frames and the one pixel operation the readers apply to them: the
    red/blue channel swap of `cv2.cvtColor(..., cv2.COLOR_RGB2BGR)`. */
module Frames {

  newtype byte = x: int | 0 <= x < 256

  /** One pixel of a three-channel 8-bit image, channels in buffer order. */
  datatype Pixel = Pixel(c0: byte, c1: byte, c2: byte)

  /** A decoded image, its rows laid end to end. */
  type Frame = seq<Pixel>

  datatype Option<T> = None | Some(value: T)

  /** `cv2.cvtColor(frame, cv2.COLOR_RGB2BGR)`: the first and third channel of every
      pixel trade places, the middle one stays, and the shape is kept. */
  function RgbToBgr(f: Frame): (g: Frame)
    ensures |g| == |f|
    ensures forall i :: 0 <= i < |f| ==>
      g[i].c0 == f[i].c2 && g[i].c1 == f[i].c1 && g[i].c2 == f[i].c0
  {
    if f == [] then [] else [Pixel(f[0].c2, f[0].c1, f[0].c0)] + RgbToBgr(f[1..])
  }

  /** Converting twice gives back the frame: the conversion loses nothing. */
  lemma RgbToBgrTwice(f: Frame)
    ensures RgbToBgr(RgbToBgr(f)) == f
  {
    var g := RgbToBgr(RgbToBgr(f));
    assert forall i :: 0 <= i < |f| ==> g[i] == f[i];
  }

  /** The frames `first`, `first + 1`, ... to the end, each converted to BGR order:
      what a caller receives from a reader that hands out the stored frames from
      `first` on. */
  function ConvertedFrom(frames: seq<Frame>, first: nat): (out: seq<Frame>)
    decreases |frames| - first
  {
    if first < |frames| then [RgbToBgr(frames[first])] + ConvertedFrom(frames, first + 1)
    else []
  }

  /** `ConvertedFrom(frames, first)` holds exactly the frames after `first - 1`, in
      order and converted. */
  lemma {:induction false} ConvertedFromIsSuffix(frames: seq<Frame>, first: nat)
    ensures |ConvertedFrom(frames, first)| == if first <= |frames| then |frames| - first else 0
    ensures forall j :: 0 <= j < |ConvertedFrom(frames, first)| ==>
      ConvertedFrom(frames, first)[j] == RgbToBgr(frames[first + j])
    decreases |frames| - first
  {
    if first < |frames| {
      ConvertedFromIsSuffix(frames, first + 1);
      var rest := ConvertedFrom(frames, first + 1);
      assert ConvertedFrom(frames, first) == [RgbToBgr(frames[first])] + rest;
      forall j | 0 <= j < |rest| + 1
        ensures ([RgbToBgr(frames[first])] + rest)[j] == RgbToBgr(frames[first + j])
      {
        if j > 0 { assert ([RgbToBgr(frames[first])] + rest)[j] == rest[j - 1]; }
      }
    }
  }
}
