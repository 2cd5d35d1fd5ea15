/** `WebpFrames`: the lazy reader for animated WebP files. It keeps the container open
    and moves its seek position one frame forward per `read`, decoding only that frame. */
module Webp {
  import opened Frames

  /** The guard of `__next__`: the container is not yet on its last frame. */
  predicate HasNext(frames: seq<Frame>, cursor: nat)
  {
    cursor < |frames| - 1
  }

  /** What a caller receives from `read` calls made from seek position `cursor` until
      the first `(False, None)`: each call first seeks one frame on, then decodes. */
  function Remaining(frames: seq<Frame>, cursor: nat): (out: seq<Frame>)
    decreases |frames| - cursor
  {
    if HasNext(frames, cursor) then [RgbToBgr(frames[cursor + 1])] + Remaining(frames, cursor + 1)
    else []
  }

  /** From position `cursor` the reader hands out the frames after `cursor`, never the
      one it is positioned on. */
  lemma {:induction false} RemainingSkipsCurrent(frames: seq<Frame>, cursor: nat)
    ensures Remaining(frames, cursor) == ConvertedFrom(frames, cursor + 1)
    decreases |frames| - cursor
  {
    if HasNext(frames, cursor) {
      RemainingSkipsCurrent(frames, cursor + 1);
    }
  }

  /** A freshly opened (or re-iterated) reader yields one frame fewer than its length:
      frames 1 to n - 1, while `__len__` reports n. */
  lemma FreshReaderSkipsFirstFrame(frames: seq<Frame>)
    requires |frames| >= 1
    ensures |Remaining(frames, 0)| == |frames| - 1
    ensures forall j :: 0 <= j < |frames| - 1 ==> Remaining(frames, 0)[j] == RgbToBgr(frames[j + 1])
  {
    RemainingSkipsCurrent(frames, 0);
    ConvertedFromIsSuffix(frames, 1);
  }

  class WebpFrames {
    const filePath: string
    /** The opened container `img`: `frames[k]` is what `img.convert('RGB')` gives once
        `img` is positioned on frame k, and `img.n_frames` is `|frames|`. */
    const frames: seq<Frame>
    /** `img.tell()`, the frame the container is positioned on. */
    var cursor: nat
    /** `self.index`: set by the constructor and read by nothing but `ReadCorrected`. */
    var index: nat

    /** The seek position never passes the last frame. */
    ghost predicate Valid()
      reads this
    {
      (cursor == 0 || cursor < |frames|) && index <= |frames|
    }

    /** `WebpFrames(file_path)`: the container opens on frame 0. */
    constructor (filePath: string, frames: seq<Frame>)
      ensures Valid()
      ensures this.filePath == filePath && this.frames == frames
      ensures cursor == 0 && index == 0
    {
      this.filePath := filePath;
      this.frames := frames;
      cursor := 0;
      index := 0;
    }

    /** `__iter__`: seeks back to frame 0 without reopening; `self.index` is untouched. */
    method Iter()
      requires Valid()
      modifies this
      ensures Valid()
      ensures cursor == 0 && index == old(index)
    {
      cursor := 0;
    }

    /** `__next__` (and `read`, which only calls it): when a later frame exists, seek to
        it and return it converted to BGR; otherwise return `(False, None)` and stay. */
    method Next() returns (ret: bool, frame: Option<Frame>)
      requires Valid()
      modifies this
      ensures Valid() && index == old(index)
      ensures ret <==> HasNext(frames, old(cursor))
      ensures ret ==> cursor == old(cursor) + 1 && frame == Some(RgbToBgr(frames[cursor]))
      ensures !ret ==> cursor == old(cursor) && frame == None
      ensures Remaining(frames, old(cursor)) ==
        if ret then [frame.value] + Remaining(frames, cursor) else []
    {
      if cursor < |frames| - 1 {
        cursor := cursor + 1;
        ret, frame := true, Some(RgbToBgr(frames[cursor]));
      } else {
        ret, frame := false, None;
      }
    }

    /** `read`. */
    method Read() returns (ret: bool, frame: Option<Frame>)
      requires Valid()
      modifies this
      ensures Valid() && index == old(index)
      ensures ret <==> HasNext(frames, old(cursor))
      ensures ret ==> cursor == old(cursor) + 1 && frame == Some(RgbToBgr(frames[cursor]))
      ensures !ret ==> cursor == old(cursor) && frame == None
      ensures Remaining(frames, old(cursor)) ==
        if ret then [frame.value] + Remaining(frames, cursor) else []
    {
      ret, frame := Next();
    }

    /** `__len__`: `img.n_frames`, whatever the position. */
    method Length() returns (n: nat)
      ensures n == |frames|
    {
      n := |frames|;
    }

    /** The read the length promises: hand out the frame at `self.index` (seeking to
        it) and then move `self.index` on, so that frame 0 is not skipped. */
    method ReadCorrected() returns (ret: bool, frame: Option<Frame>)
      requires Valid()
      modifies this
      ensures Valid()
      ensures ret <==> old(index) < |frames|
      ensures ret ==> index == old(index) + 1 && cursor == old(index)
      ensures ret ==> frame == Some(RgbToBgr(frames[old(index)]))
      ensures !ret ==> index == old(index) && cursor == old(cursor) && frame == None
      ensures ConvertedFrom(frames, old(index)) ==
        if ret then [frame.value] + ConvertedFrom(frames, index) else []
    {
      if index < |frames| {
        cursor := index;
        index := index + 1;
        ret, frame := true, Some(RgbToBgr(frames[cursor]));
      } else {
        ret, frame := false, None;
      }
    }

    /** The re-iteration that goes with `ReadCorrected`: back to frame 0. */
    method IterCorrected()
      requires Valid()
      modifies this
      ensures Valid()
      ensures cursor == 0 && index == 0
    {
      cursor := 0;
      index := 0;
    }
  }

  /** The caller's loop (`while True: ret, frame = cap.read(); if not ret: break`):
      reads until the first `(False, None)` and collects what was shown. */
  method Drain(cap: WebpFrames) returns (shown: seq<Frame>)
    requires cap.Valid()
    modifies cap
    ensures cap.Valid() && cap.index == old(cap.index)
    ensures shown == Remaining(cap.frames, old(cap.cursor))
    ensures !HasNext(cap.frames, cap.cursor)
  {
    shown := [];
    while true
      invariant cap.Valid() && cap.index == old(cap.index)
      invariant Remaining(cap.frames, old(cap.cursor)) == shown + Remaining(cap.frames, cap.cursor)
      decreases |cap.frames| - cap.cursor
    {
      var ret, frame := cap.Read();
      if !ret {
        break;
      }
      shown := shown + [frame.value];
    }
  }

  /** The same loop over the corrected read. */
  method DrainCorrected(cap: WebpFrames) returns (shown: seq<Frame>)
    requires cap.Valid()
    modifies cap
    ensures cap.Valid() && cap.index == |cap.frames|
    ensures shown == ConvertedFrom(cap.frames, old(cap.index))
  {
    shown := [];
    while true
      invariant cap.Valid()
      invariant ConvertedFrom(cap.frames, old(cap.index)) == shown + ConvertedFrom(cap.frames, cap.index)
      decreases |cap.frames| - cap.index
    {
      var ret, frame := cap.ReadCorrected();
      if !ret {
        break;
      }
      shown := shown + [frame.value];
    }
  }

  /** As written: a fresh reader over n >= 1 frames yields n - 1 frames though its
      length is n, and after `__iter__` the next pass yields the same n - 1 again. */
  method FreshPassAsWritten(filePath: string, frames: seq<Frame>)
    returns (first: seq<Frame>, second: seq<Frame>, n: nat)
    requires |frames| >= 1
    ensures n == |frames| && |first| == n - 1 && second == first
    ensures forall j :: 0 <= j < n - 1 ==> first[j] == RgbToBgr(frames[j + 1])
  {
    var cap := new WebpFrames(filePath, frames);
    n := cap.Length();
    first := Drain(cap);
    cap.Iter();
    second := Drain(cap);
    FreshReaderSkipsFirstFrame(frames);
  }

  /** Corrected: a fresh reader yields every frame, as many as its length, and a
      re-iterated one yields them all again. */
  method FreshPassCorrected(filePath: string, frames: seq<Frame>)
    returns (first: seq<Frame>, second: seq<Frame>, n: nat)
    ensures n == |frames| && |first| == n && second == first
    ensures forall j :: 0 <= j < n ==> first[j] == RgbToBgr(frames[j])
  {
    var cap := new WebpFrames(filePath, frames);
    n := cap.Length();
    first := DrainCorrected(cap);
    cap.IterCorrected();
    second := DrainCorrected(cap);
    ConvertedFromIsSuffix(frames, 0);
  }
}
