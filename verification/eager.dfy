/** `GifFrames` and `PngFrames`: the eager readers for animated GIF and PNG files. The
    two classes behave identically (they differ only in how `read` spells its return
    and in `PngFrames` failing to load without the `apng` package), so one class
    stands for both. Each decodes the whole
    file into a list at construction and then hands the list out by index. */
module Eager {
  import opened Frames

  class EagerFrames {
    const filePath: string
    /** What iterating `ImageSequence.Iterator(Image.open(filePath))` yields, each frame
        after `convert('RGB')`; every opening of the file yields the same frames. */
    const file: seq<Frame>
    /** `self.frames`. */
    var frames: seq<Frame>
    /** `self.index`, the next position `__next__` hands out. */
    var index: nat

    /** The list always holds the whole decoded file, and the index never passes its end. */
    ghost predicate Valid()
      reads this
    {
      frames == file && index <= |frames|
    }

    /** `GifFrames(file_path)` / `PngFrames(file_path)`: an empty list and index 0, then
        `__iter__` fills the list. */
    constructor (filePath: string, file: seq<Frame>)
      ensures Valid()
      ensures this.filePath == filePath && this.file == file
      ensures frames == file && index == 0
    {
      this.filePath := filePath;
      this.file := file;
      frames := [];
      index := 0;
      new;
      Iter();
    }

    /** The decoding loop of `__iter__` and `__len__`: every frame of the file is
        appended, in order, to `self.frames`. */
    method AppendDecoded()
      modifies this`frames
      ensures frames == old(frames) + file
    {
      var i := 0;
      while i < |file|
        invariant 0 <= i <= |file|
        invariant frames == old(frames) + file[..i]
      {
        frames := frames + [file[i]];
        i := i + 1;
      }
    }

    /** `__iter__`: decodes the file afresh into an emptied list. The index is left as
        it was, so a pass that has reached the end stays at the end. */
    method Iter()
      requires index <= |file|
      modifies this`frames
      ensures Valid()
      ensures frames == file && index == old(index)
    {
      frames := [];
      AppendDecoded();
    }

    /** `__next__`: the stored frame at the index, as decoded (RGB order), and the index
        moves on; `(False, None)` with nothing changed once the list is used up. */
    method Next() returns (ret: bool, frame: Option<Frame>)
      requires Valid()
      modifies this`index
      ensures Valid()
      ensures ret <==> old(index) < |frames|
      ensures ret ==> index == old(index) + 1 && frame == Some(frames[old(index)])
      ensures !ret ==> index == old(index) && frame == None
    {
      if index < |frames| {
        frame := Some(frames[index]);
        index := index + 1;
        ret := true;
      } else {
        ret, frame := false, None;
      }
    }

    /** `read`: `__next__`, with the frame converted to BGR order. */
    method Read() returns (ret: bool, frame: Option<Frame>)
      requires Valid()
      modifies this`index
      ensures Valid()
      ensures ret <==> old(index) < |frames|
      ensures ret ==> index == old(index) + 1 && frame == Some(RgbToBgr(frames[old(index)]))
      ensures !ret ==> index == old(index) && frame == None
      ensures ConvertedFrom(frames, old(index)) ==
        if ret then [frame.value] + ConvertedFrom(frames, index) else []
    {
      var raw;
      ret, raw := Next();
      frame := if ret then Some(RgbToBgr(raw.value)) else None;
    }

    /** `__len__`: decodes into the list only when it is empty, then reports its size. */
    method Length() returns (n: nat)
      requires Valid()
      modifies this`frames
      ensures Valid()
      ensures frames == if old(frames) == [] then old(frames) + file else old(frames)
      ensures n == |frames| == |file|
    {
      if frames == [] {
        AppendDecoded();
      }
      n := |frames|;
    }

    /** A re-iteration that restarts the pass, as `WebpFrames.__iter__` does by seeking
        back to frame 0: decode afresh and start again at frame 0. */
    method IterCorrected()
      modifies this
      ensures Valid()
      ensures frames == file && index == 0
    {
      frames := [];
      AppendDecoded();
      index := 0;
    }
  }

  /** The caller's loop (`while True: ret, frame = cap.read(); if not ret: break`):
      reads until the first `(False, None)` and collects what was shown. */
  method Drain(cap: EagerFrames) returns (shown: seq<Frame>)
    requires cap.Valid()
    modifies cap
    ensures cap.Valid() && cap.frames == old(cap.frames) && cap.index == |cap.frames|
    ensures shown == ConvertedFrom(cap.frames, old(cap.index))
  {
    shown := [];
    while true
      invariant cap.Valid() && cap.frames == old(cap.frames)
      invariant ConvertedFrom(cap.frames, old(cap.index)) == shown + ConvertedFrom(cap.frames, cap.index)
      decreases |cap.frames| - cap.index
    {
      var ret, frame := cap.Read();
      if !ret {
        break;
      }
      shown := shown + [frame.value];
    }
  }

  /** As written: a fresh reader yields exactly as many frames as `__len__` reports,
      before and after the pass, but after `__iter__` a second pass yields nothing. */
  method PassesAsWritten(filePath: string, file: seq<Frame>)
    returns (before: nat, first: seq<Frame>, after: nat, second: seq<Frame>)
    ensures before == |file| && after == before && |first| == before
    ensures forall j :: 0 <= j < |first| ==> first[j] == RgbToBgr(file[j])
    ensures second == []
  {
    var cap := new EagerFrames(filePath, file);
    before := cap.Length();
    first := Drain(cap);
    after := cap.Length();
    cap.Iter();
    second := Drain(cap);
    ConvertedFromIsSuffix(file, 0);
    ConvertedFromIsSuffix(file, |file|);
  }

  /** Corrected: after the restarting `IterCorrected` the second pass yields the same
      frames as the first. */
  method PassesCorrected(filePath: string, file: seq<Frame>)
    returns (before: nat, first: seq<Frame>, after: nat, second: seq<Frame>)
    ensures before == |file| && after == before && |first| == before
    ensures forall j :: 0 <= j < |first| ==> first[j] == RgbToBgr(file[j])
    ensures second == first
  {
    var cap := new EagerFrames(filePath, file);
    before := cap.Length();
    first := Drain(cap);
    after := cap.Length();
    cap.IterCorrected();
    second := Drain(cap);
    ConvertedFromIsSuffix(file, 0);
  }
}
