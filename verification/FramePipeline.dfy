/** From the decoded picture to the reader's bitmap: conversion, mailbox and strided copy one after the other. */
module FramePipelines {
  import opened Wrappers
  import opened Text
  import opened FrameConversion
  import opened LatestFrameStores
  import opened FrameCopies

  /**
    Whatever the destination held and whatever its stride, byte `k` of column `c` in row `r` becomes channel `k` of
    that pixel of the picture, and the padding of the row stays.
    */
  lemma PixelsArrive(p: Picture, destinationStride: nat, before: seq<byte>, r: nat, c: nat, k: nat)
    requires WellFormed(p) && PlanesCover(p) && p.width * 4 <= destinationStride
    requires destinationStride * p.height <= |before| && r < p.height && c < p.width && k < 4
    ensures 0 <= r * destinationStride && r * destinationStride + 4 * c + k < |before|
    ensures Copied(Converted(p), p.width * 4, p.height, destinationStride, before)[r * destinationStride + 4 * c + k]
            == PixelByte(p, r, c, k)
  {
    hide ByteAt, PixelByte, CopiedByte;
    CopiedAt(Converted(p), p.width * 4, p.height, destinationStride, before, r, 4 * c + k);
    ConvertedAt(p, r, c, k);
  }

  /** In terms of the samples: the destination shows the exact conversion of the right luma and chroma, within one. */
  lemma SamplesArrive(p: Picture, destinationStride: nat, before: seq<byte>, r: nat, c: nat)
    requires WellFormed(p) && PlanesCover(p) && p.width * 4 <= destinationStride
    requires destinationStride * p.height <= |before| && r < p.height && c < p.width
    ensures var after := Copied(Converted(p), p.width * 4, p.height, destinationStride, before);
      var i, luma, chroma := r * destinationStride + 4 * c, r * p.yStride + c, r / 2 * p.uvStride + c / 2;
      && 0 <= i && i + 3 < |after|
      && 0 <= luma < |p.y.value| && 0 <= chroma < |p.u.value| && chroma < |p.v.value|
      && var y, u, v := p.y.value[luma], p.u.value[chroma], p.v.value[chroma];
      && Near(after[i], ExactBlue(y, u, v)) && Near(after[i + 1], ExactGreen(y, u, v))
      && Near(after[i + 2], ExactRed(y, u, v)) && after[i + 3] == 255
  {
    hide ByteAt, PixelByte, CopiedByte, Converted, Copied, Near, ExactBlue, ExactGreen, ExactRed;
    CopiedAt(Converted(p), p.width * 4, p.height, destinationStride, before, r, 4 * c);
    CopiedAt(Converted(p), p.width * 4, p.height, destinationStride, before, r, 4 * c + 1);
    CopiedAt(Converted(p), p.width * 4, p.height, destinationStride, before, r, 4 * c + 2);
    CopiedAt(Converted(p), p.width * 4, p.height, destinationStride, before, r, 4 * c + 3);
    ConvertedPixel(p, r, c);
  }

  lemma PaddingStays(p: Picture, destinationStride: nat, before: seq<byte>, r: nat, q: nat)
    requires WellFormed(p) && PlanesCover(p) && p.width * 4 <= q < destinationStride
    requires destinationStride * p.height <= |before| && r < p.height
    ensures 0 <= r * destinationStride && r * destinationStride + q < |before|
    ensures Copied(Converted(p), p.width * 4, p.height, destinationStride, before)[r * destinationStride + q]
            == before[r * destinationStride + q]
  {
    hide ByteAt, CopiedByte;
    CopiedAt(Converted(p), p.width * 4, p.height, destinationStride, before, r, q);
  }

  // ---------------------------------------------------------------- what the stages together should do

  /** A picture and the time stamp it was decoded with. */
  datatype Shot = Shot(picture: Picture, timestampUs: nat)

  predicate Convertible(p: Picture) {
    WellFormed(p) && SizeFits(p) && PlanesCover(p)
  }

  function FrameOf(shot: Shot): (f: Frame)
    requires Convertible(shot.picture)
    ensures f.Shaped()
  {
    var p := shot.picture;
    Frame(Converted(p), p.width, p.height, p.width * 4, shot.timestampUs)
  }

  function LengthOf(shot: Shot): int {
    shot.picture.width * 4 * shot.picture.height
  }

  /** A step of the decoding thread, or of a reader; `memoryLeft` says whether a reader's buffer can grow. */
  datatype Step = Convert(picture: Picture, timestampUs: nat) | Publish | Copy(reader: nat, memoryLeft: bool)

  /**
    The pipeline without buffers: the picture that is converted and not yet published, the published ones, how many of
    them there were at the last successful copy, and for every reader the picture it shows and the room in its buffer.
    */
  datatype Spec = Spec(ready: Option<Shot>, shots: seq<Shot>, copied: nat, shown: seq<Option<Shot>>, room: seq<nat>)

  predicate CopySucceeds(s: Spec, reader: nat, memoryLeft: bool)
    requires reader < |s.room|
  {
    && s.shots != [] && (|s.shots| - s.copied) % SIZE_LIMIT != 0
    && (memoryLeft || LengthOf(s.shots[|s.shots| - 1]) <= s.room[reader])
  }

  function AfterCopy(s: Spec, reader: nat, memoryLeft: bool): Spec
    requires reader < |s.shown| && reader < |s.room|
  {
    if (|s.shots| - s.copied) % SIZE_LIMIT == 0 then s.(shown := s.shown[reader := None])
    else if CopySucceeds(s, reader, memoryLeft) then
      var newest := s.shots[|s.shots| - 1];
      s.(copied := |s.shots|, shown := s.shown[reader := Some(newest)],
         room := s.room[reader := if s.room[reader] < LengthOf(newest) then LengthOf(newest) else s.room[reader]])
    else s
  }

  function After(s: Spec, step: Step): Spec {
    match step
    case Convert(p, time) => s.(ready := if WellFormed(p) && SizeFits(p) then Some(Shot(p, time)) else None)
    case Publish => if s.ready.Some? then s.(ready := None, shots := s.shots + [s.ready.value]) else s
    case Copy(reader, memoryLeft) =>
      if reader < |s.shown| && reader < |s.room| then AfterCopy(s, reader, memoryLeft) else s
  }

  function AfterAll(s: Spec, steps: seq<Step>): Spec {
    if steps == [] then s else After(AfterAll(s, steps[..|steps| - 1]), steps[|steps| - 1])
  }

  /** Nothing has happened, and the readers have no buffers yet. */
  predicate Untouched(s: Spec) {
    && s.ready.None? && s.shots == [] && s.copied == 0 && |s.room| == |s.shown|
    && forall r | 0 <= r < |s.shown| :: s.shown[r].None? && s.room[r] == 0
  }

  predicate SpecInv(s: Spec) {
    && s.copied <= |s.shots| && |s.room| == |s.shown|
    && (forall r | 0 <= r < |s.shown| && s.shown[r].Some? ::
          s.shown[r].value in s.shots && LengthOf(s.shown[r].value) <= s.room[r])
  }

  /** Whatever the steps and their order, a reader shows only pictures that were published, and has room for them. */
  lemma {:induction false} ShownWerePublished(s: Spec, steps: seq<Step>)
    requires Untouched(s)
    ensures SpecInv(AfterAll(s, steps))
  {
    if steps != [] {
      ShownWerePublished(s, steps[..|steps| - 1]);
      var before, step := AfterAll(s, steps[..|steps| - 1]), steps[|steps| - 1];
      SpecKept(before, step);
    }
  }

  lemma SpecKept(s: Spec, step: Step)
    requires SpecInv(s)
    ensures SpecInv(After(s, step))
  {
    hide LengthOf, WellFormed, SizeFits;
  }

  /** A copy that succeeds shows the picture published last, later than at every success before it. */
  lemma SuccessShowsNewest(s: Spec, reader: nat, memoryLeft: bool)
    requires SpecInv(s) && reader < |s.shown|
    ensures var n := After(s, Copy(reader, memoryLeft));
      && (n.copied != s.copied <==> CopySucceeds(s, reader, memoryLeft))
      && (CopySucceeds(s, reader, memoryLeft) ==>
            s.copied < n.copied == |s.shots| && n.shown[reader] == Some(s.shots[|s.shots| - 1]))
      && (forall r | 0 <= r < |s.shown| && r != reader :: n.shown[r] == s.shown[r])
  {
  }

  /** A picture that goes straight through is shown, whatever happened before, with fewer than 2^64 unread ones. */
  lemma StraightThrough(s: Spec, p: Picture, timestampUs: nat, reader: nat)
    requires SpecInv(s) && reader < |s.shown| && WellFormed(p) && SizeFits(p)
    requires |s.shots| + 1 - s.copied < SIZE_LIMIT
    ensures var n := After(After(After(s, Convert(p, timestampUs)), Publish), Copy(reader, true));
      |n.shown| == |s.shown| && n.shown[reader] == Some(Shot(p, timestampUs)) && n.copied == |s.shots| + 1
  {
    hide LengthOf, WellFormed, SizeFits;
  }

  /** A reader that is told that there is no frame shows none, and nothing else changes. */
  lemma NoFrameShowsNone(s: Spec, reader: nat, memoryLeft: bool)
    requires SpecInv(s) && reader < |s.shown| && (|s.shots| - s.copied) % 0x1_0000_0000_0000_0000 == 0
    ensures var n := After(s, Copy(reader, memoryLeft));
      && n.shown == s.shown[reader := None] && n.room == s.room
      && n.shots == s.shots && n.copied == s.copied && n.ready == s.ready
  {
  }

  /** A converted picture is published once; without one nothing is published. */
  lemma PublishedOnce(s: Spec)
    ensures s.ready.None? ==> After(s, Publish) == s
    ensures s.ready.Some? ==> After(s, Publish).shots == s.shots + [s.ready.value]
    ensures After(After(s, Publish), Publish) == After(s, Publish)
  {
  }

  // ---------------------------------------------------------------- the stages with their buffers

  class Pipeline {
    const store: LatestFrameStore
    const working: DecodedFrame

    var ready: Option<Shot>
    ghost var shots: seq<Shot>

    constructor ()
      ensures Valid() && ready.None? && shots == [] && store.CopiedAt() == 0
      ensures fresh(store) && fresh(store.latest) && fresh(store.latest.pixels) && fresh(working) && fresh(working.pixels)
    {
      store := new LatestFrameStore();
      working := new DecodedFrame();
      ready, shots := None, [];
    }

    /** Every published frame is the conversion of its picture, and so is the working frame once it is converted. */
    ghost predicate Valid()
      reads this, store, store.latest, store.latest.pixels, working, working.pixels
    {
      && store.Valid() && working != store.latest && working.pixels != store.latest.pixels && working.Shaped()
      && |shots| == |store.published|
      && (forall i | 0 <= i < |shots| :: Convertible(shots[i].picture) && store.published[i] == FrameOf(shots[i]))
      && (ready.Some? ==> Convertible(ready.value.picture) && Content(working) == FrameOf(ready.value))
    }

    /** The decoder's conversion into the working frame, whatever that held before. */
    method Convert(p: Picture, timestampUs: nat) returns (error: string)
      requires Valid() && (WellFormed(p) ==> PlanesCover(p))
      modifies this`ready, working, working.pixels
      ensures Valid() && (working.pixels == old(working.pixels) || fresh(working.pixels))
      ensures ready == if WellFormed(p) && SizeFits(p) then Some(Shot(p, timestampUs)) else None
      ensures error == "" <==> ready.Some?
    {
      hide Converted, PlanesCover, Wrapped;
      error := ConvertI420ToBgra(p, timestampUs, working);
      ready := if error == "" then Some(Shot(p, timestampUs)) else None;
    }

    /** The decoder hands the working frame over and gets an old buffer back. */
    method Publish()
      requires Valid() && ready.Some?
      modifies this`ready, this`shots, store`sequence, store`published, store.latest, working
      ensures Valid() && shots == old(shots) + [old(ready.value)] && ready.None?
      ensures store.latest.pixels == old(working.pixels) && working.pixels == old(store.latest.pixels)
      ensures store.CopiedAt() == old(store.CopiedAt())
    {
      hide FrameOf, Wrapped;
      store.Publish(working);
      shots := shots + [ready.value];
      ready := None;
    }

    /** A reader copies the newest frame into its own buffer. */
    method Copy(native: NativeFrame, memoryLeft: bool) returns (outcome: Outcome)
      requires Valid() && native.Owned() && native.Shaped()
      requires native.data != null ==> native.data != store.latest.pixels && native.data != working.pixels
      modifies store`consumedSequence, store`copies, native, native.data
      ensures Valid() && native.Owned() && native.Shaped()
      ensures native.data == old(native.data) || fresh(native.data)
      ensures outcome == NoFrame <==> (|shots| - old(store.CopiedAt())) % SIZE_LIMIT == 0
      ensures outcome == NoFrame ==> native.Cleared()
      ensures outcome == Success <==>
        && (|shots| - old(store.CopiedAt())) % SIZE_LIMIT != 0 && shots != []
        && (memoryLeft || LengthOf(shots[|shots| - 1]) <= old(native.capacity))
      ensures outcome == Success ==> shots != [] && native.Holds(FrameOf(shots[|shots| - 1]))
      ensures outcome == Success ==> native.capacity == Max(old(native.capacity), LengthOf(shots[|shots| - 1]))
      ensures outcome != Success ==> native.capacity == old(native.capacity)
      ensures outcome != Success && outcome != NoFrame ==> unchanged(native)
      ensures outcome != Success ==> native.data == old(native.data)
      ensures outcome != Success && native.data != null ==> native.data[..] == old(native.data[..])
      ensures store.CopiedAt() == if outcome == Success then |shots| else old(store.CopiedAt())
    {
      hide Wrapped, Increasing, Converted;
      outcome := store.CopyNewest(native, memoryLeft);
    }
  }
}
