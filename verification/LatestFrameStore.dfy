/**
  The mailbox between the decoder and the reader of frames (latest_frame_store.cpp): one slot, filled by swapping
  buffers, and two 64-bit counters that wrap around.
  */
module LatestFrameStores {
  import opened Text
  import opened FrameConversion

  datatype Outcome = Success | NoFrame | InvalidArgument | OutOfMemory

  /** The value of a published frame. */
  datatype Frame = Frame(pixels: seq<byte>, width: nat, height: nat, stride: nat, timestampUs: nat) {
    /** The rows follow each other without padding. */
    predicate Shaped() {
      |pixels| == stride * height
    }
  }

  /** `DriverStationRtcFrame`: a buffer that the reader owns, reused from call to call. */
  class NativeFrame {
    var data: array?<byte>
    var length: nat
    var capacity: nat
    var width: nat
    var height: nat
    var stride: nat
    var timestampUs: nat

    constructor ()
      ensures Cleared() && data == null && capacity == 0
    {
      data, length, capacity, width, height, stride, timestampUs := null, 0, 0, 0, 0, 0, 0;
    }

    predicate Cleared()
      reads this
    {
      length == 0 && width == 0 && height == 0 && stride == 0 && timestampUs == 0
    }

    /** The length is that of the rows, and the buffer has as many bytes. */
    predicate Shaped()
      reads this, data
    {
      length == stride * height && (length != 0 ==> data != null && length <= data.Length)
    }

    /** What the caller promises: a buffer has at least the capacity that the structure claims. */
    predicate Usable()
      reads this, data
    {
      data != null ==> capacity <= data.Length
    }

    /** The structure as this library leaves it: without a buffer there is no capacity. */
    predicate Owned()
      reads this, data
    {
      Usable() && (data == null ==> capacity == 0)
    }

    /** No frame: length and metadata are cleared, the buffer is kept. */
    method Clear()
      modifies this`length, this`width, this`height, this`stride, this`timestampUs
      ensures Cleared() && Shaped()
    {
      length, width, height, stride, timestampUs := 0, 0, 0, 0, 0;
    }

    /** The structure describes this frame, whose pixels are at the start of the buffer. */
    predicate Holds(frame: Frame)
      reads this, data
    {
      && length == |frame.pixels| && width == frame.width && height == frame.height && stride == frame.stride
      && timestampUs == frame.timestampUs
      && (length != 0 ==> data != null && length <= data.Length && data[..length] == frame.pixels)
    }
  }

  function Max(a: int, b: int): int {
    if a < b then b else a
  }

  function Wrapped(count: nat): nat {
    count % SIZE_LIMIT
  }

  lemma WrappedNext(count: nat)
    ensures Wrapped(count + 1) == (Wrapped(count) + 1) % SIZE_LIMIT
  {
  }

  /** Two counters look equal exactly if the counts differ by a multiple of 2^64. */
  lemma WrappedEqual(a: nat, b: nat)
    requires a <= b
    ensures Wrapped(a) == Wrapped(b) <==> (b - a) % SIZE_LIMIT == 0
    ensures b - a < SIZE_LIMIT ==> (Wrapped(a) == Wrapped(b) <==> a == b)
  {
    assert a == a / SIZE_LIMIT * SIZE_LIMIT + Wrapped(a);
    assert b == b / SIZE_LIMIT * SIZE_LIMIT + Wrapped(b);
  }

  predicate Increasing(ns: seq<nat>) {
    forall i, j | 0 <= i < j < |ns| :: ns[i] < ns[j]
  }

  lemma IncreasingNext(ns: seq<nat>, n: nat)
    requires Increasing(ns) && (ns != [] ==> ns[|ns| - 1] < n)
    ensures Increasing(ns + [n])
  {
  }

  class LatestFrameStore {
    const latest: DecodedFrame
    var sequence: nat
    var consumedSequence: nat

    /** Every frame published so far, and how many there were at each successful copy. */
    ghost var published: seq<Frame>
    ghost var copies: seq<nat>

    constructor ()
      ensures Valid() && fresh(latest) && fresh(latest.pixels)
      ensures published == [] && copies == []
    {
      latest := new DecodedFrame();
      sequence, consumedSequence := 0, 0;
      published, copies := [], [];
    }

    /** How many frames had been published at the last successful copy. */
    ghost function CopiedAt(): nat
      reads this
    {
      if copies == [] then 0 else copies[|copies| - 1]
    }

    /**
      The counters are those numbers modulo 2^64, the slot holds the frame published last, and every frame that ever was
      in the slot has as many pixel bytes as its rows need.
      */
    ghost predicate Valid()
      reads this, latest, latest.pixels
    {
      && sequence == Wrapped(|published|) && consumedSequence == Wrapped(CopiedAt())
      && Increasing(copies) && (forall i | 0 <= i < |copies| :: 1 <= copies[i] <= |published|)
      && (published != [] ==> Content(latest) == published[|published| - 1])
      && latest.Shaped() && (forall f | f in published :: f.Shaped())
    }

    /** `Publish`: the slot and the caller's frame change places, so the caller gets an old buffer to fill. */
    method Publish(frame: DecodedFrame)
      requires Valid() && frame != latest && frame.Shaped()
      modifies this`sequence, this`published, latest, frame
      ensures Valid() && published == old(published) + [old(Content(frame))]
      ensures latest.pixels == old(frame.pixels) && frame.pixels == old(latest.pixels)
      ensures Content(frame) == old(Content(latest)) && frame.Shaped()
      ensures sequence == (old(sequence) + 1) % SIZE_LIMIT
    {
      WrappedNext(|published|);
      published := published + [Content(frame)];
      latest.pixels, frame.pixels := frame.pixels, latest.pixels;
      latest.width, frame.width := frame.width, latest.width;
      latest.height, frame.height := frame.height, latest.height;
      latest.stride, frame.stride := frame.stride, latest.stride;
      latest.timestampUs, frame.timestampUs := frame.timestampUs, latest.timestampUs;
      sequence := (sequence + 1) % SIZE_LIMIT;
    }

    /**
      `CopyNewest`. `memoryLeft` says whether `realloc` succeeds. There is no frame exactly if nothing has been
      published since the last success, or a multiple of 2^64 frames. Only a success consumes anything.
      */
    method CopyNewest(destination: NativeFrame, memoryLeft: bool) returns (outcome: Outcome)
      requires Valid() && destination.Usable()
      requires destination.data != null ==> destination.data != latest.pixels
      modifies this`consumedSequence, this`copies, destination, destination.data
      ensures Valid() && (destination.data == old(destination.data) || fresh(destination.data))
      ensures old(destination.Shaped()) ==> destination.Shaped()
      ensures old(destination.Owned()) ==> destination.Owned()
      ensures outcome == NoFrame <==> sequence == old(consumedSequence)
      ensures consumedSequence == if outcome == Success then sequence else old(consumedSequence)
      ensures outcome == NoFrame <==> (|published| - old(CopiedAt())) % SIZE_LIMIT == 0
      ensures |published| - old(CopiedAt()) < SIZE_LIMIT ==> (outcome == NoFrame <==> |published| == old(CopiedAt()))
      ensures outcome == NoFrame ==> destination.Cleared() && destination.data == old(destination.data)
      ensures outcome == Outcome.InvalidArgument <==>
        outcome != NoFrame && old(destination.data == null && destination.capacity != 0)
      ensures outcome == OutOfMemory <==>
        && outcome != NoFrame && outcome != Outcome.InvalidArgument && !memoryLeft
        && published != [] && old(destination.capacity) < |published[|published| - 1].pixels|
      ensures outcome != Success ==> copies == old(copies) && destination.capacity == old(destination.capacity)
      ensures outcome == Outcome.InvalidArgument || outcome == OutOfMemory ==> unchanged(destination)
      ensures outcome != Success && destination.data != null ==> destination.data[..] == old(destination.data[..])
      ensures outcome == Success <==> copies != old(copies)
      ensures outcome == Success ==>
        && copies == old(copies) + [|published|] && published != [] && destination.Holds(published[|published| - 1])
        && destination.Owned() && destination.length <= destination.capacity
        && destination.capacity == Max(old(destination.capacity), |published[|published| - 1].pixels|)
    {
      hide Wrapped, Increasing;
      WrappedEqual(CopiedAt(), |published|);
      if sequence == consumedSequence {
        destination.Clear();
        return NoFrame;
      }
      if destination.data == null && destination.capacity != 0 {
        return Outcome.InvalidArgument;
      }
      var filled := Fill(latest, destination, memoryLeft);
      if !filled {
        return OutOfMemory;
      }
      MarkConsumed();
      outcome := Success;
    }

    /** The frame in the slot counts as copied. */
    method MarkConsumed()
      requires Valid() && CopiedAt() < |published|
      modifies this`consumedSequence, this`copies
      ensures Valid() && copies == old(copies) + [|published|] && consumedSequence == sequence
    {
      consumedSequence := sequence;
      IncreasingNext(copies, |published|);
      copies := copies + [|published|];
    }
  }

  /** The part of `CopyNewest` between the tests and the counters: make room, then copy pixels and metadata. */
  method Fill(source: DecodedFrame, destination: NativeFrame, memoryLeft: bool) returns (filled: bool)
    requires destination.Usable() && (destination.data == null ==> destination.capacity == 0)
    requires destination.data != null ==> destination.data != source.pixels
    modifies destination, destination.data
    ensures destination.data == old(destination.data) || fresh(destination.data)
    ensures filled <==> memoryLeft || source.pixels.Length <= old(destination.capacity)
    ensures !filled ==> unchanged(destination)
    ensures !filled && destination.data != null ==> destination.data[..] == old(destination.data[..])
    ensures filled ==> destination.Holds(Content(source)) && destination.Owned()
    ensures filled && source.Shaped() ==> destination.Shaped()
    ensures filled ==> destination.length <= destination.capacity
    ensures filled ==> destination.capacity == Max(old(destination.capacity), source.pixels.Length)
  {
    var required := source.pixels.Length;
    if destination.capacity < required {
      if !memoryLeft {
        return false;
      }
      Reallocate(destination, required);
    }
    if required != 0 {
      CopyBytes(source.pixels, destination.data, required);
    }
    destination.length := required;
    destination.width, destination.height, destination.stride := source.width, source.height, source.stride;
    destination.timestampUs := source.timestampUs;
    filled := true;
  }

  ghost function Content(frame: DecodedFrame): Frame
    reads frame, frame.pixels
  {
    Frame(frame.pixels[..], frame.width, frame.height, frame.stride, frame.timestampUs)
  }

  /** A successful `realloc`: the old bytes come along, then the structure takes the new buffer. */
  method Reallocate(destination: NativeFrame, required: nat)
    requires destination.Usable() && destination.capacity < required
    modifies destination`data, destination`capacity
    ensures destination.data != null && fresh(destination.data) && destination.data.Length == required
    ensures destination.capacity == required
  {
    var before := destination.data;
    destination.data := new byte[required](i requires 0 <= i reads before =>
      if before != null && i < before.Length then before[i] else 0);
    destination.capacity := required;
  }

  /** `memcpy` of a whole buffer to the start of another one. */
  method CopyBytes(source: array<byte>, target: array<byte>, count: nat)
    requires count == source.Length <= target.Length && source != target
    modifies target
    ensures target[..count] == source[..] && target[count..] == old(target[count..])
  {
    forall i | 0 <= i < count {
      target[i] := source[i];
    }
  }

  /** `ReleaseFrame` frees the buffer and clears the structure. */
  method ReleaseFrame(frame: NativeFrame)
    modifies frame
    ensures frame.Cleared() && frame.data == null && frame.capacity == 0
  {
    frame.data := null;
    frame.length, frame.capacity, frame.width, frame.height, frame.stride, frame.timestampUs := 0, 0, 0, 0, 0, 0;
  }
}
