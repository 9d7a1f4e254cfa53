/**
  Every interleaving of the decoding thread with any number of readers: the buffers of the pipeline always hold what the
  pipeline without buffers says.
  */
module PipelineRuns {
  import opened Wrappers
  import opened Text
  import opened FrameConversion
  import opened LatestFrameStores
  import opened FrameCopies
  import opened FramePipelines

  /** The reader's structure shows this picture, or none, and has this capacity. */
  ghost predicate ReaderShows(native: NativeFrame, shown: Option<Shot>, room: nat)
    reads native, native.data
  {
    && native.Owned() && native.Shaped() && native.capacity == room
    && match shown
       case None => native.Cleared()
       case Some(shot) => Convertible(shot.picture) && native.Holds(FrameOf(shot))
  }

  ghost function ReaderBuffers(readers: seq<NativeFrame>): set<array<byte>>
    reads readers
  {
    set r: NativeFrame | r in readers && r.data != null :: r.data
  }

  ghost function Buffers(pipeline: Pipeline, readers: seq<NativeFrame>): set<array<byte>>
    reads pipeline, pipeline.store, pipeline.store.latest, pipeline.working, readers
  {
    {pipeline.working.pixels, pipeline.store.latest.pixels} + ReaderBuffers(readers)
  }

  /** No two readers share a structure or a buffer, and none shares a buffer with the pipeline. */
  ghost predicate Apart(pipeline: Pipeline, readers: seq<NativeFrame>)
    reads pipeline, pipeline.store, pipeline.store.latest, pipeline.working, readers
  {
    && (forall r | 0 <= r < |readers| && readers[r].data != null ::
          readers[r].data != pipeline.working.pixels && readers[r].data != pipeline.store.latest.pixels)
    && (forall r, q | 0 <= r < q < |readers| ::
          readers[r] != readers[q] && (readers[r].data != null ==> readers[r].data != readers[q].data))
  }

  ghost predicate PipelineShows(pipeline: Pipeline, s: Spec)
    reads pipeline, pipeline.store, pipeline.store.latest, pipeline.store.latest.pixels
    reads pipeline.working, pipeline.working.pixels
  {
    pipeline.Valid() && pipeline.ready == s.ready && pipeline.shots == s.shots && pipeline.store.CopiedAt() == s.copied
  }

  ghost predicate ReadersShow(readers: seq<NativeFrame>, s: Spec)
    reads readers, ReaderBuffers(readers)
  {
    && |s.shown| == |readers| && |s.room| == |readers|
    && forall r | 0 <= r < |readers| :: ReaderShows(readers[r], s.shown[r], s.room[r])
  }

  lemma OthersKeep(s: Spec, reader: nat, memoryLeft: bool)
    requires reader < |s.shown| && |s.room| == |s.shown|
    ensures var n := After(s, Step.Copy(reader, memoryLeft));
      && |n.shown| == |s.shown| && |n.room| == |s.room|
      && forall r | 0 <= r < |s.shown| && r != reader :: n.shown[r] == s.shown[r] && n.room[r] == s.room[r]
  {
  }

  /** A reader copies into its own structure. */
  method CopyOne(pipeline: Pipeline, native: NativeFrame, memoryLeft: bool, ghost s: Spec, ghost reader: nat)
    returns (outcome: Outcome)
    requires PipelineShows(pipeline, s) && reader < |s.shown| && |s.room| == |s.shown|
    requires ReaderShows(native, s.shown[reader], s.room[reader])
    requires native.data != null ==> native.data != pipeline.working.pixels && native.data != pipeline.store.latest.pixels
    modifies pipeline.store`consumedSequence, pipeline.store`copies, native, native.data
    ensures var n := After(s, Step.Copy(reader, memoryLeft));
      && PipelineShows(pipeline, n)
      && reader < |n.shown| && |n.room| == |n.shown| && ReaderShows(native, n.shown[reader], n.room[reader])
    ensures native.data == old(native.data) || fresh(native.data)
    ensures outcome == Success <==> CopySucceeds(s, reader, memoryLeft)
    ensures outcome == NoFrame <==> (|s.shots| - s.copied) % SIZE_LIMIT == 0
  {
    hide Wrapped, Increasing, Converted, WellFormed, SizeFits, PlanesCover;
    outcome := pipeline.Copy(native, memoryLeft);
  }

  /** One reader copies; the others keep what they show. */
  method CopyFor(pipeline: Pipeline, readers: seq<NativeFrame>, reader: nat, memoryLeft: bool, ghost s: Spec)
    returns (outcome: Outcome)
    requires Apart(pipeline, readers) && PipelineShows(pipeline, s) && ReadersShow(readers, s) && reader < |readers|
    modifies pipeline.store`consumedSequence, pipeline.store`copies, readers[reader], readers[reader].data
    ensures Apart(pipeline, readers) && PipelineShows(pipeline, After(s, Step.Copy(reader, memoryLeft)))
    ensures ReadersShow(readers, After(s, Step.Copy(reader, memoryLeft)))
    ensures readers[reader].data == old(readers[reader].data) || fresh(readers[reader].data)
    ensures outcome == Success <==> CopySucceeds(s, reader, memoryLeft)
    ensures outcome == NoFrame <==> (|s.shots| - s.copied) % SIZE_LIMIT == 0
  {
    hide ReaderShows, PipelineShows, After, CopySucceeds;
    OthersKeep(s, reader, memoryLeft);
    outcome := CopyOne(pipeline, readers[reader], memoryLeft, s, reader);
  }

  /** One step of the decoding thread. */
  method DecoderStep(pipeline: Pipeline, step: Step, ghost s: Spec)
    requires PipelineShows(pipeline, s) && !step.Copy?
    requires step.Convert? && WellFormed(step.picture) ==> PlanesCover(step.picture)
    modifies pipeline, pipeline.store, pipeline.store.latest, pipeline.working, pipeline.working.pixels
    ensures PipelineShows(pipeline, After(s, step))
    ensures pipeline.working.pixels in old({pipeline.working.pixels, pipeline.store.latest.pixels})
      || fresh(pipeline.working.pixels)
    ensures pipeline.store.latest.pixels in old({pipeline.working.pixels, pipeline.store.latest.pixels})
      || fresh(pipeline.store.latest.pixels)
  {
    match step {
      case Convert(p, time) => var error := pipeline.Convert(p, time);
      case Publish =>
        // The decoder publishes only what it has just converted.
        if pipeline.ready.Some? {
          pipeline.Publish();
        }
      case Copy(_, _) =>
    }
  }

  /** The planes of every picture that is handed over well-formed are as long as they should be. */
  predicate PlanesGiven(steps: seq<Step>) {
    forall i | 0 <= i < |steps| && steps[i].Convert? && WellFormed(steps[i].picture) :: PlanesCover(steps[i].picture)
  }

  /** One step of the decoding thread or of a reader. */
  method Perform(pipeline: Pipeline, readers: seq<NativeFrame>, step: Step, ghost s: Spec)
    requires Apart(pipeline, readers) && PipelineShows(pipeline, s) && ReadersShow(readers, s)
    requires step.Convert? && WellFormed(step.picture) ==> PlanesCover(step.picture)
    modifies pipeline, pipeline.store, pipeline.store.latest, pipeline.working, Buffers(pipeline, readers), readers
    ensures Apart(pipeline, readers) && PipelineShows(pipeline, After(s, step)) && ReadersShow(readers, After(s, step))
    ensures forall b | b in Buffers(pipeline, readers) :: b in old(Buffers(pipeline, readers)) || fresh(b)
  {
    hide ReaderShows, PipelineShows, AfterCopy, CopySucceeds;
    if step.Copy? {
      if step.reader < |readers| {
        var outcome := CopyFor(pipeline, readers, step.reader, step.memoryLeft, s);
      }
    } else {
      DecoderStep(pipeline, step, s);
    }
  }

  /**
    Any number of steps of the decoding thread and of the readers, in any order: afterwards every reader shows exactly the
    picture that the pipeline without buffers says, and the pipeline is fit for more steps.
    */
  method Run(pipeline: Pipeline, readers: seq<NativeFrame>, steps: seq<Step>, ghost s: Spec)
    requires Apart(pipeline, readers) && PipelineShows(pipeline, s) && ReadersShow(readers, s) && PlanesGiven(steps)
    modifies pipeline, pipeline.store, pipeline.store.latest, pipeline.working, Buffers(pipeline, readers), readers
    ensures Apart(pipeline, readers)
    ensures PipelineShows(pipeline, AfterAll(s, steps)) && ReadersShow(readers, AfterAll(s, steps))
  {
    hide ReaderShows, PipelineShows, After, Apart, ReadersShow, WellFormed, PlanesCover;
    var done := 0;
    assert steps[..0] == [];
    while done < |steps|
      invariant done <= |steps| && Apart(pipeline, readers)
      invariant PipelineShows(pipeline, AfterAll(s, steps[..done])) && ReadersShow(readers, AfterAll(s, steps[..done]))
      invariant forall b | b in Buffers(pipeline, readers) :: b in old(Buffers(pipeline, readers)) || fresh(b)
    {
      Perform(pipeline, readers, steps[done], AfterAll(s, steps[..done]));
      assert steps[..done + 1][..done] == steps[..done];
      done := done + 1;
    }
    assert steps[..|steps|] == steps;
  }

  /**
    The refinement from end to end: after any such run, the strided copy of a reader that shows a picture puts channel `k`
    of its pixel in row `r` and column `c` to byte `r * stride + 4 * c + k`, and touches nothing else.
    */
  method CopyOut(frame: DriverStationRtcFrame, ghost shot: Shot, destination: array<byte>, destinationStride: int)
    returns (fault: Option<Fault>)
    requires Convertible(shot.picture) && frame.native.Shaped() && frame.native.Holds(FrameOf(shot))
    requires destination != frame.native.data
    modifies destination
    ensures fault == frame.Refusal(destinationStride, destination.Length)
    ensures fault.Some? ==> destination[..] == old(destination[..])
    ensures fault.None? ==> var p := shot.picture;
      p.width * 4 <= destinationStride && destinationStride * p.height <= destination.Length
    ensures fault.None? ==>
      var p := shot.picture;
      destination[..] == Copied(Converted(p), p.width * 4, p.height, destinationStride, old(destination[..]))
  {
    hide Converted, Copied, WellFormed, SizeFits, PlanesCover;
    fault := frame.CopyToSpan(destination, destinationStride);
  }

  /** A new pipeline and new readers, from which every run can start. */
  method Open(count: nat) returns (pipeline: Pipeline, readers: seq<NativeFrame>, ghost s: Spec)
    ensures |readers| == count && Untouched(s)
    ensures Apart(pipeline, readers) && PipelineShows(pipeline, s) && ReadersShow(readers, s)
  {
    pipeline := new Pipeline();
    readers := [];
    while |readers| < count
      invariant |readers| <= count && pipeline.Valid() && pipeline.ready.None? && pipeline.shots == []
      invariant pipeline.store.CopiedAt() == 0
      invariant forall r | 0 <= r < |readers| :: readers[r].Cleared() && readers[r].data == null && readers[r].capacity == 0
      invariant forall r, q | 0 <= r < q < |readers| :: readers[r] != readers[q]
    {
      var reader := new NativeFrame();
      readers := readers + [reader];
    }
    s := Spec(None, [], 0, seq(count, i => None), seq(count, i => 0));
  }
}
