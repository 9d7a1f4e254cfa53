/**
  Runs of the mailbox of latest_frame_store.cpp, seen through its two counters only: when is a reader told that
  there is no frame? The plain answer counts the frames since the last successful copy, with numbers that never wrap.
  */
module MailboxRuns {
  import opened Text
  import opened LatestFrameStores

  /** A publication, or a copy; `able` says whether the reader's buffer is valid and can be made large enough. */
  datatype Step = Publish | Copy(able: bool)

  datatype Counters = Counters(sequence: nat, consumed: nat)

  predicate ReportsNoFrame(c: Counters) {
    c.sequence == c.consumed
  }

  function After(c: Counters, step: Step): Counters {
    match step
    case Publish => c.(sequence := (c.sequence + 1) % SIZE_LIMIT)
    case Copy(able) => if !ReportsNoFrame(c) && able then c.(consumed := c.sequence) else c
  }

  function Run(steps: seq<Step>): Counters {
    if steps == [] then Counters(0, 0) else After(Run(steps[..|steps| - 1]), steps[|steps| - 1])
  }

  /** How many frames have been published since the last copy that could succeed. */
  function Unread(steps: seq<Step>): nat {
    if steps == [] then 0
    else
      var before := Unread(steps[..|steps| - 1]);
      match steps[|steps| - 1]
      case Publish => before + 1
      case Copy(able) => if able then 0 else before
  }

  predicate NeverFull(steps: seq<Step>) {
    forall i | 0 <= i <= |steps| :: Unread(steps[..i]) < SIZE_LIMIT
  }

  function PublishCount(steps: seq<Step>): nat {
    if steps == [] then 0
    else PublishCount(steps[..|steps| - 1]) + if steps[|steps| - 1] == Publish then 1 else 0
  }

  lemma NeverFullBefore(steps: seq<Step>)
    requires steps != [] && NeverFull(steps)
    ensures NeverFull(steps[..|steps| - 1]) && Unread(steps) < SIZE_LIMIT
  {
    var before := steps[..|steps| - 1];
    forall i | 0 <= i <= |before| ensures Unread(before[..i]) < SIZE_LIMIT {
      assert before[..i] == steps[..i];
    }
    assert steps[..|steps|] == steps;
  }

  /** The counters are the number of publications and that number without the unread ones, modulo 2^64. */
  lemma {:induction false} CountersMean(steps: seq<Step>)
    requires NeverFull(steps)
    ensures Unread(steps) <= PublishCount(steps)
    ensures Run(steps) == Counters(Wrapped(PublishCount(steps)), Wrapped(PublishCount(steps) - Unread(steps)))
  {
    if steps != [] {
      NeverFullBefore(steps);
      var before := steps[..|steps| - 1];
      CountersMean(before);
      WrappedNext(PublishCount(before));
      assert before[..|before|] == before;
      WrappedEqual(PublishCount(before) - Unread(before), PublishCount(before));
    }
  }

  /**
    As long as fewer than 2^64 frames are published between copies that succeed, the wrapping counters answer like
    the plain count: there is no frame exactly if nothing is unread.
    */
  lemma NoFrameMeansNothingUnread(steps: seq<Step>)
    requires NeverFull(steps)
    ensures ReportsNoFrame(Run(steps)) <==> Unread(steps) == 0
  {
    CountersMean(steps);
    assert steps[..|steps|] == steps;
    WrappedEqual(PublishCount(steps) - Unread(steps), PublishCount(steps));
  }

  function Publications(n: nat): seq<Step> {
    seq(n, i => Publish)
  }

  /** Without that bound it is false: a fresh mailbox with `n` publications reports no frame exactly if 2^64 divides `n`. */
  lemma {:induction false} FullCycleIsLost(n: nat)
    ensures Unread(Publications(n)) == n && Run(Publications(n)) == Counters(n % SIZE_LIMIT, 0)
    ensures ReportsNoFrame(Run(Publications(n))) <==> n % SIZE_LIMIT == 0
  {
    if n > 0 {
      FullCycleIsLost(n - 1);
      assert Publications(n)[..n - 1] == Publications(n - 1);
      WrappedNext(n - 1);
    }
  }
}
