/** Frame notices: every callback with a frame belongs to a publication of its own. */
module StreamNotices {
  import opened Text
  import opened StreamProtocol
  import opened StreamInvariants

  /** The thread is on its way to the callback with the frame of a publication. */
  predicate Pending(p: Phase) {
    (p.Entering? || p.Sleeping? || p.Admitted?) && p.notice.Frame?
  }

  /** The publications of the frame notices among `begun`, in order. */
  function Announced(begun: seq<Notice>): seq<nat> {
    if begun == [] then []
    else
      var last := begun[|begun| - 1];
      Announced(begun[..|begun| - 1]) + (if last.Frame? then [last.publication] else [])
  }

  predicate Distinct(ns: seq<nat>) {
    forall i, j | 0 <= i < j < |ns| :: ns[i] != ns[j]
  }

  /** Pending and announced publications exist, and no publication is both, or either twice. */
  predicate NoticesInv(s: State) {
    && (forall t | 0 <= t < |s.threads| && Pending(s.threads[t]) ::
          1 <= s.threads[t].notice.publication <= s.published
          && s.threads[t].notice.publication !in Announced(s.log.begun))
    && (forall t, u | 0 <= t < u < |s.threads| && Pending(s.threads[t]) && Pending(s.threads[u]) ::
          s.threads[t].notice != s.threads[u].notice)
    && (forall k | k in Announced(s.log.begun) :: 1 <= k <= s.published)
    && Distinct(Announced(s.log.begun))
  }

  lemma AnnouncedNext(begun: seq<Notice>, notice: Notice)
    ensures Announced(begun + [notice]) ==
      Announced(begun) + if notice.Frame? then [notice.publication] else []
  {
    assert (begun + [notice])[..|begun|] == begun;
  }

  /** No publication and no announcement happens, and every notice on its way was on its way before. */
  predicate CarriesNotices(s: State, n: State) {
    && n.published == s.published && n.log.begun == s.log.begun && |n.threads| == |s.threads|
    && forall t | 0 <= t < |n.threads| && Pending(n.threads[t]) ::
        Pending(s.threads[t]) && n.threads[t].notice == s.threads[t].notice
  }

  lemma CarryingKeeps(s: State, n: State)
    requires NoticesInv(s) && CarriesNotices(s, n)
    ensures NoticesInv(n)
  {
  }

  lemma OthersCarry(s: State, a: Action)
    requires Enabled(s, a) && !a.DecodeEnds? && !a.Begin?
    ensures CarriesNotices(s, Next(s, a))
  {
    hide AfterWork, AfterStop, WorkerCan, StopperCan;
    match a {
      case WorkerStep(step) => WorkerCarries(s, step);
      case StopStep => StopperCarries(s);
      case _ =>
    }
  }

  lemma WorkerCarries(s: State, step: WorkStep)
    requires s.worker.Some? && WorkerCan(s, step)
    ensures CarriesNotices(s, AfterWork(s, step))
  {
  }

  lemma StopperCarries(s: State)
    requires s.stopper.Some? && StopperCan(s)
    ensures CarriesNotices(s, AfterStop(s))
  {
  }

  lemma PublishingKeeps(s: State, t: Thread, outcome: DecodeOutcome)
    requires NoticesInv(s) && t < |s.threads|
    ensures NoticesInv(AfterDecode(s, t, outcome))
  {
  }

  lemma BeginningKeeps(s: State, t: Thread)
    requires NoticesInv(s) && Enabled(s, Begin(t))
    ensures NoticesInv(Next(s, Begin(t)))
  {
    hide AfterWork, AfterStop, WorkerCan, StopperCan, AfterEnter, AfterNotify, AfterDecode, Announced;
    AnnouncedNext(s.log.begun, s.threads[t].notice);
  }

  lemma NoticesKept(s: State, a: Action)
    requires NoticesInv(s) && Enabled(s, a)
    ensures NoticesInv(Next(s, a))
  {
    hide NoticesInv, CarriesNotices, AfterWork, AfterStop, AfterEnter, AfterNotify, AfterDecode, WorkerCan, StopperCan;
    match a {
      case DecodeEnds(t, outcome) => PublishingKeeps(s, t, outcome);
      case Begin(t) => BeginningKeeps(s, t);
      case _ =>
        OthersCarry(s, a);
        CarryingKeeps(s, Next(s, a));
    }
  }

  lemma {:induction false} NoticesAlong(states: seq<State>, actions: seq<Action>, i: nat)
    requires IsRun(states, actions) && i < |states|
    ensures NoticesInv(states[i])
  {
    hide *;
    ReachableInv(states, actions, i);
    if i > 0 {
      NoticesAlong(states, actions, i - 1);
      RunStep(states, actions, i - 1);
      NoticesKept(states[i - 1], actions[i - 1]);
    } else {
      NoticesAtFirst(states, actions);
    }
  }

  lemma NoticesAtFirst(states: seq<State>, actions: seq<Action>)
    requires IsRun(states, actions)
    ensures |states| > 0 && NoticesInv(states[0])
  {
    hide Enabled, Next;
  }

  /** Distinct numbers from 1 to `n` are at most `n`. */
  lemma {:induction false} DistinctBounded(ns: seq<nat>, n: nat)
    requires Distinct(ns) && forall k | k in ns :: 1 <= k <= n
    ensures |ns| <= n
    decreases n
  {
    if ns == [] {
    } else if i :| 0 <= i < |ns| && ns[i] == n {
      assert n in ns;
      var others := ns[..i] + ns[i + 1..];
      assert forall k | k in others :: k in ns && k != n;
      DistinctBounded(others, n - 1);
    } else {
      assert ns[0] in ns;
      DistinctBounded(ns, n - 1);
    }
  }

  /**
    In every run, no publication is announced twice, and the number of SUCCESS callbacks begun never exceeds the
    number of frames published.
    */
  lemma NoMoreCallbacksThanFrames(states: seq<State>, actions: seq<Action>, i: nat)
    requires IsRun(states, actions) && i < |states|
    ensures Distinct(Announced(states[i].log.begun))
    ensures |Announced(states[i].log.begun)| <= states[i].published
  {
    hide Enabled, Next;
    NoticesAlong(states, actions, i);
    DistinctBounded(Announced(states[i].log.begun), states[i].published);
  }

  // ---------------------------------------------------------------- one thread delivers frames

  /** Frames are delivered on one thread, and frames are copied only from inside a SUCCESS callback. */
  predicate Orderly(s: State, a: Action, deliverer: Thread) {
    match a
    case FrameArrives(t) => t == deliverer
    case CopyFrame(t, _) => t < |s.threads| && s.threads[t].Calling? && s.threads[t].notice.Frame?
    case _ => true
  }

  ghost predicate OrderlyRun(states: seq<State>, actions: seq<Action>, deliverer: Thread) {
    IsRun(states, actions) && forall i | 0 <= i < |actions| :: Orderly(states[i], actions[i], deliverer)
  }

  /** The frame on its way to the callback is the newest one, and nobody has copied it. */
  predicate NewestInv(s: State, deliverer: Thread) {
    && s.consumed <= s.published
    && (forall t | 0 <= t < |s.threads| && s.threads[t] == Decoding :: t == deliverer)
    && (forall t | 0 <= t < |s.threads| && Pending(s.threads[t]) ::
          t == deliverer && s.threads[t].notice.publication == s.published && s.consumed < s.published)
    && (forall t | 0 <= t < |s.threads| && s.threads[t].Calling? && s.threads[t].notice.Frame? ::
          t == deliverer && s.threads[t].notice.publication == s.published)
  }

  lemma NewestKept(s: State, a: Action, deliverer: Thread)
    requires NewestInv(s, deliverer) && Enabled(s, a) && Orderly(s, a, deliverer)
    ensures NewestInv(Next(s, a), deliverer)
  {
    hide AfterWork, AfterStop, AfterEnter, AfterNotify, AfterDecode, WorkerCan, StopperCan;
    match a {
      case WorkerStep(step) => NewestByWorker(s, step, deliverer);
      case StopStep => NewestByStop(s, deliverer);
      case Enter(t) => NewestByEnter(s, t, deliverer);
      case Notify(t) => NewestByNotify(s, t, deliverer);
      case DecodeEnds(t, outcome) => NewestByDecode(s, t, outcome, deliverer);
      case Begin(t) => NewestByBegin(s, t, deliverer);
      case CopyFrame(t, buffer) => NewestByCopy(s, t, buffer, deliverer);
      case _ =>
    }
  }

  lemma NewestByBegin(s: State, t: Thread, deliverer: Thread)
    requires NewestInv(s, deliverer) && Enabled(s, Begin(t))
    ensures NewestInv(Next(s, Begin(t)), deliverer)
  {
  }

  lemma NewestByCopy(s: State, t: Thread, buffer: Buffer, deliverer: Thread)
    requires NewestInv(s, deliverer) && Orderly(s, CopyFrame(t, buffer), deliverer) && t < |s.threads|
    ensures NewestInv(Next(s, CopyFrame(t, buffer)), deliverer)
  {
  }

  lemma NewestByWorker(s: State, step: WorkStep, deliverer: Thread)
    requires NewestInv(s, deliverer) && s.worker.Some? && WorkerCan(s, step)
    ensures NewestInv(AfterWork(s, step), deliverer)
  {
  }

  lemma NewestByStop(s: State, deliverer: Thread)
    requires NewestInv(s, deliverer) && s.stopper.Some? && StopperCan(s)
    ensures NewestInv(AfterStop(s), deliverer)
  {
  }

  lemma NewestByEnter(s: State, t: Thread, deliverer: Thread)
    requires NewestInv(s, deliverer) && t < |s.threads| && s.threads[t].Entering?
    ensures NewestInv(AfterEnter(s, t), deliverer)
  {
  }

  lemma NewestByNotify(s: State, t: Thread, deliverer: Thread)
    requires NewestInv(s, deliverer) && t < |s.threads|
    ensures NewestInv(AfterNotify(s, t), deliverer)
  {
  }

  lemma NewestByDecode(s: State, t: Thread, outcome: DecodeOutcome, deliverer: Thread)
    requires NewestInv(s, deliverer) && t < |s.threads| && s.threads[t] == Decoding
    ensures NewestInv(AfterDecode(s, t, outcome), deliverer)
  {
  }

  lemma {:induction false} NewestAlong(states: seq<State>, actions: seq<Action>, deliverer: Thread, i: nat)
    requires OrderlyRun(states, actions, deliverer) && i < |states|
    ensures NewestInv(states[i], deliverer)
  {
    hide Enabled, Next, Init, NewestInv, Orderly, Inv;
    ReachableInv(states, actions, i);
    if i > 0 {
      NewestAlong(states, actions, deliverer, i - 1);
      RunStep(states, actions, i - 1);
      NewestKept(states[i - 1], actions[i - 1], deliverer);
    } else {
      NewestAtFirst(states, actions, deliverer);
    }
  }

  lemma NewestAtFirst(states: seq<State>, actions: seq<Action>, deliverer: Thread)
    requires IsRun(states, actions)
    ensures |states| > 0 && NewestInv(states[0], deliverer)
  {
    hide Enabled, Next;
  }

  /**
    With one delivering thread and a consumer that copies only on SUCCESS, a SUCCESS callback begins with its own
    frame published last and not yet copied, so that its first copy succeeds with exactly that frame.
    */
  lemma SuccessFindsItsOwnFrame(states: seq<State>, actions: seq<Action>, deliverer: Thread, i: nat, t: Thread, k: nat)
    requires OrderlyRun(states, actions, deliverer) && i < |actions|
    requires actions[i] == Begin(t) && t < |states[i].threads| && states[i].threads[t] == Admitted(Frame(k))
    ensures t < |states[i + 1].threads| && states[i + 1].threads[t] == Calling(Frame(k))
    ensures states[i + 1].published == k && states[i + 1].consumed < k
  {
    hide Init, AfterWork, AfterStop, Orderly, Inv;
    NewestAlong(states, actions, deliverer, i);
    RunStep(states, actions, i);
  }

  /** While that callback runs, its frame stays the newest one. */
  lemma FrameStaysNewest(states: seq<State>, actions: seq<Action>, deliverer: Thread, i: nat, t: Thread, k: nat)
    requires OrderlyRun(states, actions, deliverer) && i < |states|
    requires t < |states[i].threads| && states[i].threads[t] == Calling(Frame(k))
    ensures states[i].published == k
  {
    hide Init, Enabled, Next, Orderly;
    NewestAlong(states, actions, deliverer, i);
  }

  /** A copy with a usable buffer. */
  predicate Copies(a: Action) {
    a.CopyFrame? && a.buffer == Usable
  }

  lemma StaysInCallback(s: State, a: Action, t: Thread)
    requires Inv(s) && Enabled(s, a) && !Copies(a) && a != Return(t)
    requires t < |s.threads| && s.threads[t].Calling?
    ensures Next(s, a).consumed == s.consumed
    ensures t < |Next(s, a).threads| && Next(s, a).threads[t] == s.threads[t]
  {
    hide GateInv, StopInv, WakeInv, DecoderInv, JoinInv;
  }

  /** Until the callback returns or a copy has a usable buffer, the callback goes on and nothing is consumed. */
  lemma {:induction false} FrameWaitsInCallback(states: seq<State>, actions: seq<Action>, deliverer: Thread,
                                                i: nat, j: nat, t: Thread, k: nat)
    requires OrderlyRun(states, actions, deliverer) && i < j < |states| && |states| == |actions| + 1
    requires actions[i] == Begin(t) && t < |states[i].threads| && states[i].threads[t] == Admitted(Frame(k))
    requires forall m | i < m < j :: !Copies(actions[m]) && actions[m] != Return(t)
    ensures t < |states[j].threads| && states[j].threads[t] == Calling(Frame(k))
    ensures states[j].consumed == states[i + 1].consumed < k
  {
    hide Enabled, Next, Init, NewestInv, Orderly, Inv;
    if j == i + 1 {
      SuccessFindsItsOwnFrame(states, actions, deliverer, i, t, k);
    } else {
      FrameWaitsInCallback(states, actions, deliverer, i, j - 1, t, k);
      ReachableInv(states, actions, j - 1);
      RunStep(states, actions, j - 1);
      StaysInCallback(states[j - 1], actions[j - 1], t);
    }
  }

  lemma CopyStep(s: State, t: Thread)
    requires Enabled(s, CopyFrame(t, Usable)) && s.consumed < s.published
    ensures CopyOutcome(s, Usable) == if (s.published - s.consumed) % SIZE_LIMIT == 0 then Mailbox.NoFrame else Mailbox.Success
    ensures s.published - s.consumed < SIZE_LIMIT ==> CopyOutcome(s, Usable) == Mailbox.Success
    ensures CopyOutcome(s, Usable) == Mailbox.Success ==> Next(s, CopyFrame(t, Usable)).consumed == s.published
  {
    hide Mailbox.Wrapped;
    Mailbox.WrappedEqual(s.consumed, s.published);
  }

  /**
    The first copy with a usable buffer inside a SUCCESS callback therefore takes exactly the frame of that callback.
    It is told that there is no frame only if the unread frames are a multiple of 2^64, so never with fewer.
    */
  lemma FirstCopyTakesItsOwnFrame(states: seq<State>, actions: seq<Action>, deliverer: Thread,
                                  i: nat, j: nat, t: Thread, k: nat)
    requires OrderlyRun(states, actions, deliverer) && i < j < |actions| && |states| == |actions| + 1
    requires actions[i] == Begin(t) && t < |states[i].threads| && states[i].threads[t] == Admitted(Frame(k))
    requires forall m | i < m < j :: !Copies(actions[m]) && actions[m] != Return(t)
    requires Copies(actions[j])
    ensures actions[j] == CopyFrame(t, Usable)
    ensures states[j].published == k && states[j].consumed == states[i + 1].consumed < k
    ensures var unread := k - states[i + 1].consumed;
      && CopyOutcome(states[j], Usable) == (if unread % SIZE_LIMIT == 0 then Mailbox.NoFrame else Mailbox.Success)
      && (unread < SIZE_LIMIT ==> CopyOutcome(states[j], Usable) == Mailbox.Success)
    ensures CopyOutcome(states[j], Usable) == Mailbox.Success ==> states[j + 1].consumed == k
  {
    hide Init, Inv, Enabled, Next, CopyOutcome;
    FrameWaitsInCallback(states, actions, deliverer, i, j, t, k);
    NewestAlong(states, actions, deliverer, j);
    RunStep(states, actions, j);
    assert Orderly(states[j], actions[j], deliverer);
    CopyStep(states[j], t);
  }
}
