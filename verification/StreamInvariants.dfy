/** What every step of a stream keeps. */
module StreamInvariants {
  import opened Wrappers
  import opened StreamProtocol

  /** The phases of the thread that has set `frame_callback_active_` and not yet cleared it. */
  predicate Holds(p: Phase) {
    p.Admitted? || p.Calling? || p == Leaving
  }

  predicate SomeoneWaking(threads: seq<Phase>) {
    exists u | 0 <= u < |threads| :: threads[u] == Waking
  }

  predicate BeforeCancel(stop: StopPhase) {
    stop == NotStopped || stop == Cancelling
  }

  predicate WaitingInCancel(stop: StopPhase) {
    stop == CancelAsleep || stop == CancelAwake
  }

  /** `CancelFrameCallback` has returned. */
  predicate CancelReturned(stop: StopPhase) {
    !BeforeCancel(stop) && !WaitingInCancel(stop)
  }

  /** `worker_.join()` or `worker_.detach()` is behind the stopper. */
  predicate JoinReturned(stop: StopPhase) {
    CancelReturned(stop) && stop != Joining
  }

  /** The active flag names exactly one thread, the one that is between the two critical sections. */
  predicate GateInv(s: State) {
    && (forall t | 0 <= t < |s.threads| :: Holds(s.threads[t]) ==> s.gate.active && s.gate.caller == Some(t))
    && (s.gate.active ==> s.gate.caller.Some? && s.gate.caller.value < |s.threads| && Holds(s.threads[s.gate.caller.value]))
  }

  predicate StopInv(s: State) {
    && (s.gate.stopping <==> s.stopper.Some?)
    && (s.stopper.None? <==> s.stop == NotStopped)
    && (s.stopper.Some? ==> s.stopper.value < |s.threads|)
    && (s.stopper.Some? && s.stop != Stopped ==> s.threads[s.stopper.value] == Outside || s.threads[s.stopper.value].Calling?)
    && (BeforeCancel(s.stop) <==> s.gate.hasCallback)
    && (WaitingInCancel(s.stop) ==> s.threads[s.stopper.value] == Outside)
    && (CancelReturned(s.stop) && s.gate.active ==> s.gate.caller == s.stopper && !s.threads[s.stopper.value].Admitted?)
  }

  /** No wakeup is lost: whoever sleeps has a callback to wait for, or a thread that is about to notify. */
  predicate WakeInv(s: State) {
    && (forall t | 0 <= t < |s.threads| && s.threads[t].Sleeping? ::
          BeforeCancel(s.stop) && (s.gate.active || SomeoneWaking(s.threads)))
    && (s.stop == CancelAsleep ==> s.gate.active || SomeoneWaking(s.threads))
  }

  predicate WorkerHoldsGathering(work: Work) {
    match work
    case Failing(_, locked) => locked
    case Reporting(locked) => locked
    case _ => false
  }

  /** The decoder mutex is held by the thread that decodes, and the worker never decodes. */
  predicate DecoderInv(s: State) {
    && (forall t | 0 <= t < |s.threads| :: s.threads[t] == Decoding <==> s.decoderOwner == Some(t))
    && (s.worker.Some? ==> s.worker != s.decoderOwner)
  }

  /** The worker is in the callback gate only to report a failure; only the worker keeps gathering_mutex_. */
  predicate WorkerInv(s: State) {
    && (s.worker.None? ==> s.work == Finished)
    && (s.worker.Some? ==> s.worker.value < |s.threads|)
    && (s.worker.Some? && !s.work.Reporting? ==> s.threads[s.worker.value] == Outside)
    && s.gatheringOwner == (if WorkerHoldsGathering(s.work) then s.worker else None)
  }

  /** The worker stops the stream only from its own callback; behind the join it stores nothing any more. */
  predicate JoinInv(s: State) {
    && (s.worker.Some? && s.worker == s.stopper && s.stop != Stopped ==>
          s.work.Reporting? && s.worker.value < |s.threads| && s.threads[s.worker.value].Calling?)
    && (JoinReturned(s.stop) ==> s.work == Finished || s.work.Reporting?)
    && (JoinReturned(s.stop) && s.work.Reporting? ==> s.worker == s.stopper)
  }

  predicate Inv(s: State) {
    GateInv(s) && StopInv(s) && WakeInv(s) && DecoderInv(s) && WorkerInv(s) && JoinInv(s)
  }

  lemma InitInv(s: State)
    requires Init(s)
    ensures Inv(s)
  {
  }

  // ---------------------------------------------------------------- one step

  lemma WakingKept(threads: seq<Phase>, t: Thread, p: Phase)
    requires t < |threads| && SomeoneWaking(threads) && (threads[t] != Waking || p == Waking)
    ensures SomeoneWaking(threads[t := p])
  {
    var u :| 0 <= u < |threads| && threads[u] == Waking;
    assert threads[t := p][u] == Waking;
  }

  lemma AwakeKeepsWaking(threads: seq<Phase>)
    requires SomeoneWaking(threads)
    ensures SomeoneWaking(AllAwake(threads))
  {
    var u :| 0 <= u < |threads| && threads[u] == Waking;
    assert AllAwake(threads)[u] == Waking;
  }

  lemma GateKept(s: State, a: Action)
    requires Inv(s) && Enabled(s, a)
    ensures GateInv(Next(s, a))
  {
    hide AfterEnter, AfterNotify, AfterDecode, AllAwake, AfterWork, AfterStop, WorkerCan, StopperCan, WakeInv, DecoderInv, JoinInv, WorkerInv;
    match a {
      case WorkerStep(step) => GateKeptByWorker(s, step);
      case StopStep => GateKeptByStop(s);
      case Enter(_) => GateKeptInGate(s, a);
      case Begin(_) => GateKeptInGate(s, a);
      case Return(_) => GateKeptInGate(s, a);
      case Leave(_) => GateKeptInGate(s, a);
      case Notify(_) => GateKeptInGate(s, a);
      case CallStop(t) => GateKeptByCall(s, t);
      case DecodeEnds(t, outcome) => GateKeptByDecode(s, t, outcome);
      case _ =>
    }
  }

  lemma GateKeptByCall(s: State, t: Thread)
    requires Inv(s) && Enabled(s, CallStop(t))
    ensures GateInv(Next(s, CallStop(t)))
  {
    hide AfterEnter, AfterNotify, AfterDecode, AllAwake, AfterWork, AfterStop, WorkerCan, StopperCan, WakeInv, DecoderInv;
    hide JoinInv, WorkerInv, StopInv, CopyOutcome;
  }

  lemma GateKeptByDecode(s: State, t: Thread, outcome: DecodeOutcome)
    requires Inv(s) && t < |s.threads| && s.threads[t] == Decoding
    ensures GateInv(AfterDecode(s, t, outcome))
  {
    hide WakeInv, DecoderInv, JoinInv, WorkerInv, StopInv;
  }

  lemma GateKeptInGate(s: State, a: Action)
    requires Inv(s) && Enabled(s, a)
    requires a.Enter? || a.Begin? || a.Return? || a.Leave? || a.Notify?
    ensures GateInv(Next(s, a))
  {
    hide AfterDecode, AfterWork, AfterStop, WorkerCan, StopperCan, WakeInv, DecoderInv, JoinInv, WorkerInv;
  }

  lemma GateKeptByWorker(s: State, step: WorkStep)
    requires Inv(s) && s.worker.Some? && WorkerCan(s, step)
    ensures GateInv(AfterWork(s, step))
  {
    hide WakeInv, DecoderInv, JoinInv;
  }

  lemma GateKeptByStop(s: State)
    requires Inv(s) && s.stopper.Some? && StopperCan(s)
    ensures GateInv(AfterStop(s))
  {
    hide DecoderInv, WakeInv, JoinInv;
  }

  lemma StopKept(s: State, a: Action)
    requires Inv(s) && Enabled(s, a)
    ensures StopInv(Next(s, a))
  {
    hide AfterEnter, AfterNotify, AfterDecode, AllAwake, AfterWork, AfterStop, WorkerCan, StopperCan, WakeInv, DecoderInv;
    match a {
      case WorkerStep(step) => StopKeptByWorker(s, step);
      case StopStep => StopKeptByStop(s);
      case Enter(_) => StopKeptInGate(s, a);
      case Begin(_) => StopKeptInGate(s, a);
      case Return(_) => StopKeptInGate(s, a);
      case Leave(_) => StopKeptInGate(s, a);
      case Notify(_) => StopKeptInGate(s, a);
      case CallStop(_) => StopKeptByCall(s, a.t);
      case DecodeEnds(t, outcome) => StopKeptByDecode(s, t, outcome);
      case _ =>
    }
  }

  lemma StopKeptByCall(s: State, t: Thread)
    requires Inv(s) && Enabled(s, CallStop(t))
    ensures StopInv(Next(s, CallStop(t)))
  {
    hide AfterEnter, AfterNotify, AllAwake, AfterDecode, AfterWork, AfterStop, WorkerCan, StopperCan, WakeInv, DecoderInv;
  }

  lemma StopKeptByDecode(s: State, t: Thread, outcome: DecodeOutcome)
    requires Inv(s) && t < |s.threads| && s.threads[t] == Decoding
    ensures StopInv(AfterDecode(s, t, outcome))
  {
    hide WakeInv, DecoderInv, JoinInv, WorkerInv;
  }

  lemma StopKeptInGate(s: State, a: Action)
    requires Inv(s) && Enabled(s, a)
    requires a.Enter? || a.Begin? || a.Return? || a.Leave? || a.Notify?
    ensures StopInv(Next(s, a))
  {
    hide AfterDecode, AfterWork, AfterStop, WorkerCan, StopperCan, WakeInv, DecoderInv;
  }

  lemma StopKeptByWorker(s: State, step: WorkStep)
    requires Inv(s) && s.worker.Some? && WorkerCan(s, step)
    ensures StopInv(AfterWork(s, step))
  {
    hide WakeInv, DecoderInv;
  }

  lemma StopKeptByStop(s: State)
    requires Inv(s) && s.stopper.Some? && StopperCan(s)
    ensures StopInv(AfterStop(s))
  {
    hide DecoderInv, WakeInv, JoinInv;
  }

  lemma DecoderKept(s: State, a: Action)
    requires Inv(s) && Enabled(s, a)
    ensures DecoderInv(Next(s, a))
  {
    hide AfterEnter, AfterNotify, AfterDecode, AllAwake, AfterWork, AfterStop, WorkerCan, StopperCan, WakeInv, JoinInv, GateInv;
    hide StopInv, CopyOutcome;
    match a {
      case WorkerStep(step) => DecoderKeptByWorker(s, step);
      case StopStep => DecoderKeptByStop(s);
      case Enter(_) => DecoderKeptInGate(s, a);
      case Notify(_) => DecoderKeptInGate(s, a);
      case DecodeEnds(_, _) => DecoderKeptInGate(s, a);
      case _ =>
    }
  }

  lemma DecoderKeptInGate(s: State, a: Action)
    requires Inv(s) && Enabled(s, a) && (a.Enter? || a.Notify? || a.DecodeEnds?)
    ensures DecoderInv(Next(s, a))
  {
    hide AfterWork, AfterStop, WorkerCan, StopperCan, WakeInv, JoinInv, GateInv, StopInv, CopyOutcome;
  }

  lemma DecoderKeptByWorker(s: State, step: WorkStep)
    requires Inv(s) && s.worker.Some? && WorkerCan(s, step)
    ensures DecoderInv(AfterWork(s, step))
  {
    hide WakeInv, GateInv, StopInv, JoinInv;
  }

  lemma DecoderKeptByStop(s: State)
    requires Inv(s) && s.stopper.Some? && StopperCan(s)
    ensures DecoderInv(AfterStop(s))
  {
    hide WakeInv, JoinInv, GateInv;
  }

  lemma WorkerKept(s: State, a: Action)
    requires Inv(s) && Enabled(s, a)
    ensures WorkerInv(Next(s, a))
  {
    hide AfterWork, AfterStop, WorkerCan, StopperCan, WakeInv, GateInv, StopInv, JoinInv;
    match a {
      case WorkerStep(step) => WorkerKeptByWorker(s, step);
      case StopStep => WorkerKeptByStop(s);
      case _ =>
    }
  }

  lemma WorkerKeptByWorker(s: State, step: WorkStep)
    requires Inv(s) && s.worker.Some? && WorkerCan(s, step)
    ensures WorkerInv(AfterWork(s, step))
  {
    hide WakeInv, GateInv, StopInv, JoinInv, DecoderInv;
  }

  lemma WorkerKeptByStop(s: State)
    requires Inv(s) && s.stopper.Some? && StopperCan(s)
    ensures WorkerInv(AfterStop(s))
  {
    hide DecoderInv, WakeInv, JoinInv, GateInv;
  }

  lemma JoinKept(s: State, a: Action)
    requires Inv(s) && Enabled(s, a)
    ensures JoinInv(Next(s, a))
  {
    hide AfterEnter, AfterNotify, AfterDecode, AllAwake, AfterWork, AfterStop, WorkerCan, StopperCan, WakeInv, DecoderInv;
    match a {
      case WorkerStep(step) => JoinKeptByWorker(s, step);
      case StopStep => JoinKeptByStop(s);
      case Enter(_) => JoinKeptInGate(s, a);
      case Begin(_) => JoinKeptInGate(s, a);
      case Return(_) => JoinKeptInGate(s, a);
      case Leave(_) => JoinKeptInGate(s, a);
      case Notify(_) => JoinKeptInGate(s, a);
      case CallStop(_) => JoinKeptByCall(s, a.t);
      case DecodeEnds(t, outcome) => JoinKeptByDecode(s, t, outcome);
      case _ =>
    }
  }

  lemma JoinKeptByCall(s: State, t: Thread)
    requires Inv(s) && Enabled(s, CallStop(t))
    ensures JoinInv(Next(s, CallStop(t)))
  {
    hide AfterEnter, AfterNotify, AllAwake, AfterDecode, AfterWork, AfterStop, WorkerCan, StopperCan, WakeInv, DecoderInv;
  }

  lemma JoinKeptByDecode(s: State, t: Thread, outcome: DecodeOutcome)
    requires Inv(s) && t < |s.threads| && s.threads[t] == Decoding
    ensures JoinInv(AfterDecode(s, t, outcome))
  {
    hide WakeInv, DecoderInv;
  }

  lemma JoinKeptInGate(s: State, a: Action)
    requires Inv(s) && Enabled(s, a)
    requires a.Enter? || a.Begin? || a.Return? || a.Leave? || a.Notify?
    ensures JoinInv(Next(s, a))
  {
    hide AfterDecode, AfterWork, AfterStop, WorkerCan, StopperCan, WakeInv, DecoderInv;
  }

  lemma JoinKeptByWorker(s: State, step: WorkStep)
    requires Inv(s) && s.worker.Some? && WorkerCan(s, step)
    ensures JoinInv(AfterWork(s, step))
  {
    hide WakeInv, DecoderInv, GateInv;
  }

  lemma JoinKeptByStop(s: State)
    requires Inv(s) && s.stopper.Some? && StopperCan(s)
    ensures JoinInv(AfterStop(s))
  {
    hide DecoderInv, WakeInv;
  }

  lemma WakeKept(s: State, a: Action)
    requires Inv(s) && Enabled(s, a)
    ensures WakeInv(Next(s, a))
  {
    hide AfterWork, AfterStop, AfterEnter, AfterNotify, AfterDecode, AllAwake, WorkerCan, StopperCan, Inv;
    hide CanDeliver, InStop;
    match a {
      case WorkerStep(step) => WakeKeptByWorker(s, step);
      case StopStep => WakeKeptByStop(s);
      case Enter(_) => WakeKeptInGate(s, a);
      case Begin(_) => WakeKeptInGate(s, a);
      case Return(_) => WakeKeptInGate(s, a);
      case Leave(t) => WakeKeptByLeave(s, t);
      case Notify(t) => WakeKeptByNotify(s, t);
      case FrameArrives(_) => WakeKeptOutside(s, a);
      case DecodeEnds(_, _) => WakeKeptOutside(s, a);
      case PeerFails(_) => WakeKeptOutside(s, a);
      case WakeSpuriously(_) => WakeKeptOutside(s, a);
      case _ => WakeKeptByOthers(s, a);
    }
  }

  lemma WakeKeptByOthers(s: State, a: Action)
    requires Inv(s) && Enabled(s, a)
    requires a.CallStop? || a == CandidatesGathered || a == WakeStopperSpuriously || a.CopyFrame?
    ensures WakeInv(Next(s, a))
  {
    hide GateInv, DecoderInv, JoinInv, WorkerInv, CopyOutcome;
  }

  lemma WakeKeptInGate(s: State, a: Action)
    requires Inv(s) && Enabled(s, a) && (a.Enter? || a.Begin? || a.Return?)
    ensures WakeInv(Next(s, a))
  {
    hide DecoderInv, JoinInv, WorkerInv;
    if SomeoneWaking(s.threads) {
      WakingKept(s.threads, a.t, Next(s, a).threads[a.t]);
    }
  }

  lemma WakeKeptByLeave(s: State, t: Thread)
    requires Inv(s) && Enabled(s, Leave(t))
    ensures WakeInv(Next(s, Leave(t)))
  {
    hide DecoderInv, JoinInv, WorkerInv;
    assert Next(s, Leave(t)).threads[t] == Waking;
  }

  lemma WakeKeptByNotify(s: State, t: Thread)
    requires Inv(s) && Enabled(s, Notify(t))
    ensures WakeInv(AfterNotify(s, t))
  {
    hide GateInv, DecoderInv, JoinInv, WorkerInv;
  }

  lemma WakeKeptOutside(s: State, a: Action)
    requires Inv(s) && Enabled(s, a) && (a.FrameArrives? || a.DecodeEnds? || a.PeerFails? || a.WakeSpuriously?)
    ensures WakeInv(Next(s, a))
  {
    hide GateInv, DecoderInv, JoinInv, WorkerInv;
    if SomeoneWaking(s.threads) {
      WakingKept(s.threads, a.t, Next(s, a).threads[a.t]);
    }
  }

  lemma WakeKeptByWorker(s: State, step: WorkStep)
    requires Inv(s) && s.worker.Some? && WorkerCan(s, step)
    ensures WakeInv(AfterWork(s, step))
  {
    hide DecoderInv, JoinInv, GateInv;
    if SomeoneWaking(s.threads) {
      WakingKept(s.threads, s.worker.value, AfterWork(s, step).threads[s.worker.value]);
    }
  }

  lemma WakeKeptByStop(s: State)
    requires Inv(s) && s.stopper.Some? && StopperCan(s)
    ensures WakeInv(AfterStop(s))
  {
    hide DecoderInv, JoinInv, WorkerInv;
    if SomeoneWaking(s.threads) {
      AwakeKeepsWaking(s.threads);
    }
  }

  /** Every step keeps the invariant. */
  lemma InvKept(s: State, a: Action)
    requires Inv(s) && Enabled(s, a)
    ensures Inv(Next(s, a))
  {
    hide *;
    GateKept(s, a);
    StopKept(s, a);
    WakeKept(s, a);
    DecoderKept(s, a);
    WorkerKept(s, a);
    JoinKept(s, a);
    assert Inv(Next(s, a)) by {
      InvIs(Next(s, a));
    }
  }

  lemma InvIs(s: State)
    requires GateInv(s) && StopInv(s) && WakeInv(s) && DecoderInv(s) && WorkerInv(s) && JoinInv(s)
    ensures Inv(s)
  {
  }

  // ---------------------------------------------------------------- runs

  lemma RunStep(states: seq<State>, actions: seq<Action>, i: nat)
    requires IsRunFrom(states, actions) && i < |actions|
    ensures |states| == |actions| + 1
    ensures Enabled(states[i], actions[i]) && states[i + 1] == Next(states[i], actions[i])
  {
    hide Enabled, Next;
  }

  /** The invariant holds in every state of every run that starts where it holds. */
  lemma {:induction false} InvAlong(states: seq<State>, actions: seq<Action>, i: nat)
    requires IsRunFrom(states, actions) && |states| > 0 && Inv(states[0]) && i < |states|
    ensures Inv(states[i])
  {
    hide *;
    if i > 0 {
      assert |states| == |actions| + 1 by {
        RunLength(states, actions);
      }
      InvAlong(states, actions, i - 1);
      RunStep(states, actions, i - 1);
      InvKept(states[i - 1], actions[i - 1]);
    }
  }

  lemma RunLength(states: seq<State>, actions: seq<Action>)
    requires IsRunFrom(states, actions)
    ensures |states| == |actions| + 1
  {
    hide Enabled, Next;
  }

  /** The invariant holds in every reachable state. */
  lemma ReachableInv(states: seq<State>, actions: seq<Action>, i: nat)
    requires IsRun(states, actions) && i < |states|
    ensures IsRunFrom(states, actions) && |states| == |actions| + 1 && Inv(states[i])
  {
    hide Enabled, Next, Inv;
    InitInv(states[0]);
    InvAlong(states, actions, i);
  }
}
