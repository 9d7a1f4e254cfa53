/**
  Stopping a stream never gets stuck: in every stopping state that is not yet stopped some step is enabled, and
  every step brings the stream nearer to the end. That user callbacks return and that waits for the network and
  for ICE end is part of the steps (`Return`, and the worker's steps that end a foreign call).
  */
module StreamProgress {
  import opened Wrappers
  import opened StreamProtocol
  import opened StreamInvariants

  function PhaseRank(p: Phase): nat {
    match p
    case Outside => 0
    case Waking => 3
    case Leaving => 4
    case Calling(_) => 5
    case Admitted(_) => 6
    case Entering(_) => 7
    case Sleeping(_) => 8
    case Decoding => 9
  }

  function WorkRank(work: Work): nat {
    match work
    case Finished => 0
    case Reporting(_) => 1
    case Failing(_, _) => 3
    case Answer => 4
    case CheckStored => 5
    case StoreSession(_) => 6
    case Post => 7
    case CheckGathered => 8
    case Gather => 9
    case Offer => 10
    case StoreTransport(_) => 11
    case Setup => 12
  }

  function StopRank(stop: StopPhase): nat {
    match stop
    case Stopped => 0
    case Finishing => 2
    case Deleting(_) => 3
    case Closing(_, _) => 4
    case Taking => 5
    case Joining => 6
    case CancelAsleep => 7
    case CancelAwake => 8
    case Cancelling => 9
    case NotStopped => 10
  }

  function PhaseRanks(threads: seq<Phase>): nat {
    if threads == [] then 0 else PhaseRanks(threads[..|threads| - 1]) + PhaseRank(threads[|threads| - 1])
  }

  /** How far the stream is from the end, at most. */
  function Rank(s: State): nat {
    PhaseRanks(s.threads) + WorkRank(s.work) + StopRank(s.stop)
    + (if s.gathered then 0 else 1) + (if s.consumed == s.published then 0 else 1)
  }

  lemma {:induction false} RanksUpdated(threads: seq<Phase>, t: Thread, p: Phase)
    requires t < |threads|
    ensures PhaseRanks(threads[t := p]) == PhaseRanks(threads) - PhaseRank(threads[t]) + PhaseRank(p)
  {
    var n := |threads| - 1;
    if t == n {
      assert threads[t := p][..n] == threads[..n];
    } else {
      RanksUpdated(threads[..n], t, p);
      assert threads[t := p][..n] == threads[..n][t := p];
    }
  }

  lemma {:induction false} RanksAwake(threads: seq<Phase>)
    ensures PhaseRanks(AllAwake(threads)) <= PhaseRanks(threads)
  {
    if threads != [] {
      var n := |threads| - 1;
      RanksAwake(threads[..n]);
      assert AllAwake(threads)[..n] == AllAwake(threads[..n]);
    }
  }

  /** A thread may wake without having been notified, which only makes it test its condition once more. */
  predicate Spurious(a: Action) {
    a == WakeStopperSpuriously || a.WakeSpuriously?
  }

  predicate Productive(s: State, a: Action) {
    Enabled(s, a) && !Spurious(a) && Next(s, a) != s
  }

  // ---------------------------------------------------------------- every step is a step forward

  lemma WorkerGoesOn(s: State, step: WorkStep)
    requires s.worker.Some? && WorkerCan(s, step) && s.gate.stopping
    ensures Rank(AfterWork(s, step)) < Rank(s)
  {
    hide PhaseRanks;
  }

  lemma StopperGoesOn(s: State)
    requires s.stopper.Some? && StopperCan(s)
    ensures Rank(AfterStop(s)) < Rank(s)
  {
    hide PhaseRanks, AllAwake;
    RanksAwake(s.threads);
  }

  lemma NotifyGoesOn(s: State, t: Thread)
    requires t < |s.threads| && s.threads[t] == Waking
    ensures Rank(AfterNotify(s, t)) < Rank(s)
  {
    hide PhaseRanks, AllAwake;
    RanksAwake(s.threads);
    AwakeLeavesWaking(s.threads, t);
    RanksUpdated(AllAwake(s.threads), t, Outside);
  }

  lemma AwakeLeavesWaking(threads: seq<Phase>, t: Thread)
    requires t < |threads| && threads[t] == Waking
    ensures |AllAwake(threads)| == |threads| && AllAwake(threads)[t] == Waking
  {
  }

  lemma DecodeGoesOn(s: State, t: Thread, outcome: DecodeOutcome)
    requires t < |s.threads| && s.threads[t] == Decoding
    ensures Rank(AfterDecode(s, t, outcome)) < Rank(s)
  {
    hide PhaseRanks;
    RanksUpdated(s.threads, t, AfterDecode(s, t, outcome).threads[t]);
  }

  lemma EnterGoesOn(s: State, t: Thread)
    requires t < |s.threads| && s.threads[t].Entering? && s.gate.stopping
    ensures Rank(AfterEnter(s, t)) < Rank(s)
  {
    hide PhaseRanks;
    RanksUpdated(s.threads, t, Outside);
  }

  /** While the stream stops, every step that changes anything lowers the rank, save for a spurious wakeup of the stopper. */
  lemma RankDecreases(s: State, a: Action)
    requires Enabled(s, a) && s.gate.stopping
    ensures Next(s, a) == s || (a == WakeStopperSpuriously && Rank(Next(s, a)) == Rank(s) + 1) || Rank(Next(s, a)) < Rank(s)
    ensures Next(s, a).gate.stopping
  {
    hide PhaseRanks, AfterWork, AfterStop, AfterNotify, AfterDecode, AfterEnter, WorkerCan, StopperCan, CanDeliver;
    StaysStopping(s, a);
    match a {
      case WorkerStep(step) => WorkerGoesOn(s, step);
      case StopStep => StopperGoesOn(s);
      case Notify(t) => NotifyGoesOn(s, t);
      case DecodeEnds(t, outcome) => DecodeGoesOn(s, t, outcome);
      case Enter(t) => EnterGoesOn(s, t);
      case WakeSpuriously(t) => RanksUpdated(s.threads, t, Entering(s.threads[t].notice));
      case Begin(t) => RanksUpdated(s.threads, t, Calling(s.threads[t].notice));
      case Return(t) => RanksUpdated(s.threads, t, Leaving);
      case Leave(t) => RanksUpdated(s.threads, t, Waking);
      case FrameArrives(t) => NothingDelivered(s, t);
      case PeerFails(t) => NothingDelivered(s, t);
      case _ =>
    }
  }

  lemma StaysStopping(s: State, a: Action)
    requires Enabled(s, a) && s.gate.stopping
    ensures Next(s, a).gate.stopping
  {
    hide AllAwake;
  }

  lemma NothingDelivered(s: State, t: Thread)
    requires s.gate.stopping
    ensures !Enabled(s, FrameArrives(t)) && !Enabled(s, PeerFails(t))
  {
  }

  // ---------------------------------------------------------------- some step is enabled

  /** What a thread inside the callback gate does next, unless it sleeps. */
  lemma GateStep(s: State, t: Thread) returns (a: Action)
    requires t < |s.threads| && (Holds(s.threads[t]) || s.threads[t].Entering? || s.threads[t] == Waking)
    requires !InStop(s, t) && s.gate.stopping
    ensures Productive(s, a)
  {
    hide AfterWork, AfterStop, AfterDecode, WorkerCan, StopperCan;
    match s.threads[t] {
      case Entering(_) => a := Enter(t); assert AfterEnter(s, t).threads[t] == Outside;
      case Admitted(notice) => a := Begin(t); assert Next(s, a).threads[t] == Calling(notice);
      case Calling(_) => a := Return(t); assert Next(s, a).threads[t] == Leaving;
      case Leaving => a := Leave(t); assert Next(s, a).threads[t] == Waking;
      case Waking => a := Notify(t); assert AfterNotify(s, t).threads[t] == Outside;
    }
  }

  lemma WakerOfStopper(s: State) returns (t: Thread)
    requires Inv(s) && s.stop == CancelAsleep
    ensures s.gate.stopping && t < |s.threads| && (Holds(s.threads[t]) || s.threads[t] == Waking) && !InStop(s, t)
  {
    hide DecoderInv, WorkerInv, JoinInv;
    if s.gate.active {
      t := s.gate.caller.value;
    } else {
      t :| t < |s.threads| && s.threads[t] == Waking;
    }
  }

  /** A worker that the stopper joins is never asleep, and not in the way of itself. */
  lemma JoinedWorker(s: State)
    requires Inv(s) && s.stop == Joining && !StopperCan(s)
    ensures s.gate.stopping && s.worker.Some? && s.worker.value < |s.threads| && !InStop(s, s.worker.value)
    ensures s.gatheringOwner == (if WorkerHoldsGathering(s.work) then s.worker else None) && s.work != Finished
    ensures var p := s.threads[s.worker.value]; p == Outside || Holds(p) || p.Entering? || p == Waking
  {
    hide GateInv, JoinInv;
  }

  lemma WorkerAction(s: State) returns (a: Action)
    requires Inv(s) && s.stop == Joining && !StopperCan(s)
    ensures Productive(s, a)
  {
    hide Inv, AfterStop, StopperCan, InStop;
    JoinedWorker(s);
    var w := s.worker.value;
    if s.work.Reporting? && s.threads[w] != Outside {
      a := GateStep(s, w);
    } else {
      a := WorkerStep(if s.work.Setup? then Built(0) else if s.work.Post? then Posted("") else Proceed);
      WorkerGoesOn(s, a.step);
    }
  }

  lemma StopperAction(s: State)
    requires s.stopper.Some? && StopperCan(s)
    ensures Productive(s, StopStep)
  {
    hide AfterStop, Rank, StopperCan;
    StopperGoesOn(s);
  }

  lemma StopperAble(s: State)
    requires Inv(s) && s.gate.stopping && s.stop != Stopped && s.stop != CancelAsleep && s.stop != Joining
    ensures s.stopper.Some? && StopperCan(s)
  {
    hide GateInv, WakeInv, DecoderInv, WorkerInv, JoinInv;
  }

  lemma StopperIsThere(s: State)
    requires Inv(s) && s.gate.stopping
    ensures s.stopper.Some?
  {
    hide GateInv, WakeInv, DecoderInv, WorkerInv, JoinInv;
  }

  /** Until `Stop` has returned, some step is enabled, whether the stopper is an outside thread, the callback's or the worker's. */
  lemma NeverStuck(s: State) returns (a: Action)
    requires Inv(s) && s.gate.stopping && s.stop != Stopped
    ensures Productive(s, a)
  {
    hide *;
    if s.stop == CancelAsleep {
      var t := WakerOfStopper(s);
      a := GateStep(s, t);
    } else if s.stop == Joining && !StopperCan(s) {
      a := WorkerAction(s);
    } else {
      if s.stop == Joining {
        StopperIsThere(s);
      } else {
        StopperAble(s);
      }
      a := StopStep;
      StopperAction(s);
    }
  }

  // ---------------------------------------------------------------- runs that stop

  function SpuriousWakeups(actions: seq<Action>): nat {
    if actions == [] then 0
    else SpuriousWakeups(actions[..|actions| - 1]) + if actions[|actions| - 1] == WakeStopperSpuriously then 1 else 0
  }

  /** In a stopping state no run has more steps than the rank, plus two for each spurious wakeup of the stopper. */
  lemma {:induction false} StoppingIsBounded(states: seq<State>, actions: seq<Action>, i: nat)
    requires IsRunFrom(states, actions) && |states| == |actions| + 1 && i <= |actions| && states[0].gate.stopping
    requires forall m | 0 <= m < |actions| :: states[m + 1] != states[m]
    ensures states[i].gate.stopping
    ensures i + Rank(states[i]) <= Rank(states[0]) + 2 * SpuriousWakeups(actions[..i])
  {
    hide Enabled, Next, Rank, IsRunFrom;
    if i > 0 {
      StoppingIsBounded(states, actions, i - 1);
      RunStep(states, actions, i - 1);
      RankDecreases(states[i - 1], actions[i - 1]);
      assert actions[..i][..i - 1] == actions[..i - 1];
      assert states[i - 1 + 1] != states[i - 1];
    }
  }

  /**
    From a reachable stopping state, any schedule of steps that change something reaches the end of `Stop`: it has
    no more steps than the rank, apart from spurious wakeups, and where it cannot go on `Stop` has returned.
    */
  lemma StopFinishes(states: seq<State>, actions: seq<Action>)
    requires IsRunFrom(states, actions) && |states| == |actions| + 1 && Inv(states[0]) && states[0].gate.stopping
    requires forall m | 0 <= m < |actions| :: Productive(states[m], actions[m])
    ensures |actions| <= Rank(states[0])
    ensures states[|actions|].stop == Stopped || exists a :: Productive(states[|actions|], a)
  {
    hide Enabled, Next, Rank, Inv;
    forall m | 0 <= m < |actions| ensures states[m + 1] != states[m] && actions[m] != WakeStopperSpuriously {
      RunStep(states, actions, m);
      assert Productive(states[m], actions[m]);
    }
    StoppingIsBounded(states, actions, |actions|);
    assert actions[..|actions|] == actions;
    NoneSpurious(actions);
    InvAlong(states, actions, |actions|);
    if states[|actions|].stop != Stopped {
      var a := NeverStuck(states[|actions|]);
    }
  }

  lemma {:induction false} NoneSpurious(actions: seq<Action>)
    requires WakeStopperSpuriously !in actions
    ensures SpuriousWakeups(actions) == 0
  {
    if actions != [] {
      NoneSpurious(actions[..|actions| - 1]);
    }
  }

  // ---------------------------------------------------------------- stopping begins and ends

  /** Whoever runs the callback, and every other thread but the worker, can stop a stream that nobody stops yet. */
  lemma AnyoneMayStop(s: State, t: Thread)
    requires Inv(s) && !s.gate.stopping && t < |s.threads|
    requires s.threads[t].Calling? || (s.threads[t] == Outside && s.worker != Some(t))
    ensures Enabled(s, CallStop(t))
    ensures var n := Next(s, CallStop(t));
      n.gate.stopping && n.stopper == Some(t) && n.stop == Cancelling && n.threads == s.threads && n.log == s.log
  {
    hide GateInv, WakeInv, DecoderInv, WorkerInv, JoinInv;
  }

  /** A second `Stop` returns at once and changes nothing. */
  lemma SecondStopIsIdle(s: State, t: Thread)
    requires Enabled(s, CallStop(t)) && s.gate.stopping
    ensures Next(s, CallStop(t)) == s
  {
  }

  lemma RunBegins(s: State, a: Action, states: seq<State>, actions: seq<Action>)
    requires IsRunFrom(states, actions) && Enabled(s, a) && states[0] == Next(s, a)
    ensures IsRunFrom([s] + states, [a] + actions)
  {
    hide Enabled, Next;
    var all, both := [s] + states, [a] + actions;
    forall i | 0 <= i < |both|
      ensures Enabled(all[i], both[i]) && all[i + 1] == Next(all[i], both[i])
    {
      if i > 0 {
        RunStep(states, actions, i - 1);
        assert all[i] == states[i - 1] && all[i + 1] == states[i] && both[i] == actions[i - 1];
      }
    }
  }

  /** From every state in which the stream is being stopped, a run without spurious wakeups leads to the end of `Stop`. */
  lemma {:induction false} RunToStopped(s: State) returns (states: seq<State>, actions: seq<Action>)
    requires Inv(s) && s.gate.stopping
    ensures IsRunFrom(states, actions) && states[0] == s && states[|actions|].stop == Stopped
    ensures |actions| <= Rank(s) && forall a | a in actions :: !Spurious(a) && !a.CallStop?
    decreases Rank(s)
  {
    hide Enabled, Next, Inv, Rank;
    if s.stop == Stopped {
      states, actions := [s], [];
    } else {
      var a := NeverStuck(s);
      RankDecreases(s, a);
      InvKept(s, a);
      NotAgain(s, a);
      var later, steps := RunToStopped(Next(s, a));
      RunBegins(s, a, later, steps);
      states, actions := [s] + later, [a] + steps;
    }
  }

  lemma NotAgain(s: State, a: Action)
    requires Productive(s, a) && s.gate.stopping
    ensures !a.CallStop? && Enabled(s, a) && Next(s, a) != s && !Spurious(a)
  {
  }
}
