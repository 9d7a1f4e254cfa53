/** What holds in every run of a stream, whatever its threads do and however they interleave. */
module StreamSafety {
  import opened Wrappers
  import opened StreamProtocol
  import opened StreamInvariants

  // ---------------------------------------------------------------- the callback

  /** At most one callback of a stream is in progress. */
  lemma AtMostOneCallback(states: seq<State>, actions: seq<Action>, i: nat, t: Thread, u: Thread)
    requires IsRun(states, actions) && i < |states|
    requires t < |states[i].threads| && states[i].threads[t].Calling?
    requires u < |states[i].threads| && states[i].threads[u].Calling?
    ensures t == u
  {
    hide Enabled, Next;
    ReachableInv(states, actions, i);
  }

  /** Once `CancelFrameCallback` has returned, no callback begins any more. */
  lemma NoBeginAfterCancel(s: State, a: Action)
    requires Inv(s) && Enabled(s, a) && CancelReturned(s.stop)
    ensures CancelReturned(Next(s, a).stop)
    ensures Next(s, a).stopper == s.stopper && Next(s, a).log.begun == s.log.begun
    ensures s.stop == Stopped ==> Next(s, a).stop == Stopped
  {
    hide WakeInv, DecoderInv, WorkerInv, JoinInv;
  }

  /**
    From the moment `CancelFrameCallback` returns inside `Stop` no callback begins, and the only callback that may
    still be in progress is the one that runs on the stopping thread itself.
    */
  lemma {:induction false} NoCallbackAfterCancel(states: seq<State>, actions: seq<Action>, i: nat, j: nat)
    requires IsRun(states, actions) && i <= j < |states|
    requires CancelReturned(states[i].stop)
    ensures states[j].log.begun == states[i].log.begun
    ensures CancelReturned(states[j].stop) && states[j].stopper == states[i].stopper
    ensures forall t | 0 <= t < |states[j].threads| && states[j].threads[t].Calling? :: states[i].stopper == Some(t)
    ensures states[i].stop == Stopped ==> states[j].stop == Stopped
  {
    hide *;
    ReachableInv(states, actions, j);
    OnlyStopperCalls(states[j]);
    if i < j {
      NoCallbackAfterCancel(states, actions, i, j - 1);
      ReachableInv(states, actions, j - 1);
      RunStep(states, actions, j - 1);
      NoBeginAfterCancel(states[j - 1], actions[j - 1]);
    }
  }

  lemma OnlyStopperCalls(s: State)
    requires Inv(s)
    ensures CancelReturned(s.stop) ==> forall t | 0 <= t < |s.threads| && s.threads[t].Calling? :: s.stopper == Some(t)
  {
    hide WakeInv, DecoderInv, WorkerInv, JoinInv;
  }

  // ---------------------------------------------------------------- locks during the callback

  /**
    A thread that runs the user's callback never holds the decoder mutex. It holds the gathering mutex exactly
    when it is the worker that reports a failure from inside the gathering wait.
    */
  lemma LocksDuringCallback(states: seq<State>, actions: seq<Action>, i: nat, t: Thread)
    requires IsRun(states, actions) && i < |states|
    requires t < |states[i].threads| && states[i].threads[t].Calling?
    ensures states[i].decoderOwner != Some(t)
    ensures states[i].gatheringOwner == Some(t) <==> states[i].worker == Some(t) && states[i].work == Reporting(true)
  {
    hide Enabled, Next;
    ReachableInv(states, actions, i);
  }

  /** The worker comes to keep the gathering mutex exactly by a time-out of the gathering wait. */
  lemma {:induction false} LockedExactlyAfterTimeOut(states: seq<State>, actions: seq<Action>, i: nat)
    requires IsRun(states, actions) && i < |states|
    ensures i <= |actions|
    ensures WorkerHoldsGathering(states[i].work) ==> WorkerStep(TimeOut) in actions[..i]
    ensures WorkerStep(TimeOut) in actions[..i] ==> WorkerHoldsGathering(states[i].work) || states[i].work == Finished
  {
    hide *;
    ReachableInv(states, actions, i);
    if i > 0 {
      LockedExactlyAfterTimeOut(states, actions, i - 1);
      ReachableInv(states, actions, i - 1);
      RunStep(states, actions, i - 1);
      TimeOutStep(states[i - 1], actions[i - 1]);
      assert actions[..i] == actions[..i - 1] + [actions[i - 1]];
    } else {
      NotYetLocked(states, actions);
    }
  }

  lemma NotYetLocked(states: seq<State>, actions: seq<Action>)
    requires IsRun(states, actions)
    ensures |states| > 0 && !WorkerHoldsGathering(states[0].work)
  {
    hide Enabled, Next;
  }

  lemma TimeOutStep(s: State, a: Action)
    requires Inv(s) && Enabled(s, a)
    ensures a == WorkerStep(TimeOut) ==> WorkerHoldsGathering(Next(s, a).work)
    ensures a != WorkerStep(TimeOut) ==>
      && (WorkerHoldsGathering(Next(s, a).work) ==> WorkerHoldsGathering(s.work))
      && (WorkerHoldsGathering(s.work) ==> WorkerHoldsGathering(Next(s, a).work) || Next(s, a).work == Finished)
      && (s.work == Finished ==> Next(s, a).work == Finished)
  {
    hide GateInv, StopInv, WakeInv, DecoderInv, JoinInv;
  }

  // ---------------------------------------------------------------- the order of the locks

  /** The locks of a stream that are held while other locks are taken or waited for. */
  datatype Lock = GatheringMutex | DecoderMutex | CallbackMutex

  function LockRank(lock: Lock): nat {
    match lock
    case GatheringMutex => 1
    case DecoderMutex => 2
    case CallbackMutex => 3
  }

  /** The thread holds the lock from one step to the next; the callback mutex is only held within a step. */
  predicate HoldsLock(s: State, t: Thread, lock: Lock) {
    match lock
    case GatheringMutex => s.gatheringOwner == Some(t)
    case DecoderMutex => s.decoderOwner == Some(t)
    case CallbackMutex => false
  }

  /** The next step of the thread, in a callback, in the worker or in `Stop`, takes the lock or waits on its condition. */
  predicate WantsLock(s: State, t: Thread, lock: Lock) {
    match lock
    case GatheringMutex => s.worker == Some(t) && s.work == Gather
    case DecoderMutex => CanDeliver(s, t)
    case CallbackMutex =>
      || (t < |s.threads| && (s.threads[t].Entering? || s.threads[t].Sleeping? || s.threads[t] == Leaving))
      || (s.stopper == Some(t) && (s.stop == Cancelling || s.stop == CancelAwake || s.stop == CancelAsleep))
  }

  /** In every run the locks are taken in one order: whoever holds one and wants another wants one of higher rank. */
  lemma LocksInOrder(states: seq<State>, actions: seq<Action>, i: nat, t: Thread, held: Lock, wanted: Lock)
    requires IsRun(states, actions) && i < |states|
    requires HoldsLock(states[i], t, held) && WantsLock(states[i], t, wanted)
    ensures LockRank(held) < LockRank(wanted)
  {
    hide Enabled, Next, Init, GateInv, WakeInv;
    ReachableInv(states, actions, i);
  }

  // ---------------------------------------------------------------- the lock that is held during a callback

  lemma RunExtended(states: seq<State>, actions: seq<Action>, a: Action)
    requires IsRun(states, actions) && Enabled(states[|actions|], a)
    ensures IsRun(states + [Next(states[|actions|], a)], actions + [a])
  {
    hide Enabled, Next, Init;
  }

  /** A run in which the gathering wait of the worker, the only thread, times out. */
  lemma TimedOutRun() returns (states: seq<State>, actions: seq<Action>)
    ensures IsRun(states, actions)
    ensures var s := states[|actions|];
      && s.threads == [Outside] && s.worker == Some(0) && s.work == Failing(NETWORK_ERROR, true)
      && s.gate == Gate(false, true, false, None) && s.gatheringOwner == Some(0)
  {
    hide IsRun, AfterStop, AfterNotify, AfterDecode, AfterEnter, StopperCan, AllAwake, InStop;
    var s := State(Gate(false, true, false, None), [Outside], Some(0), Setup, None, NotStopped,
                   None, None, false, None, "", 0, 0, Log([], [], [], [], []));
    states, actions := [s], [];
    EmptyRun(s);
    RunExtended(states, actions, WorkerStep(Built(0)));
    states, actions := states + [Next(s, WorkerStep(Built(0)))], actions + [WorkerStep(Built(0))];
    RunExtended(states, actions, WorkerStep(Proceed));
    states, actions := states + [Next(states[1], WorkerStep(Proceed))], actions + [WorkerStep(Proceed)];
    RunExtended(states, actions, WorkerStep(Proceed));
    states, actions := states + [Next(states[2], WorkerStep(Proceed))], actions + [WorkerStep(Proceed)];
    RunExtended(states, actions, WorkerStep(TimeOut));
    states, actions := states + [Next(states[3], WorkerStep(TimeOut))], actions + [WorkerStep(TimeOut)];
  }

  lemma EmptyRun(s: State)
    requires Init(s)
    ensures IsRun([s], [])
  {
  }

  /** So the user's callback can run while the worker holds a lock of the stream: a run that gets there. */
  lemma GatheringMutexHeldInCallback() returns (states: seq<State>, actions: seq<Action>)
    ensures IsRun(states, actions)
    ensures |states[|actions|].threads| == 1
    ensures states[|actions|].threads[0].Calling? && states[|actions|].gatheringOwner == Some(0)
  {
    hide IsRun, AfterStop, AfterNotify, AfterDecode, StopperCan, AllAwake, InStop;
    states, actions := TimedOutRun();
    var n := |actions|;
    RunHasLast(states, actions);
    var s := Next(states[n], WorkerStep(Proceed));
    RunExtended(states, actions, WorkerStep(Proceed));
    states, actions := states + [s], actions + [WorkerStep(Proceed)];
    RunExtended(states, actions, Enter(0));
    states, actions := states + [Next(s, Enter(0))], actions + [Enter(0)];
    RunExtended(states, actions, Begin(0));
    states, actions := states + [Next(states[n + 2], Begin(0))], actions + [Begin(0)];
  }

  lemma RunHasLast(states: seq<State>, actions: seq<Action>)
    requires IsRun(states, actions)
    ensures |states| == |actions| + 1
  {
    hide Enabled, Next, Init;
  }
}
