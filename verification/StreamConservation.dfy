/** Transports and sessions: whatever the worker stores, `Stop` ends exactly once. */
module StreamConservation {
  import opened Wrappers
  import opened StreamProtocol
  import opened StreamInvariants

  function AsSeq(transport: Option<nat>): seq<nat> {
    match transport case Some(t) => [t] case None => []
  }

  function Named(url: string): seq<string> {
    if url == "" then [] else [url]
  }

  /** What the stopper has taken from the members and not yet ended. */
  function TransportInHand(stop: StopPhase): seq<nat> {
    match stop case Closing(transport, _) => AsSeq(transport) case _ => []
  }

  function SessionInHand(stop: StopPhase): seq<string> {
    match stop
    case Closing(_, url) => Named(url)
    case Deleting(url) => Named(url)
    case _ => []
  }

  predicate TransportToCome(work: Work) {
    work.Setup? || work.StoreTransport?
  }

  predicate SessionToCome(work: Work) {
    TransportToCome(work) || work.Offer? || work.Gather? || work.CheckGathered? || work.Post? || work.StoreSession?
  }

  /** The stopper has moved the members out. */
  predicate Taken(stop: StopPhase) {
    JoinReturned(stop) && stop != Taking
  }

  /** Everything stored is ended, in the hands of the stopper, or still in the members. */
  predicate Conserved(s: State) {
    && s.log.transports == s.log.closed + TransportInHand(s.stop) + AsSeq(s.transport)
    && s.log.sessions == s.log.deleted + SessionInHand(s.stop) + Named(s.session)
    && (TransportToCome(s.work) ==> s.log.transports == [])
    && (SessionToCome(s.work) ==> s.log.sessions == [])
    && |s.log.transports| <= 1 && |s.log.sessions| <= 1
    && (Taken(s.stop) ==> s.transport.None? && s.session == "")
  }

  /** The step neither stores nor ends anything. */
  predicate LeavesStores(s: State, n: State) {
    && n.log.transports == s.log.transports && n.log.closed == s.log.closed && n.transport == s.transport
    && n.log.sessions == s.log.sessions && n.log.deleted == s.log.deleted && n.session == s.session
    && TransportInHand(n.stop) == TransportInHand(s.stop) && SessionInHand(n.stop) == SessionInHand(s.stop)
    && (Taken(n.stop) ==> Taken(s.stop))
    && (TransportToCome(n.work) ==> TransportToCome(s.work)) && (SessionToCome(n.work) ==> SessionToCome(s.work))
  }

  lemma LeavesConserved(s: State, n: State)
    requires Conserved(s) && LeavesStores(s, n)
    ensures Conserved(n)
  {
    hide TransportInHand, SessionInHand, Taken, AsSeq, Named, TransportToCome, SessionToCome;
  }

  lemma OthersLeaveStores(s: State, a: Action)
    requires Inv(s) && Enabled(s, a) && !a.WorkerStep? && a != StopStep
    ensures LeavesStores(s, Next(s, a))
  {
    hide GateInv, WakeInv, DecoderInv, WorkerInv, JoinInv, AllAwake, WorkerCan, StopperCan, CanDeliver, InStop, AdmissionOf, Entered, AsSeq, Named;
  }

  lemma WorkLeavesStores(s: State, step: WorkStep)
    requires s.worker.Some? && WorkerCan(s, step)
    requires !s.work.StoreTransport? && !s.work.StoreSession?
    ensures LeavesStores(s, AfterWork(s, step))
  {
  }

  lemma ConservedKept(s: State, a: Action)
    requires Inv(s) && Conserved(s) && Enabled(s, a)
    ensures Conserved(Next(s, a))
  {
    hide Inv, Conserved, AfterWork, AfterStop, WorkerCan, StopperCan, LeavesStores, AfterNotify, AfterEnter, AfterDecode;
    match a {
      case WorkerStep(step) => ConservedByWorker(s, step);
      case StopStep => ConservedByStop(s);
      case _ =>
        OthersLeaveStores(s, a);
        LeavesConserved(s, Next(s, a));
    }
  }

  lemma ConservedByWorker(s: State, step: WorkStep)
    requires Inv(s) && Conserved(s) && s.worker.Some? && WorkerCan(s, step)
    ensures Conserved(AfterWork(s, step))
  {
    hide Inv, Conserved, AfterWork, WorkerCan, LeavesStores;
    if s.work.StoreTransport? {
      StoringTransport(s, step);
    } else if s.work.StoreSession? {
      StoringSession(s, step);
    } else {
      WorkLeavesStores(s, step);
      LeavesConserved(s, AfterWork(s, step));
    }
  }

  lemma StoresBeforeJoin(s: State)
    requires Inv(s) && (s.work.StoreTransport? || s.work.StoreSession?)
    ensures !Taken(s.stop) && TransportInHand(s.stop) == [] && SessionInHand(s.stop) == []
  {
    hide GateInv, WakeInv, DecoderInv, StopInv, WorkerInv;
  }

  lemma StoringTransport(s: State, step: WorkStep)
    requires Inv(s) && Conserved(s) && s.worker.Some? && WorkerCan(s, step) && s.work.StoreTransport?
    ensures Conserved(AfterWork(s, step))
  {
    hide Inv, Taken, TransportInHand, SessionInHand, Named;
    StoresBeforeJoin(s);
  }

  lemma StoringSession(s: State, step: WorkStep)
    requires Inv(s) && Conserved(s) && s.worker.Some? && WorkerCan(s, step) && s.work.StoreSession?
    ensures Conserved(AfterWork(s, step))
  {
    hide Inv, Taken, TransportInHand, SessionInHand, AsSeq;
    StoresBeforeJoin(s);
  }

  lemma ConservedByStop(s: State)
    requires Inv(s) && Conserved(s) && s.stopper.Some? && StopperCan(s)
    ensures Conserved(AfterStop(s))
  {
    hide GateInv, WakeInv, DecoderInv, AllAwake;
  }

  lemma {:induction false} ConservedAlong(states: seq<State>, actions: seq<Action>, i: nat)
    requires IsRun(states, actions) && i < |states|
    ensures Conserved(states[i])
  {
    hide *;
    ReachableInv(states, actions, i);
    if i > 0 {
      ConservedAlong(states, actions, i - 1);
      ReachableInv(states, actions, i - 1);
      RunStep(states, actions, i - 1);
      ConservedKept(states[i - 1], actions[i - 1]);
    } else {
      ConservedAtFirst(states, actions);
    }
  }

  lemma ConservedAtFirst(states: seq<State>, actions: seq<Action>)
    requires IsRun(states, actions)
    ensures |states| > 0 && Conserved(states[0])
  {
    hide Enabled, Next;
  }

  /**
    When `Stop` has finished, every transport that the worker stored has been closed exactly once, and every
    session with a URL that it stored has been passed to `StopWhepSession` exactly once; there was at most one of each.
    */
  lemma StoppedEndsEverything(states: seq<State>, actions: seq<Action>, i: nat)
    requires IsRun(states, actions) && i < |states| && states[i].stop == Stopped
    ensures states[i].log.closed == states[i].log.transports && |states[i].log.closed| <= 1
    ensures states[i].log.deleted == states[i].log.sessions && |states[i].log.deleted| <= 1
    ensures states[i].transport.None? && states[i].session == ""
  {
    hide Enabled, Next, Inv;
    ConservedAlong(states, actions, i);
  }

  /** Behind the join or the detach, nothing is stored any more. */
  lemma NothingStoredAfterJoin(s: State, a: Action)
    requires Inv(s) && Enabled(s, a) && JoinReturned(s.stop)
    ensures Next(s, a).log.transports == s.log.transports && Next(s, a).log.sessions == s.log.sessions
    ensures JoinReturned(Next(s, a).stop)
  {
    hide GateInv, WakeInv, DecoderInv, AllAwake;
  }

  lemma {:induction false} NothingStoredAfterStop(states: seq<State>, actions: seq<Action>, i: nat, j: nat)
    requires IsRun(states, actions) && i <= j < |states| && JoinReturned(states[i].stop)
    ensures states[j].log.transports == states[i].log.transports && states[j].log.sessions == states[i].log.sessions
    ensures JoinReturned(states[j].stop)
  {
    hide *;
    if i < j {
      NothingStoredAfterStop(states, actions, i, j - 1);
      ReachableInv(states, actions, j - 1);
      RunStep(states, actions, j - 1);
      NothingStoredAfterJoin(states[j - 1], actions[j - 1]);
    }
  }
}
