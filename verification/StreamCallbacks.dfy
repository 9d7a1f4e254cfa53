/** From which states of a stream a callback can still begin. */
module StreamCallbacks {
  import opened Wrappers
  import opened StreamProtocol
  import opened StreamInvariants
  import opened StreamProgress

  predicate SomeoneAdmitted(s: State) {
    exists t | 0 <= t < |s.threads| :: s.threads[t].Admitted?
  }

  /** There is a thread other than the worker, so the library can deliver something. */
  predicate LibraryThread(s: State, t: Thread) {
    t < |s.threads| && s.worker != Some(t)
  }

  // ---------------------------------------------------------------- a stream that is being stopped

  /** Once `stopping_` is set, nobody is admitted any more, and only an admitted thread begins a callback. */
  lemma NobodyNewAdmitted(s: State, a: Action)
    requires Inv(s) && Enabled(s, a) && s.gate.stopping && !SomeoneAdmitted(s)
    ensures Next(s, a).gate.stopping && !SomeoneAdmitted(Next(s, a)) && Next(s, a).log.begun == s.log.begun
  {
    hide WakeInv, DecoderInv, JoinInv, CopyOutcome, AfterWork, AfterStop, WorkerCan, StopperCan;
    match a {
      case WorkerStep(step) => NobodyNewByWorker(s, step);
      case StopStep => NobodyNewByStop(s);
      case _ =>
    }
  }

  lemma NobodyNewByWorker(s: State, step: WorkStep)
    requires s.worker.Some? && WorkerCan(s, step) && s.gate.stopping && !SomeoneAdmitted(s)
    ensures var n := AfterWork(s, step); n.gate.stopping && !SomeoneAdmitted(n) && n.log.begun == s.log.begun
  {
  }

  lemma NobodyNewByStop(s: State)
    requires s.stopper.Some? && StopperCan(s) && s.gate.stopping && !SomeoneAdmitted(s)
    ensures var n := AfterStop(s); n.gate.stopping && !SomeoneAdmitted(n) && n.log.begun == s.log.begun
  {
  }

  /** A stream whose cancellation has returned is stopping and has nobody admitted. */
  lemma CancelledAdmitsNobody(s: State)
    requires Inv(s) && CancelReturned(s.stop)
    ensures s.gate.stopping && !SomeoneAdmitted(s)
  {
    hide WakeInv, DecoderInv, JoinInv, WorkerInv;
  }

  lemma {:induction false} NothingBeginsAlong(states: seq<State>, actions: seq<Action>, i: nat)
    requires IsRunFrom(states, actions) && Inv(states[0]) && i < |states|
    requires states[0].gate.stopping && !SomeoneAdmitted(states[0])
    ensures states[i].gate.stopping && !SomeoneAdmitted(states[i]) && states[i].log.begun == states[0].log.begun
  {
    hide Enabled, Next, Inv, SomeoneAdmitted;
    if i > 0 {
      NothingBeginsAlong(states, actions, i - 1);
      InvAlong(states, actions, i - 1);
      RunStep(states, actions, i - 1);
      NobodyNewAdmitted(states[i - 1], actions[i - 1]);
    }
  }

  // ---------------------------------------------------------------- a stream that is not being stopped

  /** What leads to a callback: the active one comes to its end, and then the library thread delivers a failure. */
  function TowardCallback(s: State, t: Thread): Action {
    if s.gate.active && s.gate.caller.Some? && s.gate.caller.value < |s.threads| then
      var c := s.gate.caller.value;
      if s.threads[c].Admitted? then Begin(c) else if s.threads[c].Calling? then Return(c) else Leave(c)
    else if t < |s.threads| then
      match s.threads[t]
      case Outside => PeerFails(t)
      case Entering(_) => Enter(t)
      case Sleeping(_) => WakeSpuriously(t)
      case Decoding => DecodeEnds(t, FatalError)
      case _ => Notify(t)
    else StopStep
  }

  function Distance(s: State, t: Thread): nat {
    if s.gate.active && s.gate.caller.Some? && s.gate.caller.value < |s.threads| then
      var p := s.threads[s.gate.caller.value];
      if p.Admitted? then 0 else if p.Calling? then 9 else 8
    else if t < |s.threads| then
      match s.threads[t]
      case Entering(_) => 1
      case Sleeping(_) => 2
      case Decoding => 2
      case Outside => 2
      case _ => 3
    else 0
  }

  lemma StepToward(s: State, t: Thread)
    requires Inv(s) && !s.gate.stopping && LibraryThread(s, t)
    ensures var a := TowardCallback(s, t);
      && Enabled(s, a) && !a.CallStop?
      && (Distance(s, t) == 0 ==> Next(s, a).log.begun != s.log.begun)
      && (Distance(s, t) > 0 ==>
            && !Next(s, a).gate.stopping && LibraryThread(Next(s, a), t)
            && Next(s, a).log.begun == s.log.begun && Distance(Next(s, a), t) < Distance(s, t))
  {
    hide WakeInv, JoinInv, WorkerInv, AfterWork, AfterStop, WorkerCan, StopperCan, CopyOutcome;
  }

  predicate NobodyCallsStop(actions: seq<Action>) {
    forall a | a in actions :: !a.CallStop?
  }

  /** As long as nobody stops the stream, a run leads to a further callback, in which nobody stops it either. */
  lemma {:induction false} RunToCallback(s: State, t: Thread) returns (states: seq<State>, actions: seq<Action>)
    requires Inv(s) && !s.gate.stopping && LibraryThread(s, t)
    ensures IsRunFrom(states, actions) && |states| == |actions| + 1 && states[0] == s && NobodyCallsStop(actions)
    ensures states[|actions|].log.begun != s.log.begun
    decreases Distance(s, t)
  {
    hide Enabled, Next, Inv, LibraryThread, TowardCallback, Distance;
    StepToward(s, t);
    var a := TowardCallback(s, t);
    var n := Next(s, a);
    if Distance(s, t) == 0 {
      states, actions := [s, n], [a];
    } else {
      InvKept(s, a);
      var later, steps := RunToCallback(n, t);
      RunBegins(s, a, later, steps);
      states, actions := [s] + later, [a] + steps;
    }
  }

  // ---------------------------------------------------------------- exactly when

  /** The run goes from this state to one in which a further callback has begun. */
  ghost predicate Begins(s: State, states: seq<State>, actions: seq<Action>) {
    IsRunFrom(states, actions) && states[0] == s && states[|actions|].log.begun != s.log.begun
  }

  /**
    From a state with a library thread, a callback can still begin if and only if nobody has begun to stop the stream,
    or a thread has been admitted and not yet called the user.
    */
  lemma CallbackCanBegin(s: State, t: Thread)
    requires Inv(s) && LibraryThread(s, t)
    ensures (exists states, actions :: Begins(s, states, actions)) <==> !s.gate.stopping || SomeoneAdmitted(s)
  {
    hide Enabled, Next, Inv, LibraryThread, SomeoneAdmitted;
    forall states, actions | Begins(s, states, actions) ensures !s.gate.stopping || SomeoneAdmitted(s) {
      if s.gate.stopping && !SomeoneAdmitted(s) {
        NothingBeginsAlong(states, actions, |actions|);
      }
    }
    if !s.gate.stopping {
      var states, actions := RunToCallback(s, t);
      assert Begins(s, states, actions);
    } else if SomeoneAdmitted(s) {
      var states, actions := AdmittedBegins(s);
      assert Begins(s, states, actions);
    }
  }

  lemma AdmittedBegins(s: State) returns (states: seq<State>, actions: seq<Action>)
    requires SomeoneAdmitted(s)
    ensures |actions| == 1 && NobodyCallsStop(actions) && Begins(s, states, actions)
  {
    var t: Thread :| t < |s.threads| && s.threads[t].Admitted?;
    states, actions := [s, Next(s, Begin(t))], [Begin(t)];
  }
}
