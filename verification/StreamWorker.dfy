/** What the worker of a stream that nobody stops gets done: the whole exchange, or a callback with the failure. */
module StreamWorker {
  import opened Wrappers
  import opened StreamProtocol
  import opened StreamInvariants
  import opened StreamProgress
  import opened StreamDelivery

  /** The steps of the worker among the actions. */
  function WorkerSteps(actions: seq<Action>): seq<WorkStep> {
    if actions == [] then []
    else
      var last := actions[|actions| - 1];
      WorkerSteps(actions[..|actions| - 1]) + if last.WorkerStep? then [last.step] else []
  }

  /** The code with which a step fails; a gathering wait that times out fails with -5. */
  function FailureOf(step: WorkStep): Option<int> {
    match step
    case Throw(code) => Some(code)
    case TimeOut => Some(-5)
    case _ => None
  }

  /** The code of the first step that fails. */
  function FailureIn(steps: seq<WorkStep>): Option<int> {
    if steps == [] then None
    else
      var before := FailureIn(steps[..|steps| - 1]);
      if before.Some? then before else FailureOf(steps[|steps| - 1])
  }

  /** Without a failure the worker builds, stores, offers, gathers, posts, stores and answers, in this order. */
  predicate FollowsScript(steps: seq<WorkStep>) {
    && |steps| <= 9
    && forall i | 0 <= i < |steps| ::
        if i == 0 then steps[i].Built? else if i == 5 then steps[i].Posted? else steps[i] == Proceed
  }

  /** How many steps lie behind the worker. */
  function Position(work: Work): nat {
    match work
    case Setup => 0
    case StoreTransport(_) => 1
    case Offer => 2
    case Gather => 3
    case CheckGathered => 4
    case Post => 5
    case StoreSession(_) => 6
    case CheckStored => 7
    case Answer => 8
    case _ => 9
  }

  predicate OnScript(s: State, steps: seq<WorkStep>) {
    && !s.work.Failing? && !s.work.Reporting?
    && FollowsScript(steps) && |steps| == Position(s.work)
    && (s.work.StoreTransport? ==> s.work.transport == steps[0].transport)
    && (s.work.StoreSession? ==> s.work.url == steps[5].url)
    && s.log.transports == (if |steps| >= 2 then [steps[0].transport] else [])
    && s.log.sessions == (if |steps| >= 7 && steps[5].url != "" then [steps[5].url] else [])
    && (|steps| >= 4 ==> s.gathered)
  }

  /** After a failure the worker takes it to the callback, and is not done before the callback has begun. */
  predicate OnFailure(s: State, code: int) {
    && s.worker.Some? && s.worker.value < |s.threads|
    && match s.work
       case Failing(c, _) => c == code
       case Reporting(_) =>
         var p := s.threads[s.worker.value];
         (OnItsWay(p) && p.notice == Problem(code)) || (!OnItsWay(p) && Problem(code) in s.log.begun)
       case Finished => Problem(code) in s.log.begun
       case _ => false
  }

  predicate WorkerDoes(s: State, steps: seq<WorkStep>) {
    if FailureIn(steps).None? then OnScript(s, steps) else OnFailure(s, FailureIn(steps).value)
  }

  // ---------------------------------------------------------------- one step

  lemma StepsNext(actions: seq<Action>, a: Action)
    ensures WorkerSteps(actions + [a]) == if a.WorkerStep? then WorkerSteps(actions) + [a.step] else WorkerSteps(actions)
  {
    assert (actions + [a])[..|actions|] == actions;
    assert WorkerSteps(actions) + [] == WorkerSteps(actions);
  }

  lemma FailureNext(steps: seq<WorkStep>, step: WorkStep)
    ensures FailureIn(steps + [step]) == if FailureIn(steps).Some? then FailureIn(steps) else FailureOf(step)
  {
    assert (steps + [step])[..|steps|] == steps;
  }

  lemma ScriptGoesOn(s: State, step: WorkStep, steps: seq<WorkStep>)
    requires s.worker.Some? && WorkerCan(s, step) && !s.gate.stopping && OnScript(s, steps) && FailureOf(step).None?
    ensures OnScript(AfterWork(s, step), steps + [step])
  {
    assert s.work != Finished;
  }

  lemma ScriptBreaks(s: State, step: WorkStep)
    requires Inv(s) && s.worker.Some? && WorkerCan(s, step) && !s.gate.stopping && FailureOf(step).Some?
    ensures OnFailure(AfterWork(s, step), FailureOf(step).value)
  {
    hide GateInv, StopInv, WakeInv, DecoderInv, JoinInv;
  }

  lemma FailureGoesOn(s: State, step: WorkStep, code: int)
    requires Inv(s) && s.worker.Some? && WorkerCan(s, step) && !s.gate.stopping && OnFailure(s, code)
    ensures OnFailure(AfterWork(s, step), code)
  {
    hide GateInv, StopInv, WakeInv, DecoderInv, JoinInv;
  }

  lemma DoneByWorker(s: State, step: WorkStep, steps: seq<WorkStep>)
    requires Inv(s) && s.worker.Some? && WorkerCan(s, step) && !s.gate.stopping && WorkerDoes(s, steps)
    ensures WorkerDoes(AfterWork(s, step), steps + [step])
  {
    hide Inv, WorkerCan, AfterWork, OnScript, OnFailure, FailureIn, FailureOf;
    FailureNext(steps, step);
    if FailureIn(steps).Some? {
      FailureGoesOn(s, step, FailureIn(steps).value);
    } else if FailureOf(step).Some? {
      ScriptBreaks(s, step);
    } else {
      ScriptGoesOn(s, step, steps);
    }
  }

  /** Steps of other threads leave the worker where it is, and what it has stored. */
  lemma OthersLeaveScript(s: State, a: Action, steps: seq<WorkStep>)
    requires Inv(s) && Enabled(s, a) && !a.WorkerStep? && !s.gate.stopping && OnScript(s, steps)
    ensures OnScript(Next(s, a), steps)
  {
    hide FollowsScript, Position, AllAwake, CopyOutcome, AfterStop, StopperCan, GateInv, WakeInv, DecoderInv, JoinInv, WorkerInv;
  }

  lemma OthersLeaveFailure(s: State, a: Action, code: int)
    requires Inv(s) && Enabled(s, a) && !a.WorkerStep? && !s.gate.stopping && OnFailure(s, code)
    ensures OnFailure(Next(s, a), code)
  {
    hide CopyOutcome, AfterStop, StopperCan, GateInv, WakeInv, JoinInv, WorkerInv;
  }

  lemma DoneByOthers(s: State, a: Action, steps: seq<WorkStep>)
    requires Inv(s) && Enabled(s, a) && !a.WorkerStep? && !s.gate.stopping && WorkerDoes(s, steps)
    ensures WorkerDoes(Next(s, a), steps)
  {
    hide Inv, Enabled, Next, OnScript, OnFailure, FailureIn;
    if FailureIn(steps).Some? {
      OthersLeaveFailure(s, a, FailureIn(steps).value);
    } else {
      OthersLeaveScript(s, a, steps);
    }
  }

  // ---------------------------------------------------------------- every run

  /** In every run, as long as nobody stops the stream, the worker is where its own steps have led it. */
  lemma {:induction false} WorkerFollowsItsSteps(states: seq<State>, actions: seq<Action>, i: nat)
    requires IsRun(states, actions) && i < |states| && !states[i].gate.stopping && states[0].worker.Some?
    ensures i <= |actions| && WorkerDoes(states[i], WorkerSteps(actions[..i]))
  {
    hide Enabled, Next, Init, Inv, WorkerDoes, WorkerSteps;
    ReachableInv(states, actions, i);
    if i == 0 {
      assert actions[..0] == [];
      NothingDoneYet(states[0]);
    } else {
      RunStep(states, actions, i - 1);
      var s, a := states[i - 1], actions[i - 1];
      if s.gate.stopping {
        StaysStopping(s, a);
      }
      ReachableInv(states, actions, i - 1);
      WorkerFollowsItsSteps(states, actions, i - 1);
      assert actions[..i] == actions[..i - 1] + [a];
      StepsNext(actions[..i - 1], a);
      if a.WorkerStep? {
        WorkerStepIs(s, a);
        DoneByWorker(s, a.step, WorkerSteps(actions[..i - 1]));
      } else {
        DoneByOthers(s, a, WorkerSteps(actions[..i - 1]));
      }
    }
  }

  lemma WorkerStepIs(s: State, a: Action)
    requires Enabled(s, a) && a.WorkerStep?
    ensures s.worker.Some? && WorkerCan(s, a.step) && Next(s, a) == AfterWork(s, a.step)
  {
  }

  lemma NothingDoneYet(s: State)
    requires Init(s) && s.worker.Some?
    ensures WorkerDoes(s, WorkerSteps([]))
  {
  }

  predicate Fails(a: Action) {
    a.WorkerStep? && (a.step.Throw? || a.step.TimeOut?)
  }

  lemma {:induction false} NoFailure(actions: seq<Action>)
    requires forall a | a in actions :: !Fails(a)
    ensures FailureIn(WorkerSteps(actions)).None?
  {
    if actions != [] {
      var before, last := actions[..|actions| - 1], actions[|actions| - 1];
      assert forall a | a in before :: a in actions;
      NoFailure(before);
      assert last in actions && actions == before + [last];
      StepsNext(before, last);
      if last.WorkerStep? {
        FailureNext(WorkerSteps(before), last.step);
      }
    }
  }

  lemma {:induction false} SomeFailure(actions: seq<Action>, a: Action)
    requires a in actions && Fails(a)
    ensures FailureIn(WorkerSteps(actions)).Some?
  {
    var before, last := actions[..|actions| - 1], actions[|actions| - 1];
    assert actions == before + [last];
    StepsNext(before, last);
    if last.WorkerStep? {
      FailureNext(WorkerSteps(before), last.step);
    }
    if a != last {
      SomeFailure(before, a);
    }
  }

  lemma {:induction false} GatheredByAction(states: seq<State>, actions: seq<Action>, i: nat)
    requires IsRun(states, actions) && i < |states| && states[i].gathered
    ensures i <= |actions| && CandidatesGathered in actions[..i]
  {
    hide Enabled, Next, Init;
    ReachableInv(states, actions, i);
    if i == 0 {
      NotGatheredYet(states[0]);
    } else {
      RunStep(states, actions, i - 1);
      OnlyGatheringGathers(states[i - 1], actions[i - 1]);
      assert actions[..i] == actions[..i - 1] + [actions[i - 1]];
      if states[i - 1].gathered {
        GatheredByAction(states, actions, i - 1);
      }
    }
  }

  lemma NotGatheredYet(s: State)
    requires Init(s)
    ensures !s.gathered
  {
  }

  lemma OnlyGatheringGathers(s: State, a: Action)
    requires Enabled(s, a)
    ensures Next(s, a).gathered ==> s.gathered || a == CandidatesGathered
  {
    hide AllAwake, CopyOutcome;
  }

  /** The answer of the server is set in this step. */
  predicate SetsAnswer(s: State, a: Action) {
    s.work == Answer && a == WorkerStep(Proceed)
  }

  lemma {:induction false} AnswerWasSet(states: seq<State>, actions: seq<Action>, i: nat)
    requires IsRun(states, actions) && i < |states| && !states[i].gate.stopping && states[0].worker.Some?
    requires i <= |actions| && (forall a | a in actions[..i] :: !Fails(a)) && states[i].work == Finished
    ensures exists j | 0 <= j < i :: SetsAnswer(states[j], actions[j])
  {
    hide Enabled, Next, Init, Inv, WorkerDoes;
    if i == 0 {
      WorkerStarts(states[0]);
    } else {
      RunStep(states, actions, i - 1);
      var s, a := states[i - 1], actions[i - 1];
      assert actions[..i] == actions[..i - 1] + [a];
      if s.gate.stopping {
        StaysStopping(s, a);
      }
      if s.work == Finished {
        AnswerWasSet(states, actions, i - 1);
      } else {
        WorkerFollowsItsSteps(states, actions, i - 1);
        NoFailure(actions[..i - 1]);
        FinishesByAnswer(s, a, WorkerSteps(actions[..i - 1]));
        assert SetsAnswer(states[i - 1], actions[i - 1]);
      }
    }
  }

  lemma WorkerStarts(s: State)
    requires Init(s) && s.worker.Some?
    ensures s.work == Setup
  {
  }

  lemma FinishesByAnswer(s: State, a: Action, steps: seq<WorkStep>)
    requires Enabled(s, a) && !s.gate.stopping && s.work != Finished && Next(s, a).work == Finished
    requires WorkerDoes(s, steps) && FailureIn(steps).None?
    ensures SetsAnswer(s, a)
  {
    hide AllAwake, CopyOutcome, FollowsScript, FailureIn;
  }

  /**
    In every run, if the worker of a stream that nobody stops is finished and none of its steps failed: it has built and
    stored one transport, the candidates have been gathered, it has posted the offer once, stored the session that the
    server named, if it named one, and set the answer.
    */
  lemma WorkerCompletes(states: seq<State>, actions: seq<Action>, i: nat) returns (transport: nat, url: string)
    requires IsRun(states, actions) && i < |states| && !states[i].gate.stopping && states[0].worker.Some?
    requires i <= |actions| && (forall a | a in actions[..i] :: !Fails(a)) && states[i].work == Finished
    ensures WorkerSteps(actions[..i]) ==
      [Built(transport), Proceed, Proceed, Proceed, Proceed, Posted(url), Proceed, Proceed, Proceed]
    ensures states[i].log.transports == [transport]
    ensures states[i].log.sessions == if url == "" then [] else [url]
    ensures CandidatesGathered in actions[..i]
    ensures exists j | 0 <= j < i :: SetsAnswer(states[j], actions[j])
  {
    hide Enabled, Next, Init, WorkerSteps, FailureIn, Fails, SetsAnswer;
    WorkerFollowsItsSteps(states, actions, i);
    NoFailure(actions[..i]);
    var steps := WorkerSteps(actions[..i]);
    transport, url := steps[0].transport, steps[5].url;
    GatheredByAction(states, actions, i);
    AnswerWasSet(states, actions, i);
  }

  /**
    And if a step of the worker failed, and the worker is finished, a callback with the code of the first failure has
    begun; before that, the worker is about to report it or on its way to the callback with it.
    */
  lemma WorkerReportsFailure(states: seq<State>, actions: seq<Action>, i: nat, a: Action)
    requires IsRun(states, actions) && i < |states| && !states[i].gate.stopping && states[0].worker.Some?
    requires i <= |actions| && a in actions[..i] && Fails(a)
    ensures FailureIn(WorkerSteps(actions[..i])) == FailureOf(a.step)
    ensures OnFailure(states[i], FailureOf(a.step).value)
    ensures states[i].work == Finished ==> Problem(FailureOf(a.step).value) in states[i].log.begun
  {
    hide Enabled, Next, Init, WorkerSteps, FailureIn;
    WorkerFollowsItsSteps(states, actions, i);
    SomeFailure(actions[..i], a);
    OneFailure(states, actions, i, a);
  }

  /** A worker fails at most once. */
  lemma {:induction false} OneFailure(states: seq<State>, actions: seq<Action>, i: nat, a: Action)
    requires IsRun(states, actions) && i < |states| && !states[i].gate.stopping && states[0].worker.Some?
    requires i <= |actions| && a in actions[..i] && Fails(a)
    ensures FailureIn(WorkerSteps(actions[..i])) == FailureOf(a.step)
  {
    hide Enabled, Next, Init, Inv, WorkerDoes, WorkerSteps, FailureIn, FailureOf;
    RunStep(states, actions, i - 1);
    var s, last := states[i - 1], actions[i - 1];
    assert actions[..i] == actions[..i - 1] + [last];
    StepsNext(actions[..i - 1], last);
    if s.gate.stopping {
      StaysStopping(s, last);
    }
    if last.WorkerStep? {
      FailureNext(WorkerSteps(actions[..i - 1]), last.step);
    }
    if a in actions[..i - 1] {
      OneFailure(states, actions, i - 1, a);
      SomeFailure(actions[..i - 1], a);
    } else {
      WorkerFollowsItsSteps(states, actions, i - 1);
      FirstToFail(s, last, WorkerSteps(actions[..i - 1]));
    }
  }

  lemma FirstToFail(s: State, a: Action, steps: seq<WorkStep>)
    requires Enabled(s, a) && Fails(a) && WorkerDoes(s, steps)
    ensures FailureIn(steps).None?
  {
    hide FailureIn, OnScript, AllAwake;
  }

  /**
    Where the worker can fail: setting up, offering and setting the answer with -7, the exchange with the server with -7
    or -5, and the gathering wait by timing out, unless it is over or the stream stops.
    */
  lemma FailsExactly(s: State, code: int)
    requires s.worker.Some?
    ensures Enabled(s, WorkerStep(Throw(code))) <==>
      (code == -7 && s.work in {Setup, Offer, Post, Answer}) || (code == -5 && s.work == Post)
    ensures Enabled(s, WorkerStep(TimeOut)) <==>
      s.work == Gather && s.gatheringOwner.None? && !s.gathered && !s.gate.stopping
  {
  }

  // ---------------------------------------------------------------- the exchange can be completed

  /** What brings the worker nearer to the end of the exchange. */
  function TowardAnswer(s: State, transport: nat, url: string): Action {
    match s.work
    case Setup => WorkerStep(Built(transport))
    case Gather => if s.gathered then WorkerStep(Proceed) else CandidatesGathered
    case Post => WorkerStep(Posted(url))
    case _ => WorkerStep(Proceed)
  }

  function StepsToAnswer(s: State): nat {
    if s.gathered then 9 - Position(s.work) else 10 - Position(s.work)
  }

  predicate InExchange(s: State) {
    !s.gate.stopping && s.worker.Some? && !s.work.Failing? && !s.work.Reporting?
  }

  lemma StepTowardAnswer(s: State, transport: nat, url: string)
    requires Inv(s) && InExchange(s) && s.work != Finished
    ensures var a := TowardAnswer(s, transport, url);
      Enabled(s, a) && InExchange(Next(s, a)) && StepsToAnswer(Next(s, a)) < StepsToAnswer(s)
  {
    hide GateInv, StopInv, WakeInv, DecoderInv, JoinInv;
  }

  /**
    While nobody stops the stream, from wherever the worker is in the exchange a run without a failure leads to its end,
    with whatever transport is built and whatever session the server names.
    */
  lemma {:induction false} RunToAnswer(s: State, transport: nat, url: string)
    returns (states: seq<State>, actions: seq<Action>)
    requires Inv(s) && InExchange(s)
    ensures IsRunFrom(states, actions) && states[0] == s
    ensures states[|actions|].work == Finished && !states[|actions|].gate.stopping
    ensures forall a | a in actions ::
      !Fails(a) && (a == CandidatesGathered || a in {WorkerStep(Built(transport)), WorkerStep(Posted(url)), WorkerStep(Proceed)})
    decreases StepsToAnswer(s)
  {
    hide Enabled, Next, Inv, StepsToAnswer;
    if s.work == Finished {
      states, actions := [s], [];
    } else {
      StepTowardAnswer(s, transport, url);
      var a := TowardAnswer(s, transport, url);
      var n := Next(s, a);
      InvKept(s, a);
      var later, steps := RunToAnswer(n, transport, url);
      RunBegins(s, a, later, steps);
      states, actions := [s] + later, [a] + steps;
    }
  }
}
