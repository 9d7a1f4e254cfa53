/** No notice is lost: what is issued is what has begun and what is on its way, while nobody stops the stream. */
module StreamDelivery {
  import opened StreamProtocol
  import opened StreamInvariants
  import opened StreamCallbacks
  import opened StreamProgress

  // ---------------------------------------------------------------- what the actions of a run issue

  /** How many frames the decoder has produced. */
  function FramesProduced(actions: seq<Action>): nat {
    if actions == [] then 0
    else
      var last := actions[|actions| - 1];
      FramesProduced(actions[..|actions| - 1]) + if last.DecodeEnds? && last.outcome == FrameProduced then 1 else 0
  }

  /**
    What one action calls for, after so many frames: the frame, numbered as it is produced; -6 for a fatal decoder error;
    -5 for a failed peer connection and for a gathering wait that timed out; and the code a step of the worker failed with.
    */
  function IssuedBy(a: Action, frames: nat): seq<Notice> {
    match a
    case DecodeEnds(_, FrameProduced) => [Frame(frames + 1)]
    case DecodeEnds(_, FatalError) => [Problem(-6)]
    case PeerFails(_) => [Problem(-5)]
    case WorkerStep(Throw(code)) => [Problem(code)]
    case WorkerStep(TimeOut) => [Problem(-5)]
    case _ => []
  }

  /** The notices that the actions of a run call for, in order. */
  function Issued(actions: seq<Action>): seq<Notice> {
    if actions == [] then []
    else
      var before := actions[..|actions| - 1];
      Issued(before) + IssuedBy(actions[|actions| - 1], FramesProduced(before))
  }

  // ---------------------------------------------------------------- what is on its way

  predicate OnItsWay(p: Phase) {
    p.Entering? || p.Sleeping? || p.Admitted?
  }

  /** 1 if the thread is on its way to the callback with this notice. */
  function Carries(p: Phase, x: Notice): nat {
    if OnItsWay(p) && p.notice == x then 1 else 0
  }

  /** How many threads are on their way to the callback with this notice. */
  function OnTheirWay(threads: seq<Phase>, x: Notice): nat {
    if threads == [] then 0 else OnTheirWay(threads[..|threads| - 1], x) + Carries(threads[|threads| - 1], x)
  }

  /** 1 if the worker has met this failure and not yet taken it to the callback. */
  function Unreported(work: Work, x: Notice): nat {
    if work.Failing? && Problem(work.code) == x then 1 else 0
  }

  /** How often a notice is among others. */
  function Times(notices: seq<Notice>, x: Notice): nat {
    if notices == [] then 0
    else Times(notices[..|notices| - 1], x) + if notices[|notices| - 1] == x then 1 else 0
  }

  lemma TimesNext(notices: seq<Notice>, notice: Notice, x: Notice)
    ensures Times(notices + [notice], x) == Times(notices, x) + if notice == x then 1 else 0
    ensures notices + [] == notices
  {
    assert (notices + [notice])[..|notices|] == notices;
  }

  lemma {:induction false} OnTheirWayUpdated(threads: seq<Phase>, t: nat, p: Phase, x: Notice)
    requires t < |threads|
    ensures OnTheirWay(threads[t := p], x) == OnTheirWay(threads, x) - Carries(threads[t], x) + Carries(p, x)
  {
    var n := |threads| - 1;
    if t == n {
      assert threads[t := p][..n] == threads[..n];
    } else {
      OnTheirWayUpdated(threads[..n], t, p, x);
      assert threads[t := p][..n] == threads[..n][t := p];
    }
  }

  lemma {:induction false} OnTheirWayAwake(threads: seq<Phase>, x: Notice)
    ensures OnTheirWay(AllAwake(threads), x) == OnTheirWay(threads, x)
  {
    if threads != [] {
      var n := |threads| - 1;
      OnTheirWayAwake(threads[..n], x);
      assert AllAwake(threads)[..n] == AllAwake(threads[..n]);
    }
  }

  lemma {:induction false} NobodyOnTheirWay(threads: seq<Phase>, x: Notice)
    requires forall t | 0 <= t < |threads| :: threads[t] == Outside
    ensures OnTheirWay(threads, x) == 0
  {
    if threads != [] {
      NobodyOnTheirWay(threads[..|threads| - 1], x);
    }
  }

  // ---------------------------------------------------------------- one step

  predicate Delivered(s: State, done: seq<Action>, x: Notice) {
    && s.published == FramesProduced(done)
    && Times(Issued(done), x) == Times(s.log.begun, x) + OnTheirWay(s.threads, x) + Unreported(s.work, x)
  }

  lemma IssuedNext(done: seq<Action>, a: Action, x: Notice)
    ensures FramesProduced(done + [a]) == FramesProduced(done) + if a.DecodeEnds? && a.outcome == FrameProduced then 1 else 0
    ensures var own := IssuedBy(a, FramesProduced(done));
      && |own| <= 1
      && Times(Issued(done + [a]), x) == Times(Issued(done), x) + if own == [x] then 1 else 0
  {
    hide FramesProduced, Times;
    FramesNext(done, a);
    var own := IssuedBy(a, FramesProduced(done));
    assert (done + [a])[..|done|] == done;
    assert Issued(done + [a]) == Issued(done) + own;
    if own == [] {
      TimesNext(Issued(done), x, x);
    } else {
      TimesNext(Issued(done), own[0], x);
    }
  }

  lemma FramesNext(done: seq<Action>, a: Action)
    ensures FramesProduced(done + [a]) == FramesProduced(done) + if a.DecodeEnds? && a.outcome == FrameProduced then 1 else 0
  {
    assert (done + [a])[..|done|] == done;
  }

  lemma DeliveredByWorker(s: State, step: WorkStep, done: seq<Action>, x: Notice)
    requires Inv(s) && s.worker.Some? && WorkerCan(s, step) && !s.gate.stopping && Delivered(s, done, x)
    ensures Delivered(AfterWork(s, step), done + [WorkerStep(step)], x)
  {
    hide GateInv, StopInv, WakeInv, DecoderInv, JoinInv, FramesProduced, Issued, OnTheirWay, Times;
    IssuedNext(done, WorkerStep(step), x);
    if s.work.Failing? {
      OnTheirWayUpdated(s.threads, s.worker.value, Entering(Problem(s.work.code)), x);
    }
  }

  lemma DeliveredByDecode(s: State, t: Thread, outcome: DecodeOutcome, done: seq<Action>, x: Notice)
    requires t < |s.threads| && s.threads[t] == Decoding && Delivered(s, done, x)
    ensures Delivered(AfterDecode(s, t, outcome), done + [DecodeEnds(t, outcome)], x)
  {
    hide FramesProduced, Issued, OnTheirWay, Times;
    IssuedNext(done, DecodeEnds(t, outcome), x);
    OnTheirWayUpdated(s.threads, t, AfterDecode(s, t, outcome).threads[t], x);
  }

  lemma DeliveredByEnter(s: State, t: Thread, done: seq<Action>, x: Notice)
    requires Inv(s) && t < |s.threads| && s.threads[t].Entering? && !s.gate.stopping && Delivered(s, done, x)
    ensures Delivered(AfterEnter(s, t), done + [Enter(t)], x)
  {
    hide GateInv, WakeInv, DecoderInv, JoinInv, WorkerInv, FramesProduced, Issued, OnTheirWay, Times;
    IssuedNext(done, Enter(t), x);
    OnTheirWayUpdated(s.threads, t, AfterEnter(s, t).threads[t], x);
  }

  lemma DeliveredByNotify(s: State, t: Thread, done: seq<Action>, x: Notice)
    requires t < |s.threads| && s.threads[t] == Waking && Delivered(s, done, x)
    ensures Delivered(AfterNotify(s, t), done + [Notify(t)], x)
  {
    hide FramesProduced, Issued, OnTheirWay, Times;
    IssuedNext(done, Notify(t), x);
    OnTheirWayAwake(s.threads, x);
    OnTheirWayUpdated(AllAwake(s.threads), t, Outside, x);
  }

  lemma DeliveredByThread(s: State, a: Action, done: seq<Action>, x: Notice)
    requires Enabled(s, a) && Delivered(s, done, x)
    requires a.FrameArrives? || a.PeerFails? || a.WakeSpuriously? || a.Begin? || a.Return? || a.Leave?
    ensures Delivered(Next(s, a), done + [a], x)
  {
    hide FramesProduced, Issued, OnTheirWay, Times;
    IssuedNext(done, a, x);
    OnTheirWayUpdated(s.threads, a.t, Next(s, a).threads[a.t], x);
    if a.Begin? {
      TimesNext(s.log.begun, s.threads[a.t].notice, x);
    }
  }

  lemma DeliveredByOthers(s: State, a: Action, done: seq<Action>, x: Notice)
    requires Enabled(s, a) && Delivered(s, done, x)
    requires a.CallStop? || a == CandidatesGathered || a == WakeStopperSpuriously || a.CopyFrame?
    ensures Delivered(Next(s, a), done + [a], x)
  {
    hide CopyOutcome, FramesProduced, Issued, OnTheirWay, Times;
    IssuedNext(done, a, x);
  }

  lemma DeliveredKept(s: State, a: Action, done: seq<Action>, x: Notice)
    requires Inv(s) && Enabled(s, a) && !s.gate.stopping && Delivered(s, done, x)
    ensures Delivered(Next(s, a), done + [a], x)
  {
    hide Delivered, Inv, AfterWork, AfterStop, AfterEnter, AfterNotify, AfterDecode, WorkerCan, StopperCan, CanDeliver, CopyOutcome;
    match a {
      case WorkerStep(step) => DeliveredByWorker(s, step, done, x);
      case StopStep => NobodyStops(s);
      case DecodeEnds(t, outcome) => DeliveredByDecode(s, t, outcome, done, x);
      case Enter(t) => DeliveredByEnter(s, t, done, x);
      case Notify(t) => DeliveredByNotify(s, t, done, x);
      case CallStop(_) => DeliveredByOthers(s, a, done, x);
      case CandidatesGathered => DeliveredByOthers(s, a, done, x);
      case WakeStopperSpuriously => DeliveredByOthers(s, a, done, x);
      case CopyFrame(_, _) => DeliveredByOthers(s, a, done, x);
      case _ => DeliveredByThread(s, a, done, x);
    }
  }

  lemma NobodyStops(s: State)
    requires Inv(s) && !s.gate.stopping
    ensures s.stopper.None?
  {
    hide GateInv, WakeInv, DecoderInv, JoinInv, WorkerInv;
  }

  /**
    In every run, as long as nobody stops the stream: a notice that the actions called for has begun its callback, or a
    thread is on its way to the callback with it, or the worker is about to report it; and all of these exactly as often
    as it was called for.
    */
  lemma {:induction false} NoNoticeLost(states: seq<State>, actions: seq<Action>, i: nat, x: Notice)
    requires IsRun(states, actions) && i < |states| && !states[i].gate.stopping
    ensures i <= |actions| && states[i].published == FramesProduced(actions[..i])
    ensures Times(Issued(actions[..i]), x) ==
      Times(states[i].log.begun, x) + OnTheirWay(states[i].threads, x) + Unreported(states[i].work, x)
  {
    hide Enabled, Next, Init, Inv, Issued, FramesProduced, OnTheirWay, Times, Unreported;
    ReachableInv(states, actions, i);
    if i == 0 {
      NothingIssuedYet(states[0], x);
      assert actions[..0] == [];
    } else {
      RunStep(states, actions, i - 1);
      if states[i - 1].gate.stopping {
        StaysStopping(states[i - 1], actions[i - 1]);
      }
      ReachableInv(states, actions, i - 1);
      NoNoticeLost(states, actions, i - 1, x);
      DeliveredKept(states[i - 1], actions[i - 1], actions[..i - 1], x);
      assert actions[..i] == actions[..i - 1] + [actions[i - 1]];
    }
  }

  lemma NothingIssuedYet(s: State, x: Notice)
    requires Init(s)
    ensures Delivered(s, [], x)
  {
    NobodyOnTheirWay(s.threads, x);
  }

  // ---------------------------------------------------------------- every notice gets its callback

  /** What brings the thread nearer to its own callback. */
  function TowardOwnCallback(s: State, t: Thread): Action
    requires t < |s.threads|
  {
    if s.gate.active && s.gate.caller.Some? && s.gate.caller.value < |s.threads| then
      var c := s.gate.caller.value;
      if s.threads[c].Admitted? then Begin(c) else if s.threads[c].Calling? then Return(c) else Leave(c)
    else if s.threads[t].Entering? then Enter(t)
    else if SomeoneWaking(s.threads) then Notify(SomeWaking(s.threads))
    else WakeSpuriously(t)
  }

  function SomeWaking(threads: seq<Phase>): (t: nat)
    requires SomeoneWaking(threads)
    ensures t < |threads| && threads[t] == Waking
  {
    var last := |threads| - 1;
    if threads[last] == Waking then last
    else
      assert forall u | 0 <= u < last :: threads[..last][u] == threads[u];
      SomeWaking(threads[..last])
  }

  function StepsToOwnCallback(s: State, t: Thread): nat
    requires t < |s.threads|
  {
    if s.gate.active && s.gate.caller.Some? && s.gate.caller.value < |s.threads| then
      var c := s.gate.caller.value;
      if c == t then 0 else if s.threads[c].Admitted? then 6 else if s.threads[c].Calling? then 5 else 4
    else if s.threads[t].Entering? then 2 else 3
  }

  lemma StepTowardOwn(s: State, t: Thread)
    requires Inv(s) && !s.gate.stopping && t < |s.threads| && OnItsWay(s.threads[t])
    ensures var a := TowardOwnCallback(s, t);
      && Enabled(s, a) && !a.CallStop? && a != WakeSpuriously(t)
      && var n := Next(s, a);
      && (StepsToOwnCallback(s, t) == 0 ==> a == Begin(t) && n.log.begun == s.log.begun + [s.threads[t].notice])
      && (StepsToOwnCallback(s, t) > 0 ==>
            && !n.gate.stopping && t < |n.threads| && OnItsWay(n.threads[t]) && n.threads[t].notice == s.threads[t].notice
            && StepsToOwnCallback(n, t) < StepsToOwnCallback(s, t))
  {
    hide JoinInv, WorkerInv, DecoderInv, AfterWork, AfterStop, AfterDecode, WorkerCan, StopperCan, CopyOutcome;
  }

  /**
    As long as nobody stops the stream, from wherever a thread is on its way to the callback a run leads to a callback
    with its own notice, without a spurious wakeup of that thread.
    */
  lemma {:induction false} RunToOwnCallback(s: State, t: Thread) returns (states: seq<State>, actions: seq<Action>)
    requires Inv(s) && !s.gate.stopping && t < |s.threads| && OnItsWay(s.threads[t])
    ensures IsRunFrom(states, actions) && states[0] == s && NobodyCallsStop(actions)
    ensures actions != [] && actions[|actions| - 1] == Begin(t) && WakeSpuriously(t) !in actions
    ensures states[|actions|].log.begun == states[|actions| - 1].log.begun + [s.threads[t].notice]
    decreases StepsToOwnCallback(s, t)
  {
    hide Enabled, Next, Inv, TowardOwnCallback, StepsToOwnCallback;
    StepTowardOwn(s, t);
    var a := TowardOwnCallback(s, t);
    var n := Next(s, a);
    if StepsToOwnCallback(s, t) == 0 {
      states, actions := [s, n], [a];
    } else {
      InvKept(s, a);
      var later, steps := RunToOwnCallback(n, t);
      RunBegins(s, a, later, steps);
      states, actions := [s] + later, [a] + steps;
    }
  }
}
