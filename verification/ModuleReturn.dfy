/** What `StopModule` may leave behind when it returns, and from which situation of its caller. */
module ModuleReturns {
  import opened Wrappers
  import opened ModuleProtocol
  import opened ModuleInvariants

  /** A call of `StopStream` has claimed the stream and not yet freed its handle. */
  predicate HeldByStopStream(s: State, u: nat, r: nat) {
    u < |s.threads| && s.threads[u].Stopping? && s.threads[u].entry.id == r
  }

  /** The call has not come back from stopping the stream. */
  predicate BeingStopped(s: State, u: nat, r: nat) {
    HeldByStopStream(s, u, r) && !s.threads[u].halted
  }

  // ---------------------------------------------------------------- what is left

  lemma TableEmpty(s: State)
    requires Inv(s) && !s.started
    ensures s.table == map[]
  {
    hide PlaceInv, EndInv, HeapInv, TakenInv;
  }

  /** Without a module to claim from, nobody comes to stop a stream who was not at it before. */
  lemma HeldBefore(s: State, a: Action, u: nat, r: nat)
    requires Enabled(s, a) && (s.table == map[] || a.StopModule?)
    requires HeldByStopStream(Next(s, a), u, r)
    ensures HeldByStopStream(s, u, r) && (BeingStopped(Next(s, a), u, r) ==> BeingStopped(s, u, r))
  {
    hide Lists, Entries;
  }

  /** Whoever stops a stream after `StopModule` has taken its list was at it before. */
  lemma {:induction false} HeldAllAlong(states: seq<State>, actions: seq<Action>, k: nat, u: nat, r: nat)
    requires IsRunFrom(states, actions) && 0 < k < |states| && Inv(states[0]) && actions[0].StopModule?
    requires forall m | 0 < m < k :: !states[m].started
    requires HeldByStopStream(states[k], u, r)
    ensures HeldByStopStream(states[0], u, r) && (BeingStopped(states[k], u, r) ==> BeingStopped(states[0], u, r))
    decreases k
  {
    hide Enabled, Next, Inv, HeldByStopStream, BeingStopped;
    RunStep(states, actions, k - 1);
    if k > 1 {
      InvAlong(states, actions, k - 1);
      TableEmpty(states[k - 1]);
    }
    HeldBefore(states[k - 1], actions[k - 1], u, r);
    if k > 1 {
      HeldAllAlong(states, actions, k - 1, u, r);
    }
  }

  lemma HeldPlaces(s: State, u: nat, r: nat)
    requires Inv(s) && HeldByStopStream(s, u, r)
    ensures r < |s.places| && s.places[r].Claimed? && s.places[r].thread == u
    ensures r !in s.freed && (r !in s.stops <==> BeingStopped(s, u, r))
  {
    hide LifeInv, TableInv, ClaimInv, HeapInv, TakenInv;
    assert Held(s.threads[u])[0].id == r;
  }

  lemma ClaimedIsHeld(s: State, r: nat)
    requires LifeInv(s) && PlaceInv(s) && !s.stopping && r < |s.places| && s.places[r].Claimed?
    ensures HeldByStopStream(s, s.places[r].thread, r)
  {
    hide TableInv, HandsInv;
    assert Holds(s, s.places[r].thread, Entry(s.places[r].handle, r));
  }

  lemma NotLive(s: State, r: nat)
    requires TableInv(s) && s.table == map[] && r < |s.places|
    ensures !s.places[r].Live?
  {
  }

  lemma FreedOrClaimed(s: State, r: nat)
    requires EndInv(s) && r < |s.places| && !s.places[r].Live?
    ensures !s.places[r].Claimed? ==> r in s.freed && r in s.stops
  {
  }

  /** With an empty table and no `StopModule` at work, the unfinished streams are those that a `StopStream` holds. */
  lemma LeftToStopStream(s: State, r: nat)
    requires Inv(s) && !s.started && !s.stopping && r < |s.places|
    ensures r !in s.freed <==> exists u :: HeldByStopStream(s, u, r)
    ensures r !in s.stops <==> exists u :: BeingStopped(s, u, r)
  {
    hide LifeInv, TableInv, HandsInv, ClaimInv, EndInv, HeapInv, TakenInv, HeldByStopStream, BeingStopped;
    TableEmpty(s);
    NotLive(s, r);
    FreedOrClaimed(s, r);
    if s.places[r].Claimed? {
      ClaimedIsHeld(s, r);
      HeldPlaces(s, s.places[r].thread, r);
    }
    forall u: nat | HeldByStopStream(s, u, r) ensures r !in s.freed && (r !in s.stops <==> BeingStopped(s, u, r)) {
      HeldPlaces(s, u, r);
    }
    forall u: nat | BeingStopped(s, u, r) ensures HeldByStopStream(s, u, r) {
      BeingStoppedHolds(s, u, r);
    }
  }

  lemma ReturnLeaves(s: State, t: nat)
    requires Inv(s) && Enabled(s, FinishStop(t))
    ensures !Next(s, FinishStop(t)).started && !Next(s, FinishStop(t)).stopping
  {
    hide PlaceInv, EndInv, HeapInv, TakenInv;
  }

  /**
    A `StopModule` that takes its list at the first step of a run and returns at the last one, while the module is not
    started anew: a registered stream is not stopped exactly if a `StopStream` is still stopping it, and that call was
    already under way when `StopModule` took its list. The same holds of streams that are not freed.
    */
  lemma LeftWhenStopModuleReturns(states: seq<State>, actions: seq<Action>, t: nat, r: nat)
    requires IsRunFrom(states, actions) && |actions| > 1 && Inv(states[0])
    requires actions[0].StopModule? && actions[|actions| - 1] == FinishStop(t)
    requires forall m | 0 < m < |actions| :: !states[m].started
    requires r < |states[|actions|].places|
    ensures r !in states[|actions|].stops <==>
      exists u :: BeingStopped(states[0], u, r) && BeingStopped(states[|actions|], u, r)
    ensures r !in states[|actions|].freed <==>
      exists u :: HeldByStopStream(states[0], u, r) && HeldByStopStream(states[|actions|], u, r)
  {
    hide Enabled, Next, Inv, HeldByStopStream, BeingStopped;
    var k := |actions|;
    InvAlong(states, actions, k);
    InvAlong(states, actions, k - 1);
    RunStep(states, actions, k - 1);
    ReturnLeaves(states[k - 1], t);
    LeftToStopStream(states[k], r);
    forall u | HeldByStopStream(states[k], u, r)
      ensures HeldByStopStream(states[0], u, r) && (BeingStopped(states[k], u, r) ==> BeingStopped(states[0], u, r))
    {
      HeldAllAlong(states, actions, k, u, r);
    }
    forall u | BeingStopped(states[k], u, r) ensures HeldByStopStream(states[k], u, r) {
      BeingStoppedHolds(states[k], u, r);
    }
  }

  lemma BeingStoppedHolds(s: State, u: nat, r: nat)
    requires BeingStopped(s, u, r)
    ensures HeldByStopStream(s, u, r)
  {
  }

  // ---------------------------------------------------------------- it can be left

  lemma Prepended(s: State, a: Action, states: seq<State>, actions: seq<Action>)
    requires IsRunFrom(states, actions) && Enabled(s, a) && states[0] == Next(s, a)
    ensures IsRunFrom([s] + states, [a] + actions)
  {
    hide Enabled, Next;
    forall i | 0 <= i < |actions| + 1
      ensures Enabled(([s] + states)[i], ([a] + actions)[i]) && ([s] + states)[i + 1] == Next(([s] + states)[i], ([a] + actions)[i])
    {
      if i > 0 {
        assert ([s] + states)[i] == states[i - 1] && ([a] + actions)[i] == actions[i - 1];
        assert ([s] + states)[i + 1] == states[i];
        RunStep(states, actions, i - 1);
      }
    }
  }

  /** The thread is in `StopModule`, and the module mutex is free. */
  predicate StoppingModule(s: State, t: nat) {
    t < |s.threads| && InStopModule(s.threads[t]) && !s.started && s.owner.None?
  }

  function StepsLeft(c: Call): nat {
    match c
    case Sweeping(_, remaining, halted) => 4 + 2 * |remaining| - (if halted && remaining != [] then 1 else 0)
    case CleaningUp(_) => 2
    case CleanedUp(_) => 1
    case _ => 0
  }

  function StepOfStopModule(s: State, t: nat): Action
    requires StoppingModule(s, t)
  {
    match s.threads[t]
    case Sweeping(_, remaining, halted) =>
      if remaining == [] then CleanupStarts(t) else if halted then FreeHandle(t) else StreamHalts(t)
    case CleaningUp(_) => CleanupReturns(t)
    case _ => FinishStop(t)
  }

  /** `StopModule` goes on by itself, and moves no other thread. */
  lemma StopModuleGoesOn(s: State, t: nat)
    requires StoppingModule(s, t)
    ensures var a := StepOfStopModule(s, t);
      && Enabled(s, a) && !Next(s, a).started
      && |Next(s, a).threads| == |s.threads|
      && (forall u | 0 <= u < |s.threads| && u != t :: Next(s, a).threads[u] == s.threads[u])
      && (a != FinishStop(t) ==> StoppingModule(Next(s, a), t) && StepsLeft(Next(s, a).threads[t]) < StepsLeft(s.threads[t]))
  {
  }

  /** A `StopModule` that runs alone returns. */
  lemma {:induction false} FinishAlone(s: State, t: nat) returns (states: seq<State>, actions: seq<Action>)
    requires StoppingModule(s, t)
    ensures IsRunFrom(states, actions) && states[0] == s
    ensures actions != [] && actions[|actions| - 1] == FinishStop(t)
    ensures forall m | 0 <= m < |states| :: !states[m].started
    ensures |states[|actions|].threads| == |s.threads|
    ensures forall u | 0 <= u < |s.threads| && u != t :: states[|actions|].threads[u] == s.threads[u]
    decreases StepsLeft(s.threads[t])
  {
    hide Enabled, Next, StepsLeft, StepOfStopModule;
    var a := StepOfStopModule(s, t);
    StopModuleGoesOn(s, t);
    var n := Next(s, a);
    if a == FinishStop(t) {
      states, actions := [s, n], [a];
    } else {
      var later, steps := FinishAlone(n, t);
      Prepended(s, a, later, steps);
      states, actions := [s] + later, [a] + steps;
    }
  }

  lemma TakingTheList(s: State, t: nat, order: seq<Address>)
    requires Inv(s) && s.started && Enabled(s, StopModule(t, order))
    ensures var n := Next(s, StopModule(t, order));
      && StoppingModule(n, t) && |n.threads| == |s.threads|
      && (forall u | 0 <= u < |s.threads| && u != t :: n.threads[u] == s.threads[u])
      && s.threads[t] == Idle
  {
    hide PlaceInv, EndInv, HeapInv, TakenInv;
  }

  /** The run is one `StopModule` from its list to its return, while the module is not started anew. */
  ghost predicate IsStopModule(states: seq<State>, actions: seq<Action>, t: nat, order: seq<Address>) {
    && IsRunFrom(states, actions) && |actions| > 1
    && actions[0] == StopModule(t, order) && actions[|actions| - 1] == FinishStop(t)
    && forall m | 0 < m < |actions| :: !states[m].started
  }

  /** The run is such a `StopModule` from this state, and at its return the stream is not stopped. */
  ghost predicate Misses(s: State, states: seq<State>, actions: seq<Action>, t: nat, order: seq<Address>, r: nat) {
    && IsStopModule(states, actions, t, order) && states[0] == s
    && r < |states[|actions|].places| && r !in states[|actions|].stops
  }

  /**
    A caller can tell before the call: `StopModule` may return while a registered stream is not stopped if and only if
    a `StopStream` is stopping that stream at the time of the call.
    */
  lemma StopModuleMayMiss(s: State, t: nat, order: seq<Address>, r: nat)
    requires Inv(s) && s.started && Enabled(s, StopModule(t, order)) && r < |s.places|
    ensures (exists states, actions :: Misses(s, states, actions, t, order, r)) <==> exists u :: BeingStopped(s, u, r)
  {
    hide Enabled, Next, Inv, BeingStopped, HeldByStopStream, StoppingModule, Init;
    forall states, actions | Misses(s, states, actions, t, order, r)
      ensures exists u :: BeingStopped(s, u, r)
    {
      LeftWhenStopModuleReturns(states, actions, t, r);
    }
    if u :| BeingStopped(s, u, r) {
      var states, actions := ReturnBeside(s, t, order, u, r);
      assert Misses(s, states, actions, t, order, r);
    }
  }

  /** A run in which `StopModule` returns beside a `StopStream` that is still at its stream. */
  lemma ReturnBeside(s: State, t: nat, order: seq<Address>, u: nat, r: nat) returns (states: seq<State>, actions: seq<Action>)
    requires Inv(s) && s.started && Enabled(s, StopModule(t, order)) && r < |s.places| && BeingStopped(s, u, r)
    ensures IsStopModule(states, actions, t, order) && states[0] == s
    ensures BeingStopped(states[|actions|], u, r)
    ensures r < |states[|actions|].places| && r !in states[|actions|].stops
  {
    hide Enabled, Next, Inv, StoppingModule;
    TakingTheList(s, t, order);
    var later, steps := FinishAlone(Next(s, StopModule(t, order)), t);
    Prepended(s, StopModule(t, order), later, steps);
    states, actions := [s] + later, [StopModule(t, order)] + steps;
    assert states[|actions|] == later[|steps|];
    InvAlong(states, actions, |actions|);
    HeldPlaces(states[|actions|], u, r);
  }

  // ---------------------------------------------------------------- a concrete run

  lemma RunsJoined(states: seq<State>, actions: seq<Action>, later: seq<State>, steps: seq<Action>)
    requires IsRun(states, actions) && IsRunFrom(later, steps) && later[0] == states[|actions|]
    ensures IsRun(states + later[1..], actions + steps)
    ensures (states + later[1..])[|actions| + |steps|] == later[|steps|]
  {
    hide Enabled, Next, Init;
    var all, both := states + later[1..], actions + steps;
    forall i | 0 <= i < |both|
      ensures Enabled(all[i], both[i]) && all[i + 1] == Next(all[i], both[i])
    {
      if i < |actions| {
        RunStep(states, actions, i);
      } else {
        RunStep(later, steps, i - |actions|);
        assert all[i] == later[i - |actions|];
      }
    }
  }

  /** Two threads: thread 0 starts the module and a stream, and thread 1 claims the stream. */
  lemma ClaimedRun() returns (states: seq<State>, actions: seq<Action>)
    ensures IsRun(states, actions)
    ensures var s := states[|actions|];
      && s.started && s.owner.None? && s.table == map[] && |s.places| == 1
      && |s.threads| == 2 && s.threads[0] == Idle && s.threads[1] == Stopping(Entry(7, 0), false)
  {
    var s0 := State(false, false, None, map[], {}, [Idle, Idle], [], [], [], []);
    var s1 := Next(s0, StartModule(0));
    var s2 := Next(s1, PreloadReturns(0));
    var s3 := Next(s2, AllocateHandle(0, 7));
    var s4 := Next(s3, Register(0, true));
    var s5 := Next(s4, StopStream(1, 7));
    states := [s0, s1, s2, s3, s4, s5];
    actions := [StartModule(0), PreloadReturns(0), AllocateHandle(0, 7), Register(0, true), StopStream(1, 7)];
  }

  /**
    A run from the start: thread 0 returns from `StopModule` while thread 1 has claimed the only stream and has not yet
    stopped it.
    */
  lemma ReturnsBeforeStreamStops() returns (states: seq<State>, actions: seq<Action>)
    ensures IsRun(states, actions) && actions != [] && actions[|actions| - 1] == FinishStop(0)
    ensures BeingStopped(states[|actions|], 1, 0) && 0 !in states[|actions|].stops
  {
    hide IsRun, Inv, Next;
    states, actions := ClaimedRun();
    RunLength(states, actions);
    ReachableInv(states, actions, |actions|);
    var later, steps := ReturnBeside(states[|actions|], 0, [], 1, 0);
    RunsJoined(states, actions, later, steps);
    states, actions := states + later[1..], actions + steps;
  }

  lemma RunLength(states: seq<State>, actions: seq<Action>)
    requires IsRun(states, actions)
    ensures |states| == |actions| + 1
  {
    hide Enabled, Next, Init;
  }
}
