/** The promise that no callback comes after `StopStream` or `StopModule` has returned, and where it ends. */
module SystemSafety {
  import opened Wrappers
  import opened SystemProtocol
  import opened SystemInvariants
  import MR = ModuleReturns
  import C = StreamCallbacks
  import Safety = StreamSafety

  // ---------------------------------------------------------------- streams that begin nothing any more

  /** The stream is being stopped, and nobody is admitted to its callback. */
  predicate Silent(w: World, id: nat) {
    id < |w.streams| && w.streams[id].gate.stopping && !C.SomeoneAdmitted(w.streams[id])
  }

  lemma SilentStep(w: World, a: Action, id: nat)
    requires Inv(w) && Enabled(w, a) && Silent(w, id)
    ensures Silent(Next(w, a), id) && Next(w, a).streams[id].log.begun == w.streams[id].log.begun
  {
    hide M.Enabled, M.Next, S.Enabled, S.Next, S.Init, MI.Inv, SI.Inv, C.SomeoneAdmitted, StopReturned;
    if a.StreamStep? && a.id == id {
      C.NobodyNewAdmitted(w.streams[id], a.b);
    }
  }

  lemma {:induction false} SilentAlong(worlds: seq<World>, actions: seq<Action>, i: nat, id: nat)
    requires IsRunFrom(worlds, actions) && i < |worlds| && Inv(worlds[0]) && Silent(worlds[0], id)
    ensures Silent(worlds[i], id) && worlds[i].streams[id].log.begun == worlds[0].streams[id].log.begun
  {
    hide Enabled, Next, Inv;
    if i > 0 {
      SilentAlong(worlds, actions, i - 1, id);
      InvAlong(worlds, actions, i - 1);
      RunStep(worlds, actions, i - 1);
      SilentStep(worlds[i - 1], actions[i - 1], id);
    }
  }

  /** A stream that its stopper came back from begins nothing, and runs no callback but one on the stopping thread. */
  lemma StoppedIsSilent(w: World, id: nat)
    requires Inv(w) && id in w.table.stops
    ensures Silent(w, id)
    ensures var s := w.streams[id]; forall t | 0 <= t < |s.threads| && s.threads[t].Calling? :: s.stopper == Some(t)
  {
    hide MI.Inv, SI.Inv;
    C.CancelledAdmitsNobody(w.streams[id]);
    Safety.OnlyStopperCalls(w.streams[id]);
  }

  lemma HaltedIsStopped(s: M.State, t: nat)
    requires MI.Inv(s) && M.Enabled(s, M.FreeHandle(t))
    ensures t < |s.threads| && M.Held(s.threads[t]) != [] && M.Held(s.threads[t])[0].id in s.stops
  {
    hide MI.LifeInv, MI.TableInv, MI.ClaimInv, MI.HeapInv, MI.TakenInv;
    var e := M.Held(s.threads[t])[0];
    assert s.places[e.id] == M.Claimed(e.handle, t);
    assert MI.HasHalted(s.threads[t], e.id);
  }

  /**
    Before `StopStream` returns, or `StopModule` goes on to its next stream, the handle is freed; from then on no callback
    of the stream begins, and none is in progress but one on the thread that stopped it.
    */
  lemma NoCallbackAfterStopStream(worlds: seq<World>, actions: seq<Action>, i: nat, j: nat, t: nat)
    requires IsRun(worlds, actions) && i <= j < |worlds| && i < |actions| && actions[i] == ModuleStep(M.FreeHandle(t))
    ensures t < |worlds[i].table.threads| && M.Held(worlds[i].table.threads[t]) != []
    ensures var id := M.Held(worlds[i].table.threads[t])[0].id;
      && id < |worlds[i].streams| <= |worlds[j].streams|
      && worlds[j].streams[id].log.begun == worlds[i].streams[id].log.begun
      && var s := worlds[j].streams[id];
      forall u | 0 <= u < |s.threads| && s.threads[u].Calling? :: s.stopper == Some(u)
    decreases j
  {
    hide Next, Init, MI.Inv, SI.Inv, M.Enabled, S.Enabled;
    ReachableInv(worlds, actions, i);
    RunStep(worlds, actions, i);
    HaltedIsStopped(worlds[i].table, t);
    var id := M.Held(worlds[i].table.threads[t])[0].id;
    ReachableInv(worlds, actions, j);
    StoppedFor(worlds, actions, i, j, id);
    StoppedIsSilent(worlds[j], id);
  }

  /** What has been stopped stays stopped and silent. */
  lemma {:induction false} StoppedFor(worlds: seq<World>, actions: seq<Action>, i: nat, j: nat, id: nat)
    requires IsRun(worlds, actions) && i <= j < |worlds| && id in worlds[i].table.stops
    ensures id in worlds[j].table.stops && id < |worlds[i].streams| <= |worlds[j].streams|
    ensures worlds[j].streams[id].log.begun == worlds[i].streams[id].log.begun
    decreases j
  {
    hide Enabled, Next, Init, MI.Inv, StreamsInv;
    ReachableInv(worlds, actions, i);
    if i < j {
      StoppedFor(worlds, actions, i, j - 1, id);
      ReachableInv(worlds, actions, j - 1);
      RunStep(worlds, actions, j - 1);
      StoppedIsSilent(worlds[j - 1], id);
      SilentStep(worlds[j - 1], actions[j - 1], id);
      StopsGrow(worlds[j - 1], actions[j - 1]);
    }
  }

  lemma StopsGrow(w: World, a: Action)
    requires Enabled(w, a)
    ensures forall id | id in w.table.stops :: id in Next(w, a).table.stops
    ensures |w.streams| <= |Next(w, a).streams|
  {
    hide S.Enabled, S.Next, S.Init, M.Lists, M.Entries, StopReturned;
  }

  // ---------------------------------------------------------------- the return of StopModule

  /** One `StopModule` among the steps of a run, from its list to its return, while the module is not started anew. */
  ghost predicate IsStopModule(worlds: seq<World>, actions: seq<Action>, t: nat) {
    && IsRunFrom(worlds, actions) && |actions| > 1 && Inv(worlds[0])
    && actions[0].ModuleStep? && actions[0].m.StopModule?
    && actions[|actions| - 1] == ModuleStep(M.FinishStop(t))
    && forall i | 0 < i < |actions| :: !worlds[i].table.started
  }

  lemma HeldBefore(w: World, a: Action, u: nat, r: nat)
    requires Enabled(w, a) && (w.table.table == map[] || (a.ModuleStep? && a.m.StopModule?))
    requires MR.HeldByStopStream(Next(w, a).table, u, r)
    ensures MR.HeldByStopStream(w.table, u, r)
    ensures MR.BeingStopped(Next(w, a).table, u, r) ==> MR.BeingStopped(w.table, u, r)
  {
    hide M.Enabled, M.Next, S.Enabled, S.Next, S.Init, StopReturned, MR.HeldByStopStream, MR.BeingStopped;
    match a {
      case ModuleStep(m) => MR.HeldBefore(w.table, m, u, r);
      case StreamStarts(t, _) => MR.HeldBefore(w.table, M.Register(t, true), u, r);
      case StreamStep(_, _) =>
    }
  }

  lemma {:induction false} BeingStoppedAllAlong(worlds: seq<World>, actions: seq<Action>, k: nat, u: nat, r: nat)
    requires IsRunFrom(worlds, actions) && 0 < k < |worlds| && Inv(worlds[0])
    requires actions[0].ModuleStep? && actions[0].m.StopModule?
    requires forall i | 0 < i < k :: !worlds[i].table.started
    requires MR.BeingStopped(worlds[k].table, u, r)
    ensures MR.BeingStopped(worlds[0].table, u, r)
    decreases k
  {
    hide Enabled, Next, StreamsInv, CoupledInv, MI.Inv, MR.HeldByStopStream, MR.BeingStopped;
    RunStep(worlds, actions, k - 1);
    if k > 1 {
      InvAlong(worlds, actions, k - 1);
      MR.TableEmpty(worlds[k - 1].table);
    }
    MR.BeingStoppedHolds(worlds[k].table, u, r);
    HeldBefore(worlds[k - 1], actions[k - 1], u, r);
    if k > 1 {
      BeingStoppedAllAlong(worlds, actions, k - 1, u, r);
    }
  }

  /** When `StopModule` returns, a stream that is not stopped was already being stopped when it took its list. */
  lemma LeftWhenStopModuleReturns(worlds: seq<World>, actions: seq<Action>, t: nat, id: nat)
    requires IsStopModule(worlds, actions, t) && id < |worlds[|actions|].streams|
    ensures Inv(worlds[|actions|])
    ensures var w := worlds[|actions|];
      id !in w.table.stops <==> exists u :: MR.BeingStopped(worlds[0].table, u, id) && MR.BeingStopped(w.table, u, id)
  {
    hide Enabled, Next, CoupledInv, MI.Inv, SI.Inv, MR.HeldByStopStream, MR.BeingStopped;
    var k := |actions|;
    InvAlong(worlds, actions, k - 1);
    InvAlong(worlds, actions, k);
    RunStep(worlds, actions, k - 1);
    Returned(worlds[k - 1], t);
    MR.LeftToStopStream(worlds[k].table, id);
    forall u | MR.BeingStopped(worlds[k].table, u, id) ensures MR.BeingStopped(worlds[0].table, u, id) {
      BeingStoppedAllAlong(worlds, actions, k, u, id);
    }
  }

  lemma Returned(w: World, t: nat)
    requires Inv(w) && Enabled(w, ModuleStep(M.FinishStop(t)))
    ensures var n := Next(w, ModuleStep(M.FinishStop(t))); !n.table.started && !n.table.stopping
  {
    hide M.Enabled, M.Next, MI.Inv, StreamsInv, CoupledInv;
    MR.ReturnLeaves(w.table, t);
  }

  /** The run goes from this state to one in which a further callback of the stream has begun. */
  ghost predicate Begins(w: World, worlds: seq<World>, actions: seq<Action>, id: nat) {
    && IsRunFrom(worlds, actions) && worlds[0] == w
    && id < |w.streams| && id < |worlds[|actions|].streams|
    && worlds[|actions|].streams[id].log.begun != w.streams[id].log.begun
  }

  /**
    The header promises that no callback comes after `StopModule` has returned. Exactly when it is broken: a callback of
    a stream can still begin if and only if a `StopStream` is stopping that stream, and was already when `StopModule` took
    its list, and it has not yet set the stopping flag, or a thread had been admitted to the callback before it did.
    */
  lemma CallbackAfterStopModule(worlds: seq<World>, actions: seq<Action>, t: nat, id: nat, deliverer: S.Thread)
    requires IsStopModule(worlds, actions, t) && id < |worlds[|actions|].streams|
    requires C.LibraryThread(worlds[|actions|].streams[id], deliverer)
    ensures var w := worlds[|actions|];
      (exists later, steps :: Begins(w, later, steps, id)) <==>
        && (exists u :: MR.BeingStopped(worlds[0].table, u, id) && MR.BeingStopped(w.table, u, id))
        && (!w.streams[id].gate.stopping || C.SomeoneAdmitted(w.streams[id]))
  {
    hide Enabled, Next, Inv, C.SomeoneAdmitted, C.LibraryThread, MR.BeingStopped;
    var w := worlds[|actions|];
    LeftWhenStopModuleReturns(worlds, actions, t, id);
    if id in w.table.stops {
      StoppedIsSilent(w, id);
    }
    forall later, steps | Begins(w, later, steps, id)
      ensures !w.streams[id].gate.stopping || C.SomeoneAdmitted(w.streams[id])
    {
      if w.streams[id].gate.stopping && !C.SomeoneAdmitted(w.streams[id]) {
        SilentAlong(later, steps, |steps|, id);
      }
    }
    if !w.streams[id].gate.stopping || C.SomeoneAdmitted(w.streams[id]) {
      var later, steps := RunToCallback(w, id, deliverer);
      assert Begins(w, later, steps, id);
    }
  }

  /** The steps of one stream, as steps of the whole. */
  function StepsOf(id: nat, actions: seq<S.Action>): (r: seq<Action>)
    ensures |r| == |actions| && forall i | 0 <= i < |r| :: r[i] == StreamStep(id, actions[i])
  {
    seq(|actions|, i requires 0 <= i < |actions| => StreamStep(id, actions[i]))
  }

  function WorldsOf(w: World, id: nat, states: seq<S.State>): (r: seq<World>)
    requires id < |w.streams|
    ensures |r| == |states| && forall i | 0 <= i < |r| :: r[i] == w.(streams := w.streams[id := states[i]])
  {
    seq(|states|, i requires 0 <= i < |states| => w.(streams := w.streams[id := states[i]]))
  }

  /** A run of one stream in which nobody calls `Stop` is a run of the whole. */
  lemma Lifted(w: World, id: nat, states: seq<S.State>, actions: seq<S.Action>)
    requires id < |w.streams| && S.IsRunFrom(states, actions) && states[0] == w.streams[id] && C.NobodyCallsStop(actions)
    ensures IsRunFrom(WorldsOf(w, id, states), StepsOf(id, actions)) && WorldsOf(w, id, states)[0] == w
  {
    hide S.Enabled, S.Next, M.Enabled, M.Next;
    var worlds, steps := WorldsOf(w, id, states), StepsOf(id, actions);
    SI.RunLength(states, actions);
    forall i | 0 <= i < |steps|
      ensures Enabled(worlds[i], steps[i]) && worlds[i + 1] == Next(worlds[i], steps[i])
    {
      SI.RunStep(states, actions, i);
      assert actions[i] in actions;
    }
    assert w.streams[id := states[0]] == w.streams;
  }

  lemma RunToCallback(w: World, id: nat, deliverer: S.Thread) returns (worlds: seq<World>, actions: seq<Action>)
    requires Inv(w) && id < |w.streams| && C.LibraryThread(w.streams[id], deliverer)
    requires !w.streams[id].gate.stopping || C.SomeoneAdmitted(w.streams[id])
    ensures Begins(w, worlds, actions, id)
  {
    hide Enabled, Next, MI.Inv, SI.Inv, CoupledInv, C.SomeoneAdmitted, C.LibraryThread, S.IsRunFrom, C.NobodyCallsStop;
    var states, steps;
    if !w.streams[id].gate.stopping {
      states, steps := C.RunToCallback(w.streams[id], deliverer);
    } else {
      states, steps := C.AdmittedBegins(w.streams[id]);
      SI.RunLength(states, steps);
    }
    Lifted(w, id, states, steps);
    worlds, actions := WorldsOf(w, id, states), StepsOf(id, steps);
  }
}
