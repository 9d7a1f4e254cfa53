/** `StopStream` comes to its end. */
module SystemProgress {
  import opened Wrappers
  import opened SystemProtocol
  import opened SystemInvariants
  import opened SystemSafety
  import Progress = StreamProgress

  /** The thread is in `StopStream` and has not come back from stopping this stream. */
  predicate IsStopping(w: World, t: nat, id: nat) {
    t < |w.table.threads| && w.table.threads[t].Stopping? && !w.table.threads[t].halted && w.table.threads[t].entry.id == id
  }

  /** A thread from which `Stop` of the stream can be called. */
  predicate CanCallStop(s: S.State, c: S.Thread) {
    c < |s.threads| && (s.threads[c].Calling? || (s.threads[c] == S.Outside && s.worker != Some(c)))
  }

  lemma HoldsStream(w: World, t: nat, id: nat)
    requires Inv(w) && IsStopping(w, t, id)
    ensures id < |w.streams| && id < |w.table.places| && w.table.places[id].Claimed?
  {
    hide SI.Inv, MI.LifeInv, MI.TableInv, MI.ClaimInv, MI.EndInv, MI.HeapInv, MI.TakenInv;
    assert M.Held(w.table.threads[t])[0].id == id;
  }

  /** `Stop` is called, and the stream comes to its end; nothing else moves. */
  lemma StreamStops(w: World, t: nat, id: nat, c: S.Thread) returns (worlds: seq<World>, actions: seq<Action>)
    requires Inv(w) && IsStopping(w, t, id) && id < |w.streams|
    requires w.streams[id].gate.stopping || CanCallStop(w.streams[id], c)
    ensures IsRunFrom(worlds, actions) && worlds[0] == w
    ensures worlds[|actions|].table == w.table
    ensures id < |worlds[|actions|].streams| && worlds[|actions|].streams[id].stop == S.Stopped
  {
    hide MI.Inv, SI.Inv, CoupledInv, S.Enabled, S.Next, S.IsRunFrom, Progress.Rank, Enabled, Next, Progress.Spurious;
    var s := w.streams[id];
    if s.gate.stopping {
      var states, steps := Progress.RunToStopped(s);
      SI.RunLength(states, steps);
      Lifted(w, id, states, steps);
      worlds, actions := WorldsOf(w, id, states), StepsOf(id, steps);
    } else {
      var a := StreamStep(id, S.CallStop(c));
      var n := StopIsCalled(w, t, id, c);
      var states, steps := Progress.RunToStopped(n.streams[id]);
      SI.RunLength(states, steps);
      Lifted(n, id, states, steps);
      SingleStep(w, a);
      Joined([w, n], [a], WorldsOf(n, id, states), StepsOf(id, steps));
      worlds, actions := [w, n] + WorldsOf(n, id, states)[1..], [a] + StepsOf(id, steps);
    }
  }

  lemma SingleStep(w: World, a: Action)
    requires Enabled(w, a)
    ensures IsRunFrom([w, Next(w, a)], [a])
  {
    hide Enabled, Next;
  }

  lemma StopIsCalled(w: World, t: nat, id: nat, c: S.Thread) returns (n: World)
    requires Inv(w) && IsStopping(w, t, id) && id < |w.streams|
    requires !w.streams[id].gate.stopping && CanCallStop(w.streams[id], c)
    ensures Enabled(w, StreamStep(id, S.CallStop(c))) && n == Next(w, StreamStep(id, S.CallStop(c)))
    ensures Inv(n) && n.table == w.table && id < |n.streams| && n.streams[id].gate.stopping && SI.Inv(n.streams[id])
  {
    hide MI.Inv, SI.Inv, CoupledInv, S.Enabled, S.Next;
    HoldsStream(w, t, id);
    Progress.AnyoneMayStop(w.streams[id], c);
    n := Next(w, StreamStep(id, S.CallStop(c)));
    InvKept(w, StreamStep(id, S.CallStop(c)));
  }

  /** Once the stream is stopped, the call frees the handle and returns. */
  lemma CallEnds(w: World, t: nat, id: nat) returns (worlds: seq<World>, actions: seq<Action>)
    requires IsStopping(w, t, id) && id < |w.streams| && w.streams[id].stop == S.Stopped
    ensures IsRunFrom(worlds, actions) && worlds[0] == w && |actions| == 2
    ensures t < |worlds[2].table.threads| && worlds[2].table.threads[t] == M.Idle
    ensures id in worlds[2].table.stops && id in worlds[2].table.freed && worlds[2].streams == w.streams
  {
    hide S.Enabled, S.Next;
    var n := Next(w, ModuleStep(M.StreamHalts(t)));
    worlds := [w, n, Next(n, ModuleStep(M.FreeHandle(t)))];
    actions := [ModuleStep(M.StreamHalts(t)), ModuleStep(M.FreeHandle(t))];
  }

  /**
    From every reachable state in which a call of `StopStream` has claimed its stream, a run leads to its return, with the
    stream stopped and the handle freed.
    */
  lemma StopStreamReturns(w: World, t: nat, id: nat, c: S.Thread) returns (worlds: seq<World>, actions: seq<Action>)
    requires Inv(w) && IsStopping(w, t, id) && id < |w.streams|
    requires w.streams[id].gate.stopping || CanCallStop(w.streams[id], c)
    ensures IsRunFrom(worlds, actions) && worlds[0] == w
    ensures var last := worlds[|actions|];
      && t < |last.table.threads| && last.table.threads[t] == M.Idle && id in last.table.stops && id in last.table.freed
      && id < |last.streams| && last.streams[id].stop == S.Stopped
  {
    hide Enabled, Next, Inv, CanCallStop;
    var first, steps := StreamStops(w, t, id, c);
    var later, end := CallEnds(first[|steps|], t, id);
    Joined(first, steps, later, end);
    worlds, actions := first + later[1..], steps + end;
  }
}
