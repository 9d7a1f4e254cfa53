/** What every step of the module with its streams keeps. */
module SystemInvariants {
  import opened SystemProtocol
  import MI = ModuleInvariants
  import SI = StreamInvariants

  predicate StreamsInv(w: World) {
    |w.streams| == |w.table.places| && forall id | 0 <= id < |w.streams| :: SI.Inv(w.streams[id])
  }

  /** A stream in the table has not been stopped, and one that its stopper came back from is stopped. */
  predicate CoupledInv(w: World) {
    && (forall id | 0 <= id < |w.streams| && id < |w.table.places| && w.table.places[id].Live? ::
          w.streams[id].stop == S.NotStopped)
    && (forall id | id in w.table.stops :: id < |w.streams| && w.streams[id].stop == S.Stopped)
  }

  predicate Inv(w: World) {
    MI.Inv(w.table) && StreamsInv(w) && CoupledInv(w)
  }

  // ---------------------------------------------------------------- one step

  /** How a step of the module changes the number of streams, the live ones and the stopped ones. */
  lemma ModuleChanges(s: M.State, m: M.Action)
    requires M.Enabled(s, m) && MI.Inv(s)
    ensures var n := M.Next(s, m);
      && |s.places| <= |n.places| <= |s.places| + 1
      && (|n.places| > |s.places| ==> m.Register? && m.decoderReady && Accepts(s))
      && (forall id | 0 <= id < |s.places| && n.places[id].Live? :: s.places[id].Live?)
      && (forall id | id in n.stops :: id in s.stops || (m.StreamHalts? && id == M.Held(s.threads[m.t])[0].id))
  {
    hide MI.LifeInv, MI.PlaceInv, MI.EndInv, MI.HeapInv, MI.TakenInv, M.Lists, M.Entries;
  }

  lemma KeptByModule(w: World, m: M.Action)
    requires Inv(w) && Enabled(w, ModuleStep(m))
    ensures Inv(Next(w, ModuleStep(m)))
  {
    hide MI.Inv, SI.Inv, M.Enabled, M.Next;
    MI.InvKept(w.table, m);
    ModuleChanges(w.table, m);
  }

  lemma FreshStream(stream: S.State)
    requires S.Init(stream)
    ensures SI.Inv(stream) && stream.stop == S.NotStopped
  {
    hide SI.Inv;
    SI.InitInv(stream);
  }

  lemma KeptByStart(w: World, t: nat, stream: S.State)
    requires Inv(w) && Enabled(w, StreamStarts(t, stream))
    ensures Inv(Next(w, StreamStarts(t, stream)))
  {
    hide MI.Inv, SI.Inv, M.Enabled, M.Next, S.Init;
    MI.InvKept(w.table, M.Register(t, true));
    ModuleChanges(w.table, M.Register(t, true));
    FreshStream(stream);
  }

  /** Only `CallStop` begins to stop a stream, and a stopped one stays so. */
  lemma StreamChanges(s: S.State, b: S.Action)
    requires SI.Inv(s) && S.Enabled(s, b)
    ensures s.stop == S.NotStopped && !b.CallStop? ==> S.Next(s, b).stop == S.NotStopped
    ensures s.stop == S.Stopped ==> S.Next(s, b).stop == S.Stopped
  {
    hide SI.GateInv, SI.WakeInv, SI.DecoderInv, SI.WorkerInv, SI.JoinInv, S.CopyOutcome, S.AllAwake;
  }

  lemma KeptByStream(w: World, id: nat, b: S.Action)
    requires Inv(w) && Enabled(w, StreamStep(id, b))
    ensures Inv(Next(w, StreamStep(id, b)))
  {
    hide MI.Inv, SI.Inv, S.Enabled, S.Next;
    SI.InvKept(w.streams[id], b);
    StreamChanges(w.streams[id], b);
  }

  /** Every step of the module and of its streams keeps the invariant. */
  lemma InvKept(w: World, a: Action)
    requires Inv(w) && Enabled(w, a)
    ensures Inv(Next(w, a))
  {
    hide *;
    match a {
      case ModuleStep(m) => KeptByModule(w, m);
      case StreamStarts(t, stream) => KeptByStart(w, t, stream);
      case StreamStep(id, b) => KeptByStream(w, id, b);
    }
  }

  // ---------------------------------------------------------------- runs

  lemma InitInv(w: World)
    requires Init(w)
    ensures Inv(w)
  {
    hide M.Init, MI.Inv;
    MI.InitInv(w.table);
    NothingRegistered(w.table);
  }

  lemma NothingRegistered(s: M.State)
    requires M.Init(s)
    ensures s.places == [] && s.stops == []
  {
  }

  lemma RunStep(worlds: seq<World>, actions: seq<Action>, i: nat)
    requires IsRunFrom(worlds, actions) && i < |actions|
    ensures |worlds| == |actions| + 1 && Enabled(worlds[i], actions[i]) && worlds[i + 1] == Next(worlds[i], actions[i])
  {
    hide Enabled, Next;
  }

  lemma {:induction false} InvAlong(worlds: seq<World>, actions: seq<Action>, i: nat)
    requires IsRunFrom(worlds, actions) && i < |worlds| && Inv(worlds[0])
    ensures Inv(worlds[i])
  {
    hide Enabled, Next, Inv;
    if i > 0 {
      InvAlong(worlds, actions, i - 1);
      RunStep(worlds, actions, i - 1);
      InvKept(worlds[i - 1], actions[i - 1]);
    }
  }

  lemma Joined(worlds: seq<World>, actions: seq<Action>, later: seq<World>, steps: seq<Action>)
    requires IsRunFrom(worlds, actions) && IsRunFrom(later, steps) && later[0] == worlds[|actions|]
    ensures |worlds| == |actions| + 1 && |later| == |steps| + 1
    ensures IsRunFrom(worlds + later[1..], actions + steps)
    ensures (worlds + later[1..])[0] == worlds[0] && (worlds + later[1..])[|actions| + |steps|] == later[|steps|]
  {
    hide Enabled, Next;
    var all, both := worlds + later[1..], actions + steps;
    forall i | 0 <= i < |both|
      ensures Enabled(all[i], both[i]) && all[i + 1] == Next(all[i], both[i])
    {
      if i < |actions| {
        RunStep(worlds, actions, i);
      } else {
        RunStep(later, steps, i - |actions|);
        assert all[i] == later[i - |actions|];
      }
    }
  }

  /** The invariant holds in every reachable state of the module with its streams. */
  lemma ReachableInv(worlds: seq<World>, actions: seq<Action>, i: nat)
    requires IsRun(worlds, actions) && i < |worlds|
    ensures Inv(worlds[i])
  {
    hide Enabled, Next, Init, Inv;
    InitInv(worlds[0]);
    InvAlong(worlds, actions, i);
  }
}
