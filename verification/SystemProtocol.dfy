/**
  The module and its streams together: the module functions with the table of handles, and every registered stream with
  its threads. Their steps interleave; `StopStream` and `StopModule` come back from stopping a stream when its `Stop`
  has returned, and nobody but a caller that has claimed a stream calls its `Stop`.
  */
module SystemProtocol {
  import M = ModuleProtocol
  import S = StreamProtocol

  /** Stream `id` is the one that the module registered as number `id`. */
  datatype World = World(table: M.State, streams: seq<S.State>)

  datatype Action =
    | ModuleStep(m: M.Action)
    | StreamStarts(t: nat, stream: S.State)
    | StreamStep(id: nat, b: S.Action)

  /** `Stop` of the stream that thread `t` is stopping has returned. */
  predicate StopReturned(w: World, t: nat) {
    && t < |w.table.threads| && M.Held(w.table.threads[t]) != []
    && M.Held(w.table.threads[t])[0].id < |w.streams|
    && w.streams[M.Held(w.table.threads[t])[0].id].stop == S.Stopped
  }

  predicate Accepts(s: M.State) {
    s.started && !s.stopping
  }

  predicate Enabled(w: World, a: Action) {
    match a
    case ModuleStep(m) =>
      && M.Enabled(w.table, m)
      && (m.StreamHalts? ==> StopReturned(w, m.t))
      && !(m.Register? && m.decoderReady && Accepts(w.table))
    case StreamStarts(t, stream) =>
      M.Enabled(w.table, M.Register(t, true)) && Accepts(w.table) && S.Init(stream) && stream.worker.Some?
    case StreamStep(id, b) =>
      && id < |w.streams| && S.Enabled(w.streams[id], b)
      && (b.CallStop? ==> id < |w.table.places| && w.table.places[id].Claimed?)
  }

  function Next(w: World, a: Action): World
    requires Enabled(w, a)
  {
    match a
    case ModuleStep(m) => w.(table := M.Next(w.table, m))
    case StreamStarts(t, stream) =>
      var table := M.Next(w.table, M.Register(t, true));
      World(table, if |table.places| > |w.table.places| then w.streams + [stream] else w.streams)
    case StreamStep(id, b) => w.(streams := w.streams[id := S.Next(w.streams[id], b)])
  }

  ghost predicate IsRunFrom(worlds: seq<World>, actions: seq<Action>) {
    && |worlds| == |actions| + 1
    && forall i | 0 <= i < |actions| :: Enabled(worlds[i], actions[i]) && worlds[i + 1] == Next(worlds[i], actions[i])
  }

  predicate Init(w: World) {
    M.Init(w.table) && w.streams == []
  }

  ghost predicate IsRun(worlds: seq<World>, actions: seq<Action>) {
    IsRunFrom(worlds, actions) && Init(worlds[0])
  }
}
