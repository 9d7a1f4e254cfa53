/**
  The module lifecycle and the table of stream handles (driver_station_rtc.cpp): `StartModule`, `StopModule`,
  `StartStream`, `StopStream` and `FindStream`, called by any number of threads. Every step is one critical section
  of `g_module_mutex`, or one call that the source makes outside of it.
  */
module ModuleProtocol {
  import opened Wrappers

  /** Addresses of handles; the allocator may give an address out again once it is free. */
  type Address = nat

  /** Streams are numbered in the order of their registration. */
  datatype Entry = Entry(handle: Address, id: nat)

  /** Calls into the WebRTC library that must not overlap. */
  datatype LibraryCall = PreloadBegins | PreloadEnds | CleanupBegins | CleanupEnds

  /** Where a thread is in a module function. */
  datatype Call =
    | Idle
    | Preloading                                                         // StartModule, holds the module mutex
    | Preparing(handle: Address)                                         // StartStream, has allocated its handle
    | Stopping(entry: Entry, halted: bool)                               // StopStream, has claimed its stream
    | Sweeping(taken: seq<Entry>, remaining: seq<Entry>, halted: bool)   // StopModule, stops what it took
    | CleaningUp(taken: seq<Entry>)                                      // StopModule, inside rtcCleanup
    | CleanedUp(taken: seq<Entry>)                                       // StopModule, before its last section

  /** Where a registered stream is; a history variable that no step depends on. */
  datatype Place = Live(handle: Address) | Claimed(handle: Address, thread: nat) | Freed

  datatype State = State(
    started: bool,
    stopping: bool,
    owner: Option<nat>,
    table: map<Address, nat>,
    heap: set<Address>,
    threads: seq<Call>,
    calls: seq<LibraryCall>,
    stops: seq<nat>,
    freed: seq<nat>,
    places: seq<Place>)

  datatype Action =
    | StartModule(t: nat)
    | PreloadReturns(t: nat)
    | StopModule(t: nat, order: seq<Address>)
    | AllocateHandle(t: nat, handle: Address)
    | Register(t: nat, decoderReady: bool)
    | StopStream(t: nat, handle: Address)
    | StreamHalts(t: nat)
    | FreeHandle(t: nat)
    | CleanupStarts(t: nat)
    | CleanupReturns(t: nat)
    | FinishStop(t: nat)

  predicate Distinct<T(==)>(ns: seq<T>) {
    forall i, j | 0 <= i < j < |ns| :: ns[i] != ns[j]
  }

  /** The iteration over the table visits every handle once, in some order. */
  predicate Lists(order: seq<Address>, table: map<Address, nat>) {
    Distinct(order) && (forall a | a in order :: a in table) && (forall a | a in table :: a in order)
  }

  function Entries(order: seq<Address>, table: map<Address, nat>): (r: seq<Entry>)
    requires forall a | a in order :: a in table
    ensures |r| == |order|
    ensures forall i | 0 <= i < |r| :: r[i] == Entry(order[i], table[order[i]])
  {
    seq(|order|, i requires 0 <= i < |order| => Entry(order[i], table[order[i]]))
  }

  /** The module mutex is free. */
  predicate Unlocked(s: State) {
    s.owner.None?
  }

  predicate Enabled(s: State, a: Action) {
    && a.t < |s.threads|
    && match a
       case StartModule(t) => Unlocked(s) && s.threads[t] == Idle
       case PreloadReturns(t) => s.threads[t] == Preloading
       case StopModule(t, order) => Unlocked(s) && s.threads[t] == Idle && Lists(order, s.table)
       case AllocateHandle(t, handle) => s.threads[t] == Idle && handle !in s.heap
       case Register(t, _) => Unlocked(s) && s.threads[t].Preparing?
       case StopStream(t, _) => Unlocked(s) && s.threads[t] == Idle
       case StreamHalts(t) =>
         (s.threads[t].Stopping? || (s.threads[t].Sweeping? && s.threads[t].remaining != [])) && !s.threads[t].halted
       case FreeHandle(t) =>
         (s.threads[t].Stopping? || (s.threads[t].Sweeping? && s.threads[t].remaining != [])) && s.threads[t].halted
       case CleanupStarts(t) => s.threads[t].Sweeping? && s.threads[t].remaining == []
       case CleanupReturns(t) => s.threads[t].CleaningUp?
       case FinishStop(t) => Unlocked(s) && s.threads[t].CleanedUp?
  }

  /** The streams that a thread has claimed and not yet freed. */
  function Held(c: Call): seq<Entry> {
    match c
    case Stopping(entry, _) => [entry]
    case Sweeping(_, remaining, _) => remaining
    case _ => []
  }

  function AfterStopModule(s: State, t: nat, order: seq<Address>): State
    requires t < |s.threads| && Lists(order, s.table)
  {
    if !s.started then s
    else
      var taken := Entries(order, s.table);
      s.(started := false, stopping := true, table := map[],
         threads := s.threads[t := Sweeping(taken, taken, false)],
         places := seq(|s.places|, r requires 0 <= r < |s.places| =>
           match s.places[r] case Live(handle) => Claimed(handle, t) case other => other))
  }

  function AfterRegister(s: State, t: nat, decoderReady: bool): State
    requires t < |s.threads| && s.threads[t].Preparing?
  {
    var handle := s.threads[t].handle;
    var done := s.(threads := s.threads[t := Idle]);
    if !s.started || s.stopping || !decoderReady then done.(heap := s.heap - {handle})
    else if handle in s.table then done
    else done.(table := s.table[handle := |s.places|], places := s.places + [Live(handle)])
  }

  function AfterStopStream(s: State, t: nat, handle: Address): State
    requires t < |s.threads|
  {
    if handle !in s.table then s
    else
      var id := s.table[handle];
      s.(table := s.table - {handle}, threads := s.threads[t := Stopping(Entry(handle, id), false)],
         places := if id < |s.places| then s.places[id := Claimed(handle, t)] else s.places)
  }

  function AfterHalt(s: State, t: nat): State
    requires t < |s.threads| && Held(s.threads[t]) != []
  {
    var id := Held(s.threads[t])[0].id;
    s.(threads := s.threads[t := s.threads[t].(halted := true)], stops := s.stops + [id])
  }

  function AfterFree(s: State, t: nat): State
    requires t < |s.threads| && Held(s.threads[t]) != []
  {
    var entry := Held(s.threads[t])[0];
    var call := if s.threads[t].Stopping? then Idle
                else s.threads[t].(remaining := s.threads[t].remaining[1..], halted := false);
    s.(threads := s.threads[t := call], heap := s.heap - {entry.handle}, freed := s.freed + [entry.id],
       places := if entry.id < |s.places| then s.places[entry.id := Freed] else s.places)
  }

  function Next(s: State, a: Action): State
    requires Enabled(s, a)
  {
    match a
    case StartModule(t) =>
      if s.started || s.stopping then s
      else s.(owner := Some(t), threads := s.threads[t := Preloading], calls := s.calls + [PreloadBegins])
    case PreloadReturns(t) =>
      s.(owner := None, started := true, threads := s.threads[t := Idle], calls := s.calls + [PreloadEnds])
    case StopModule(t, order) => AfterStopModule(s, t, order)
    case AllocateHandle(t, handle) => s.(heap := s.heap + {handle}, threads := s.threads[t := Preparing(handle)])
    case Register(t, decoderReady) => AfterRegister(s, t, decoderReady)
    case StopStream(t, handle) => AfterStopStream(s, t, handle)
    case StreamHalts(t) => AfterHalt(s, t)
    case FreeHandle(t) => AfterFree(s, t)
    case CleanupStarts(t) =>
      s.(threads := s.threads[t := CleaningUp(s.threads[t].taken)], calls := s.calls + [CleanupBegins])
    case CleanupReturns(t) =>
      s.(threads := s.threads[t := CleanedUp(s.threads[t].taken)], calls := s.calls + [CleanupEnds])
    case FinishStop(t) => s.(stopping := false, threads := s.threads[t := Idle])
  }

  predicate Init(s: State) {
    && !s.started && !s.stopping && s.owner.None? && s.table == map[] && s.heap == {}
    && (forall t | 0 <= t < |s.threads| :: s.threads[t] == Idle)
    && s.calls == [] && s.stops == [] && s.freed == [] && s.places == []
  }

  /** The states of a run: each one follows from the one before by an enabled action. */
  ghost predicate IsRunFrom(states: seq<State>, actions: seq<Action>) {
    && |states| == |actions| + 1
    && forall i | 0 <= i < |actions| :: Enabled(states[i], actions[i]) && states[i + 1] == Next(states[i], actions[i])
  }

  ghost predicate IsRun(states: seq<State>, actions: seq<Action>) {
    IsRunFrom(states, actions) && Init(states[0])
  }
}
