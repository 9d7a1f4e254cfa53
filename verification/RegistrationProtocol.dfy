/**
  The queue of frame notifications of one managed stream (`FrameRegistration` of DriverStationRtc.cs) as a
  transition system. Any number of threads call `Notify`; `Attach`, `Cancel` and the calls of `Drain` interleave with
  them and with each other. Every step is one `lock (sync)` section, or the begin or the end of a user callback.
  */
module RegistrationProtocol {
  /** Where a call of `Drain` is; a new one starts whenever a section decides to drain. */
  datatype Drain =
    | AtSection                  // is about to lock
    | Carrying(result: int)      // has dequeued a result and holds the owner
    | Calling(result: int)       // runs the user's callback
    | Done

  datatype State = State(
    canceled: bool,
    draining: bool,
    attached: bool,
    ownerAlive: bool,
    pending: seq<int>,
    drains: seq<Drain>,
    accepted: seq<int>,
    begun: seq<int>)

  datatype Action =
    | Notify(result: int)
    | Attach
    | Cancel
    | OwnerDies
    | Section(d: nat)
    | Begin(d: nat)
    | Return(d: nat)

  /** A drain between its section and the end of its callback keeps the owner alive. */
  predicate KeepsOwner(d: Drain) {
    d.Carrying? || d.Calling?
  }

  predicate Enabled(s: State, a: Action) {
    match a
    case Notify(_) => true
    case Attach => s.ownerAlive
    case Cancel => true
    case OwnerDies => s.ownerAlive && forall d | 0 <= d < |s.drains| :: !KeepsOwner(s.drains[d])
    case Section(d) => d < |s.drains| && s.drains[d] == AtSection
    case Begin(d) => d < |s.drains| && s.drains[d].Carrying?
    case Return(d) => d < |s.drains| && s.drains[d].Calling?
  }

  function AfterNotify(s: State, result: int): State {
    if s.canceled then s
    else
      var queued := s.(pending := s.pending + [result], accepted := s.accepted + [result]);
      if !s.draining && s.attached then queued.(draining := true, drains := s.drains + [AtSection]) else queued
  }

  function AfterAttach(s: State): State {
    if s.canceled then s
    else if !s.draining && s.pending != [] then
      s.(attached := true, draining := true, drains := s.drains + [AtSection])
    else s.(attached := true)
  }

  function AfterSection(s: State, d: nat): State
    requires d < |s.drains|
  {
    if s.canceled || !s.attached || !s.ownerAlive || s.pending == [] then
      s.(draining := false, drains := s.drains[d := Done])
    else
      s.(pending := s.pending[1..], drains := s.drains[d := Carrying(s.pending[0])])
  }

  function Next(s: State, a: Action): State
    requires Enabled(s, a)
  {
    match a
    case Notify(result) => AfterNotify(s, result)
    case Attach => AfterAttach(s)
    case Cancel => if s.canceled then s else s.(canceled := true, pending := [], attached := false)
    case OwnerDies => s.(ownerAlive := false)
    case Section(d) => AfterSection(s, d)
    case Begin(d) => s.(drains := s.drains[d := Calling(s.drains[d].result)], begun := s.begun + [s.drains[d].result])
    case Return(d) => s.(drains := s.drains[d := AtSection])
  }

  predicate Init(s: State) {
    !s.canceled && !s.draining && !s.attached && s.pending == [] && s.drains == [] && s.accepted == [] && s.begun == []
  }

  ghost predicate IsRunFrom(states: seq<State>, actions: seq<Action>) {
    && |states| == |actions| + 1
    && forall i | 0 <= i < |actions| :: Enabled(states[i], actions[i]) && states[i + 1] == Next(states[i], actions[i])
  }

  ghost predicate IsRun(states: seq<State>, actions: seq<Action>) {
    IsRunFrom(states, actions) && Init(states[0])
  }
}
