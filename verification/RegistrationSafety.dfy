/** The notification queue loses, duplicates and reorders nothing, and drains on one thread at a time. */
module RegistrationSafety {
  import opened RegistrationProtocol

  /** The result that a drain has dequeued and not yet handed to the callback. */
  function CarriedBy(d: Drain): seq<int> {
    if d.Carrying? then [d.result] else []
  }

  function InFlight(drains: seq<Drain>): seq<int> {
    if drains == [] then [] else InFlight(drains[..|drains| - 1]) + CarriedBy(drains[|drains| - 1])
  }

  /** `draining` is set exactly while one call of `Drain` has not finished, and that is the last one started. */
  predicate DrainerInv(s: State) {
    && (forall d | 0 <= d < |s.drains| - 1 :: s.drains[d] == Done)
    && (s.draining <==> s.drains != [] && s.drains[|s.drains| - 1] != Done)
  }

  predicate QueueInv(s: State) {
    && (s.canceled ==> s.pending == [] && !s.attached && s.begun + InFlight(s.drains) <= s.accepted)
    && (!s.canceled ==> s.accepted == s.begun + InFlight(s.drains) + s.pending)
    && (s.attached && s.ownerAlive && !s.draining ==> s.pending == [])
  }

  predicate Inv(s: State) {
    DrainerInv(s) && QueueInv(s)
  }

  /** Only the last drain can carry a result. */
  lemma {:induction false} OnlyLastCarries(drains: seq<Drain>)
    requires forall d | 0 <= d < |drains| - 1 :: drains[d] == Done
    ensures InFlight(drains) == if drains == [] then [] else CarriedBy(drains[|drains| - 1])
  {
    if |drains| > 1 {
      OnlyLastCarries(drains[..|drains| - 1]);
    }
  }

  lemma DrainerKept(s: State, a: Action)
    requires DrainerInv(s) && Enabled(s, a)
    ensures DrainerInv(Next(s, a))
  {
  }

  lemma FlightByNotify(s: State, result: int)
    requires DrainerInv(s)
    ensures InFlight(AfterNotify(s, result).drains) == InFlight(s.drains)
  {
    OnlyLastCarries(s.drains);
    DrainerKept(s, Notify(result));
    OnlyLastCarries(AfterNotify(s, result).drains);
  }

  lemma QueueByNotify(s: State, result: int)
    requires Inv(s)
    ensures QueueInv(AfterNotify(s, result))
  {
    hide InFlight;
    FlightByNotify(s, result);
    var flight := InFlight(s.drains);
    assert s.begun + flight + (s.pending + [result]) == s.begun + flight + s.pending + [result];
  }

  lemma FlightByAttach(s: State)
    requires DrainerInv(s)
    ensures InFlight(AfterAttach(s).drains) == InFlight(s.drains)
  {
    OnlyLastCarries(s.drains);
    OnlyLastCarries(AfterAttach(s).drains);
  }

  lemma QueueByAttach(s: State)
    requires Inv(s)
    ensures QueueInv(AfterAttach(s))
  {
    hide InFlight;
    FlightByAttach(s);
  }

  lemma QueueByCancel(s: State)
    requires Inv(s)
    ensures QueueInv(Next(s, Cancel))
  {
    hide InFlight;
    var ahead := s.begun + InFlight(s.drains);
    assert ahead <= ahead + s.pending;
  }

  predicate OfDrain(a: Action) {
    a.Section? || a.Begin? || a.Return?
  }

  /** A step of a drain other than its section moves a result from the hands of the drain to the callback. */
  lemma FlightByDrain(s: State, a: Action)
    requires DrainerInv(s) && Enabled(s, a) && OfDrain(a)
    ensures a.d == |s.drains| - 1 && s.draining
    ensures InFlight(s.drains) == CarriedBy(s.drains[a.d])
    ensures InFlight(Next(s, a).drains) == CarriedBy(Next(s, a).drains[a.d])
  {
    DrainerKept(s, a);
    OnlyLastCarries(s.drains);
    OnlyLastCarries(Next(s, a).drains);
  }

  lemma QueueBySection(s: State, d: nat)
    requires Inv(s) && Enabled(s, Section(d))
    ensures QueueInv(Next(s, Section(d)))
  {
    hide InFlight;
    FlightByDrain(s, Section(d));
    if s.pending != [] {
      assert s.begun + [] + s.pending == s.begun + [s.pending[0]] + s.pending[1..];
    }
  }

  lemma QueueByBegin(s: State, d: nat)
    requires Inv(s) && Enabled(s, Begin(d))
    ensures QueueInv(Next(s, Begin(d)))
  {
    hide InFlight;
    FlightByDrain(s, Begin(d));
    var result := s.drains[d].result;
    assert s.begun + [result] + [] == s.begun + [result];
  }

  lemma QueueByReturn(s: State, d: nat)
    requires Inv(s) && Enabled(s, Return(d))
    ensures QueueInv(Next(s, Return(d)))
  {
    hide InFlight;
    FlightByDrain(s, Return(d));
  }

  lemma QueueKept(s: State, a: Action)
    requires Inv(s) && Enabled(s, a)
    ensures QueueInv(Next(s, a))
  {
    hide InFlight, AfterNotify, AfterAttach, AfterSection, DrainerInv;
    match a {
      case Notify(result) => QueueByNotify(s, result);
      case Attach => QueueByAttach(s);
      case Cancel => QueueByCancel(s);
      case OwnerDies =>
      case Section(d) => QueueBySection(s, d);
      case Begin(d) => QueueByBegin(s, d);
      case Return(d) => QueueByReturn(s, d);
    }
  }

  lemma {:induction false} InvAlong(states: seq<State>, actions: seq<Action>, i: nat)
    requires IsRunFrom(states, actions) && Inv(states[0]) && i < |states|
    ensures Inv(states[i])
  {
    hide Enabled, Next;
    if i > 0 {
      InvAlong(states, actions, i - 1);
      DrainerKept(states[i - 1], actions[i - 1]);
      QueueKept(states[i - 1], actions[i - 1]);
      assert states[i - 1 + 1] == Next(states[i - 1], actions[i - 1]);
    }
  }

  lemma ReachableInv(states: seq<State>, actions: seq<Action>, i: nat)
    requires IsRun(states, actions) && i < |states|
    ensures Inv(states[i])
  {
    hide Enabled, Next;
    InvAlong(states, actions, i);
  }

  // ---------------------------------------------------------------- main results

  predicate IsDrainer(s: State, d: nat) {
    d < |s.drains| && s.drains[d] != Done
  }

  /** `draining` holds exactly when some call of `Drain` is unfinished, and there is never more than one. */
  lemma SingleDrainer(states: seq<State>, actions: seq<Action>, i: nat)
    requires IsRun(states, actions) && i < |states|
    ensures states[i].draining <==> exists d :: IsDrainer(states[i], d)
    ensures forall d, e :: IsDrainer(states[i], d) && IsDrainer(states[i], e) ==> d == e
  {
    hide Enabled, Next;
    ReachableInv(states, actions, i);
    var s := states[i];
    if s.draining {
      assert IsDrainer(s, |s.drains| - 1);
    }
  }

  /**
    Callbacks begin in the order in which notifications were accepted, each for a notification of its own. Until
    `Cancel`, what was accepted is what has begun, then what is in flight, then what is pending; with a live attached
    owner and nobody draining, nothing is left over.
    */
  lemma NothingLostOrReordered(states: seq<State>, actions: seq<Action>, i: nat)
    requires IsRun(states, actions) && i < |states|
    ensures var s := states[i];
      && s.begun <= s.accepted
      && (!s.canceled ==> s.accepted == s.begun + InFlight(s.drains) + s.pending)
      && |InFlight(s.drains)| <= 1
      && (!s.canceled && s.attached && s.ownerAlive && !s.draining ==> s.begun == s.accepted)
  {
    hide Enabled, Next;
    ReachableInv(states, actions, i);
    OnlyLastCarries(states[i].drains);
  }

  // ---------------------------------------------------------------- what is accepted, by the calls alone

  /** The results of all calls of `Notify` before the first call of `Cancel`, in order. */
  function NotifiedBeforeCancel(actions: seq<Action>): seq<int> {
    if actions == [] then []
    else
      var before, last := actions[..|actions| - 1], actions[|actions| - 1];
      NotifiedBeforeCancel(before) + if last.Notify? && Cancel !in before then [last.result] else []
  }

  /** What the calls made so far decide about the members. */
  predicate FollowsCalls(s: State, alive: bool, done: seq<Action>) {
    && s.accepted == NotifiedBeforeCancel(done)
    && (s.canceled <==> Cancel in done)
    && (s.attached <==> Cancel !in done && Attach in done)
    && (s.ownerAlive <==> alive && OwnerDies !in done)
  }

  lemma CallFollowed(s: State, alive: bool, done: seq<Action>, a: Action)
    requires Enabled(s, a) && FollowsCalls(s, alive, done)
    ensures FollowsCalls(Next(s, a), alive, done + [a])
  {
    assert (done + [a])[..|done|] == done;
    assert NotifiedBeforeCancel(done) + [] == NotifiedBeforeCancel(done);
  }

  /**
    In every run the accepted notifications are exactly those of the calls of `Notify` before the first `Cancel`, also of
    calls before `Attach`; and the registration is canceled, attached and its owner alive as the calls say.
    */
  lemma {:induction false} AcceptsEveryNotification(states: seq<State>, actions: seq<Action>, i: nat)
    requires IsRun(states, actions) && i < |states|
    ensures i <= |actions| && states[i].accepted == NotifiedBeforeCancel(actions[..i])
    ensures states[i].canceled <==> Cancel in actions[..i]
    ensures states[i].attached <==> Cancel !in actions[..i] && Attach in actions[..i]
    ensures states[i].ownerAlive <==> states[0].ownerAlive && OwnerDies !in actions[..i]
  {
    hide Enabled, Next;
    if i > 0 {
      AcceptsEveryNotification(states, actions, i - 1);
      CallFollowed(states[i - 1], states[0].ownerAlive, actions[..i - 1], actions[i - 1]);
      assert actions[..i] == actions[..i - 1] + [actions[i - 1]];
      assert states[i - 1 + 1] == Next(states[i - 1], actions[i - 1]);
    }
  }

  /** So with a live attached owner that nobody has canceled, once no drain is at work, every call has had its callback. */
  lemma EveryNotificationIsDelivered(states: seq<State>, actions: seq<Action>, i: nat)
    requires IsRun(states, actions) && i < |states| && i <= |actions|
    requires Attach in actions[..i] && Cancel !in actions[..i] && states[0].ownerAlive && OwnerDies !in actions[..i]
    requires forall d :: !IsDrainer(states[i], d)
    ensures states[i].begun == NotifiedBeforeCancel(actions[..i])
  {
    hide Enabled, Next, NotifiedBeforeCancel;
    AcceptsEveryNotification(states, actions, i);
    SingleDrainer(states, actions, i);
    NothingLostOrReordered(states, actions, i);
  }

  predicate OwnerKept(s: State) {
    forall d | 0 <= d < |s.drains| && KeepsOwner(s.drains[d]) :: s.ownerAlive
  }

  /** A callback is only called for an owner that is alive, and the owner lives until it returns. */
  lemma {:induction false} CallbackHasOwner(states: seq<State>, actions: seq<Action>, i: nat)
    requires IsRun(states, actions) && i < |states|
    ensures OwnerKept(states[i])
  {
    hide Enabled, Next;
    if i > 0 {
      CallbackHasOwner(states, actions, i - 1);
      OwnerKeptBy(states[i - 1], actions[i - 1]);
      assert states[i - 1 + 1] == Next(states[i - 1], actions[i - 1]);
    }
  }

  lemma OwnerKeptBy(s: State, a: Action)
    requires OwnerKept(s) && Enabled(s, a)
    ensures OwnerKept(Next(s, a))
  {
  }

  // ---------------------------------------------------------------- after Cancel

  lemma CanceledStep(s: State, a: Action)
    requires Inv(s) && Enabled(s, a) && s.canceled
    ensures Next(s, a).canceled && Next(s, a).accepted == s.accepted && Next(s, a).pending == []
    ensures Next(s, a).begun + InFlight(Next(s, a).drains) == s.begun + InFlight(s.drains)
    ensures s.begun <= Next(s, a).begun
  {
    DrainerKept(s, a);
    OnlyLastCarries(s.drains);
    OnlyLastCarries(Next(s, a).drains);
  }

  /**
    After `Cancel` at most one more callback begins, the one for the result that a drain had already dequeued, and no
    later `Notify` or `Attach` revives the delivery.
    */
  lemma {:induction false} AtMostOneCallbackAfterCancel(states: seq<State>, actions: seq<Action>, i: nat, j: nat)
    requires IsRun(states, actions) && i <= j < |states| && states[i].canceled
    ensures states[j].canceled && states[j].accepted == states[i].accepted
    ensures states[j].begun + InFlight(states[j].drains) == states[i].begun + InFlight(states[i].drains)
    ensures states[i].begun <= states[j].begun <= states[i].begun + InFlight(states[i].drains)
    ensures |states[j].begun| <= |states[i].begun| + 1
  {
    hide Enabled, Next, QueueInv;
    ReachableInv(states, actions, i);
    OnlyLastCarries(states[i].drains);
    if i < j {
      AtMostOneCallbackAfterCancel(states, actions, i, j - 1);
      ReachableInv(states, actions, j - 1);
      CanceledStep(states[j - 1], actions[j - 1]);
      assert states[j - 1 + 1] == Next(states[j - 1], actions[j - 1]);
    }
  }

  // ---------------------------------------------------------------- progress

  function DrainRank(d: Drain): nat {
    match d
    case Done => 0
    case AtSection => 1
    case Calling(_) => 2
    case Carrying(_) => 3
  }

  function DrainRanks(drains: seq<Drain>): nat {
    if drains == [] then 0 else DrainRanks(drains[..|drains| - 1]) + DrainRank(drains[|drains| - 1])
  }

  /** How many steps the drains still take if nothing more is accepted. */
  function Rank(s: State): nat {
    3 * |s.pending| + DrainRanks(s.drains)
  }

  lemma {:induction false} RanksUpdated(drains: seq<Drain>, d: nat, p: Drain)
    requires d < |drains|
    ensures DrainRanks(drains[d := p]) == DrainRanks(drains) - DrainRank(drains[d]) + DrainRank(p)
  {
    var n := |drains| - 1;
    if d == n {
      assert drains[d := p][..n] == drains[..n];
    } else {
      RanksUpdated(drains[..n], d, p);
      assert drains[d := p][..n] == drains[..n][d := p];
    }
  }

  /** Every step of a drain lowers the rank, and a drain that is not done has a step. */
  lemma DrainsGoOn(s: State, a: Action)
    requires Enabled(s, a) && OfDrain(a)
    ensures Rank(Next(s, a)) < Rank(s)
  {
    hide DrainRanks;
    RanksUpdated(s.drains, a.d, Next(s, a).drains[a.d]);
  }

  function StepOf(s: State, d: nat): Action
    requires d < |s.drains|
  {
    match s.drains[d]
    case Carrying(_) => Begin(d)
    case Calling(_) => Return(d)
    case _ => Section(d)
  }

  /**
    If callbacks return and nothing else happens, the drain comes to its end within as many steps as the rank, and
    then every accepted notification has reached a live attached owner.
    */
  lemma {:induction false} DrainFinishes(states: seq<State>, actions: seq<Action>)
    requires IsRunFrom(states, actions) && Inv(states[0])
    requires forall a | a in actions :: OfDrain(a)
    ensures |actions| + Rank(states[|actions|]) <= Rank(states[0])
    ensures var s := states[|actions|];
      if s.draining then s.drains != [] && Enabled(s, StepOf(s, |s.drains| - 1)) && OfDrain(StepOf(s, |s.drains| - 1))
      else !s.canceled && s.attached && s.ownerAlive ==> s.begun == s.accepted
    decreases |actions|
  {
    hide Next, Rank;
    InvAlong(states, actions, |actions|);
    OnlyLastCarries(states[|actions|].drains);
    if actions != [] {
      var n := |actions| - 1;
      DrainFinishes(states[..n + 1], actions[..n]);
      assert actions[n] in actions;
      DrainsGoOn(states[n], actions[n]);
      assert states[..n + 1][n] == states[n];
    }
  }
}
