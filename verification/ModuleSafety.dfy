/** What holds in every run of the module functions, whichever threads call them. */
module ModuleSafety {
  import opened ModuleProtocol
  import opened ModuleInvariants

  /**
    A module that is stopping is not started, a module that is not started has no streams in its table, and at most
    one `StopModule` is past its first section.
    */
  lemma Lifecycle(states: seq<State>, actions: seq<Action>, i: nat)
    requires IsRun(states, actions) && i < |states|
    ensures var s := states[i];
      && (s.stopping ==> !s.started)
      && (!s.started ==> s.table == map[])
      && (forall t, u | 0 <= t < |s.threads| && 0 <= u < |s.threads| && InStopModule(s.threads[t]) && InStopModule(s.threads[u]) ::
            t == u)
  {
    hide Enabled, Next, Init, PlaceInv, EndInv, HeapInv, TakenInv;
    ReachableInv(states, actions, i);
  }

  /** The calls of `rtcPreload` and `rtcCleanup` strictly alternate, and none begins before the one before it returned. */
  lemma PreloadAndCleanupAlternate(states: seq<State>, actions: seq<Action>, i: nat)
    requires IsRun(states, actions) && i < |states|
    ensures Alternates(states[i].calls)
  {
    hide Enabled, Next, Init, PlaceInv, EndInv, HeapInv, TakenInv;
    ReachableInv(states, actions, i);
  }

  predicate InTable(s: State, r: nat) {
    exists h | h in s.table :: s.table[h] == r
  }

  predicate InHandsOf(s: State, t: nat, r: nat)
    requires t < |s.threads|
  {
    exists e | e in Held(s.threads[t]) :: e.id == r
  }

  /**
    Every registered stream is in the table, in the hands of exactly one stopper, or freed, and only one of these;
    it is stopped at most once and freed at most once, and freed only after it has been stopped.
    */
  lemma OneStopperForEachStream(states: seq<State>, actions: seq<Action>, i: nat, r: nat)
    requires IsRun(states, actions) && i < |states| && r < |states[i].places|
    ensures var s := states[i];
      && (InTable(s, r) || r in s.freed || exists t: nat | t < |s.threads| :: InHandsOf(s, t, r))
      && !(InTable(s, r) && r in s.freed)
      && (forall t: nat | t < |s.threads| && InHandsOf(s, t, r) :: !InTable(s, r) && r !in s.freed)
      && (forall t: nat, u: nat | t < |s.threads| && u < |s.threads| && InHandsOf(s, t, r) && InHandsOf(s, u, r) :: t == u)
      && Distinct(s.stops) && Distinct(s.freed)
      && (r in s.freed ==> r in s.stops) && (InTable(s, r) ==> r !in s.stops)
  {
    hide Enabled, Next, Init, LifeInv, HeapInv, TakenInv;
    ReachableInv(states, actions, i);
    Placed(states[i], r);
    if states[i].places[r].Claimed? {
      assert InHandsOf(states[i], states[i].places[r].thread, r);
    }
  }

  /** The place of a stream says where it is. */
  lemma Placed(s: State, r: nat)
    requires PlaceInv(s) && FreedInv(s) && r < |s.places|
    ensures InTable(s, r) <==> s.places[r].Live?
    ensures r in s.freed <==> s.places[r] == Freed
    ensures forall t: nat | t < |s.threads| :: InHandsOf(s, t, r) <==> s.places[r].Claimed? && s.places[r].thread == t
    ensures s.places[r].Claimed? ==> s.places[r].thread < |s.threads|
  {
    if s.places[r].Live? {
      assert s.places[r].handle in s.table;
    }
    forall t: nat | t < |s.threads| ensures InHandsOf(s, t, r) <==> s.places[r].Claimed? && s.places[r].thread == t {
      if e :| e in Held(s.threads[t]) && e.id == r {
        var k :| 0 <= k < |Held(s.threads[t])| && Held(s.threads[t])[k] == e;
      }
      if s.places[r].Claimed? && s.places[r].thread == t {
        assert Holds(s, t, Entry(s.places[r].handle, r));
      }
    }
  }

  /**
    `FindStream` is a function of the handle that never confuses streams: handles of different registered streams are
    different, whether live or about to be freed, though the allocator gives addresses out again.
    */
  lemma HandlesDiffer(states: seq<State>, actions: seq<Action>, i: nat, t: nat, e: Entry, h: Address)
    requires IsRun(states, actions) && i < |states|
    requires t < |states[i].threads| && e in Held(states[i].threads[t]) && h in states[i].table
    ensures h != e.handle && states[i].table[h] != e.id && h in states[i].heap && e.handle in states[i].heap
  {
    hide IsRun, LifeInv, TableInv, HandsInv, ClaimInv, EndInv, HeapInv, TakenInv, Held;
    ReachableInv(states, actions, i);
    HeldDiffers(states[i], t, e, h);
  }

  lemma HeldPlace(s: State, t: nat, e: Entry)
    requires HandsInv(s) && t < |s.threads| && e in Held(s.threads[t])
    ensures e.id < |s.places| && s.places[e.id] == Claimed(e.handle, t)
  {
    hide Held;
    var k :| 0 <= k < |Held(s.threads[t])| && Held(s.threads[t])[k] == e;
  }

  lemma HeldDiffers(s: State, t: nat, e: Entry, h: Address)
    requires TableInv(s) && HandsInv(s) && HeapInv(s)
    requires t < |s.threads| && e in Held(s.threads[t]) && h in s.table
    ensures h != e.handle && s.table[h] != e.id && h in s.heap && e.handle in s.heap
  {
    hide Held, HandsInv;
    HeldPlace(s, t, e);
  }

  /** A new handle is never in the table already, so registering it always adds an entry. */
  lemma RegisteringAdds(states: seq<State>, actions: seq<Action>, i: nat, t: nat)
    requires IsRun(states, actions) && i < |actions| && actions[i] == Register(t, true) && states[i].started
    ensures t < |states[i].threads| && states[i].threads[t].Preparing?
    ensures var h := states[i].threads[t].handle;
      h !in states[i].table && states[i + 1].table == states[i].table[h := |states[i].places|]
  {
    hide Init, EndInv, TakenInv;
    ReachableInv(states, actions, i);
    RunStep(states, actions, i);
    forall h | h in states[i].table ensures h != states[i].threads[t].handle {
      assert states[i].places[states[i].table[h]] == Live(h);
    }
  }

  /** Before `StopModule` cleans up, it has stopped and freed every stream that it took from the table. */
  lemma CleanupAfterAllTaken(states: seq<State>, actions: seq<Action>, i: nat, t: nat, e: Entry)
    requires IsRun(states, actions) && i < |states| && t < |states[i].threads|
    requires states[i].threads[t].CleaningUp? || states[i].threads[t].CleanedUp?
    requires e in states[i].threads[t].taken
    ensures e.id in states[i].stops && e.id in states[i].freed
  {
    hide Enabled, Next, Init, LifeInv, HeapInv;
    ReachableInv(states, actions, i);
    assert e.id in states[i].freed;
  }

  /**
    When `StopModule` cleans up, a stream that is not freed is exactly one that another thread has claimed by
    `StopStream` and has not yet freed; `StopModule` does not wait for those.
    */
  lemma LeftAtCleanup(states: seq<State>, actions: seq<Action>, i: nat, t: nat, r: nat)
    requires IsRun(states, actions) && i < |states| && t < |states[i].threads| && r < |states[i].places|
    requires states[i].threads[t].CleaningUp?
    ensures r !in states[i].freed <==>
      exists u: nat | u < |states[i].threads| :: states[i].threads[u].Stopping? && states[i].threads[u].entry.id == r
  {
    hide Enabled, Next, Init, EndInv, HeapInv, TakenInv;
    ReachableInv(states, actions, i);
    var s := states[i];
    NothingLive(s, t);
    FreedOnes(s);
    Placed(s, r);
    if s.places[r].Claimed? {
      var u := s.places[r].thread;
      assert InHandsOf(s, u, r);
      assert InStopModule(s.threads[t]);
      assert s.threads[u].Stopping?;
    }
    if u: nat :| u < |s.threads| && s.threads[u].Stopping? && s.threads[u].entry.id == r {
      assert s.threads[u].entry in Held(s.threads[u]);
      assert InHandsOf(s, u, r);
    }
  }

  lemma NothingLive(s: State, t: nat)
    requires LifeInv(s) && t < |s.threads| && InStopModule(s.threads[t])
    ensures s.table == map[]
  {
  }

  lemma FreedOnes(s: State)
    requires EndInv(s)
    ensures FreedInv(s)
  {
  }

  // ---------------------------------------------------------------- what a call does

  /** While nobody holds the module mutex, every function can be called from every idle thread, in every state. */
  lemma CallsAreOpen(s: State, t: nat, order: seq<Address>, h: Address, decoderReady: bool)
    requires Unlocked(s) && t < |s.threads|
    ensures s.threads[t] == Idle ==> Enabled(s, StartModule(t)) && Enabled(s, StopStream(t, h))
    ensures s.threads[t] == Idle && Lists(order, s.table) ==> Enabled(s, StopModule(t, order))
    ensures s.threads[t] == Idle && h !in s.heap ==> Enabled(s, AllocateHandle(t, h))
    ensures s.threads[t].Preparing? ==> Enabled(s, Register(t, decoderReady))
  {
  }

  /** The module starts exactly from the stopped state, and is started once preloading has returned. */
  lemma StartModuleStarts(s: State, t: nat)
    requires Enabled(s, StartModule(t))
    ensures var n := Next(s, StartModule(t));
      && (!s.started && !s.stopping ==>
            && n.threads[t] == Preloading && Enabled(n, PreloadReturns(t))
            && Next(n, PreloadReturns(t)).started && Next(n, PreloadReturns(t)).threads[t] == Idle)
      && (s.started || s.stopping ==> n == s)
  {
  }

  /** A registered handle is claimed by the thread that asks for it, and any other handle leaves everything as it is. */
  lemma StopStreamClaims(s: State, t: nat, h: Address)
    requires Enabled(s, StopStream(t, h))
    ensures var n := Next(s, StopStream(t, h));
      && (h in s.table ==>
            n.threads[t] == Stopping(Entry(h, s.table[h]), false) && h !in n.table
            && forall k | k in s.table && k != h :: k in n.table && n.table[k] == s.table[k])
      && (h !in s.table ==> n == s)
  {
  }

  /** `StopModule` claims every stream of the table for its thread, unless the module is not started. */
  lemma StopModuleClaims(s: State, t: nat, order: seq<Address>)
    requires Enabled(s, StopModule(t, order))
    ensures var n := Next(s, StopModule(t, order));
      && (s.started ==>
            && !n.started && n.stopping && n.table == map[]
            && (forall h | h in s.table :: Entry(h, s.table[h]) in Held(n.threads[t]))
            && |Held(n.threads[t])| == |order|)
      && (!s.started ==> n == s)
  {
    if s.started {
      var taken := Entries(order, s.table);
      forall h | h in s.table ensures Entry(h, s.table[h]) in taken {
        var i :| 0 <= i < |order| && order[i] == h;
        assert taken[i] == Entry(h, s.table[h]);
      }
    }
  }

  /** A stream is refused, and its handle freed, exactly without a started module or without a decoder. */
  lemma RegisterRefuses(s: State, t: nat, decoderReady: bool)
    requires Enabled(s, Register(t, decoderReady)) && (!s.started || s.stopping || !decoderReady)
    ensures var n := Next(s, Register(t, decoderReady));
      n.table == s.table && n.places == s.places && n.threads[t] == Idle && n.heap == s.heap - {s.threads[t].handle}
  {
  }

  // ---------------------------------------------------------------- no handle leaks

  /** The handle is being prepared, or names a stream that is to be stopped and freed. */
  predicate UsedBy(c: Call, h: Address) {
    c == Preparing(h) || exists e | e in Held(c) :: e.handle == h
  }

  predicate InUse(s: State, h: Address) {
    h in s.table || exists t | 0 <= t < |s.threads| :: UsedBy(s.threads[t], h)
  }

  /** Allocated is exactly what is in use. */
  lemma LeakKept(s: State, a: Action)
    requires Enabled(s, a) && (forall h | h in s.heap :: InUse(s, h))
    ensures forall h | h in Next(s, a).heap :: InUse(Next(s, a), h)
  {
    hide InUse, Next, UsedBy;
    forall h | h in Next(s, a).heap
      ensures InUse(Next(s, a), h)
    {
      if !(a.AllocateHandle? && h == a.handle) {
        OldHandle(s, a, h);
        UseKept(s, a, h);
      } else {
        NewHandle(s, a);
      }
    }
  }

  lemma OldHandle(s: State, a: Action, h: Address)
    requires Enabled(s, a) && h in Next(s, a).heap && !(a.AllocateHandle? && h == a.handle)
    ensures h in s.heap
  {
  }

  lemma NewHandle(s: State, a: Action)
    requires Enabled(s, a) && a.AllocateHandle?
    ensures InUse(Next(s, a), a.handle)
  {
    assert UsedBy(Next(s, a).threads[a.t], a.handle);
  }

  lemma UseKept(s: State, a: Action, h: Address)
    requires Enabled(s, a) && InUse(s, h) && h in Next(s, a).heap
    ensures InUse(Next(s, a), h)
  {
    hide InUse, Next, UsedBy;
    if h in s.table {
      TableHandleKept(s, a, h);
    } else {
      var t := SomeUser(s, h);
      if t == a.t {
        OwnHandleKept(s, a, h);
      } else {
        OtherHandleKept(s, a, t, h);
      }
    }
  }

  lemma SomeUser(s: State, h: Address) returns (t: nat)
    requires InUse(s, h) && h !in s.table
    ensures t < |s.threads| && UsedBy(s.threads[t], h)
  {
    t :| t < |s.threads| && UsedBy(s.threads[t], h);
  }

  lemma TableHandleKept(s: State, a: Action, h: Address)
    requires Enabled(s, a) && h in s.table
    ensures InUse(Next(s, a), h)
  {
    var n := Next(s, a);
    match a {
      case StopModule(t, order) =>
        StopModuleClaims(s, t, order);
        if s.started {
          assert Entry(h, s.table[h]) in Held(n.threads[t]);
          assert UsedBy(n.threads[t], h);
        }
      case StopStream(t, handle) =>
        if h == handle {
          assert Entry(h, s.table[h]) in Held(n.threads[t]);
          assert UsedBy(n.threads[t], h);
        }
      case _ =>
    }
  }

  lemma OtherHandleKept(s: State, a: Action, t: nat, h: Address)
    requires Enabled(s, a) && t < |s.threads| && t != a.t && UsedBy(s.threads[t], h)
    ensures InUse(Next(s, a), h)
  {
    assert t < |Next(s, a).threads| && Next(s, a).threads[t] == s.threads[t];
  }

  lemma OwnHandleKept(s: State, a: Action, h: Address)
    requires Enabled(s, a) && UsedBy(s.threads[a.t], h) && h in Next(s, a).heap
    ensures InUse(Next(s, a), h)
  {
    var n := Next(s, a);
    if s.threads[a.t] == Preparing(h) {
      assert a.Register?;
    } else {
      var e :| e in Held(s.threads[a.t]) && e.handle == h;
      if a.StreamHalts? {
        assert e in Held(n.threads[a.t]);
      } else {
        assert a.FreeHandle?;
        assert e in Held(n.threads[a.t]);
      }
      assert UsedBy(n.threads[a.t], h);
    }
  }

  /** In every run, each handle that is still allocated is in the table, in the hands of a stopper, or being prepared. */
  lemma NoHandleLeaks(states: seq<State>, actions: seq<Action>, i: nat, h: Address)
    requires IsRun(states, actions) && i < |states| && h in states[i].heap
    ensures h in states[i].table || exists t | 0 <= t < |states[i].threads| :: UsedBy(states[i].threads[t], h)
  {
    hide Enabled, Next, InUse, UsedBy;
    NoLeakAlong(states, actions, i);
    InUseMeans(states[i], h);
  }

  lemma InUseMeans(s: State, h: Address)
    requires InUse(s, h)
    ensures h in s.table || exists t | 0 <= t < |s.threads| :: UsedBy(s.threads[t], h)
  {
  }

  lemma {:induction false} NoLeakAlong(states: seq<State>, actions: seq<Action>, i: nat)
    requires IsRun(states, actions) && i < |states|
    ensures forall h | h in states[i].heap :: InUse(states[i], h)
  {
    hide Enabled, Next, InUse;
    if i > 0 {
      NoLeakAlong(states, actions, i - 1);
      RunStep(states, actions, i - 1);
      LeakKept(states[i - 1], actions[i - 1]);
    }
  }
}
