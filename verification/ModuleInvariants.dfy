/** What every step of the module functions keeps. */
module ModuleInvariants {
  import opened Wrappers
  import opened ModuleProtocol

  // ---------------------------------------------------------------- the lifecycle

  function Expected(i: nat): LibraryCall {
    if i % 4 == 0 then PreloadBegins else if i % 4 == 1 then PreloadEnds else if i % 4 == 2 then CleanupBegins else CleanupEnds
  }

  /** Preload and cleanup strictly alternate, and none begins before the one before it has ended. */
  predicate Alternates(calls: seq<LibraryCall>) {
    forall i | 0 <= i < |calls| :: calls[i] == Expected(i)
  }

  predicate InStopModule(c: Call) {
    c.Sweeping? || c.CleaningUp? || c.CleanedUp?
  }

  /** Where in the cycle of library calls a thread can be; `calls` counts them all. */
  predicate Fits(c: Call, t: nat, owner: Option<nat>, started: bool, stopping: bool, calls: nat) {
    match c
    case Preloading => owner == Some(t) && !started && !stopping && calls % 4 == 1
    case Sweeping(_, _, _) => stopping && calls % 4 == 2
    case CleaningUp(_) => stopping && calls % 4 == 3
    case CleanedUp(_) => stopping && calls % 4 == 0
    case _ => true
  }

  predicate LifeInv(s: State) {
    && Alternates(s.calls)
    && (forall t | 0 <= t < |s.threads| ::
          Fits(s.threads[t], t, s.owner, s.started, s.stopping, |s.calls|))
    && (forall t, u | 0 <= t < |s.threads| && 0 <= u < |s.threads| && InStopModule(s.threads[t]) && InStopModule(s.threads[u]) ::
          t == u)
    && (s.owner.Some? ==> s.owner.value < |s.threads| && s.threads[s.owner.value] == Preloading)
    && (s.started ==> !s.stopping && s.owner.None? && |s.calls| % 4 == 2)
    && (!s.started && !s.stopping && s.owner.None? ==> |s.calls| % 4 == 0)
    && (!s.started ==> s.table == map[])
  }

  lemma LifeKept(s: State, a: Action)
    requires LifeInv(s) && Enabled(s, a)
    ensures LifeInv(Next(s, a))
  {
    hide AfterStopModule, AfterRegister, AfterStopStream, AfterHalt, AfterFree;
    match a {
      case StartModule(_) => LifeByStart(s, a);
      case PreloadReturns(_) => LifeByStart(s, a);
      case StopModule(t, order) => LifeByStopModule(s, t, order);
      case Register(t, decoderReady) => LifeByRegister(s, t, decoderReady);
      case StopStream(t, handle) => LifeByStopStream(s, t, handle);
      case StreamHalts(t) => LifeByHalt(s, t);
      case FreeHandle(t) => LifeByFree(s, t);
      case _ =>
    }
  }

  lemma LifeByStart(s: State, a: Action)
    requires LifeInv(s) && Enabled(s, a) && (a.StartModule? || a.PreloadReturns?)
    ensures LifeInv(Next(s, a))
  {
    hide AfterStopModule, AfterRegister, AfterStopStream, AfterHalt, AfterFree;
  }

  lemma LifeByStopModule(s: State, t: nat, order: seq<Address>)
    requires LifeInv(s) && Enabled(s, StopModule(t, order))
    ensures LifeInv(AfterStopModule(s, t, order))
  {
  }

  lemma LifeByRegister(s: State, t: nat, decoderReady: bool)
    requires LifeInv(s) && t < |s.threads| && s.threads[t].Preparing?
    ensures LifeInv(AfterRegister(s, t, decoderReady))
  {
  }

  lemma LifeByStopStream(s: State, t: nat, handle: Address)
    requires LifeInv(s) && t < |s.threads| && s.threads[t] == Idle
    ensures LifeInv(AfterStopStream(s, t, handle))
  {
  }

  lemma LifeByHalt(s: State, t: nat)
    requires LifeInv(s) && t < |s.threads| && Held(s.threads[t]) != []
    ensures LifeInv(AfterHalt(s, t))
  {
  }

  lemma LifeByFree(s: State, t: nat)
    requires LifeInv(s) && t < |s.threads| && Held(s.threads[t]) != []
    ensures LifeInv(AfterFree(s, t))
  {
  }

  // ---------------------------------------------------------------- where the registered streams are

  predicate Holds(s: State, t: nat, e: Entry) {
    t < |s.threads| && e in Held(s.threads[t])
  }

  /** The first stream that the thread holds has been stopped and is about to be freed. */
  predicate HasHalted(c: Call, id: nat) {
    Held(c) != [] && Held(c)[0].id == id && (if c.Stopping? then c.halted else c.Sweeping? && c.halted)
  }

  /** The table and the places name the same live streams. */
  predicate TableInv(s: State) {
    && (forall h | h in s.table :: s.table[h] < |s.places| && s.places[s.table[h]] == Live(h))
    && (forall r | 0 <= r < |s.places| && s.places[r].Live? :: s.places[r].handle in s.table && s.table[s.places[r].handle] == r)
  }

  /** A stream in the hands of a thread is claimed by it, and is there once. */
  predicate HandsInv(s: State) {
    && (forall t, i | 0 <= t < |s.threads| && 0 <= i < |Held(s.threads[t])| ::
          var e := Held(s.threads[t])[i]; e.id < |s.places| && s.places[e.id] == Claimed(e.handle, t))
    && (forall t | 0 <= t < |s.threads| :: Distinct(Held(s.threads[t])))
  }

  /** A claimed stream is in the hands of the thread that claimed it. */
  predicate ClaimInv(s: State) {
    forall r | 0 <= r < |s.places| && s.places[r].Claimed? :: Holds(s, s.places[r].thread, Entry(s.places[r].handle, r))
  }

  /** Where the registered streams are. */
  predicate PlaceInv(s: State) {
    TableInv(s) && HandsInv(s) && ClaimInv(s)
  }

  /** The streams that are freed are the ones that have been freed, each once. */
  predicate FreedInv(s: State) {
    && Distinct(s.freed)
    && (forall r | r in s.freed :: r < |s.places|)
    && (forall r | 0 <= r < |s.places| :: r in s.freed <==> s.places[r] == Freed)
  }

  predicate Ended(place: Place, threads: seq<Call>, id: nat) {
    place == Freed || (place.Claimed? && place.thread < |threads| && HasHalted(threads[place.thread], id))
  }

  /** A stream that has been stopped was stopped once, and is freed, or about to be freed by the thread that stopped it. */
  predicate StopsInv(s: State) {
    && Distinct(s.stops)
    && (forall r | r in s.stops :: r < |s.places|)
    && (forall r | 0 <= r < |s.places| :: r in s.stops <==> Ended(s.places[r], s.threads, r))
  }

  predicate EndInv(s: State) {
    FreedInv(s) && StopsInv(s)
  }

  /** Handles in use are allocated and have different addresses. */
  predicate HeapInv(s: State) {
    && (forall r | 0 <= r < |s.places| && s.places[r] != Freed :: s.places[r].handle in s.heap)
    && (forall r, q | 0 <= r < q < |s.places| && s.places[r] != Freed && s.places[q] != Freed ::
          s.places[r].handle != s.places[q].handle)
    && (forall t | 0 <= t < |s.threads| && s.threads[t].Preparing? :: s.threads[t].handle in s.heap)
    && (forall t, u | 0 <= t < u < |s.threads| && s.threads[t].Preparing? && s.threads[u].Preparing? ::
          s.threads[t].handle != s.threads[u].handle)
    && (forall t, r | 0 <= t < |s.threads| && s.threads[t].Preparing? && 0 <= r < |s.places| && s.places[r] != Freed ::
          s.threads[t].handle != s.places[r].handle)
  }

  /** What StopModule took is still in its hands or freed. */
  predicate TakenInv(s: State) {
    forall t | 0 <= t < |s.threads| && InStopModule(s.threads[t]) ::
      forall e | e in s.threads[t].taken :: e in Held(s.threads[t]) || e.id in s.freed
  }

  predicate Inv(s: State) {
    LifeInv(s) && PlaceInv(s) && EndInv(s) && HeapInv(s) && TakenInv(s)
  }

  // ---------------------------------------------------------------- steps that touch no stream

  /** No stream is registered, claimed, stopped or freed. */
  predicate LeavesStreams(s: State, n: State) {
    && n.table == s.table && n.places == s.places && n.stops == s.stops && n.freed == s.freed
    && |n.threads| == |s.threads|
    && (forall t | 0 <= t < |s.threads| :: Held(n.threads[t]) == Held(s.threads[t]))
    && (forall t | 0 <= t < |s.threads| :: n.threads[t] == s.threads[t] || Held(s.threads[t]) == [])
  }

  predicate TouchesStreams(a: Action) {
    a.StopModule? || a.Register? || a.StopStream? || a.StreamHalts? || a.FreeHandle?
  }

  lemma OthersLeaveStreams(s: State, a: Action)
    requires Enabled(s, a) && !TouchesStreams(a)
    ensures LeavesStreams(s, Next(s, a))
  {
  }

  lemma LeavingKeepsPlaces(s: State, n: State)
    requires PlaceInv(s) && LeavesStreams(s, n)
    ensures PlaceInv(n)
  {
  }

  lemma LeavingKeepsEnds(s: State, n: State)
    requires EndInv(s) && LeavesStreams(s, n)
    ensures EndInv(n)
  {
  }

  lemma OthersKeepHeap(s: State, a: Action)
    requires HeapInv(s) && Enabled(s, a) && !TouchesStreams(a)
    ensures HeapInv(Next(s, a))
  {
  }

  lemma OthersKeepTaken(s: State, a: Action)
    requires TakenInv(s) && Enabled(s, a) && !TouchesStreams(a)
    ensures TakenInv(Next(s, a))
  {
  }

  // ---------------------------------------------------------------- StopModule

  lemma TableByStopModule(s: State, t: nat, order: seq<Address>)
    requires PlaceInv(s) && Enabled(s, StopModule(t, order))
    ensures TableInv(AfterStopModule(s, t, order))
  {
  }

  lemma HandsByStopModule(s: State, t: nat, order: seq<Address>)
    requires PlaceInv(s) && Enabled(s, StopModule(t, order))
    ensures HandsInv(AfterStopModule(s, t, order))
  {
    hide ClaimInv;
    var n := AfterStopModule(s, t, order);
    if s.started {
      var taken := Entries(order, s.table);
      forall i | 0 <= i < |taken|
        ensures taken[i].id < |n.places| && n.places[taken[i].id] == Claimed(taken[i].handle, t)
      {
        assert order[i] in s.table;
      }
      assert Distinct(taken);
      assert forall u | 0 <= u < |s.threads| && u != t :: Held(n.threads[u]) == Held(s.threads[u]);
    }
  }

  lemma ClaimsByStopModule(s: State, t: nat, order: seq<Address>)
    requires PlaceInv(s) && Enabled(s, StopModule(t, order))
    ensures ClaimInv(AfterStopModule(s, t, order))
  {
  }

  lemma PlacesByStopModule(s: State, t: nat, order: seq<Address>)
    requires PlaceInv(s) && Enabled(s, StopModule(t, order))
    ensures PlaceInv(AfterStopModule(s, t, order))
  {
    hide TableInv, HandsInv, ClaimInv;
    TableByStopModule(s, t, order);
    HandsByStopModule(s, t, order);
    ClaimsByStopModule(s, t, order);
  }

  lemma EndsByStopModule(s: State, t: nat, order: seq<Address>)
    requires PlaceInv(s) && EndInv(s) && Enabled(s, StopModule(t, order))
    ensures EndInv(AfterStopModule(s, t, order))
  {
  }

  lemma HeapByStopModule(s: State, t: nat, order: seq<Address>)
    requires HeapInv(s) && Enabled(s, StopModule(t, order))
    ensures HeapInv(AfterStopModule(s, t, order))
  {
  }

  lemma TakenByStopModule(s: State, t: nat, order: seq<Address>)
    requires TakenInv(s) && Enabled(s, StopModule(t, order))
    ensures TakenInv(AfterStopModule(s, t, order))
  {
  }

  // ---------------------------------------------------------------- StartStream

  lemma TableByRegister(s: State, t: nat, decoderReady: bool)
    requires PlaceInv(s) && t < |s.threads| && s.threads[t].Preparing?
    ensures TableInv(AfterRegister(s, t, decoderReady))
  {
  }

  lemma HandsByRegister(s: State, t: nat, decoderReady: bool)
    requires PlaceInv(s) && t < |s.threads| && s.threads[t].Preparing?
    ensures HandsInv(AfterRegister(s, t, decoderReady))
  {
  }

  lemma ClaimsByRegister(s: State, t: nat, decoderReady: bool)
    requires PlaceInv(s) && t < |s.threads| && s.threads[t].Preparing?
    ensures ClaimInv(AfterRegister(s, t, decoderReady))
  {
  }

  lemma PlacesByRegister(s: State, t: nat, decoderReady: bool)
    requires PlaceInv(s) && t < |s.threads| && s.threads[t].Preparing?
    ensures PlaceInv(AfterRegister(s, t, decoderReady))
  {
    hide TableInv, HandsInv, ClaimInv;
    TableByRegister(s, t, decoderReady);
    HandsByRegister(s, t, decoderReady);
    ClaimsByRegister(s, t, decoderReady);
  }

  lemma EndsByRegister(s: State, t: nat, decoderReady: bool)
    requires PlaceInv(s) && EndInv(s) && t < |s.threads| && s.threads[t].Preparing?
    ensures EndInv(AfterRegister(s, t, decoderReady))
  {
  }

  lemma HeapByRegister(s: State, t: nat, decoderReady: bool)
    requires PlaceInv(s) && HeapInv(s) && t < |s.threads| && s.threads[t].Preparing?
    ensures HeapInv(AfterRegister(s, t, decoderReady))
  {
  }

  lemma TakenByRegister(s: State, t: nat, decoderReady: bool)
    requires TakenInv(s) && t < |s.threads| && s.threads[t].Preparing?
    ensures TakenInv(AfterRegister(s, t, decoderReady))
  {
  }

  // ---------------------------------------------------------------- StopStream

  lemma TableByStopStream(s: State, t: nat, handle: Address)
    requires PlaceInv(s) && t < |s.threads| && s.threads[t] == Idle
    ensures TableInv(AfterStopStream(s, t, handle))
  {
  }

  lemma HandsByStopStream(s: State, t: nat, handle: Address)
    requires PlaceInv(s) && t < |s.threads| && s.threads[t] == Idle
    ensures HandsInv(AfterStopStream(s, t, handle))
  {
  }

  lemma ClaimsByStopStream(s: State, t: nat, handle: Address)
    requires PlaceInv(s) && t < |s.threads| && s.threads[t] == Idle
    ensures ClaimInv(AfterStopStream(s, t, handle))
  {
  }

  lemma PlacesByStopStream(s: State, t: nat, handle: Address)
    requires PlaceInv(s) && t < |s.threads| && s.threads[t] == Idle
    ensures PlaceInv(AfterStopStream(s, t, handle))
  {
    hide TableInv, HandsInv, ClaimInv;
    TableByStopStream(s, t, handle);
    HandsByStopStream(s, t, handle);
    ClaimsByStopStream(s, t, handle);
  }

  lemma EndsByStopStream(s: State, t: nat, handle: Address)
    requires PlaceInv(s) && EndInv(s) && t < |s.threads| && s.threads[t] == Idle
    ensures EndInv(AfterStopStream(s, t, handle))
  {
  }

  lemma HeapByStopStream(s: State, t: nat, handle: Address)
    requires PlaceInv(s) && HeapInv(s) && t < |s.threads| && s.threads[t] == Idle
    ensures HeapInv(AfterStopStream(s, t, handle))
  {
  }

  lemma TakenByStopStream(s: State, t: nat, handle: Address)
    requires TakenInv(s) && t < |s.threads| && s.threads[t] == Idle
    ensures TakenInv(AfterStopStream(s, t, handle))
  {
  }

  // ---------------------------------------------------------------- stopping and freeing a claimed stream

  /** Halting leaves every stream in the hands that it is in. */
  lemma HaltLeavesHands(s: State, t: nat)
    requires t < |s.threads| && Held(s.threads[t]) != []
    ensures var n := AfterHalt(s, t);
      && n.table == s.table && n.places == s.places && |n.threads| == |s.threads|
      && forall u | 0 <= u < |s.threads| :: Held(n.threads[u]) == Held(s.threads[u])
  {
  }

  lemma PlacesByHalt(s: State, t: nat)
    requires PlaceInv(s) && t < |s.threads| && Held(s.threads[t]) != []
    ensures PlaceInv(AfterHalt(s, t))
  {
    hide AfterHalt, Held;
    HaltLeavesHands(s, t);
  }

  lemma HaltingMarks(s: State, t: nat)
    requires PlaceInv(s) && StopsInv(s) && Enabled(s, StreamHalts(t))
    ensures var id := Held(s.threads[t])[0].id;
      && id < |s.places| && s.places[id] == Claimed(Held(s.threads[t])[0].handle, t)
      && id !in s.stops
      && (forall r :: !HasHalted(s.threads[t], r))
      && (forall r :: HasHalted(AfterHalt(s, t).threads[t], r) <==> r == id)
  {
    hide TableInv, ClaimInv;
    var id := Held(s.threads[t])[0].id;
    assert s.places[id] == Claimed(Held(s.threads[t])[0].handle, t);
    assert !HasHalted(s.threads[t], id);
    assert Held(s.threads[t].(halted := true)) == Held(s.threads[t]);
  }

  lemma EndsByHalt(s: State, t: nat)
    requires PlaceInv(s) && EndInv(s) && Enabled(s, StreamHalts(t))
    ensures EndInv(AfterHalt(s, t))
  {
    hide PlaceInv, HasHalted;
    HaltingMarks(s, t);
    var id := Held(s.threads[t])[0].id;
    assert forall r :: r in s.stops + [id] <==> r in s.stops || r == id;
  }

  lemma HeapByHalt(s: State, t: nat)
    requires HeapInv(s) && t < |s.threads| && Held(s.threads[t]) != []
    ensures HeapInv(AfterHalt(s, t))
  {
  }

  lemma TakenByHalt(s: State, t: nat)
    requires TakenInv(s) && t < |s.threads| && Held(s.threads[t]) != []
    ensures TakenInv(AfterHalt(s, t))
  {
  }

  /** The first stream in the hands of a thread is nowhere else. */
  lemma FirstHeld(s: State, t: nat)
    requires HandsInv(s) && t < |s.threads| && Held(s.threads[t]) != []
    ensures var held := Held(s.threads[t]);
      && held[0].id < |s.places| && s.places[held[0].id] == Claimed(held[0].handle, t)
      && (forall i | 0 < i < |held| :: held[i].id != held[0].id)
      && Held(AfterFree(s, t).threads[t]) == held[1..]
  {
    var held := Held(s.threads[t]);
    forall i | 0 < i < |held| ensures held[i].id != held[0].id {
      assert s.places[held[i].id] == Claimed(held[i].handle, t);
      assert held[0] != held[i];
    }
  }

  lemma TableByFree(s: State, t: nat)
    requires PlaceInv(s) && t < |s.threads| && Held(s.threads[t]) != []
    ensures TableInv(AfterFree(s, t))
  {
    FirstHeld(s, t);
  }

  lemma HandsByFree(s: State, t: nat)
    requires PlaceInv(s) && t < |s.threads| && Held(s.threads[t]) != []
    ensures HandsInv(AfterFree(s, t))
  {
    hide TableInv, ClaimInv;
    FirstHeld(s, t);
    var n := AfterFree(s, t);
    forall u, i | 0 <= u < |n.threads| && 0 <= i < |Held(n.threads[u])|
      ensures var e := Held(n.threads[u])[i]; e.id < |n.places| && n.places[e.id] == Claimed(e.handle, u)
    {
      if u == t {
        assert Held(n.threads[u])[i] == Held(s.threads[t])[i + 1];
      } else {
        assert Held(n.threads[u])[i] == Held(s.threads[u])[i];
      }
    }
    assert Distinct(Held(s.threads[t])[1..]);
  }

  /** Freeing takes the first stream from the hands of its thread, and no other stream from any hands. */
  lemma HandsAfterFree(s: State, t: nat, u: nat, e: Entry)
    requires HandsInv(s) && t < |s.threads| && Held(s.threads[t]) != [] && Holds(s, u, e)
    requires e != Held(s.threads[t])[0]
    ensures Holds(AfterFree(s, t), u, e)
  {
    FirstHeld(s, t);
    if u == t {
      var held := Held(s.threads[t]);
      assert held == [held[0]] + held[1..];
    }
  }

  lemma ClaimsByFree(s: State, t: nat)
    requires PlaceInv(s) && t < |s.threads| && Held(s.threads[t]) != []
    ensures ClaimInv(AfterFree(s, t))
  {
    hide TableInv, HandsInv, Holds;
    FirstHeld(s, t);
    var n := AfterFree(s, t);
    forall r | 0 <= r < |n.places| && n.places[r].Claimed?
      ensures Holds(n, n.places[r].thread, Entry(n.places[r].handle, r))
    {
      assert n.places[r] == s.places[r];
      HandsAfterFree(s, t, s.places[r].thread, Entry(s.places[r].handle, r));
    }
  }

  lemma PlacesByFree(s: State, t: nat)
    requires PlaceInv(s) && t < |s.threads| && Held(s.threads[t]) != []
    ensures PlaceInv(AfterFree(s, t))
  {
    hide TableInv, HandsInv, ClaimInv;
    TableByFree(s, t);
    HandsByFree(s, t);
    ClaimsByFree(s, t);
  }

  lemma EndsByFree(s: State, t: nat)
    requires PlaceInv(s) && EndInv(s) && Enabled(s, FreeHandle(t))
    ensures EndInv(AfterFree(s, t))
  {
    hide TableInv, ClaimInv;
    FirstHeld(s, t);
    var id := Held(s.threads[t])[0].id;
    assert HasHalted(s.threads[t], id);
    assert id in s.stops && id !in s.freed;
    assert forall r :: r in s.freed + [id] <==> r in s.freed || r == id;
    assert forall r :: !HasHalted(AfterFree(s, t).threads[t], r);
    assert forall r :: HasHalted(s.threads[t], r) ==> r == id;
  }

  lemma HeapByFree(s: State, t: nat)
    requires PlaceInv(s) && HeapInv(s) && t < |s.threads| && Held(s.threads[t]) != []
    ensures HeapInv(AfterFree(s, t))
  {
    hide TableInv, ClaimInv, Held;
    FirstHeld(s, t);
  }

  lemma TakenByFree(s: State, t: nat)
    requires PlaceInv(s) && TakenInv(s) && t < |s.threads| && Held(s.threads[t]) != []
    ensures TakenInv(AfterFree(s, t))
  {
  }

  // ---------------------------------------------------------------- every step

  lemma PlacesKept(s: State, a: Action)
    requires PlaceInv(s) && Enabled(s, a)
    ensures PlaceInv(Next(s, a))
  {
    hide PlaceInv, LeavesStreams, AfterStopModule, AfterRegister, AfterStopStream, AfterHalt, AfterFree;
    match a {
      case StopModule(t, order) => PlacesByStopModule(s, t, order);
      case Register(t, decoderReady) => PlacesByRegister(s, t, decoderReady);
      case StopStream(t, handle) => PlacesByStopStream(s, t, handle);
      case StreamHalts(t) => PlacesByHalt(s, t);
      case FreeHandle(t) => PlacesByFree(s, t);
      case _ =>
        OthersLeaveStreams(s, a);
        LeavingKeepsPlaces(s, Next(s, a));
    }
  }

  lemma EndsKept(s: State, a: Action)
    requires PlaceInv(s) && EndInv(s) && Enabled(s, a)
    ensures EndInv(Next(s, a))
  {
    hide PlaceInv, EndInv, LeavesStreams, AfterStopModule, AfterRegister, AfterStopStream, AfterHalt, AfterFree;
    match a {
      case StopModule(t, order) => EndsByStopModule(s, t, order);
      case Register(t, decoderReady) => EndsByRegister(s, t, decoderReady);
      case StopStream(t, handle) => EndsByStopStream(s, t, handle);
      case StreamHalts(t) => EndsByHalt(s, t);
      case FreeHandle(t) => EndsByFree(s, t);
      case _ =>
        OthersLeaveStreams(s, a);
        LeavingKeepsEnds(s, Next(s, a));
    }
  }

  lemma HeapKept(s: State, a: Action)
    requires PlaceInv(s) && HeapInv(s) && Enabled(s, a)
    ensures HeapInv(Next(s, a))
  {
    hide PlaceInv, HeapInv, LeavesStreams, AfterStopModule, AfterRegister, AfterStopStream, AfterHalt, AfterFree;
    match a {
      case StopModule(t, order) => HeapByStopModule(s, t, order);
      case Register(t, decoderReady) => HeapByRegister(s, t, decoderReady);
      case StopStream(t, handle) => HeapByStopStream(s, t, handle);
      case StreamHalts(t) => HeapByHalt(s, t);
      case FreeHandle(t) => HeapByFree(s, t);
      case _ => OthersKeepHeap(s, a);
    }
  }

  lemma TakenKept(s: State, a: Action)
    requires PlaceInv(s) && TakenInv(s) && Enabled(s, a)
    ensures TakenInv(Next(s, a))
  {
    hide PlaceInv, TakenInv, LeavesStreams, AfterStopModule, AfterRegister, AfterStopStream, AfterHalt, AfterFree;
    match a {
      case StopModule(t, order) => TakenByStopModule(s, t, order);
      case Register(t, decoderReady) => TakenByRegister(s, t, decoderReady);
      case StopStream(t, handle) => TakenByStopStream(s, t, handle);
      case StreamHalts(t) => TakenByHalt(s, t);
      case FreeHandle(t) => TakenByFree(s, t);
      case _ => OthersKeepTaken(s, a);
    }
  }

  /** Every step keeps the invariant. */
  lemma InvKept(s: State, a: Action)
    requires Inv(s) && Enabled(s, a)
    ensures Inv(Next(s, a))
  {
    hide LifeInv, PlaceInv, EndInv, HeapInv, TakenInv, Enabled, Next;
    LifeKept(s, a);
    PlacesKept(s, a);
    EndsKept(s, a);
    HeapKept(s, a);
    TakenKept(s, a);
  }

  lemma InitInv(s: State)
    requires Init(s)
    ensures Inv(s)
  {
  }

  lemma RunStep(states: seq<State>, actions: seq<Action>, i: nat)
    requires IsRunFrom(states, actions) && i < |actions|
    ensures |states| == |actions| + 1 && Enabled(states[i], actions[i]) && states[i + 1] == Next(states[i], actions[i])
  {
    hide Enabled, Next;
  }

  /** The invariant holds in every state of every run that starts where it holds. */
  lemma {:induction false} InvAlong(states: seq<State>, actions: seq<Action>, i: nat)
    requires IsRunFrom(states, actions) && i < |states| && Inv(states[0])
    ensures Inv(states[i])
  {
    hide Enabled, Next, Inv;
    if i > 0 {
      InvAlong(states, actions, i - 1);
      RunStep(states, actions, i - 1);
      InvKept(states[i - 1], actions[i - 1]);
    }
  }

  /** The invariant holds in every reachable state. */
  lemma ReachableInv(states: seq<State>, actions: seq<Action>, i: nat)
    requires IsRun(states, actions) && i < |states|
    ensures Inv(states[i])
  {
    hide Enabled, Next, Init, Inv;
    InitInv(states[0]);
    InvAlong(states, actions, i);
  }
}
