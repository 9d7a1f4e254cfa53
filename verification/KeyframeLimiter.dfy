/**
  The limiter of keyframe requests (`RequestKeyframe` of driver_station_rtc.cpp). A thread reads the clock before it
  locks `keyframe_request_mutex_`, so threads that race may come to the lock with readings that are out of date.
  Times are nanoseconds of the steady clock; the recorded time zero stands for "no request yet".
  */
module KeyframeLimiter {
  import opened Wrappers

  const INTERVAL: int := 1_000_000_000
  const NEVER: int := 0

  /** Whether a request with the clock reading `now` passes when `last` is the recorded time. */
  predicate Passes(last: int, now: int) {
    last == NEVER || now - last >= INTERVAL
  }

  // ---------------------------------------------------------------- any number of threads

  /** `readings[t]` is the clock reading that thread `t` carries to the lock. */
  datatype State = State(clock: int, readings: seq<Option<int>>, last: int, grants: seq<int>)

  datatype Action = Tick(duration: nat) | ReadClock(thread: nat) | Lock(thread: nat)

  predicate Enabled(s: State, a: Action) {
    match a
    case Tick(_) => true
    case ReadClock(t) => t < |s.readings| && s.readings[t].None?
    case Lock(t) => t < |s.readings| && s.readings[t].Some?
  }

  function Next(s: State, a: Action): State
    requires Enabled(s, a)
  {
    match a
    case Tick(d) => s.(clock := s.clock + d)
    case ReadClock(t) => s.(readings := s.readings[t := Some(s.clock)])
    case Lock(t) =>
      var now := s.readings[t].value;
      var done := s.(readings := s.readings[t := None]);
      if Passes(s.last, now) then done.(last := now, grants := s.grants + [now]) else done
  }

  /** Nothing has been requested; nothing is assumed about the clock. */
  predicate Init(s: State) {
    (forall t | 0 <= t < |s.readings| :: s.readings[t].None?) && s.last == NEVER && s.grants == []
  }

  ghost predicate IsRun(states: seq<State>, actions: seq<Action>) {
    && |states| == |actions| + 1 && Init(states[0])
    && forall i | 0 <= i < |actions| :: Enabled(states[i], actions[i]) && states[i + 1] == Next(states[i], actions[i])
  }

  // ---------------------------------------------------------------- every run

  /** A grant that is not recorded at time zero keeps the next one a second away. */
  predicate SpacedBehind(grants: seq<int>) {
    forall i | 0 < i < |grants| :: grants[i - 1] != NEVER ==> grants[i] - grants[i - 1] >= INTERVAL
  }

  predicate Inv(s: State) {
    && s.last == (if s.grants == [] then NEVER else s.grants[|s.grants| - 1])
    && SpacedBehind(s.grants)
  }

  lemma InvKept(s: State, a: Action)
    requires Inv(s) && Enabled(s, a)
    ensures Inv(Next(s, a))
  {
  }

  lemma {:induction false} InvAlong(states: seq<State>, actions: seq<Action>, i: nat)
    requires IsRun(states, actions) && i < |states|
    ensures Inv(states[i])
  {
    if i > 0 {
      InvAlong(states, actions, i - 1);
      InvKept(states[i - 1], actions[i - 1]);
      assert states[i - 1 + 1] == Next(states[i - 1], actions[i - 1]);
    }
  }

  /**
    In every run, a thread that comes to the lock with a reading is granted a request exactly if there was none before, or
    the last one was recorded at time zero, or at least 1 000 000 000 nanoseconds before that reading.
    */
  lemma GrantedExactly(states: seq<State>, actions: seq<Action>, i: nat, t: nat)
    requires IsRun(states, actions) && i < |actions| && actions[i] == Lock(t)
    ensures t < |states[i].readings| && states[i].readings[t].Some?
    ensures var grants, now := states[i].grants, states[i].readings[t].value;
      states[i + 1].grants == grants +
        if grants == [] || grants[|grants| - 1] == 0 || now - grants[|grants| - 1] >= 1_000_000_000 then [now] else []
  {
    InvAlong(states, actions, i);
    assert states[i].grants + [] == states[i].grants;
  }

  /** The reading is that of the clock when the thread took it. */
  lemma ReadingIsOfClock(s: State, t: nat)
    requires Enabled(s, ReadClock(t))
    ensures Next(s, ReadClock(t)).readings[t] == Some(s.clock) && Next(s, ReadClock(t)).grants == s.grants
  {
  }

  /**
    In every run, whatever the clock shows, two grants in a row are closer than a second exactly if the first one was
    recorded at time zero, which stands for "never", and the second one before the first second has passed.
    */
  lemma CloserExactlyBehindZero(states: seq<State>, actions: seq<Action>, m: nat, i: nat)
    requires IsRun(states, actions) && m < |states| && 0 < i < |states[m].grants|
    ensures var grants := states[m].grants;
      grants[i] - grants[i - 1] < INTERVAL <==> grants[i - 1] == NEVER && grants[i] < INTERVAL
  {
    hide Enabled, Next;
    InvAlong(states, actions, m);
  }

  /** Such a run: a grant at time zero, and the next one a nanosecond later. */
  lemma GrantAtZeroForgotten() returns (states: seq<State>, actions: seq<Action>)
    ensures IsRun(states, actions) && states[|actions|].grants == [0, 1]
  {
    var s0 := State(0, [None], NEVER, []);
    var s1 := Next(s0, ReadClock(0));
    var s2 := Next(s1, Lock(0));
    var s3 := Next(s2, Tick(1));
    var s4 := Next(s3, ReadClock(0));
    var s5 := Next(s4, Lock(0));
    states := [s0, s1, s2, s3, s4, s5];
    actions := [ReadClock(0), Lock(0), Tick(1), ReadClock(0), Lock(0)];
  }

  // ---------------------------------------------------------------- a positive clock

  predicate Positive(s: State) {
    && s.clock > 0
    && (forall t | 0 <= t < |s.readings| && s.readings[t].Some? :: s.readings[t].value > 0)
    && (forall i | 0 <= i < |s.grants| :: s.grants[i] > 0)
  }

  lemma {:induction false} PositiveAlong(states: seq<State>, actions: seq<Action>, i: nat)
    requires IsRun(states, actions) && states[0].clock > 0 && i < |states|
    ensures Positive(states[i])
  {
    if i > 0 {
      PositiveAlong(states, actions, i - 1);
      assert states[i - 1 + 1] == Next(states[i - 1], actions[i - 1]);
    }
  }

  predicate Spaced(grants: seq<int>) {
    forall i | 0 < i < |grants| :: grants[i] - grants[i - 1] >= INTERVAL
  }

  lemma SpacedAlong(states: seq<State>, actions: seq<Action>, i: nat)
    requires IsRun(states, actions) && states[0].clock > 0 && i < |states|
    ensures Spaced(states[i].grants)
  {
    hide Enabled, Next;
    InvAlong(states, actions, i);
    PositiveAlong(states, actions, i);
  }

  lemma {:induction false} SpacedFar(grants: seq<int>, i: nat, j: nat)
    requires Spaced(grants) && i <= j < |grants|
    ensures grants[j] - grants[i] >= (j - i) * INTERVAL
  {
    if i < j {
      SpacedFar(grants, i, j - 1);
    }
  }

  /**
    In every run with a positive clock, however the threads interleave and however old their readings are, the
    recorded times of the grants are at least one second apart for every grant between them.
    */
  lemma GrantsAreSpaced(states: seq<State>, actions: seq<Action>, m: nat, i: nat, j: nat)
    requires IsRun(states, actions) && states[0].clock > 0 && m < |states| && i <= j < |states[m].grants|
    ensures states[m].grants[j] - states[m].grants[i] >= (j - i) * INTERVAL
  {
    SpacedAlong(states, actions, m);
    SpacedFar(states[m].grants, i, j);
  }

  /** How many of the grants lie between two times. */
  function CountBetween(grants: seq<int>, from: int, to: int): nat {
    if grants == [] then 0
    else
      var last := grants[|grants| - 1];
      CountBetween(grants[..|grants| - 1], from, to) + if from <= last <= to then 1 else 0
  }

  lemma {:induction false} CountBounded(grants: seq<int>, from: int, to: int)
    requires Spaced(grants)
    ensures CountBetween(grants, from, to) == 0 || grants[|grants| - 1] >= from + (CountBetween(grants, from, to) - 1) * INTERVAL
    ensures from <= to + INTERVAL ==> (CountBetween(grants, from, to) - 1) * INTERVAL <= to - from
  {
    if grants != [] {
      CountBounded(grants[..|grants| - 1], from, to);
    }
  }

  /** With a positive clock, a span of `n` seconds never holds more than `n + 1` recorded grants. */
  lemma GrantsPerSpan(states: seq<State>, actions: seq<Action>, m: nat, from: int, n: nat)
    requires IsRun(states, actions) && states[0].clock > 0 && m < |states|
    ensures CountBetween(states[m].grants, from, from + n * INTERVAL) <= n + 1
  {
    SpacedAlong(states, actions, m);
    CountBounded(states[m].grants, from, from + n * INTERVAL);
  }

  // ---------------------------------------------------------------- the object

  class Limiter {
    var lastKeyframeRequest: int

    constructor ()
      ensures lastKeyframeRequest == NEVER
    {
      lastKeyframeRequest := NEVER;
    }

    /** The critical section of `RequestKeyframe` is the step of a thread that comes to the lock with this reading. */
    method Request(now: int) returns (granted: bool)
      modifies this
      ensures granted == Passes(old(lastKeyframeRequest), now)
      ensures lastKeyframeRequest == if granted then now else old(lastKeyframeRequest)
      ensures forall s: State, t: nat |
        s.last == old(lastKeyframeRequest) && Enabled(s, Lock(t)) && s.readings[t] == Some(now) ::
        && Next(s, Lock(t)).last == lastKeyframeRequest
        && Next(s, Lock(t)).grants == s.grants + if granted then [now] else []
    {
      if lastKeyframeRequest != NEVER && now - lastKeyframeRequest < INTERVAL {
        return false;
      }
      lastKeyframeRequest := now;
      return true;
    }
  }
}
