/**
  The sections of `FrameRegistration` over its members, each proved to be the step of its name; the loop of `Drain`
  when nothing interferes; and the loop that registers a registration under a context of its own.
  */
module RegistrationObject {
  import opened Wrappers
  import opened RegistrationProtocol

  class FrameRegistration {
    var pendingResults: seq<int>
    var attached: bool
    var draining: bool
    var canceled: bool

    constructor ()
      ensures pendingResults == [] && !attached && !draining && !canceled
    {
      pendingResults, attached, draining, canceled := [], false, false, false;
    }

    predicate Shows(s: State)
      reads this
    {
      s.pending == pendingResults && s.attached == attached && s.draining == draining && s.canceled == canceled
    }

    /** The section of `Attach`; `shouldDrain` says whether the caller goes on to drain. */
    method Attach() returns (shouldDrain: bool)
      modifies this`attached, this`draining
      ensures attached <==> old(attached) || !canceled
      ensures shouldDrain <==> !canceled && !old(draining) && pendingResults != []
      ensures draining <==> old(draining) || shouldDrain
      ensures forall s: State | old(Shows(s)) && s.ownerAlive ::
        && Shows(Next(s, Action.Attach))
        && Next(s, Action.Attach).drains == s.drains + if shouldDrain then [AtSection] else []
    {
      shouldDrain := false;
      if canceled {
        return;
      }
      attached := true;
      if !draining && |pendingResults| != 0 {
        draining := true;
        shouldDrain := true;
      }
    }

    /** The section of `Notify`. */
    method Notify(result: int) returns (shouldDrain: bool)
      modifies this`pendingResults, this`draining
      ensures pendingResults == if canceled then old(pendingResults) else old(pendingResults) + [result]
      ensures shouldDrain <==> !canceled && !old(draining) && attached
      ensures draining <==> old(draining) || shouldDrain
      ensures forall s: State | old(Shows(s)) ::
        && Shows(Next(s, Action.Notify(result)))
        && Next(s, Action.Notify(result)).drains == s.drains + if shouldDrain then [AtSection] else []
    {
      shouldDrain := false;
      if canceled {
        return;
      }
      pendingResults := pendingResults + [result];
      if !draining && attached {
        draining := true;
        shouldDrain := true;
      }
    }

    /** The section of `Cancel`. */
    method Cancel()
      modifies this`canceled, this`pendingResults, this`attached
      ensures canceled
      ensures !old(canceled) ==> pendingResults == [] && !attached
      ensures old(canceled) ==> pendingResults == old(pendingResults) && attached == old(attached)
      ensures forall s: State | old(Shows(s)) :: Shows(Next(s, Action.Cancel))
    {
      if canceled {
        return;
      }
      canceled := true;
      pendingResults := [];
      attached := false;
    }

    /** One section of `Drain`: the next result, or the end of the drain. */
    method TakeNext(ownerAlive: bool) returns (result: Option<int>)
      modifies this`pendingResults, this`draining
      ensures result.None? ==> !draining && pendingResults == old(pendingResults)
      ensures result.Some? <==> !canceled && attached && ownerAlive && old(pendingResults) != []
      ensures result.Some? ==> draining == old(draining) && old(pendingResults) == [result.value] + pendingResults
      ensures forall s: State, d: nat | old(Shows(s)) && Enabled(s, Section(d)) && s.ownerAlive == ownerAlive ::
        && Shows(Next(s, Section(d)))
        && Next(s, Section(d)).drains[d] == if result.Some? then Carrying(result.value) else Done
    {
      if canceled || !attached || !ownerAlive || |pendingResults| == 0 {
        draining := false;
        return None;
      }
      result := Some(pendingResults[0]);
      pendingResults := pendingResults[1..];
    }

    /** `Drain` without interference calls the callback once for each pending result, in order. */
    method DrainAlone(ownerAlive: bool) returns (delivered: seq<int>)
      requires draining
      modifies this`pendingResults, this`draining
      ensures !draining
      ensures delivered == if !canceled && attached && ownerAlive then old(pendingResults) else []
      ensures old(pendingResults) == delivered + pendingResults
    {
      delivered := [];
      while true
        invariant draining && canceled == old(canceled) && attached == old(attached)
        invariant old(pendingResults) == delivered + pendingResults
        invariant delivered != [] ==> !canceled && attached && ownerAlive
        decreases |pendingResults|
      {
        var result := TakeNext(ownerAlive);
        if result.None? {
          return;
        }
        delivered := delivered + [result.value];
      }
    }
  }

  // ---------------------------------------------------------------- contexts

  const CONTEXTS: int := 0x1_0000_0000_0000_0000

  /** `unchecked((nint)Interlocked.Increment(ref nextFrameContext))`, as an unsigned number. */
  function After(counter: nat, steps: nat): nat {
    (counter + steps) % CONTEXTS
  }

  lemma AfterDiffers(counter: nat, i: nat, j: nat)
    requires i < j < i + CONTEXTS
    ensures After(counter, i) != After(counter, j)
  {
    var a, b := (counter + i) / CONTEXTS, (counter + j) / CONTEXTS;
    assert counter + i == a * CONTEXTS + After(counter, i);
    assert counter + j == b * CONTEXTS + After(counter, j);
  }

  /**
    `Register` takes the first context after the counter that is not zero and not in use. It finds one as long as
    not all contexts are in use, however often the counter has wrapped.
    */
  method Register(counter: nat, used: set<nat>) returns (context: nat, steps: nat)
    requires counter < CONTEXTS && |used| + 1 < CONTEXTS
    ensures 0 < context < CONTEXTS && context !in used
    ensures 0 < steps <= |used| + 2 && context == After(counter, steps)
    ensures forall k | 0 < k < steps :: After(counter, k) == 0 || After(counter, k) in used
  {
    ghost var tried: set<nat> := {};
    steps := 0;
    while true
      invariant tried <= used + {0} && |tried| == steps
      invariant forall k | 0 < k <= steps :: After(counter, k) in tried
      invariant forall c | c in tried :: exists k | 0 < k <= steps :: c == After(counter, k)
      decreases |used| + 2 - steps
    {
      SubsetSize(tried, used + {0});
      SizeWithZero(used);
      steps := steps + 1;
      context := After(counter, steps);
      if context != 0 && context !in used {
        return;
      }
      if context in tried {
        var k :| 0 < k <= steps - 1 && context == After(counter, k);
        AfterDiffers(counter, k, steps);
      }
      tried := tried + {context};
    }
  }

  lemma SizeWithZero(used: set<nat>)
    ensures |used + {0}| <= |used| + 1
  {
    if 0 in used {
      assert used + {0} == used;
    }
  }

  lemma {:induction false} SubsetSize(a: set<nat>, b: set<nat>)
    requires a <= b
    ensures |a| <= |b|
  {
    if c :| c in a {
      SubsetSize(a - {c}, b - {c});
    }
  }
}
