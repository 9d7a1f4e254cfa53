/**
  The sections of the module functions over the two flags and the handle table of driver_station_rtc.cpp. Each is
  proved to be the step of its name in every state that shows the same flags and the same table.
  */
module ModuleObject {
  import opened Wrappers
  import opened ModuleProtocol

  datatype Outcome = Success | InvalidArgument | InvalidState | NotStarted | DecodeError

  /** What is listed holds every entry of the table, and none of them twice. */
  lemma ListedOnce(order: seq<Address>, table: map<Address, nat>)
    requires Lists(order, table)
    ensures Distinct(Entries(order, table))
    ensures forall h | h in table :: Entry(h, table[h]) in Entries(order, table)
  {
    forall h | h in table
      ensures Entry(h, table[h]) in Entries(order, table)
    {
      var i :| 0 <= i < |order| && order[i] == h;
      assert Entries(order, table)[i] == Entry(h, table[h]);
    }
  }

  /** Goes over the table and takes down every entry. */
  method ListAll(table: map<Address, nat>) returns (order: seq<Address>, entries: seq<Entry>)
    ensures Lists(order, table) && entries == Entries(order, table) && |entries| == |table|
  {
    order, entries := [], [];
    var left := table.Keys;
    while left != {}
      invariant left <= table.Keys && Distinct(order)
      invariant forall a | a in order :: a in table && a !in left
      invariant forall a | a in table && a !in left :: a in order
      invariant entries == Entries(order, table)
      invariant |entries| + |left| == |table|
    {
      var handle :| handle in left;
      order, entries := order + [handle], entries + [Entry(handle, table[handle])];
      left := left - {handle};
    }
  }

  class ModuleTable {
    var started: bool
    var stopping: bool
    var table: map<Address, nat>

    constructor ()
      ensures !started && !stopping && table == map[]
    {
      started, stopping, table := false, false, map[];
    }

    predicate Shows(s: State)
      reads this
    {
      s.started == started && s.stopping == stopping && s.table == table
    }

    /** `StartModule`, all of it under the mutex; `preloads` says whether it calls `rtcPreload`. */
    method StartModule() returns (outcome: Outcome, preloads: bool)
      modifies this`started
      ensures preloads <==> !old(started) && !stopping
      ensures started <==> old(started) || preloads
      ensures outcome == if old(started) || preloads then Success else InvalidState
      ensures forall s: State, t: nat | old(Shows(s)) && Enabled(s, Action.StartModule(t)) ::
        var n := Next(s, Action.StartModule(t));
        && (preloads <==> n.threads[t] == Preloading)
        && (preloads ==> Enabled(n, PreloadReturns(t)) && Shows(Next(n, PreloadReturns(t))) && outcome == Success)
        && (!preloads ==> Shows(n) && n == s && outcome == if s.started then Success else InvalidState)
    {
      if started {
        return Success, false;
      }
      if stopping {
        return InvalidState, false;
      }
      started := true;
      return Success, true;
    }

    /** The first section of `StopModule`; it takes nothing if the module is not started. */
    method TakeAll() returns (taken: Option<seq<Entry>>)
      modifies this
      ensures taken.Some? <==> old(started)
      ensures taken.Some? ==> !started && stopping && table == map[]
      ensures taken.Some? ==> (forall h | h in old(table) :: Entry(h, old(table)[h]) in taken.value)
      ensures taken.Some? ==> |taken.value| == |old(table)| && Distinct(taken.value)
      ensures taken.None? ==> unchanged(this)
      ensures taken.Some? ==> exists order :: Lists(order, old(table)) && taken.value == Entries(order, old(table))
      ensures forall s: State, t: nat, order: seq<Address> |
        old(Shows(s)) && Enabled(s, StopModule(t, order)) && (taken.Some? ==> taken.value == Entries(order, old(table))) ::
        && Shows(Next(s, StopModule(t, order)))
        && (taken.Some? ==> Next(s, StopModule(t, order)).threads[t] == Sweeping(taken.value, taken.value, false))
    {
      if !started {
        return None;
      }
      started, stopping := false, true;
      var order, entries := ListAll(table);
      ListedOnce(order, table);
      taken := Some(entries);
      table := map[];
    }

    /** The last section of `StopModule`. */
    method FinishStop()
      modifies this`stopping
      ensures !stopping
      ensures forall s: State, t: nat | old(Shows(s)) && Enabled(s, Action.FinishStop(t)) :: Shows(Next(s, Action.FinishStop(t)))
    {
      stopping := false;
    }

    /** `StartStream` under the mutex; `decoderReady` is what `Start` of the new stream returns, `id` its number. */
    method Register(handle: Address, id: nat, decoderReady: bool) returns (outcome: Outcome)
      modifies this`table
      ensures outcome == if !started || stopping then NotStarted else if decoderReady then Success else DecodeError
      ensures handle !in old(table) ==> table == if outcome == Success then old(table)[handle := id] else old(table)
      ensures forall s: State, t: nat |
        old(Shows(s)) && Enabled(s, Action.Register(t, decoderReady)) && s.threads[t] == Preparing(handle) && id == |s.places| ::
        Shows(Next(s, Action.Register(t, decoderReady)))
    {
      if !started || stopping {
        return NotStarted;
      }
      if !decoderReady {
        return DecodeError;
      }
      if handle !in table {
        table := table[handle := id];
      }
      return Success;
    }

    /** The section of `StopStream`: the table gives the stream up to the caller, or does not know the handle. */
    method Claim(handle: Address) returns (outcome: Outcome, entry: Option<Entry>)
      modifies this`table
      ensures entry.Some? <==> handle in old(table)
      ensures entry.Some? ==> entry.value == Entry(handle, old(table)[handle]) && table == old(table) - {handle}
      ensures entry.None? ==> table == old(table)
      ensures entry.Some? <==> outcome == Success
      ensures entry.None? <==> outcome == InvalidArgument && handle !in old(table)
      ensures forall s: State, t: nat | old(Shows(s)) && Enabled(s, StopStream(t, handle)) ::
        && Shows(Next(s, StopStream(t, handle)))
        && (entry.Some? ==> Next(s, StopStream(t, handle)).threads[t] == Stopping(entry.value, false))
        && (entry.None? ==> Next(s, StopStream(t, handle)) == s)
    {
      if handle !in table {
        return InvalidArgument, None;
      }
      entry := Some(Entry(handle, table[handle]));
      table := table - {handle};
      outcome := Success;
    }
  }
}
