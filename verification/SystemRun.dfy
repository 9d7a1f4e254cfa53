/** A run in which a callback begins after `StopModule` has returned. */
module SystemRuns {
  import opened Wrappers
  import opened SystemProtocol
  import opened SystemInvariants

  /** A fresh stream with a library thread, 0, and its worker, 1. */
  function FreshStream(): S.State {
    S.State(S.Gate(false, true, false, None), [S.Outside, S.Outside], Some(1), S.Setup, None, S.NotStopped,
            None, None, false, None, "", 0, 0, S.Log([], [], [], [], []))
  }

  /** The same stream after thread 0 has decoded a frame and been admitted to the callback. */
  function AdmittedStream(): S.State {
    FreshStream().(gate := S.Gate(false, true, true, Some(0)), threads := [S.Admitted(S.Frame(1)), S.Outside], published := 1)
  }

  /** The module as thread 0 has started it, with one stream in the table. */
  function StartedTable(): M.State {
    M.State(true, false, None, map[7 := 0], {7}, [M.Idle, M.Idle], [M.PreloadBegins, M.PreloadEnds], [], [], [M.Live(7)])
  }

  /** The module after thread 1 has claimed the stream and `StopModule` on thread 0 has found nothing to take. */
  function SweepingTable(): M.State {
    M.State(false, true, None, map[], {7}, [M.Sweeping([], [], false), M.Stopping(M.Entry(7, 0), false)],
            [M.PreloadBegins, M.PreloadEnds], [], [], [M.Claimed(7, 1)])
  }

  /** The module after thread 1 has claimed the stream and `StopModule` on thread 0 has returned. */
  function ReturnedTable(): M.State {
    M.State(false, false, None, map[], {7}, [M.Idle, M.Stopping(M.Entry(7, 0), false)],
            [M.PreloadBegins, M.PreloadEnds, M.CleanupBegins, M.CleanupEnds], [], [], [M.Claimed(7, 1)])
  }

  /** Thread 0 starts the module and a stream. */
  lemma Starting() returns (worlds: seq<World>, actions: seq<Action>)
    ensures IsRunFrom(worlds, actions) && Init(worlds[0]) && |actions| == 4
    ensures worlds[4] == World(StartedTable(), [FreshStream()])
  {
    hide S.Enabled, S.Next;
    var m0 := M.State(false, false, None, map[], {}, [M.Idle, M.Idle], [], [], [], []);
    var m1 := M.Next(m0, M.StartModule(0));
    var m2 := M.Next(m1, M.PreloadReturns(0));
    var m3 := M.Next(m2, M.AllocateHandle(0, 7));
    var m4 := M.Next(m3, M.Register(0, true));
    assert m4 == StartedTable();
    worlds := [World(m0, []), World(m1, []), World(m2, []), World(m3, []), World(m4, [FreshStream()])];
    actions := [ModuleStep(M.StartModule(0)), ModuleStep(M.PreloadReturns(0)), ModuleStep(M.AllocateHandle(0, 7)),
                StreamStarts(0, FreshStream())];
  }

  /** Thread 0 of the stream decodes a frame and is admitted to the callback. */
  lemma Admitting() returns (worlds: seq<World>, actions: seq<Action>)
    ensures IsRunFrom(worlds, actions) && worlds[0] == World(StartedTable(), [FreshStream()]) && |actions| == 3
    ensures worlds[3] == World(StartedTable(), [AdmittedStream()])
  {
    hide M.Enabled, M.Next, S.AfterWork, S.AfterStop, S.AfterNotify, S.AllAwake, S.WorkerCan, S.StopperCan;
    var s0 := FreshStream();
    var s1 := S.Next(s0, S.FrameArrives(0));
    var s2 := S.Next(s1, S.DecodeEnds(0, S.FrameProduced));
    var s3 := S.Next(s2, S.Enter(0));
    assert s3 == AdmittedStream();
    var m := StartedTable();
    worlds := [World(m, [s0]), World(m, [s1]), World(m, [s2]), World(m, [s3])];
    actions := [StreamStep(0, S.FrameArrives(0)), StreamStep(0, S.DecodeEnds(0, S.FrameProduced)), StreamStep(0, S.Enter(0))];
  }

  /** Thread 1 claims the stream, and `StopModule` on thread 0 takes an empty list. */
  lemma Taking() returns (worlds: seq<World>, actions: seq<Action>)
    ensures IsRunFrom(worlds, actions) && worlds[0] == World(StartedTable(), [AdmittedStream()]) && |actions| == 2
    ensures actions[1] == ModuleStep(M.StopModule(0, [])) && worlds[2] == World(SweepingTable(), [AdmittedStream()])
  {
    hide S.Enabled, S.Next;
    var m0 := StartedTable();
    var m1 := M.Next(m0, M.StopStream(1, 7));
    var m2 := M.Next(m1, M.StopModule(0, []));
    assert m2 == SweepingTable();
    var s := AdmittedStream();
    worlds := [World(m0, [s]), World(m1, [s]), World(m2, [s])];
    actions := [ModuleStep(M.StopStream(1, 7)), ModuleStep(M.StopModule(0, []))];
  }

  /** `StopModule` cleans up and returns. */
  lemma Returning() returns (worlds: seq<World>, actions: seq<Action>)
    ensures IsRunFrom(worlds, actions) && worlds[0] == World(SweepingTable(), [AdmittedStream()]) && |actions| == 3
    ensures actions[2] == ModuleStep(M.FinishStop(0)) && worlds[3] == World(ReturnedTable(), [AdmittedStream()])
  {
    hide S.Enabled, S.Next;
    var m0 := SweepingTable();
    var m1 := M.Next(m0, M.CleanupStarts(0));
    var m2 := M.Next(m1, M.CleanupReturns(0));
    var m3 := M.Next(m2, M.FinishStop(0));
    assert m3 == ReturnedTable();
    var s := AdmittedStream();
    worlds := [World(m0, [s]), World(m1, [s]), World(m2, [s]), World(m3, [s])];
    actions := [ModuleStep(M.CleanupStarts(0)), ModuleStep(M.CleanupReturns(0)), ModuleStep(M.FinishStop(0))];
  }

  /** The admitted thread calls the user. */
  lemma Calling() returns (worlds: seq<World>, actions: seq<Action>)
    ensures IsRunFrom(worlds, actions) && worlds[0] == World(ReturnedTable(), [AdmittedStream()])
    ensures actions == [StreamStep(0, S.Begin(0))]
  {
    hide M.Enabled, M.Next, S.AfterWork, S.AfterStop, S.AfterNotify, S.AllAwake, S.WorkerCan, S.StopperCan;
    var w := World(ReturnedTable(), [AdmittedStream()]);
    worlds, actions := [w, Next(w, StreamStep(0, S.Begin(0)))], [StreamStep(0, S.Begin(0))];
  }

  /** `StopModule` takes its list at step 8 and returns at step 11, and at step 12 a callback begins. */
  lemma CallbackBeginsAfterStopModule() returns (worlds: seq<World>, actions: seq<Action>)
    ensures IsRun(worlds, actions) && |actions| == 13
    ensures actions[8] == ModuleStep(M.StopModule(0, [])) && actions[11] == ModuleStep(M.FinishStop(0))
    ensures actions[12] == StreamStep(0, S.Begin(0))
  {
    hide IsRunFrom, Enabled, Next, Init, StartedTable, SweepingTable, ReturnedTable, FreshStream, AdmittedStream;
    worlds, actions := Starting();
    var admitting, first := Admitting();
    Joined(worlds, actions, admitting, first);
    worlds, actions := worlds + admitting[1..], actions + first;
    var taking, second := Taking();
    Joined(worlds, actions, taking, second);
    worlds, actions := worlds + taking[1..], actions + second;
    var returning, third := Returning();
    Joined(worlds, actions, returning, third);
    worlds, actions := worlds + returning[1..], actions + third;
    var calling, fourth := Calling();
    Joined(worlds, actions, calling, fourth);
    worlds, actions := worlds + calling[1..], actions + fourth;
  }
}
