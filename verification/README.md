# DriverStationRtcClient: a verified model

DriverStationRtcClient receives the video of a robot over WebRTC and hands it to a driver-station application as BGRA
bitmaps. This project models the parts of it that keep state or run loops, and proves what they promise:

- **The native stream** (`Stream*.dfy`): worker thread, WebRTC callback threads, user callbacks and the thread that
  stops the stream, as a transition system with one step per critical section, atomic access or foreign call, over any
  number of threads. `StreamInvariants` holds the inductive invariant; `StreamSafety`, `StreamConservation`,
  `StreamNotices`, `StreamCallbacks`, `StreamProgress`, `StreamDelivery` and `StreamWorker` hold what follows for all
  runs. `StreamImpl.dfy` is the object itself: its methods are the critical sections, each proved to be a step of the
  transition system.
- **The module and its handles** (`Module*.dfy`): start and stop of the module, the table of stream handles, and an
  allocator that gives addresses out again.
- **The module with all its streams** (`System*.dfy`): both transition systems interleaved, for the promise of the header
  that no callback comes after `StopStream` or `StopModule` has returned.
- **The managed notification queue** (`Registration*.dfy`, `FrameRegistration.dfy`): notifications that may come before
  the managed stream exists, drained by one thread at a time.
- **The keyframe limiter** (`KeyframeLimiter.dfy`), with threads whose clock readings are out of date.
- **The WHEP HTTP engine** (`Text`, `Url`, `Chunked`, `HttpResponse`, `HttpMessage`, `HttpExchange`,
  `ChunkedResponse`, `ConnectionEnd`): URLs, the chunked transfer coding, the response parser, the test for a complete
  response, and the loops that send and receive, over every way the network may cut the bytes into fragments.
- **The frame pipeline** (`FrameConversion`, `LatestFrameStore`, `MailboxRuns`, `FrameCopy`, `FramePipeline`,
  `PipelineRun`): conversion from I420 in place, the mailbox that swaps buffers, and the copies with a stride, in every
  interleaving of the decoding thread with any number of readers.

Bytes of text are characters, one for one. A thread is an index into a sequence of any length. Socket, decoder, memory
allocator, clock, and the moment at which the managed owner dies are parameters or actions that may do anything their
interfaces allow.

Two things are assumed of libdatachannel: it delivers frames and state changes of a stream neither on the worker thread
of that stream nor on a thread that is inside its `Stop`.

## Findings

Where the code does not do what a reader might expect, the model follows the code and the exact condition is proved. The
first two go against the header (driver_station_rtc.h:78-97 and 118-124); of the others neither the header nor the README
of the repository speaks.

- `StopModule` may return before every stream is stopped, and a callback may begin after it has returned. It can for a
  stream exactly if a `StopStream` is stopping that stream when `StopModule` is called
  (`ModuleReturns.StopModuleMayMiss`). A callback can then begin, as long as the stream has a library thread, exactly if
  that call has not set the stopping flag, or a thread had been admitted to the callback before
  (`SystemSafety.CallbackAfterStopModule`). `ModuleReturns.ReturnsBeforeStreamStops` and
  `SystemRuns.CallbackBeginsAfterStopModule` are such runs.
- The mailbox reports "no frame" although frames are unread exactly if their number is a multiple of 2^64
  (`MailboxRuns.FullCycleIsLost`).
- `gathering_mutex_` is held while the user's callback runs if the wait for ICE candidates times out, because
  `SetFailure` is called under that lock (driver_station_rtc.cpp:168-176). `StreamSafety.GatheringMutexHeldInCallback`
  gives a run; `StreamSafety.LocksDuringCallback` and `LockedExactlyAfterTimeOut` say that this is the only case.
- A chunked response is taken for complete too early exactly if CRLF "0" CRLF CRLF occurs in the data of a chunk with
  its line ends (`ChunkedResponses.PrematureExactlyOnMark`). It is then refused, as in
  `ChunkedResponses.MarkedResponseIsRefused`, or read in full, but never read as another body
  (`ChunkedResponses.NeverAnotherBody`).
- An empty chunked body is recognised only if nothing is delivered behind it in the same read, or what is holds the mark
  (`ChunkedResponses.EmptyBodyAndMore`).
- A response with a length field and the chunked coding is framed twice: reading stops where the first length field
  says, and what has been read is decoded as chunks (`ConnectionEnds.FramedTwice`).
- The keyframe limiter forgets a grant that was recorded at clock time zero, so that the next one may follow at once
  (`KeyframeLimiter.CloserExactlyBehindZero`, with the run `KeyframeLimiter.GrantAtZeroForgotten`).

## Model

| member | source | states |
|---|---|---|
| StreamInvariants.InvKept | src/driver_station_rtc.cpp:59-97 | every critical section, atomic access and foreign call of every thread keeps the whole invariant of the stream |
| StreamInvariants.GateKept | src/driver_station_rtc.cpp:324-366 | `frame_callback_active_` is set exactly while one thread is between the two sections of `InvokeFrameCallback`, and `frame_callback_thread_` names it |
| StreamInvariants.StopKept | src/driver_station_rtc.cpp:59-97 | `stopping_` is set exactly if there is a stopper; behind the cancellation there is no callback pointer, and an active callback is the stopper's own |
| StreamInvariants.WakeKept | src/driver_station_rtc.cpp:328-365 | no wakeup on `frame_callback_cv_` is lost: whoever sleeps has an active callback or a pending notification to wait for |
| StreamInvariants.DecoderKept | src/driver_station_rtc.cpp:263-284 | the decoder mutex has exactly the owner that decodes |
| StreamInvariants.WorkerKept | src/driver_station_rtc.cpp:167-177 | only the worker keeps `gathering_mutex_`, and it enters the callback gate only to report a failure |
| StreamInvariants.JoinKept | src/driver_station_rtc.cpp:66-72 | behind the join the worker is finished; behind the detach it only has the callback of `SetFailure` left |
| StreamInvariants.ReachableInv | src/driver_station_rtc.cpp:34-417 | the invariant holds in every state of every run |
| StreamSafety.AtMostOneCallback | src/driver_station_rtc.cpp:324-353 | in every run at most one user callback of a stream is in progress |
| StreamSafety.NoCallbackAfterCancel | src/driver_station_rtc.cpp:324-366 | from the return of `CancelFrameCallback` on no callback begins, and none is in progress but one on the stopping thread itself |
| StreamSafety.NoBeginAfterCancel | src/driver_station_rtc.cpp:355-366 | no single step after the cancellation begins a callback |
| StreamSafety.LocksDuringCallback | src/driver_station_rtc.cpp:167-177 | a thread in the callback never holds the decoder mutex, and holds `gathering_mutex_` exactly if it is the worker reporting from inside the gathering wait |
| StreamSafety.LockedExactlyAfterTimeOut | src/driver_station_rtc.cpp:167-177 | the worker keeps `gathering_mutex_` exactly from the time-out of its wait until it finishes |
| StreamSafety.GatheringMutexHeldInCallback | src/driver_station_rtc.cpp:168-176 | a run in which the callback runs while its thread holds `gathering_mutex_` |
| StreamSafety.LocksInOrder | src/driver_station_rtc.cpp:328-365 | a thread that holds the gathering or the decoder mutex only ever takes or waits for a lock of higher rank, in every run |
| StreamCallbacks.NobodyNewAdmitted | src/driver_station_rtc.cpp:328-338 | once the stopping flag is set nobody is admitted any more, and only who was admitted begins a callback |
| StreamCallbacks.CallbackCanBegin | src/driver_station_rtc.cpp:324-366 | from a state with a library thread a callback can still begin exactly if nobody has begun to stop the stream or a thread is already admitted |
| StreamCallbacks.RunToCallback | src/driver_station_rtc.cpp:324-353 | while nobody stops the stream there is a run to a further callback |
| StreamDelivery.NoNoticeLost | src/driver_station_rtc.cpp:247-353 | in every run, while nobody stops the stream, every notice that the actions call for (a decoded frame, a fatal decoder error, a failed peer connection, a failed worker) has begun its callback, is on its way to it, or is about to be reported, each exactly as often as it was called for |
| StreamDelivery.RunToOwnCallback | src/driver_station_rtc.cpp:324-353 | from wherever a thread is on its way to the callback, also asleep behind another callback, a run leads to a callback with its own notice |
| StreamWorker.WorkerFollowsItsSteps | src/driver_station_rtc.cpp:113-222 | in every run, while nobody stops the stream, the worker is where its own steps have led it: along the nine steps of the exchange, or on the way to report the first failure |
| StreamWorker.WorkerCompletes | src/driver_station_rtc.cpp:113-222 | in every run, the worker of a stream that nobody stops, finished without a failure, has stored one transport, seen the candidates gathered, posted once, stored the session that was named, and set the answer |
| StreamWorker.WorkerReportsFailure | src/driver_station_rtc.cpp:167-222 | and if one of its steps threw or the gathering wait timed out, it fails once, and when it is finished a callback with the code of that failure has begun |
| StreamWorker.FailsExactly | src/driver_station_rtc.cpp:113-222 | the worker can fail with INTERNAL_ERROR where it sets up, offers, posts or sets the answer, with NETWORK_ERROR where it posts, and by the time-out exactly while candidates are missing and nobody stops |
| StreamWorker.RunToAnswer | src/driver_station_rtc.cpp:113-222 | from wherever the worker is in the exchange of a stream that nobody stops, a run without a failure leads to its end, whatever transport is built and whatever session is named |
| StreamConservation.ConservedKept | src/driver_station_rtc.cpp:73-95 | every step keeps stored = ended ++ in the stopper's hands ++ in the members, for transports and for sessions |
| StreamConservation.StoppedEndsEverything | src/driver_station_rtc.cpp:66-95 | when `Stop` has returned, every stored transport was closed exactly once and every nonempty session URL passed to `StopWhepSession` exactly once |
| StreamConservation.NothingStoredAfterStop | src/driver_station_rtc.cpp:66-82 | behind the join or the detach the worker stores nothing any more |
| StreamNotices.NoticesKept | src/driver_station_rtc.cpp:247-293 | a publication is on its way to at most one callback, and never once it has been announced |
| StreamNotices.NoMoreCallbacksThanFrames | src/driver_station_rtc.cpp:247-293 | in every run no publication is announced twice, and the SUCCESS callbacks begun never outnumber the frames published |
| StreamNotices.NewestKept | src/driver_station_rtc.cpp:279-288 | with one delivering thread the frame on its way to the callback is the newest one and not yet copied |
| StreamNotices.SuccessFindsItsOwnFrame | src/driver_station_rtc.cpp:279-288 | with one delivering thread and copies only on SUCCESS, a SUCCESS callback begins with its own frame newest and uncopied |
| StreamNotices.FrameStaysNewest | src/driver_station_rtc.cpp:279-288 | under the same conditions no frame is published while a SUCCESS callback runs |
| StreamNotices.FirstCopyTakesItsOwnFrame | src/latest_frame_store.cpp:14-51 | under the same conditions the first copy with a usable buffer inside a SUCCESS callback succeeds with exactly the frame of its own decode, unless the unread frames are a multiple of 2^64 |
| StreamProgress.RankDecreases | src/driver_station_rtc.cpp:59-97 | while the stream stops, every step that changes anything lowers the rank, save for a spurious wakeup of the stopper |
| StreamProgress.NeverStuck | src/driver_station_rtc.cpp:59-97 | every stopping state that is not stopped has an enabled step, whoever the stopper is |
| StreamProgress.StoppingIsBounded | src/driver_station_rtc.cpp:59-97 | a stopping run has no more steps than the rank, plus two for each spurious wakeup |
| StreamProgress.StopFinishes | src/driver_station_rtc.cpp:59-97 | any schedule of steps that change something brings `Stop` to its end within that bound |
| StreamProgress.AnyoneMayStop | src/driver_station_rtc.cpp:59-66 | every thread of the user, also one inside the callback, can stop a stream that nobody stops yet, and its call is what begins the stopping |
| StreamProgress.SecondStopIsIdle | src/driver_station_rtc.cpp:60-62 | a second `Stop` changes nothing |
| StreamProgress.RunToStopped | src/driver_station_rtc.cpp:59-97 | from every stopping state a run without spurious wakeups leads to the end of `Stop` |
| StreamObject.StreamImpl.ExchangeStopping | src/driver_station_rtc.cpp:60-62 | `stopping_.exchange(true)` is the step that makes its thread the stopper, or nothing if there is one |
| StreamObject.StreamImpl.TryEnter | src/driver_station_rtc.cpp:328-338 | the first section of `InvokeFrameCallback` waits exactly for an active callback of a stream that is not stopping, refuses exactly if stopping or without a callback, and otherwise takes the gate and hands callback and user data out; each as in the step |
| StreamObject.StreamImpl.LeaveCallback | src/driver_station_rtc.cpp:347-351 | the second section is the step that frees the gate |
| StreamObject.StreamImpl.CancelFrameCallback | src/driver_station_rtc.cpp:356-361 | the section drops the callback and waits exactly for a callback on another thread |
| StreamObject.StreamImpl.CancelMayReturn | src/driver_station_rtc.cpp:362-364 | the wait ends exactly if no callback is active |
| StreamObject.StreamImpl.StoreTransport | src/driver_station_rtc.cpp:160-164 | the worker's store is the step that adds the transport |
| StreamObject.StreamImpl.StoreSession | src/driver_station_rtc.cpp:200-203 | the worker's store is the step that adds the session |
| StreamObject.StreamImpl.TakeTransport | src/driver_station_rtc.cpp:76-81 | the stopper moves both members out and leaves them empty |
| StreamObject.StreamImpl.MarkGathered | src/driver_station_rtc.cpp:130-133 | the gathering callback is the step that sets the flag |
| StreamObject.StreamImpl.SetFailure | src/driver_station_rtc.cpp:368-383 | nothing happens to a stopping stream; otherwise state, message (kept, replaced or defaulted) and the decision to report are as in the step |
| KeyframeLimiter.Limiter.Request | src/driver_station_rtc.cpp:306-314 | the section is the step of a thread with this reading: it grants exactly if no time is recorded or a second has passed, and records the reading of a grant |
| KeyframeLimiter.InvKept | src/driver_station_rtc.cpp:295-317 | with stale readings, any clock and any interleaving, the recorded time is that of the last grant, and a grant not recorded at zero keeps the next one a second away |
| KeyframeLimiter.GrantedExactly | src/driver_station_rtc.cpp:306-314 | in every run a request is granted exactly if none was recorded, or the last was recorded at zero or at least 1 000 000 000 ns before its reading |
| KeyframeLimiter.ReadingIsOfClock | src/driver_station_rtc.cpp:304-304 | a thread carries the clock reading of the time when it read the clock |
| KeyframeLimiter.GrantsAreSpaced | src/driver_station_rtc.cpp:295-317 | in every run with a positive clock, grants are at least one second apart, in grant order |
| KeyframeLimiter.GrantsPerSpan | src/driver_station_rtc.cpp:295-317 | a span of n seconds holds at most n + 1 recorded grants |
| KeyframeLimiter.CloserExactlyBehindZero | src/driver_station_rtc.cpp:308-313 | in every run two grants in a row are closer than a second exactly if the first is recorded at time zero and the second before the first second |
| KeyframeLimiter.GrantAtZeroForgotten | src/driver_station_rtc.cpp:308-313 | a run with a grant at time zero and the next one a nanosecond later |
| ModuleInvariants.LifeKept | src/driver_station_rtc.cpp:436-487 | every step keeps: stopping implies not started, not started implies an empty table, one `StopModule` at a time, library calls in cycle |
| ModuleInvariants.PlacesKept | src/driver_station_rtc.cpp:424-549 | every step keeps table, hands of the threads and places in agreement |
| ModuleInvariants.EndsKept | src/driver_station_rtc.cpp:471-474 | every step keeps: stopped at most once, freed at most once, freed only after stopped |
| ModuleInvariants.HeapKept | src/driver_station_rtc.cpp:504-547 | handles in use are allocated and pairwise different, though addresses are reused |
| ModuleInvariants.TakenKept | src/driver_station_rtc.cpp:453-481 | what `StopModule` took is in its hands or freed |
| ModuleInvariants.InvKept | src/driver_station_rtc.cpp:436-549 | every step of every thread keeps the whole invariant of the module |
| ModuleInvariants.ReachableInv | src/driver_station_rtc.cpp:419-549 | the invariant holds in every state of every run |
| ModuleSafety.Lifecycle | src/driver_station_rtc.cpp:436-487 | in every run stopping implies not started, not started implies an empty table, and at most one `StopModule` is past its first section |
| ModuleSafety.PreloadAndCleanupAlternate | src/driver_station_rtc.cpp:436-487 | `rtcPreload` and `rtcCleanup` strictly alternate and never overlap |
| ModuleSafety.OneStopperForEachStream | src/driver_station_rtc.cpp:453-549 | every registered stream is in exactly one of: the table, the hands of one stopper, freed; stopped and freed at most once |
| ModuleSafety.HandlesDiffer | src/driver_station_rtc.cpp:424-431 | a handle in the table never names a stream that a stopper holds, and both are allocated |
| ModuleSafety.RegisteringAdds | src/driver_station_rtc.cpp:506-515 | a new handle is never in the table already, so registering always adds an entry |
| ModuleSafety.CleanupAfterAllTaken | src/driver_station_rtc.cpp:471-475 | before it cleans up, `StopModule` has stopped and freed every stream that it took |
| ModuleSafety.LeftAtCleanup | src/driver_station_rtc.cpp:453-481 | at the cleanup a stream is not freed exactly if a `StopStream` on another thread still holds it |
| ModuleSafety.CallsAreOpen | src/driver_station_rtc.cpp:436-549 | while nobody holds the module mutex every module function can be called from an idle thread, whatever the state of the module |
| ModuleSafety.StartModuleStarts | src/driver_station_rtc.cpp:436-451 | from a module that is neither started nor stopping `StartModule` preloads and starts it, and otherwise it changes nothing |
| ModuleSafety.StopStreamClaims | src/driver_station_rtc.cpp:526-542 | `StopStream` of a handle in the table takes exactly that stream out and into its hands |
| ModuleSafety.StopModuleClaims | src/driver_station_rtc.cpp:453-469 | `StopModule` of a started module takes every stream of the table into its hands, each once |
| ModuleSafety.RegisterRefuses | src/driver_station_rtc.cpp:506-513 | a stream that is refused leaves no trace, and its handle is freed |
| ModuleSafety.NoHandleLeaks | src/driver_station_rtc.cpp:453-549 | in every run, each handle that is still allocated is in the table, in the hands of a stopper, or being prepared |
| ModuleReturns.LeftWhenStopModuleReturns | src/driver_station_rtc.cpp:453-481 | when `StopModule` returns, a stream is not stopped exactly if a `StopStream` is still stopping it that was already under way when `StopModule` took its list; the same for streams not freed |
| ModuleReturns.StopModuleMayMiss | src/driver_station_rtc.cpp:453-481 | `StopModule` may return with a stream not stopped if and only if, at the time of the call, a `StopStream` is stopping that stream |
| ModuleReturns.FinishAlone | src/driver_station_rtc.cpp:471-481 | a `StopModule` that runs alone returns |
| ModuleReturns.ReturnsBeforeStreamStops | src/driver_station_rtc.cpp:453-549 | a run in which `StopModule` returns before the only stream is stopped |
| SystemInvariants.InvKept | src/driver_station_rtc.cpp:34-549 | every step of the module and of its streams keeps both invariants and their coupling: a stream that its stopper came back from is stopped, one in the table is not being stopped |
| SystemSafety.NoCallbackAfterStopStream | src/driver_station_rtc.cpp:526-549 | from before `StopStream` returns no callback of its stream begins, and none is in progress but one on the thread that stopped it |
| SystemSafety.LeftWhenStopModuleReturns | src/driver_station_rtc.cpp:453-487 | with the streams running, a stream not stopped at the return of `StopModule` was already being stopped when the list was taken |
| SystemSafety.CallbackAfterStopModule | src/driver_station_rtc.cpp:453-487 | a callback can begin after `StopModule` has returned if and only if a `StopStream` was stopping the stream all along and has not set the stopping flag, or somebody was admitted before |
| SystemProgress.StopStreamReturns | src/driver_station_rtc.cpp:526-549 | from every state in which a `StopStream` has claimed its stream, a run leads to its return, with the stream stopped and the handle freed |
| SystemRuns.CallbackBeginsAfterStopModule | src/driver_station_rtc.cpp:324-549 | a run in which a callback begins after `StopModule` has returned |
| ModuleObject.ModuleTable.StartModule | src/driver_station_rtc.cpp:436-451 | preloads exactly from the stopped state, succeeds if started, fails with invalid state while stopping |
| ModuleObject.ModuleTable.TakeAll | src/driver_station_rtc.cpp:457-469 | takes the whole table in some order and empties it, or nothing if the module is not started |
| ModuleObject.ModuleTable.FinishStop | src/driver_station_rtc.cpp:477-480 | the last section is the step that ends stopping |
| ModuleObject.ModuleTable.Register | src/driver_station_rtc.cpp:506-515 | refuses without a started module or without a decoder, otherwise adds the handle |
| ModuleObject.ModuleTable.Claim | src/driver_station_rtc.cpp:534-542 | gives the stream of a known handle to one caller and removes it, and rejects an unknown handle |
| RegistrationSafety.DrainerKept | nuget/WPILib.DriverStation.RtcClient/DriverStationRtc.cs:124-215 | every step keeps: draining is set exactly while the last started drain is unfinished, and all before it are done |
| RegistrationSafety.QueueKept | nuget/WPILib.DriverStation.RtcClient/DriverStationRtc.cs:124-215 | every step keeps: accepted = begun ++ in flight ++ pending until cancellation, a prefix afterwards, nothing pending with a live owner and no drainer |
| RegistrationSafety.SingleDrainer | nuget/WPILib.DriverStation.RtcClient/DriverStationRtc.cs:124-215 | in every run `draining` holds exactly if some drain is unfinished, and there is never more than one |
| RegistrationSafety.NothingLostOrReordered | nuget/WPILib.DriverStation.RtcClient/DriverStationRtc.cs:147-215 | callbacks begin in the order of acceptance, each for its own notification, and none that was accepted is lost or stranded before cancellation |
| RegistrationSafety.AcceptsEveryNotification | nuget/WPILib.DriverStation.RtcClient/DriverStationRtc.cs:124-184 | in every run what is accepted is exactly what the calls of `Notify` before the first `Cancel` brought, also those before `Attach` |
| RegistrationSafety.EveryNotificationIsDelivered | nuget/WPILib.DriverStation.RtcClient/DriverStationRtc.cs:124-215 | with a live attached owner and no cancellation, once no drain is at work every such call has had its callback, in order |
| RegistrationSafety.CallbackHasOwner | nuget/WPILib.DriverStation.RtcClient/DriverStationRtc.cs:190-209 | a callback only runs for an owner that is alive until it returns |
| RegistrationSafety.AtMostOneCallbackAfterCancel | nuget/WPILib.DriverStation.RtcClient/DriverStationRtc.cs:170-215 | after `Cancel` only the result already dequeued can still begin, and no `Notify` or `Attach` revives delivery |
| RegistrationSafety.CanceledStep | nuget/WPILib.DriverStation.RtcClient/DriverStationRtc.cs:124-184 | no step after cancellation accepts, queues or carries anything new |
| RegistrationSafety.DrainsGoOn | nuget/WPILib.DriverStation.RtcClient/DriverStationRtc.cs:186-215 | every step of a drain lowers its rank |
| RegistrationSafety.DrainFinishes | nuget/WPILib.DriverStation.RtcClient/DriverStationRtc.cs:186-215 | a drain ends within its rank, and then a live attached owner has got everything accepted |
| RegistrationObject.FrameRegistration.Attach | nuget/WPILib.DriverStation.RtcClient/DriverStationRtc.cs:124-145 | unless canceled the owner is attached, and the caller drains exactly if something is pending and nobody drains; each as in the step |
| RegistrationObject.FrameRegistration.Notify | nuget/WPILib.DriverStation.RtcClient/DriverStationRtc.cs:147-168 | unless canceled the result is queued behind the others, attached or not, and the caller drains exactly if attached and nobody drains; each as in the step |
| RegistrationObject.FrameRegistration.Cancel | nuget/WPILib.DriverStation.RtcClient/DriverStationRtc.cs:170-184 | the section is the step that empties the queue and forgets the owner |
| RegistrationObject.FrameRegistration.TakeNext | nuget/WPILib.DriverStation.RtcClient/DriverStationRtc.cs:192-204 | the section dequeues the first result exactly if not canceled, attached, alive and nonempty, and otherwise ends the drain |
| RegistrationObject.FrameRegistration.DrainAlone | nuget/WPILib.DriverStation.RtcClient/DriverStationRtc.cs:186-215 | undisturbed, the loop delivers every pending result once and in order, and stops draining |
| RegistrationObject.Register | nuget/WPILib.DriverStation.RtcClient/DriverStationRtc.cs:222-235 | finds the first context behind the counter that is not zero and not in use, also across a wrap of the counter |
| Text.Trim | src/whep_http.cpp:37-45 | the loops over both ends give the text without its outer white space |
| Text.TrimmedIsMiddle | src/whep_http.cpp:37-45 | a text is white space, its trimmed form, and white space |
| Text.TrimmedLower | src/whep_http.cpp:37-52 | trimming and lower-casing commute |
| Text.SpaceCharacters | src/whep_http.cpp:38-43 | white space is exactly the six characters 9 to 13 and 32 |
| Text.LowerLetters | src/whep_http.cpp:47-52 | lower-casing maps A to Z and nothing else |
| Text.DigitsInOrder | src/whep_http.cpp:168-177 | the digits have their values, hexadecimal ones in either case |
| Text.FromCharsReads | src/whep_http.cpp:121-126 | `std::from_chars` reads exactly the digits a text begins with, and refuses numbers that do not fit |
| Text.FromCharsRefuses | src/whep_http.cpp:121-126 | a text that begins with no digit is not a number |
| Text.DecimalTextDenotes | src/whep_http.cpp:332-332 | a number written in base ten, as into the Content-Length of the request, is read back |
| Url.SplitUrl | src/whep_http.cpp:64-86 | authority and target are the parts of the grammar: up to the first of "/?#", and the rest without its fragment |
| Url.SplitAuthority | src/whep_http.cpp:88-111 | host and port are those of the four authority forms |
| Url.ReadAuthority | src/whep_http.cpp:70-128 | the authority is connectable, or has the fault that is reported |
| Url.ParseUrl | src/whep_http.cpp:54-133 | accepts exactly the inputs of the grammar, with the record they denote, and each error names a fault of the input |
| Url.UrlUnique | src/whep_http.cpp:54-133 | an input denotes at most one record |
| Url.OptionalScheme | src/whep_http.cpp:54-58 | without "://" an input denotes what it denotes behind "http://" |
| Url.OtherSchemes | src/whep_http.cpp:59-62 | an input with another scheme denotes nothing |
| Url.WrittenUrl | src/whep_http.cpp:64-133 | each of the four authority forms with a port from 1 to 65535 or none, any path or query and any fragment denote exactly the record that is written in them, "/" added in front where the path is missing |
| Url.RefusedUrl | src/whep_http.cpp:70-129 | an empty authority, user information, an empty host, and a port that is no number from 1 to 65535 denote nothing |
| Url.PortNumber | src/whep_http.cpp:113-129 | a port is accepted exactly if its digits, however many, denote a number from 1 to 65535 |
| Url.ParsedTarget | src/whep_http.cpp:75-86 | a parsed target begins with "/" and has no fragment |
| Url.NormalForm | src/whep_http.cpp:54-133 | printing a parsed URL and parsing it again gives the identical record and no other |
| Url.BaseDirectory | src/whep_http.cpp:392-395 | the base is the path of the target up to its last slash before the query |
| Url.ResolveLocation | src/whep_http.cpp:368-398 | which Locations are refused, taken as they are, appended to the authority, or appended to the directory |
| Url.RelativeLocationKeepsAuthority | src/whep_http.cpp:368-398 | every relative Location resolves to a URL that parses to the endpoint's authority, host and port, and to the named target without its fragment |
| Url.DirectoryUnique | src/whep_http.cpp:392-396 | a target has one directory, so a Location names one target |
| Chunked.ReadChunkSize | src/whep_http.cpp:167-181 | the size is that of the whole line: cutting off the extension makes no difference |
| Chunked.ReadChunk | src/whep_http.cpp:161-196 | the checks on one chunk, with the subtraction of sizes as `std::size_t` does it |
| Chunked.DecodeChunkedBody | src/whep_http.cpp:157-200 | the loop ends and computes the decoding of the body |
| Chunked.DecodesGrammar | src/whep_http.cpp:157-200 | every chunked body within the limit, with any extensions and trailers, decodes to its payload |
| Chunked.DecodedIsGrammar | src/whep_http.cpp:157-200 | whatever decodes is a chunked body of the grammar, and the result is its payload |
| Chunked.DecodesExactlyTheGrammar | src/whep_http.cpp:157-200 | within 4 MiB decoding succeeds exactly on the chunked bodies, with exactly their payload |
| Chunked.NeverTooLarge | src/whep_http.cpp:187-198 | within 4 MiB the too-large branch is never taken, and the decoded bytes never outnumber those consumed |
| Chunked.NoSizeWraps | src/whep_http.cpp:187-193 | wherever a chunk size is subtracted from the limit it is no larger than the limit |
| Chunked.DecodesOnlyToPayload | src/whep_http.cpp:157-200 | a chunked body of any size decodes to nothing but its payload |
| Chunked.DecodedInExtension | src/whep_http.cpp:157-200 | a body that decodes gives the same result after any bytes are appended |
| Chunked.DecodesChunksFirst | src/whep_http.cpp:157-200 | behind any chunks decoding goes on with what follows them, and the chunks come first in the result |
| Chunked.HeaderIsMissing | src/whep_http.cpp:161-165 | behind any chunks, text without a line end is an incomplete chunk header |
| Chunked.SizeLineIsRefused | src/whep_http.cpp:167-196 | behind any chunks, which fault is reported: no number, or one that does not fit; fewer bytes than announced or no line end behind them; more than 4 MiB in all |
| Chunked.HexTextDenotes | src/whep_http.cpp:172-177 | a number written in hexadecimal is read back |
| Chunked.ChunkedRoundTrip | src/whep_http.cpp:157-200 | decoding the encoding of any nonempty chunks with any CRLF-free extensions, sizes written in either case, gives their concatenation |
| HttpResponses.StatusLineReads | src/whep_http.cpp:214-220 | a status line of any white space, a version, white space, a sign or none, and digits is accepted exactly if the version begins with HTTP/ and the number is 100 to 599, and that is the status |
| HttpResponses.StatusLineIsRefused | src/whep_http.cpp:214-220 | a first word that does not begin with HTTP/, and a line without a number behind it, are refused |
| HttpMessages.TakesField | src/whep_http.cpp:224-238 | a field line is read as its name, lower-cased, and its value, both without outer white space, up to its line end |
| HttpMessages.AppliedHolds | src/whep_http.cpp:234-238 | of several fields of one name the last one counts |
| HttpMessages.HeaderIsRefused | src/whep_http.cpp:203-207 | without an empty line that begins within the first 65536 bytes there is no header |
| HttpMessages.StatusIsRefused | src/whep_http.cpp:209-220 | a bad status line is reported whatever the fields are |
| HttpMessages.FieldIsRefused | src/whep_http.cpp:222-233 | behind any fields, a header line without a colon is reported, even if a colon stands behind the line |
| HttpMessages.FramingFields | src/whep_http.cpp:242-249 | Content-Length and Transfer-Encoding, as servers write them, are the two fields that frame a body |
| HttpResponses.ParseFields | src/whep_http.cpp:222-240 | the loop collects the fields of all lines of the header |
| HttpExchange.ParsesByField | src/whep_http.cpp:242-263 | without the chunked coding, a response whose last length field holds a number that the body reaches has exactly that many bytes as its body, and any other is refused as incomplete |
| ChunkedResponses.ParsesByDecoding | src/whep_http.cpp:242-247 | a response that names the chunked coding is read as what its body decodes to, or refused with the fault of the decoding, even beside a length field |
| HttpResponses.ParseResponse | src/whep_http.cpp:202-264 | computes the parse of the response that the lemmas below are about; two of its error branches are never taken |
| HttpResponses.FieldLinesEnd | src/whep_http.cpp:222-228 | no header line runs past the end of the header, so that branch is dead |
| HttpMessages.HeadEnds | src/whep_http.cpp:203-207 | the header end that is found in a response is that of its head |
| HttpMessages.NoHeaderEndYet | src/whep_http.cpp:266-270 | before the head has arrived no response is complete |
| HttpMessages.ParsesMessage | src/whep_http.cpp:202-240 | a well-formed head parses to its status and its fields, and the body is decided by them |
| HttpMessages.FindsKey | src/whep_http.cpp:272-281 | the search in the lower-cased header finds the first field of that name |
| HttpMessages.FindsNoKey | src/whep_http.cpp:272-281 | and finds nothing if no field has the name |
| HttpExchange.SendAll | src/whep_http.cpp:141-155 | what reaches the wire is a prefix of the request, and all of it exactly on success |
| HttpExchange.ReceiveResponse | src/whep_http.cpp:336-365 | the loop reports what the received bytes mean, for every ending of the connection |
| HttpExchange.CompleteByField | src/whep_http.cpp:266-289 | the first length field alone decides: a response is complete exactly if it holds a number and that many bytes have arrived |
| HttpExchange.WrittenLength | src/whep_http.cpp:272-289 | a Content-Length field with a number in base ten announces that number |
| HttpExchange.CompleteByLength | src/whep_http.cpp:266-289 | a response with one Content-Length is complete exactly when the declared number of bytes has arrived |
| HttpExchange.CompleteFromLength | src/whep_http.cpp:266-289 | the same on every prefix of a response, the head included |
| HttpExchange.StopsBehind | src/whep_http.cpp:336-358 | a loop whose test holds exactly from some point of the message on stops behind that point, and within one buffer of it |
| HttpExchange.ParsesLengthFramed | src/whep_http.cpp:242-263 | every prefix that reaches the declared end parses to the declared body |
| HttpExchange.LengthFramedForEveryFragmentation | src/whep_http.cpp:202-365 | every fragmentation of a response with one Content-Length, with anything of any length behind it, is reported with exactly the declared body, if what is received up to its end fits the limit |
| ChunkedResponses.CompleteByMarks | src/whep_http.cpp:291-297 | with one Transfer-Encoding and no length, a response is complete exactly by the marks in its body |
| ChunkedResponses.CompleteWithoutLength | src/whep_http.cpp:291-298 | without a length field a response is complete exactly if it has a transfer coding field, "chunked" stands anywhere in its head, and its body is 0 CRLF CRLF or holds CRLF 0 CRLF CRLF |
| ChunkedResponses.OnlyMarkIsLast | src/whep_http.cpp:291-297 | without marks in the chunks, the only mark of a chunked body is the one at its end, wherever it might straddle chunks |
| ChunkedResponses.PrematureExactlyOnMark | src/whep_http.cpp:266-298 | a chunked response is complete as a whole, and before its end exactly if a chunk holds the mark |
| ChunkedResponses.EmptyBodyAndMore | src/whep_http.cpp:291-297 | an empty chunked body with more bytes behind it is complete exactly if there are none, or they hold the mark |
| ChunkedResponses.CompleteFromEnd | src/whep_http.cpp:291-297 | without marks and with a chunk in the body, a message with anything behind it is complete exactly from its end on |
| ChunkedResponses.ParsesChunked | src/whep_http.cpp:202-247 | the chunked response, with anything behind it, parses to the concatenated data |
| ChunkedResponses.PrefixNeverParsesToLess | src/whep_http.cpp:202-247 | every prefix of a chunked response with anything behind it is refused or parses to the whole response |
| ChunkedResponses.NeverAnotherBody | src/whep_http.cpp:202-365 | for every fragmentation of any prefix, marks or not, the request fails or reports the concatenated data |
| ChunkedResponses.MarkedResponseIsRefused | src/whep_http.cpp:291-365 | a well-formed response in two fragments that is refused because its chunk holds the mark |
| ChunkedResponses.ChunkedForEveryFragmentation | src/whep_http.cpp:202-365 | without marks, every fragmentation of a chunked response, with anything behind it if it has a chunk, is reported with the concatenated data |
| ConnectionEnds.ReportedAtTheEnd | src/whep_http.cpp:336-365 | every fragmentation of a message that is never complete is reported as its parse when the connection is closed or reset, as the error when a read fails, and as too large above 4194304 bytes |
| ConnectionEnds.ParsesToTheEnd | src/whep_http.cpp:202-264 | a response with neither length nor chunked coding has everything behind its head as its body |
| ConnectionEnds.NeverEndsByItself | src/whep_http.cpp:266-298 | and no prefix of it is complete, whatever the body holds |
| ConnectionEnds.ClosedForEveryFragmentation | src/whep_http.cpp:202-365 | so every fragmentation of it is reported with exactly its body once the connection is closed or reset |
| ConnectionEnds.ShortForEveryFragmentation | src/whep_http.cpp:202-365 | every fragmentation of a body shorter than its Content-Length, or with one that is no number, is refused as incomplete once the connection is closed or reset |
| ConnectionEnds.HeaderlessForEveryFragmentation | src/whep_http.cpp:202-365 | every fragmentation of bytes without an empty line is refused |
| ConnectionEnds.FramedTwice | src/whep_http.cpp:202-298 | with both framings reading stops by the first length field, and what has been read is decoded as chunks |
| FrameConversion.ConvertsBt601 | src/frame_conversion.cpp:11-71 | every channel of every pixel is within one of the exact limited-range BT.601 conversion |
| FrameConversion.ConvertedPixel | src/frame_conversion.cpp:51-73 | byte 4c + k of row r of the output is within one of the BT.601 value of y[r * yStride + c], u and v[r / 2 * uvStride + c / 2], and its fourth byte is 255 |
| FrameConversion.WellFormedExactly | src/frame_conversion.cpp:28-34 | a picture is well-formed exactly if no plane is missing, its size is positive, its luma stride is at least its width, and its chroma stride at least half of it rounded up |
| FrameConversion.ReadSamples | src/frame_conversion.cpp:55-62 | the loop reads the luma sample of its pixel and the chroma samples of its block |
| FrameConversion.RoundedNear | src/frame_conversion.cpp:63-69 | adding 128 and shifting by 8 rounds to nearest, and clamping moves nothing further away |
| FrameConversion.SizeFitsExactly | src/frame_conversion.cpp:36-43 | the overflow check refuses exactly widths of 2^30 and more |
| FrameConversion.ConvertedAt | src/frame_conversion.cpp:45-73 | byte k of column c in row r of the output is channel k of that pixel, with the shared chroma sample |
| FrameConversion.Resize | src/frame_conversion.cpp:47-47 | the buffer gets the length and keeps what it held, also stale bytes |
| FrameConversion.ConvertRow | src/frame_conversion.cpp:51-72 | the inner loop fills exactly its row and leaves the rows before it alone |
| FrameConversion.ConvertI420ToBgra | src/frame_conversion.cpp:17-81 | which pictures are refused with which message and no effect, and that otherwise the whole buffer is the conversion, with no byte left over from before |
| LatestFrameStores.LatestFrameStore.constructor | src/latest_frame_store.hpp:21-25 | a new mailbox is empty and valid |
| LatestFrameStores.LatestFrameStore.Publish | src/latest_frame_store.cpp:8-12 | slot and frame change places, the counter wraps, the frame is appended to what was published, and every frame has length = stride * height |
| LatestFrameStores.LatestFrameStore.CopyNewest | src/latest_frame_store.cpp:14-51 | each outcome exactly; a success copies the newest frame and is later than every success before it; a failure consumes nothing; capacity never shrinks and covers the length; the reader's length stays stride * height in every outcome |
| LatestFrameStores.Fill | src/latest_frame_store.cpp:30-48 | pixels and metadata arrive in a buffer that is grown exactly if too small; without memory nothing changes |
| LatestFrameStores.WrappedEqual | src/latest_frame_store.cpp:16-16 | wrapped counters are equal exactly if the counts differ by a multiple of 2^64 |
| LatestFrameStores.ReleaseFrame | src/latest_frame_store.cpp:53-56 | the structure is zeroed and has no buffer |
| MailboxRuns.CountersMean | src/latest_frame_store.cpp:8-51 | the wrapping counters stand for the publications and the unread ones |
| MailboxRuns.NoFrameMeansNothingUnread | src/latest_frame_store.cpp:8-51 | in every run with fewer than 2^64 frames between successful copies, there is no frame exactly if nothing is unread |
| MailboxRuns.FullCycleIsLost | src/latest_frame_store.cpp:11-16 | n publications into a fresh mailbox are reported as no frame exactly if 2^64 divides n |
| FrameCopies.CopiedAt | nuget/WPILib.DriverStation.RtcClient/DriverStationRtcFrame.cs:133-138 | byte q of row r arrives at byte q of row r of the destination, and padding stays |
| FrameCopies.CopiedBehind | nuget/WPILib.DriverStation.RtcClient/DriverStationRtcFrame.cs:133-138 | what lies behind the last row stays |
| FrameCopies.ValidatesExactly | nuget/WPILib.DriverStation.RtcClient/DriverStationRtcFrame.cs:211-226 | a destination is refused exactly for a stride shorter than the rows, a size over 2147483647, or a buffer shorter than that size |
| FrameCopies.DriverStationRtcFrame.CopyRows | nuget/WPILib.DriverStation.RtcClient/DriverStationRtcFrame.cs:134-138 | behind the validation no checked product overflows, no slice is out of range, and the loop makes the copy |
| FrameCopies.DriverStationRtcFrame.CopyToSpan | nuget/WPILib.DriverStation.RtcClient/DriverStationRtcFrame.cs:126-139 | refuses exactly what the validation refuses, without writing; otherwise rows are in place and every other byte is as before |
| FrameCopies.DriverStationRtcFrame.CopyToAddress | nuget/WPILib.DriverStation.RtcClient/DriverStationRtcFrame.cs:149-172 | the same for an address, with the empty frame and the null pointer decided first |
| FrameCopies.DriverStationRtcFrame.Dispose | nuget/WPILib.DriverStation.RtcClient/DriverStationRtcFrame.cs:175-185 | the buffer is freed by the first call only, and only if there is one |
| FramePipelines.PixelsArrive | src/frame_conversion.cpp:51-73 | after conversion and strided copy, destination byte r*stride + 4c + k is channel k of source pixel (r, c) |
| FramePipelines.SamplesArrive | src/frame_conversion.cpp:51-73 | after conversion and strided copy, the bytes at r * stride + 4c are within one of the BT.601 values of the samples of pixel (r, c), and the fourth is 255 |
| FramePipelines.PaddingStays | nuget/WPILib.DriverStation.RtcClient/DriverStationRtcFrame.cs:126-139 | after conversion and strided copy, the padding of every row is what it was |
| FramePipelines.ShownWerePublished | src/latest_frame_store.cpp:8-51 | in every run of the pipeline without buffers, a reader shows only published pictures, and has room for them |
| FramePipelines.SuccessShowsNewest | src/latest_frame_store.cpp:14-51 | a copy that succeeds shows the picture published last, later than at every success before, and changes no other reader |
| FramePipelines.NoFrameShowsNone | src/latest_frame_store.cpp:16-24 | a reader that is told that there is no frame shows none, and nothing else changes |
| FramePipelines.PublishedOnce | src/latest_frame_store.cpp:8-12 | a converted picture is published once, and nothing without one |
| FramePipelines.StraightThrough | src/latest_frame_store.cpp:8-51 | a picture converted, published and copied in a row is shown, whatever happened before |
| FramePipelines.Pipeline.Convert | src/frame_conversion.cpp:17-81 | the working frame becomes the conversion of the picture, or stays as it was, and keeps length = stride * height |
| FramePipelines.Pipeline.Publish | src/latest_frame_store.cpp:8-12 | the converted picture is published, and the decoder gets the old buffer back |
| FramePipelines.Pipeline.Copy | src/latest_frame_store.cpp:14-51 | a reader gets the conversion of the newest published picture exactly if the copy succeeds, and its structure stays fit for the strided copies in every outcome |
| PipelineRuns.CopyFor | src/latest_frame_store.cpp:14-51 | one of many readers copies; the others keep what they show |
| PipelineRuns.Run | src/latest_frame_store.cpp:8-51 | after any interleaving of conversions, publications and copies by any number of readers, with or without memory, the buffers hold what the pipeline without buffers says |
| PipelineRuns.CopyOut | nuget/WPILib.DriverStation.RtcClient/DriverStationRtcFrame.cs:126-139 | a reader that shows a picture copies it out as exactly its conversion, row by row, or refuses as the validation does |
| PipelineRuns.Open | src/latest_frame_store.hpp:21-25 | a new pipeline with any number of new readers is where such a run can start |

## Left out

- Foreign code: Mbed TLS sockets, libdatachannel, OpenH264 and the SDP texts are oracles; what they do inside is not modelled.
- Exceptions from allocation in the C interface (for example while `StopModule` reserves its list) are not modelled; the module invariants are stated without them.
- Deadlocks across streams: two callbacks that stop each other's streams wait for each other; progress is proved for one stream.
- Whether closing the peer connection waits for a library callback that is blocked on `gathering_mutex_` depends on libdatachannel and is not modelled.
- A second concurrent `StopModule` returns at once, and so does a second `Stop` of the same stream; nothing is claimed about what is finished by then.
- Finality of the STOPPED state and "no publication after stop" need `resetCallbacks` to wait for running callbacks, which is not visible in this repository.
- Lost wakeups of `gathering_cv_`: `Stop` notifies it without the mutex, so only the time-out bounds that wait; in the model the wait may end as soon as its predicate holds.
- The short leaf locks (`error_mutex_`, `transport_mutex_`, `keyframe_request_mutex_`, the mailbox's own) are taken inside atomic sections, and so is the decoder mutex of a new stream under the module mutex; the order is stated for the locks that are held across steps.
- The guards of `RequestKeyframe` in front of the limiter (stopping, no track, track not open) only drop requests and are not modelled.
- RegistrationObject.Register: assumes that not all contexts are in use, because the source loops for ever otherwise, and models one caller at a time.
- Finalizers, `SafeHandle` reference counts and the garbage collector: the managed owner is a flag that goes from alive to dead once.
- Full reference resolution of section 5.2 of RFC 3986: the code does no dot-segment removal and treats "//host" as a path.
- The request text, `StartWhepSession` and `StopWhepSession`, and the wording of error messages add only easy members.
- FrameConversion.ConvertI420ToBgra: assumes that the planes of a well-formed picture are as long as their metadata says, which is the decoder's promise; a failing allocation of the output is not modelled.
