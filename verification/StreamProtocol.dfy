/**
  One native stream as a transition system (`StreamImpl` of driver_station_rtc.cpp).

  Every step is one critical section, one atomic access, or one call to foreign code. Any number of threads take
  part: the worker thread of the stream, threads of the WebRTC library that deliver frames and state changes, and
  the threads of the user, one of which stops the stream.
  */
module StreamProtocol {
  import opened Wrappers
  import Mailbox = LatestFrameStores

  /** A thread is an index into the sequence of threads of a state. */
  type Thread = nat

  const NETWORK_ERROR: int := -5
  const DECODE_ERROR: int := -6
  const INTERNAL_ERROR: int := -7

  /** What a callback is told: the frame of a publication, or an error code. */
  datatype Notice = Frame(publication: nat) | Problem(code: int)

  // ---------------------------------------------------------------- the callback gate

  /** The members that `frame_callback_mutex_` guards, and the atomic flag `stopping_`. */
  datatype Gate = Gate(stopping: bool, hasCallback: bool, active: bool, caller: Option<Thread>)

  datatype Admission = Wait | Refuse | Admit

  /** The wait predicate of `InvokeFrameCallback` and the test behind it. */
  function AdmissionOf(g: Gate): Admission {
    if !g.stopping && g.active then Wait
    else if g.stopping || !g.hasCallback then Refuse
    else Admit
  }

  function Entered(g: Gate, t: Thread): Gate {
    if AdmissionOf(g) == Admit then g.(active := true, caller := Some(t)) else g
  }

  function Left(g: Gate): Gate {
    g.(active := false, caller := None)
  }

  function Cancelled(g: Gate): Gate {
    g.(hasCallback := false)
  }

  /** Whether `CancelFrameCallback` has to wait for a callback on another thread. */
  predicate MustWait(g: Gate, stopper: Thread) {
    g.active && g.caller != Some(stopper)
  }

  // ---------------------------------------------------------------- where the threads are

  /** Where a thread is in `OnEncodedFrame` and `InvokeFrameCallback`. */
  datatype Phase =
    | Outside
    | Decoding                   // holds decoder_mutex_, and has seen that the stream is not stopping
    | Entering(notice: Notice)   // is about to lock frame_callback_mutex_ and test the wait predicate
    | Sleeping(notice: Notice)   // waits on frame_callback_cv_
    | Admitted(notice: Notice)   // has released the mutex and is about to call the user
    | Calling(notice: Notice)    // runs the user's callback
    | Leaving                    // is about to lock the mutex again
    | Waking                     // is about to notify frame_callback_cv_

  /** Where the worker is in `Run`; `locked` says that it holds gathering_mutex_. */
  datatype Work =
    | Setup
    | StoreTransport(transport: nat)
    | Offer
    | Gather
    | CheckGathered
    | Post
    | StoreSession(url: string)
    | CheckStored
    | Answer
    | Failing(code: int, locked: bool)
    | Reporting(locked: bool)
    | Finished

  /** Where the stopping thread is in `Stop`. */
  datatype StopPhase =
    | NotStopped
    | Cancelling
    | CancelAsleep
    | CancelAwake
    | Joining
    | Taking
    | Closing(transport: Option<nat>, url: string)
    | Deleting(url: string)
    | Finishing
    | Stopped

  /** What has happened so far. Transports and sessions are numbered and named as the worker stored them. */
  datatype Log = Log(
    begun: seq<Notice>,
    transports: seq<nat>,
    sessions: seq<string>,
    closed: seq<nat>,
    deleted: seq<string>)

  datatype State = State(
    gate: Gate,
    threads: seq<Phase>,
    worker: Option<Thread>,
    work: Work,
    stopper: Option<Thread>,
    stop: StopPhase,
    decoderOwner: Option<Thread>,
    gatheringOwner: Option<Thread>,
    gathered: bool,
    transport: Option<nat>,
    session: string,
    published: nat,
    consumed: nat,
    log: Log)

  datatype DecodeOutcome = NothingYet | FrameProduced | FatalError

  datatype WorkStep = Proceed | Built(transport: nat) | Throw(code: int) | TimeOut | Posted(url: string)

  /** What a reader brings to `CopyNewest`: is the buffer valid, and is there room for the frame or memory to make it? */
  datatype Buffer = Usable | Invalid | NoRoom

  datatype Action =
    | CallStop(t: Thread)
    | FrameArrives(t: Thread)
    | DecodeEnds(t: Thread, outcome: DecodeOutcome)
    | PeerFails(t: Thread)
    | Enter(t: Thread)
    | WakeSpuriously(t: Thread)
    | Begin(t: Thread)
    | Return(t: Thread)
    | Leave(t: Thread)
    | Notify(t: Thread)
    | CandidatesGathered
    | WorkerStep(step: WorkStep)
    | StopStep
    | WakeStopperSpuriously
    | CopyFrame(t: Thread, buffer: Buffer)

  // ---------------------------------------------------------------- steps

  /** The thread is inside `Stop`, so its other activities stand still. */
  predicate InStop(s: State, t: Thread) {
    s.stopper == Some(t) && s.stop != Stopped
  }

  /** A library thread that is free to deliver something. */
  predicate CanDeliver(s: State, t: Thread) {
    t < |s.threads| && s.threads[t] == Outside && s.worker != Some(t) && !InStop(s, t)
  }

  /** `notify_all`: every sleeping thread will test its predicate again. */
  function AllAwake(threads: seq<Phase>): (r: seq<Phase>)
    ensures |r| == |threads|
    ensures forall i | 0 <= i < |threads| ::
      r[i] == if threads[i].Sleeping? then Entering(threads[i].notice) else threads[i]
  {
    seq(|threads|, i requires 0 <= i < |threads| =>
      if threads[i].Sleeping? then Entering(threads[i].notice) else threads[i])
  }

  predicate WorkerCan(s: State, step: WorkStep)
    requires s.worker.Some?
  {
    match s.work
    case Setup => step.Built? || step == Throw(INTERNAL_ERROR)
    case StoreTransport(_) => step.Proceed?
    case Offer => step.Proceed? || step == Throw(INTERNAL_ERROR)
    case Gather =>
      s.gatheringOwner.None? && (if s.gathered || s.gate.stopping then step.Proceed? else step.TimeOut?)
    case CheckGathered => step.Proceed?
    case Post => step.Posted? || step == Throw(INTERNAL_ERROR) || step == Throw(NETWORK_ERROR)
    case StoreSession(_) => step.Proceed?
    case CheckStored => step.Proceed?
    case Answer => step.Proceed? || step == Throw(INTERNAL_ERROR)
    case Failing(_, _) => step.Proceed?
    case Reporting(_) => step.Proceed? && s.worker.value < |s.threads| && s.threads[s.worker.value] == Outside
    case Finished => false
  }

  predicate StopperCan(s: State) {
    match s.stop
    case NotStopped => false
    case CancelAsleep => false
    case Joining => s.worker.None? || s.worker == s.stopper || s.work == Finished
    case Stopped => false
    case _ => true
  }

  predicate Enabled(s: State, a: Action) {
    match a
    case CallStop(t) =>
      && t < |s.threads| && !InStop(s, t)
      && (s.threads[t].Calling? || (s.threads[t] == Outside && s.worker != Some(t)))
    case FrameArrives(t) => CanDeliver(s, t) && s.decoderOwner.None? && !s.gate.stopping
    case DecodeEnds(t, _) => t < |s.threads| && s.threads[t] == Decoding
    case PeerFails(t) => CanDeliver(s, t) && !s.gate.stopping
    case Enter(t) => t < |s.threads| && s.threads[t].Entering?
    case WakeSpuriously(t) => t < |s.threads| && s.threads[t].Sleeping?
    case Begin(t) => t < |s.threads| && s.threads[t].Admitted?
    case Return(t) => t < |s.threads| && s.threads[t].Calling? && !InStop(s, t)
    case Leave(t) => t < |s.threads| && s.threads[t] == Leaving
    case Notify(t) => t < |s.threads| && s.threads[t] == Waking
    case CandidatesGathered => s.gatheringOwner.None?
    case WorkerStep(step) => s.worker.Some? && WorkerCan(s, step)
    case StopStep => s.stopper.Some? && StopperCan(s)
    case WakeStopperSpuriously => s.stop == CancelAsleep
    case CopyFrame(t, _) => t < |s.threads|
  }

  /** `CopyNewest` compares 64-bit counters, of which `published` and `consumed` are the values without wrapping. */
  function CopyOutcome(s: State, buffer: Buffer): Mailbox.Outcome {
    if Mailbox.Wrapped(s.published) == Mailbox.Wrapped(s.consumed) then Mailbox.NoFrame
    else
      match buffer
      case Usable => Mailbox.Success
      case Invalid => Mailbox.InvalidArgument
      case NoRoom => Mailbox.OutOfMemory
  }

  function AfterEnter(s: State, t: Thread): State
    requires t < |s.threads| && s.threads[t].Entering?
  {
    var notice := s.threads[t].notice;
    var phase := match AdmissionOf(s.gate)
      case Wait => Sleeping(notice)
      case Refuse => Outside
      case Admit => Admitted(notice);
    s.(gate := Entered(s.gate, t), threads := s.threads[t := phase])
  }

  function AfterNotify(s: State, t: Thread): State
    requires t < |s.threads|
  {
    s.(threads := AllAwake(s.threads)[t := Outside],
       stop := if s.stop == CancelAsleep then CancelAwake else s.stop)
  }

  function AfterDecode(s: State, t: Thread, outcome: DecodeOutcome): State
    requires t < |s.threads|
  {
    match outcome
    case NothingYet => s.(decoderOwner := None, threads := s.threads[t := Outside])
    case FatalError => s.(decoderOwner := None, threads := s.threads[t := Entering(Problem(DECODE_ERROR))])
    case FrameProduced =>
      s.(decoderOwner := None, published := s.published + 1, threads := s.threads[t := Entering(Frame(s.published + 1))])
  }

  function AfterWork(s: State, step: WorkStep): State
    requires s.worker.Some? && WorkerCan(s, step)
  {
    if step.Throw? then s.(work := Failing(step.code, false))
    else
      match s.work
      case Setup => if step.Built? then s.(work := StoreTransport(step.transport)) else s
      case StoreTransport(transport) =>
        s.(work := Offer, transport := Some(transport), log := s.log.(transports := s.log.transports + [transport]))
      case Offer => s.(work := Gather)
      case Gather =>
        if step.Proceed? then s.(work := CheckGathered)
        else s.(work := Failing(NETWORK_ERROR, true), gatheringOwner := s.worker)
      case CheckGathered => s.(work := if s.gate.stopping then Finished else Post)
      case Post => if step.Posted? then s.(work := StoreSession(step.url)) else s
      case StoreSession(url) =>
        s.(work := CheckStored, session := url,
           log := s.log.(sessions := s.log.sessions + if url == "" then [] else [url]))
      case CheckStored => s.(work := if s.gate.stopping then Finished else Answer)
      case Answer => s.(work := Finished)
      case Failing(code, locked) =>
        if s.gate.stopping || s.worker.value >= |s.threads| then
          s.(work := Finished, gatheringOwner := if locked then None else s.gatheringOwner)
        else
          s.(work := Reporting(locked), threads := s.threads[s.worker.value := Entering(Problem(code))])
      case Reporting(locked) =>
        s.(work := Finished, gatheringOwner := if locked then None else s.gatheringOwner)
      case Finished => s
  }

  function AfterStop(s: State): State
    requires s.stopper.Some? && StopperCan(s)
  {
    match s.stop
    case NotStopped => s
    case Cancelling =>
      s.(gate := Cancelled(s.gate), threads := AllAwake(s.threads),
         stop := if MustWait(s.gate, s.stopper.value) then CancelAsleep else Joining)
    case CancelAsleep => s
    case CancelAwake => s.(stop := if s.gate.active then CancelAsleep else Joining)
    case Joining => s.(stop := Taking)
    case Taking => s.(stop := Closing(s.transport, s.session), transport := None, session := "")
    case Closing(transport, url) =>
      s.(stop := Deleting(url),
         log := s.log.(closed := s.log.closed + if transport.Some? then [transport.value] else []))
    case Deleting(url) =>
      s.(stop := Finishing, log := s.log.(deleted := s.log.deleted + if url == "" then [] else [url]))
    case Finishing => s.(stop := Stopped)
    case Stopped => s
  }

  /** The state after an enabled action. */
  function Next(s: State, a: Action): State
    requires Enabled(s, a)
  {
    match a
    case CallStop(t) =>
      if s.gate.stopping then s else s.(gate := s.gate.(stopping := true), stopper := Some(t), stop := Cancelling)
    case FrameArrives(t) => s.(decoderOwner := Some(t), threads := s.threads[t := Decoding])
    case DecodeEnds(t, outcome) => AfterDecode(s, t, outcome)
    case PeerFails(t) => s.(threads := s.threads[t := Entering(Problem(NETWORK_ERROR))])
    case Enter(t) => AfterEnter(s, t)
    case WakeSpuriously(t) => s.(threads := s.threads[t := Entering(s.threads[t].notice)])
    case Begin(t) =>
      s.(threads := s.threads[t := Calling(s.threads[t].notice)],
         log := s.log.(begun := s.log.begun + [s.threads[t].notice]))
    case Return(t) => s.(threads := s.threads[t := Leaving])
    case Leave(t) => s.(gate := Left(s.gate), threads := s.threads[t := Waking])
    case Notify(t) => AfterNotify(s, t)
    case CandidatesGathered => s.(gathered := true)
    case WorkerStep(step) => AfterWork(s, step)
    case StopStep => AfterStop(s)
    case WakeStopperSpuriously => s.(stop := CancelAwake)
    case CopyFrame(t, buffer) => if CopyOutcome(s, buffer) == Mailbox.Success then s.(consumed := s.published) else s
  }

  /** A stream that has just been started, with its worker, or one whose decoder failed and that has none. */
  predicate Init(s: State) {
    && s.gate == Gate(false, true, false, None)
    && (forall t | 0 <= t < |s.threads| :: s.threads[t] == Outside)
    && (if s.worker.Some? then s.worker.value < |s.threads| && s.work == Setup else s.work == Finished)
    && s.stopper.None? && s.stop == NotStopped
    && s.decoderOwner.None? && s.gatheringOwner.None? && !s.gathered
    && s.transport.None? && s.session == ""
    && s.published == 0 && s.consumed == 0
    && s.log == Log([], [], [], [], [])
  }

  // ---------------------------------------------------------------- runs

  /** The states of a run: each one follows from the one before by an enabled action. */
  ghost predicate IsRunFrom(states: seq<State>, actions: seq<Action>) {
    && |states| == |actions| + 1
    && forall i | 0 <= i < |actions| ::
        Enabled(states[i], actions[i]) && states[i + 1] == Next(states[i], actions[i])
  }

  ghost predicate IsRun(states: seq<State>, actions: seq<Action>) {
    IsRunFrom(states, actions) && Init(states[0])
  }
}
