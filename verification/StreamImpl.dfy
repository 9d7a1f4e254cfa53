/**
  The critical sections of `StreamImpl` over its members. Each method is the code between one lock and its unlock,
  or one atomic access, and is proved to be the step of that name in every state that shows the same members.
  */
module StreamObject {
  import opened Wrappers
  import opened StreamProtocol

  datatype StreamState = Connecting | Running | Failed | HasStopped

  const NO_MESSAGE: string := "The stream failed without an error message"

  class StreamImpl {
    var stopping: bool
    var frameCallback: Option<nat>
    var frameUserData: nat
    var frameCallbackActive: bool
    var frameCallbackThread: Option<Thread>
    var gatheringComplete: bool
    var transport: Option<nat>
    var sessionUrl: string
    var state: StreamState
    var error: string

    constructor (callback: nat, userData: nat)
      ensures Callback() == Gate(false, true, false, None)
      ensures frameCallback == Some(callback) && frameUserData == userData
      ensures transport.None? && sessionUrl == "" && !gatheringComplete && state == Connecting && error == ""
    {
      stopping, frameCallback, frameUserData := false, Some(callback), userData;
      frameCallbackActive, frameCallbackThread := false, None;
      gatheringComplete, transport, sessionUrl, state, error := false, None, "", Connecting, "";
    }

    function Callback(): Gate
      reads this
    {
      Gate(stopping, frameCallback.Some?, frameCallbackActive, frameCallbackThread)
    }

    /** The members are those of the state. */
    predicate Shows(s: State)
      reads this
    {
      s.gate == Callback() && s.gathered == gatheringComplete && s.transport == transport && s.session == sessionUrl
    }

    /** `stopping_.exchange(true)` at the start of `Stop`, called on thread `self`. */
    method ExchangeStopping(self: Thread) returns (was: bool)
      modifies this`stopping
      ensures was == old(stopping) && stopping
      ensures forall s: State | old(Shows(s)) && Enabled(s, CallStop(self)) ::
        && Shows(Next(s, CallStop(self)))
        && (was <==> Next(s, CallStop(self)) == s)
        && (!was <==> Next(s, CallStop(self)).stop == Cancelling && Next(s, CallStop(self)).stopper == Some(self))
    {
      was := stopping;
      stopping := true;
    }

    /**
      The first section of `InvokeFrameCallback`: the wait predicate, and what follows once it holds. An admitted
      thread is given the callback and its user data.
      */
    method TryEnter(self: Thread) returns (admission: Admission, target: Option<(nat, nat)>)
      modifies this`frameCallbackActive, this`frameCallbackThread
      ensures admission == Wait <==> !stopping && old(frameCallbackActive)
      ensures admission == Refuse <==> stopping || (!old(frameCallbackActive) && frameCallback.None?)
      ensures admission == Admit ==> frameCallbackActive && frameCallbackThread == Some(self)
      ensures admission != Admit ==>
        frameCallbackActive == old(frameCallbackActive) && frameCallbackThread == old(frameCallbackThread)
      ensures target.Some? <==> admission == Admit
      ensures admission == Admit ==> frameCallback.Some? && target.value == (frameCallback.value, frameUserData)
      ensures forall s: State | old(Shows(s)) && Enabled(s, Enter(self)) ::
        && Shows(Next(s, Enter(self)))
        && var phase := Next(s, Enter(self)).threads[self];
        && (admission == Wait <==> phase.Sleeping?)
        && (admission == Refuse <==> phase == Outside)
        && (admission == Admit <==> phase.Admitted?)
    {
      if !(stopping || !frameCallbackActive) {
        return Wait, None;
      }
      if stopping || frameCallback == None {
        return Refuse, None;
      }
      target := Some((frameCallback.value, frameUserData));
      frameCallbackActive := true;
      frameCallbackThread := Some(self);
      admission := Admit;
    }

    /** The second section of `InvokeFrameCallback`. */
    method LeaveCallback(self: Thread)
      modifies this`frameCallbackActive, this`frameCallbackThread
      ensures !frameCallbackActive && frameCallbackThread.None?
      ensures forall s: State | old(Shows(s)) && Enabled(s, Leave(self)) :: Shows(Next(s, Leave(self)))
    {
      frameCallbackActive := false;
      frameCallbackThread := None;
    }

    /** `CancelFrameCallback` up to its wait; `wait` says whether it has to wait. */
    method CancelFrameCallback(self: Thread) returns (wait: bool)
      modifies this`frameCallback, this`frameUserData
      ensures frameCallback.None? && frameUserData == 0
      ensures wait <==> frameCallbackActive && frameCallbackThread != Some(self)
      ensures forall s: State | old(Shows(s)) && s.stop == Cancelling && s.stopper == Some(self) ::
        && Shows(Next(s, StopStep))
        && (wait <==> Next(s, StopStep).stop == CancelAsleep)
        && (!wait <==> Next(s, StopStep).stop == Joining)
    {
      frameCallback := None;
      frameUserData := 0;
      wait := frameCallbackActive && frameCallbackThread != Some(self);
    }

    /** The wait predicate of `CancelFrameCallback`, tested after a wakeup. */
    method CancelMayReturn() returns (done: bool)
      ensures done <==> !frameCallbackActive
      ensures forall s: State | Shows(s) && s.stop == CancelAwake && s.stopper.Some? ::
        && Shows(Next(s, StopStep))
        && (done <==> Next(s, StopStep).stop == Joining)
    {
      done := !frameCallbackActive;
    }

    /** `Run` publishes the peer connection and the track. */
    method StoreTransport(built: nat)
      modifies this`transport
      ensures transport == Some(built)
      ensures forall s: State | old(Shows(s)) && s.work == Work.StoreTransport(built) && s.worker.Some? ::
        Shows(Next(s, WorkerStep(Proceed)))
    {
      transport := Some(built);
    }

    /** `Run` publishes the URL of the session. */
    method StoreSession(url: string)
      modifies this`sessionUrl
      ensures sessionUrl == url
      ensures forall s: State | old(Shows(s)) && s.work == Work.StoreSession(url) && s.worker.Some? ::
        Shows(Next(s, WorkerStep(Proceed)))
    {
      sessionUrl := url;
    }

    /** `Stop` moves the members out, and they are empty afterwards. */
    method TakeTransport() returns (taken: Option<nat>, url: string)
      modifies this`transport, this`sessionUrl
      ensures taken == old(transport) && url == old(sessionUrl) && transport.None? && sessionUrl == ""
      ensures forall s: State | old(Shows(s)) && s.stop == Taking && s.stopper.Some? ::
        Shows(Next(s, StopStep)) && Next(s, StopStep).stop == Closing(taken, url)
    {
      taken, url := transport, sessionUrl;
      transport, sessionUrl := None, "";
    }

    /** The callback of the peer connection that all candidates have been gathered. */
    method MarkGathered()
      modifies this`gatheringComplete
      ensures gatheringComplete
      ensures forall s: State | old(Shows(s)) && Enabled(s, CandidatesGathered) :: Shows(Next(s, CandidatesGathered))
    {
      gatheringComplete := true;
    }

    /**
      `SetFailure` up to its call of `InvokeFrameCallback`; `report` says whether it gets there. The worker always
      replaces an error message, a failed peer connection only fills an empty one.
      */
    method SetFailure(message: string, replaceExisting: bool) returns (report: bool)
      modifies this`error, this`state
      ensures report == !stopping
      ensures !report ==> error == old(error) && state == old(state)
      ensures report ==> state == Failed && error != ""
      ensures report && !replaceExisting && old(error) != "" ==> error == old(error)
      ensures report && (replaceExisting || old(error) == "") ==>
        error == if message == "" then "The stream failed without an error message" else message
      ensures forall s: State | old(Shows(s)) && s.work.Failing? && Enabled(s, WorkerStep(Proceed))
                                && s.worker.value < |s.threads| ::
        Shows(Next(s, WorkerStep(Proceed))) && (report <==> Next(s, WorkerStep(Proceed)).work.Reporting?)
    {
      if stopping {
        return false;
      }
      if replaceExisting || error == "" {
        error := if message == "" then NO_MESSAGE else message;
      }
      state := Failed;
      report := true;
    }
  }
}
