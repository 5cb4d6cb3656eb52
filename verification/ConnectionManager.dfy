/**
 The connection lifecycle of the mobile client.  Everything runs on one thread; a call to the native
 side is issued by a microtask, and what follows an `await` is a later step of its own.  User actions
 and native completions may come in any order.
 */
module ConnectionManager {
  import opened Prelude

  datatype Phase = Idle | Connecting | WaitingVideo | Streaming | Failed | Disconnecting | CleanupFailed

  /** Error messages are nonempty; only their identity matters. */
  type Message = nat

  /** A call of connect: queued, at the native side, back with a result, waiting for a cleanup, or over. */
  datatype ConnectStage = ConnectQueued | ConnectInFlight | ConnectSettled(error: Option<Message>)
    | AwaitingCleanup(cleanup: Option<nat>) | ConnectDone

  datatype ConnectCall = ConnectCall(generation: nat, stage: ConnectStage)

  datatype CleanupStage = CleanupQueued | CleanupInFlight | CleanupSettled(error: Option<Message>)
    | CleanupFinished | CleanupDone

  /** A run of the cleanup; `waitsFor` is the connect call that was pending when it began. */
  datatype Cleanup = Cleanup(generation: nat, retainError: bool, waitsFor: Option<nat>, stage: CleanupStage)

  datatype Task = IssueConnect(id: nat) | IssueDisconnect(id: nat)

  /** The calls into the native side and their results, in the order in which they happen. */
  datatype NativeEvent =
    | ConnectIssued(id: nat)
    | ConnectReturned(id: nat, ok: bool)
    | DisconnectIssued(id: nat)
    | DisconnectReturned(id: nat, ok: bool)

  datatype State = State(
    hasNative: bool,
    phase: Phase, generation: nat, hasOwnedSession: bool,
    lastError: Option<Message>, cleanupError: Option<Message>,
    pendingConnect: Option<nat>, pendingCleanup: Option<nat>,
    connects: seq<ConnectCall>, cleanups: seq<Cleanup>, polls: seq<Option<nat>>,
    tasks: seq<Task>, log: seq<NativeEvent>)

  function Initial(hasNative: bool): State {
    State(hasNative, Idle, 0, false, None, None, None, None, [], [], [], [], [])
  }

  const NO_CONTROLS: Message := 0

  // ----- the synchronous parts

  /** Nothing is owned and nothing is going on that a cleanup could end. */
  predicate NothingToCleanUp(s: State) { !s.hasOwnedSession && (s.phase.Idle? || s.phase.Failed?) }

  function BeginCleanup(s: State, retainError: bool): State {
    var id := |s.cleanups|;
    s.(generation := s.generation + 1,
       phase := Disconnecting,
       cleanupError := None,
       lastError := if retainError then s.lastError else None,
       cleanups := s.cleanups + [Cleanup(s.generation + 1, retainError, s.pendingConnect,
                                         if s.hasNative then CleanupQueued else CleanupSettled(None))],
       pendingCleanup := Some(id),
       tasks := if s.hasNative then s.tasks + [IssueDisconnect(id)] else s.tasks)
  }

  function DisconnectInternal(s: State, retainError: bool): State {
    if s.pendingCleanup.Some? then s
    else if NothingToCleanUp(s) then
      if s.phase.Failed? && !retainError then s.(phase := Idle, lastError := None) else s
    else BeginCleanup(s, retainError)
  }

  predicate Busy(s: State) {
    s.hasOwnedSession || s.pendingCleanup.Some? || s.pendingConnect.Some? || s.phase.CleanupFailed?
  }

  /** A connect request; `invalid` is what validation finds wrong with it. */
  function Connect(s: State, invalid: Option<Message>): State {
    if Busy(s) then s
    else if invalid.Some? then s.(lastError := invalid)
    else if !s.hasNative then
      s.(generation := s.generation + 1, phase := Failed, lastError := Some(NO_CONTROLS), cleanupError := None)
    else
      s.(generation := s.generation + 1, phase := Connecting, lastError := None, cleanupError := None,
         hasOwnedSession := true,
         connects := s.connects + [ConnectCall(s.generation + 1, ConnectQueued)],
         pendingConnect := Some(|s.connects|),
         tasks := s.tasks + [IssueConnect(|s.connects|)])
  }

  function RetryCleanup(s: State): State {
    if s.pendingCleanup.Some? then s
    else if s.phase.CleanupFailed? || s.cleanupError.Some? || s.hasOwnedSession then
      var t := if s.lastError.Some? && s.lastError == s.cleanupError then s.(lastError := None) else s;
      DisconnectInternal(t, t.lastError.Some?)
    else s
  }

  function DismissError(s: State): State {
    if s.hasOwnedSession || s.phase.CleanupFailed? then DisconnectInternal(s, false)
    else s.(lastError := None, cleanupError := None, phase := if s.phase.Failed? then Idle else s.phase)
  }

  function FrameRendered(s: State, generation: nat): State {
    if generation == s.generation && s.phase.WaitingVideo? then s.(phase := Streaming) else s
  }

  predicate Live(s: State) { s.phase.WaitingVideo? || s.phase.Streaming? }

  function PollStats(s: State): State {
    if s.hasNative && Live(s) then s.(polls := s.polls + [Some(s.generation)]) else s
  }

  /** The session turns out to be over: an error, and a cleanup that keeps it. */
  function FailWith(s: State, error: Message): State {
    DisconnectInternal(s.(phase := Failed, lastError := Some(error)), true)
  }

  // ----- microtasks and native completions

  function RunTask(s: State): State {
    if s.tasks == [] then s
    else
      var t := s.(tasks := s.tasks[1..]);
      match s.tasks[0]
      case IssueConnect(id) =>
        if id >= |s.connects| then t
        else
          t.(connects := s.connects[id := s.connects[id].(stage := ConnectInFlight)],
             log := s.log + [ConnectIssued(id)])
      case IssueDisconnect(id) =>
        if id >= |s.cleanups| then t
        else
          t.(cleanups := s.cleanups[id := s.cleanups[id].(stage := CleanupInFlight)],
             log := s.log + [DisconnectIssued(id)])
  }

  function ConnectReturns(s: State, id: nat, error: Option<Message>): State {
    if id < |s.connects| && s.connects[id].stage.ConnectInFlight? then
      s.(connects := s.connects[id := s.connects[id].(stage := ConnectSettled(error))],
         log := s.log + [ConnectReturned(id, error.None?)])
    else s
  }

  function DisconnectReturns(s: State, id: nat, error: Option<Message>): State {
    if id < |s.cleanups| && s.cleanups[id].stage.CleanupInFlight? then
      s.(cleanups := s.cleanups[id := s.cleanups[id].(stage := CleanupSettled(error))],
         log := s.log + [DisconnectReturned(id, error.None?)])
    else s
  }

  /** The connect call is over and no longer pending. */
  function EndConnect(s: State, id: nat): State
    requires id < |s.connects|
  {
    s.(connects := s.connects[id := s.connects[id].(stage := ConnectDone)],
       pendingConnect := if s.pendingConnect == Some(id) then None else s.pendingConnect)
  }

  /** What follows the await of the native connect; a call of an older generation just ends. */
  function ConnectContinues(s: State, id: nat): State {
    if id < |s.connects| && s.connects[id].stage.ConnectSettled? then
      if s.connects[id].generation != s.generation then EndConnect(s, id)
      else
        match s.connects[id].stage.error
        case None => EndConnect(s.(phase := WaitingVideo), id)
        case Some(e) =>
          var t := FailWith(s, e);
          t.(connects := t.connects[id := t.connects[id].(stage := AwaitingCleanup(t.pendingCleanup))])
    else s
  }

  predicate CleanupOver(s: State, k: Option<nat>) {
    k.Some? ==> k.value < |s.cleanups| && s.cleanups[k.value].stage.CleanupDone?
  }

  /** What follows the await of the cleanup after a failed connect. */
  function ConnectEnds(s: State, id: nat): State {
    if id < |s.connects| && s.connects[id].stage.AwaitingCleanup? && CleanupOver(s, s.connects[id].stage.cleanup)
    then EndConnect(s, id)
    else s
  }

  predicate ConnectHasSettled(s: State, id: Option<nat>) {
    id.Some? ==>
      id.value < |s.connects| &&
      !s.connects[id.value].stage.ConnectQueued? && !s.connects[id.value].stage.ConnectInFlight?
  }

  /** What follows both awaits of a cleanup: the native disconnect and the connect that was pending. */
  function CleanupContinues(s: State, id: nat): State {
    if id < |s.cleanups| && s.cleanups[id].stage.CleanupSettled? && ConnectHasSettled(s, s.cleanups[id].waitsFor) then
      var c := s.cleanups[id];
      var t := s.(cleanups := s.cleanups[id := c.(stage := CleanupFinished)]);
      match c.stage.error
      case Some(e) =>
        t.(cleanupError := Some(e), lastError := if s.lastError.None? then Some(e) else s.lastError,
           phase := CleanupFailed, hasOwnedSession := true)
      case None =>
        t.(hasOwnedSession := false, cleanupError := None,
           phase := if c.retainError && s.lastError.Some? then Failed else Idle)
    else s
  }

  /** The finally part of a cleanup. */
  function CleanupEnds(s: State, id: nat): State {
    if id < |s.cleanups| && s.cleanups[id].stage.CleanupFinished? then
      s.(cleanups := s.cleanups[id := s.cleanups[id].(stage := CleanupDone)],
         pendingCleanup := if s.pendingCleanup == Some(id) then None else s.pendingCleanup)
    else s
  }

  /** The answer to a poll: all is well, or the session is over; an answer to an older generation is dropped. */
  function PollReturns(s: State, i: nat, error: Option<Message>): State {
    if i < |s.polls| && s.polls[i].Some? then
      var t := s.(polls := s.polls[i := None]);
      if s.polls[i].value != s.generation || error.None? then t else FailWith(t, error.value)
    else s
  }

  datatype Event =
    | UserConnect(invalid: Option<Message>)
    | UserDisconnect
    | UserRetry
    | UserDismiss
    | UserPoll
    | Rendered(generation: nat)
    | Microtask
    | NativeConnect(id: nat, error: Option<Message>)
    | NativeDisconnect(id: nat, error: Option<Message>)
    | AfterConnect(id: nat)
    | AfterConnectCleanup(id: nat)
    | AfterDisconnect(id: nat)
    | FinallyDisconnect(id: nat)
    | AfterPoll(i: nat, error: Option<Message>)

  function Step(s: State, e: Event): State {
    match e
    case UserConnect(invalid) => Connect(s, invalid)
    case UserDisconnect => DisconnectInternal(s, false)
    case UserRetry => RetryCleanup(s)
    case UserDismiss => DismissError(s)
    case UserPoll => PollStats(s)
    case Rendered(generation) => FrameRendered(s, generation)
    case Microtask => RunTask(s)
    case NativeConnect(id, error) => ConnectReturns(s, id, error)
    case NativeDisconnect(id, error) => DisconnectReturns(s, id, error)
    case AfterConnect(id) => ConnectContinues(s, id)
    case AfterConnectCleanup(id) => ConnectEnds(s, id)
    case AfterDisconnect(id) => CleanupContinues(s, id)
    case FinallyDisconnect(id) => CleanupEnds(s, id)
    case AfterPoll(i, error) => PollReturns(s, i, error)
  }

  // ----- the implementation

  class Manager {
    const hasNative: bool
    var phase: Phase
    var generation: nat
    var hasOwnedSession: bool
    var lastError: Option<Message>
    var cleanupError: Option<Message>
    var pendingConnect: Option<nat>
    var pendingCleanup: Option<nat>
    var connects: seq<ConnectCall>
    var cleanups: seq<Cleanup>
    var polls: seq<Option<nat>>
    var tasks: seq<Task>
    var log: seq<NativeEvent>

    function Abs(): State
      reads this
    {
      State(hasNative, phase, generation, hasOwnedSession, lastError, cleanupError,
            pendingConnect, pendingCleanup, connects, cleanups, polls, tasks, log)
    }

    constructor (hasNative: bool)
      ensures Abs() == Initial(hasNative)
    {
      this.hasNative := hasNative;
      phase, generation, hasOwnedSession := Idle, 0, false;
      lastError, cleanupError, pendingConnect, pendingCleanup := None, None, None, None;
      connects, cleanups, polls, tasks, log := [], [], [], [], [];
    }

    method ConnectTo(invalid: Option<Message>)
      modifies this
      ensures Abs() == Connect(old(Abs()), invalid)
    {
      if hasOwnedSession || pendingCleanup != None || pendingConnect != None || phase == CleanupFailed { return; }
      if invalid.Some? {
        lastError := invalid;
        return;
      }
      generation := generation + 1;
      phase := Connecting;
      lastError := None;
      cleanupError := None;
      if !hasNative {
        phase := Failed;
        lastError := Some(NO_CONTROLS);
        return;
      }
      hasOwnedSession := true;
      pendingConnect := Some(|connects|);
      tasks := tasks + [IssueConnect(|connects|)];
      connects := connects + [ConnectCall(generation, ConnectQueued)];
    }

    method Disconnect(retainError: bool)
      modifies this
      ensures Abs() == DisconnectInternal(old(Abs()), retainError)
    {
      ghost var s := Abs();
      if pendingCleanup != None { return; }
      if !hasOwnedSession && phase != CleanupFailed && phase != Connecting && phase != WaitingVideo
         && phase != Streaming && phase != Disconnecting {
        if phase == Failed && !retainError {
          phase := Idle;
          lastError := None;
        }
        return;
      }
      assert !NothingToCleanUp(s);
      generation := generation + 1;
      var connectToSettle := pendingConnect;
      phase := Disconnecting;
      cleanupError := None;
      if !retainError {
        lastError := None;
      }
      pendingCleanup := Some(|cleanups|);
      if hasNative {
        tasks := tasks + [IssueDisconnect(|cleanups|)];
      }
      cleanups := cleanups + [Cleanup(generation, retainError, connectToSettle,
                                      if hasNative then CleanupQueued else CleanupSettled(None))];
      assert Abs() == BeginCleanup(s, retainError);
    }

    method Retry()
      modifies this
      ensures Abs() == RetryCleanup(old(Abs()))
    {
      if pendingCleanup != None { return; }
      if phase == CleanupFailed || cleanupError != None || hasOwnedSession {
        if lastError != None && lastError == cleanupError {
          lastError := None;
        }
        Disconnect(lastError != None);
      }
    }

    method Dismiss()
      modifies this
      ensures Abs() == DismissError(old(Abs()))
    {
      if hasOwnedSession || phase == CleanupFailed {
        Disconnect(false);
        return;
      }
      lastError := None;
      cleanupError := None;
      if phase == Failed {
        phase := Idle;
      }
    }

    method MarkFrameRendered(gen: nat)
      modifies this
      ensures Abs() == FrameRendered(old(Abs()), gen)
    {
      if gen != generation { return; }
      if phase == WaitingVideo {
        phase := Streaming;
      }
    }

    method StartPoll()
      modifies this
      ensures Abs() == PollStats(old(Abs()))
    {
      if !hasNative || (phase != WaitingVideo && phase != Streaming) { return; }
      polls := polls + [Some(generation)];
    }

    method FinishPoll(i: nat, error: Option<Message>)
      requires i < |polls| && polls[i].Some?
      modifies this
      ensures Abs() == PollReturns(old(Abs()), i, error)
    {
      var gen := polls[i].value;
      polls := polls[i := None];
      if gen != generation { return; }
      if error.Some? {
        lastError := error;
        phase := Failed;
        Disconnect(true);
      }
    }

    method ContinueConnect(id: nat)
      requires id < |connects| && connects[id].stage.ConnectSettled?
      modifies this
      ensures Abs() == ConnectContinues(old(Abs()), id)
    {
      var error := connects[id].stage.error;
      if connects[id].generation != generation {
        FinallyConnect(id);
      } else if error.None? {
        phase := WaitingVideo;
        FinallyConnect(id);
      } else {
        phase := Failed;
        lastError := error;
        Disconnect(true);
        connects := connects[id := connects[id].(stage := AwaitingCleanup(pendingCleanup))];
      }
    }

    method FinallyConnect(id: nat)
      requires id < |connects|
      modifies this
      ensures Abs() == EndConnect(old(Abs()), id)
    {
      connects := connects[id := connects[id].(stage := ConnectDone)];
      if pendingConnect == Some(id) {
        pendingConnect := None;
      }
    }

    method ContinueCleanup(id: nat)
      requires id < |cleanups| && cleanups[id].stage.CleanupSettled? && ConnectHasSettled(Abs(), cleanups[id].waitsFor)
      modifies this
      ensures Abs() == CleanupContinues(old(Abs()), id)
    {
      var nativeError, retainError := cleanups[id].stage.error, cleanups[id].retainError;
      cleanups := cleanups[id := cleanups[id].(stage := CleanupFinished)];
      if nativeError.Some? {
        cleanupError := nativeError;
        if lastError == None {
          lastError := nativeError;
        }
        phase := CleanupFailed;
        hasOwnedSession := true;
      } else {
        hasOwnedSession := false;
        cleanupError := None;
        phase := if retainError && lastError != None then Failed else Idle;
      }
    }

    method FinallyCleanup(id: nat)
      requires id < |cleanups| && cleanups[id].stage.CleanupFinished?
      modifies this
      ensures Abs() == CleanupEnds(old(Abs()), id)
    {
      cleanups := cleanups[id := cleanups[id].(stage := CleanupDone)];
      if pendingCleanup == Some(id) {
        pendingCleanup := None;
      }
    }
  }
}
