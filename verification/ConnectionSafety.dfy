/** Safety of the connection lifecycle in every run: every order of user actions and native completions. */
module ConnectionSafety {
  import opened Prelude
  import opened ConnectionManager

  function Run(s: State, es: seq<Event>): State {
    if es == [] then s else Step(Run(s, es[..|es| - 1]), es[|es| - 1])
  }

  // ----- which activations can be going on

  predicate ConnectOpen(c: ConnectCall) { !c.stage.ConnectDone? }

  predicate ConnectUndecided(c: ConnectCall) {
    c.stage.ConnectQueued? || c.stage.ConnectInFlight? || c.stage.ConnectSettled?
  }

  /** Only the last connect call can be open; it is the pending one. */
  ghost predicate OneConnect(s: State) {
    var n := |s.connects|;
    && (forall i :: 0 <= i < n - 1 ==> s.connects[i].stage.ConnectDone?)
    && s.pendingConnect == (if n > 0 && ConnectOpen(s.connects[n - 1]) then Some(n - 1) else None)
  }

  /** Only the last cleanup can be open; it is the pending one, and of the current generation. */
  ghost predicate OneCleanup(s: State) {
    var n := |s.cleanups|;
    && (forall i :: 0 <= i < n - 1 ==> s.cleanups[i].stage.CleanupDone?)
    && s.pendingCleanup == (if n > 0 && !s.cleanups[n - 1].stage.CleanupDone? then Some(n - 1) else None)
    && (s.pendingCleanup.Some? ==> s.cleanups[n - 1].generation == s.generation)
  }

  predicate LastConnectQueued(s: State) { s.connects != [] && s.connects[|s.connects| - 1].stage.ConnectQueued? }

  predicate LastCleanupQueued(s: State) { s.cleanups != [] && s.cleanups[|s.cleanups| - 1].stage.CleanupQueued? }

  /** The microtasks still to run: the connect first, then the disconnect. */
  ghost predicate TasksInOrder(s: State) {
    s.tasks == (if LastConnectQueued(s) then [IssueConnect(|s.connects| - 1)] else [])
             + (if LastCleanupQueued(s) then [IssueDisconnect(|s.cleanups| - 1)] else [])
  }

  /** A cleanup that has not decided the outcome yet. */
  predicate CleanupUndecided(s: State) {
    s.cleanups != [] &&
    var stage := s.cleanups[|s.cleanups| - 1].stage;
    stage.CleanupQueued? || stage.CleanupInFlight? || stage.CleanupSettled?
  }

  /** The phase says who owns a session and what is going on. */
  ghost predicate PhaseAgrees(s: State) {
    && (s.hasOwnedSession <==> !s.phase.Idle? && !s.phase.Failed?)
    && (s.phase.Disconnecting? <==> CleanupUndecided(s))
    && (s.phase.Connecting? || Live(s) ==> s.pendingCleanup.None?)
    && (!s.hasNative ==> !s.hasOwnedSession && s.connects == [] && s.cleanups == [])
  }

  /** Undecided connects and unanswered polls of the current generation exist only in their phases. */
  ghost predicate GenerationsAgree(s: State) {
    && (forall i :: 0 <= i < |s.connects| && ConnectUndecided(s.connects[i]) ==>
          s.connects[i].generation <= s.generation &&
          (s.connects[i].generation == s.generation ==> s.phase.Connecting?))
    && (forall i :: 0 <= i < |s.polls| && s.polls[i].Some? ==>
          s.polls[i].value <= s.generation && (s.polls[i].value == s.generation ==> Live(s)))
  }

  /** A pending cleanup waits for the connect that was pending when it began. */
  ghost predicate CleanupWaits(s: State) {
    CleanupUndecided(s) ==>
      var w := s.cleanups[|s.cleanups| - 1].waitsFor;
      (w.Some? ==> w.value == |s.connects| - 1) && (w.None? ==> s.pendingConnect.None?)
  }

  /** A connect that has not come back from the native side owns the session. */
  ghost predicate ConnectOwns(s: State) {
    s.connects != [] && !ConnectHasSettled(s, Some(|s.connects| - 1)) ==>
      s.hasOwnedSession
  }

  ghost predicate Invariant(s: State) {
    && OneConnect(s) && OneCleanup(s) && TasksInOrder(s) && PhaseAgrees(s) && GenerationsAgree(s)
    && CleanupWaits(s) && ConnectOwns(s)
  }

  lemma InitialInvariant(hasNative: bool)
    ensures Invariant(Initial(hasNative))
  {
  }

  lemma BeginCleanupKeeps(s: State, retainError: bool)
    requires OneConnect(s) && OneCleanup(s) && TasksInOrder(s)
    requires s.pendingCleanup.None? && s.hasOwnedSession && s.hasNative
    requires
      forall i :: 0 <= i < |s.connects| && ConnectUndecided(s.connects[i]) ==> s.connects[i].generation <= s.generation
    requires forall i :: 0 <= i < |s.polls| && s.polls[i].Some? ==> s.polls[i].value <= s.generation
    ensures Invariant(BeginCleanup(s, retainError))
  {
    var t := BeginCleanup(s, retainError);
    NewCleanupIsTheOnlyOne(s, retainError);
    assert GenerationsAgree(t) by { hide OneConnect, OneCleanup, TasksInOrder; }
    assert PhaseAgrees(t) && CleanupWaits(t) && ConnectOwns(t) by { hide TasksInOrder; }
  }

  lemma NewCleanupIsTheOnlyOne(s: State, retainError: bool)
    requires OneConnect(s) && OneCleanup(s) && TasksInOrder(s) && s.pendingCleanup.None? && s.hasNative
    ensures
      var t := BeginCleanup(s, retainError);
      && OneConnect(t) && OneCleanup(t) && TasksInOrder(t) && CleanupUndecided(t) && t.pendingCleanup.Some?
      && t.cleanups[|t.cleanups| - 1].waitsFor == s.pendingConnect
  {
    var t := BeginCleanup(s, retainError);
    assert |t.cleanups| == |s.cleanups| + 1;
    assert !LastCleanupQueued(s);
  }

  lemma ConnectKeeps(s: State, invalid: Option<Message>)
    requires Invariant(s)
    ensures Invariant(Connect(s, invalid))
  {
    hide OneConnect, OneCleanup, TasksInOrder, PhaseAgrees, GenerationsAgree, CleanupWaits, ConnectOwns, Invariant;
    if !Busy(s) {
      if invalid.Some? {
        MessagesDoNotMatter(s, Connect(s, invalid));
      } else if s.hasNative {
        NewConnectKeeps(s);
      } else {
        UnavailableConnectKeeps(s);
      }
    }
  }

  lemma UnavailableConnectKeeps(s: State)
    requires Invariant(s) && !Busy(s) && !s.hasNative
    ensures Invariant(Connect(s, None))
  {
  }

  lemma NewConnectKeeps(s: State)
    requires Invariant(s) && !Busy(s) && s.hasNative
    ensures Invariant(Connect(s, None))
  {
    var t := Connect(s, None);
    NewConnectIsTheOnlyOne(s);
    assert GenerationsAgree(t);
    assert PhaseAgrees(t) && CleanupWaits(t) && ConnectOwns(t);
  }

  lemma NewConnectIsTheOnlyOne(s: State)
    requires OneConnect(s) && OneCleanup(s) && TasksInOrder(s) && !Busy(s) && s.hasNative
    ensures OneConnect(Connect(s, None)) && OneCleanup(Connect(s, None)) && TasksInOrder(Connect(s, None))
  {
    var t := Connect(s, None);
    assert t.connects[|t.connects| - 1] == ConnectCall(s.generation + 1, ConnectQueued);
    assert !LastConnectQueued(s) && !LastCleanupQueued(s);
    assert t.tasks == [IssueConnect(|t.connects| - 1)];
  }

  lemma DisconnectKeeps(s: State, retainError: bool)
    requires Invariant(s)
    ensures Invariant(DisconnectInternal(s, retainError))
  {
    if s.pendingCleanup.None? && !NothingToCleanUp(s) {
      BeginCleanupKeeps(s, retainError);
    }
  }

  lemma FailWithKeeps(s: State, error: Message)
    requires Invariant(s) && (s.phase.Connecting? || Live(s))
    ensures Invariant(FailWith(s, error)) && FailWith(s, error).pendingCleanup.Some?
    ensures FailWith(s, error).connects == s.connects && FailWith(s, error).polls == s.polls
    ensures FailWith(s, error).generation == s.generation + 1 && FailWith(s, error).pendingConnect == s.pendingConnect
  {
    hide GenerationsAgree, CleanupWaits, ConnectOwns, Invariant;
    var failed := s.(phase := Failed, lastError := Some(error));
    FailWithBeginsCleanup(s, error);
    FailingKeepsParts(s, failed);
    BeginCleanupKeeps(failed, true);
  }

  lemma FailWithBeginsCleanup(s: State, error: Message)
    requires Invariant(s) && (s.phase.Connecting? || Live(s))
    ensures FailWith(s, error) == BeginCleanup(s.(phase := Failed, lastError := Some(error)), true)
    ensures s.pendingCleanup.None? && s.hasOwnedSession && s.hasNative
  {
  }

  lemma FailingKeepsParts(s: State, t: State)
    requires Invariant(s) && t == s.(phase := t.phase, lastError := t.lastError)
    ensures OneConnect(t) && OneCleanup(t) && TasksInOrder(t)
    ensures
      forall i :: 0 <= i < |t.connects| && ConnectUndecided(t.connects[i]) ==> t.connects[i].generation <= t.generation
    ensures forall i :: 0 <= i < |t.polls| && t.polls[i].Some? ==> t.polls[i].value <= t.generation
  {
    hide PhaseAgrees, CleanupWaits, ConnectOwns;
  }

  lemma RetryKeeps(s: State)
    requires Invariant(s)
    ensures Invariant(RetryCleanup(s))
  {
    hide DisconnectInternal, OneConnect, OneCleanup, TasksInOrder, GenerationsAgree, CleanupWaits, PhaseAgrees;
    var t := if s.lastError.Some? && s.lastError == s.cleanupError then s.(lastError := None) else s;
    MessagesDoNotMatter(s, t);
    DisconnectKeeps(t, t.lastError.Some?);
  }

  lemma MessagesDoNotMatter(s: State, t: State)
    requires Invariant(s) && t == s.(lastError := t.lastError, cleanupError := t.cleanupError)
    ensures Invariant(t)
  {
  }

  lemma DismissKeeps(s: State)
    requires Invariant(s)
    ensures Invariant(DismissError(s))
  {
    hide Invariant, DisconnectInternal;
    if s.hasOwnedSession || s.phase.CleanupFailed? {
      DisconnectKeeps(s, false);
    } else {
      ClearingKeeps(s, DismissError(s));
    }
  }

  /** Clearing the errors, and with them a failed phase, of a session that is not there. */
  lemma ClearingKeeps(s: State, t: State)
    requires Invariant(s) && t == s.(lastError := None, cleanupError := None, phase := t.phase)
    requires t.phase == s.phase || (s.phase.Failed? && t.phase.Idle?)
    ensures Invariant(t)
  {
    hide OneConnect, OneCleanup, TasksInOrder, CleanupWaits, ConnectOwns, GenerationsAgree, PhaseAgrees;
    ClearingKeepsCalls(s, t);
    ClearingKeepsPhases(s, t);
  }

  lemma ClearingKeepsCalls(s: State, t: State)
    requires t == s.(lastError := None, cleanupError := None, phase := t.phase)
    ensures OneConnect(t) == OneConnect(s) && OneCleanup(t) == OneCleanup(s) && TasksInOrder(t) == TasksInOrder(s)
  {
  }

  lemma ClearingKeepsPhases(s: State, t: State)
    requires t == s.(lastError := None, cleanupError := None, phase := t.phase)
    requires t.phase == s.phase || (s.phase.Failed? && t.phase.Idle?)
    ensures CleanupWaits(s) && ConnectOwns(s) && GenerationsAgree(s) && PhaseAgrees(s) ==>
              CleanupWaits(t) && ConnectOwns(t) && GenerationsAgree(t) && PhaseAgrees(t)
  {
  }

  lemma PollKeeps(s: State)
    requires Invariant(s)
    ensures Invariant(PollStats(s))
  {
    hide TasksInOrder, OneConnect, OneCleanup;
    SameButPolls(s, PollStats(s));
  }

  lemma SameButPolls(s: State, t: State)
    requires t == s.(polls := t.polls)
    ensures OneConnect(t) == OneConnect(s) && OneCleanup(t) == OneCleanup(s) && TasksInOrder(t) == TasksInOrder(s)
  {
  }

  lemma RenderedKeeps(s: State, generation: nat)
    requires Invariant(s)
    ensures Invariant(FrameRendered(s, generation))
  {
  }

  lemma RunTaskKeeps(s: State)
    requires Invariant(s)
    ensures Invariant(RunTask(s))
  {
    hide GenerationsAgree, PhaseAgrees, CleanupWaits, ConnectOwns;
    if s.tasks != [] {
      if LastConnectQueued(s) {
        assert s.tasks[0] == IssueConnect(|s.connects| - 1);
        IssueConnectKeeps(s);
      } else {
        assert s.tasks == [IssueDisconnect(|s.cleanups| - 1)];
        IssueDisconnectKeeps(s);
      }
    }
  }

  lemma IssueConnectKeeps(s: State)
    requires Invariant(s) && LastConnectQueued(s) && s.tasks != [] && s.tasks[0] == IssueConnect(|s.connects| - 1)
    ensures Invariant(RunTask(s))
  {
    var t := RunTask(s);
    assert OneConnect(t) && OneCleanup(t) && TasksInOrder(t) by { hide GenerationsAgree, PhaseAgrees, CleanupWaits; }
    assert GenerationsAgree(t) by { hide TasksInOrder, OneCleanup, PhaseAgrees; }
    assert PhaseAgrees(t) && CleanupWaits(t) && ConnectOwns(t) by { hide TasksInOrder, GenerationsAgree; }
  }

  lemma IssueDisconnectKeeps(s: State)
    requires Invariant(s) && LastCleanupQueued(s) && s.tasks == [IssueDisconnect(|s.cleanups| - 1)]
    ensures Invariant(RunTask(s))
  {
    var t := RunTask(s);
    assert !LastConnectQueued(s);
    assert OneConnect(t) && OneCleanup(t) && TasksInOrder(t) by { hide GenerationsAgree, PhaseAgrees, CleanupWaits; }
    assert GenerationsAgree(t) by { hide TasksInOrder, OneCleanup, PhaseAgrees; }
    assert PhaseAgrees(t) && CleanupWaits(t) && ConnectOwns(t) by { hide TasksInOrder, GenerationsAgree; }
  }

  lemma ConnectReturnsKeeps(s: State, id: nat, error: Option<Message>)
    requires Invariant(s)
    ensures Invariant(ConnectReturns(s, id, error))
  {
  }

  lemma DisconnectReturnsKeeps(s: State, id: nat, error: Option<Message>)
    requires Invariant(s)
    ensures Invariant(DisconnectReturns(s, id, error))
  {
  }

  lemma EndConnectKeeps(s: State, id: nat)
    requires Invariant(s) && id < |s.connects| && !ConnectUndecided(s.connects[id])
    ensures Invariant(EndConnect(s, id))
  {
    hide Invariant;
    if s.connects[id].stage.ConnectDone? {
      EndingAgainKeeps(s, id);
    } else {
      EndingKeeps(s, id, s.phase);
    }
  }

  lemma EndingAgainKeeps(s: State, id: nat)
    requires Invariant(s) && id < |s.connects| && s.connects[id].stage.ConnectDone?
    ensures EndConnect(s, id) == s && Invariant(EndConnect(s, id))
  {
    hide OneCleanup, TasksInOrder, PhaseAgrees, GenerationsAgree, CleanupWaits, ConnectOwns;
  }

  /** A connect that has come back ends; with its generation still current, it may begin to wait for video. */
  lemma EndingKeeps(s: State, id: nat, phase: Phase)
    requires Invariant(s) && id < |s.connects|
    requires s.connects[id].stage.ConnectSettled? || s.connects[id].stage.AwaitingCleanup?
    requires
      || phase == s.phase
      || (phase.WaitingVideo? && s.connects[id].stage.ConnectSettled? && s.connects[id].generation == s.generation)
    ensures Invariant(EndConnect(s.(phase := phase), id))
  {
    var t := EndConnect(s.(phase := phase), id);
    assert OneConnect(t) && OneCleanup(t) && TasksInOrder(t) && CleanupWaits(t) && ConnectOwns(t) by {
      hide GenerationsAgree, PhaseAgrees;
    }
    assert GenerationsAgree(t) && PhaseAgrees(t) by { hide TasksInOrder, CleanupWaits, ConnectOwns; }
  }

  lemma ConnectContinuesKeeps(s: State, id: nat)
    requires Invariant(s)
    ensures Invariant(ConnectContinues(s, id))
  {
    hide Invariant, EndConnect, FailWith;
    if id < |s.connects| && s.connects[id].stage.ConnectSettled? {
      if s.connects[id].generation != s.generation {
        EndingKeeps(s, id, s.phase);
      } else if s.connects[id].stage.error.None? {
        EndingKeeps(s, id, WaitingVideo);
      } else {
        SettledConnectIsConnecting(s, id);
        FailWithKeeps(s, s.connects[id].stage.error.value);
        AwaitingKeeps(FailWith(s, s.connects[id].stage.error.value), id);
      }
    }
  }

  lemma SettledConnectIsConnecting(s: State, id: nat)
    requires Invariant(s) && id < |s.connects| && s.connects[id].stage.ConnectSettled?
    requires s.connects[id].generation == s.generation
    ensures s.phase.Connecting?
  {
    hide OneConnect, OneCleanup, TasksInOrder, PhaseAgrees, CleanupWaits, ConnectOwns;
  }

  /** A connect that has come back with an error waits for the cleanup it has begun. */
  lemma AwaitingKeeps(s: State, id: nat)
    requires Invariant(s) && id < |s.connects| && s.connects[id].stage.ConnectSettled?
    ensures
      Invariant(s.(connects := s.connects[id := s.connects[id].(stage := AwaitingCleanup(s.pendingCleanup))]))
  {
    var t := s.(connects := s.connects[id := s.connects[id].(stage := AwaitingCleanup(s.pendingCleanup))]);
    assert OneConnect(t) && OneCleanup(t) && TasksInOrder(t) && CleanupWaits(t) && ConnectOwns(t) by {
      hide GenerationsAgree, PhaseAgrees;
    }
    assert GenerationsAgree(t) && PhaseAgrees(t) by { hide TasksInOrder, CleanupWaits, ConnectOwns; }
  }

  lemma ConnectEndsKeeps(s: State, id: nat)
    requires Invariant(s)
    ensures Invariant(ConnectEnds(s, id))
  {
    if ConnectEnds(s, id) != s {
      EndConnectKeeps(s, id);
    }
  }

  lemma CleanupContinuesKeeps(s: State, id: nat)
    requires Invariant(s)
    ensures Invariant(CleanupContinues(s, id))
  {
    var t := CleanupContinues(s, id);
    if t != s {
      assert id == |s.cleanups| - 1 by { OnlyLastCleanupIsOpen(s, id); }
      SettledCleanupIsCurrent(s, t);
      assert OneConnect(t) && GenerationsAgree(t) && CleanupWaits(t) && ConnectOwns(t) by {
        hide OneCleanup, TasksInOrder;
      }
      assert PhaseAgrees(t);
    }
  }

  lemma OnlyLastCleanupIsOpen(s: State, id: nat)
    requires OneCleanup(s) && id < |s.cleanups| && !s.cleanups[id].stage.CleanupDone?
    ensures id == |s.cleanups| - 1
  {
  }

  /** The end of a cleanup changes only the last one, which was out of the queue already. */
  lemma SettledCleanupIsCurrent(s: State, t: State)
    requires OneCleanup(s) && TasksInOrder(s) && s.cleanups != []
    requires
      var c := s.cleanups[|s.cleanups| - 1];
      c.stage.CleanupSettled? && t.cleanups == s.cleanups[|s.cleanups| - 1 := c.(stage := CleanupFinished)]
    requires t.pendingCleanup == s.pendingCleanup && t.generation == s.generation
    requires t.connects == s.connects && t.tasks == s.tasks
    ensures OneCleanup(t) && TasksInOrder(t) && !CleanupUndecided(t)
  {
  }

  lemma CleanupEndsKeeps(s: State, id: nat)
    requires Invariant(s)
    ensures Invariant(CleanupEnds(s, id))
  {
  }

  lemma PollReturnsKeeps(s: State, i: nat, error: Option<Message>)
    requires Invariant(s)
    ensures Invariant(PollReturns(s, i, error))
  {
    hide Invariant, FailWith;
    if i < |s.polls| && s.polls[i].Some? {
      AnsweredPollKeeps(s, i);
      if s.polls[i].value == s.generation && error.Some? {
        CurrentPollIsLive(s, i);
        FailWithKeeps(s.(polls := s.polls[i := None]), error.value);
      }
    }
  }

  lemma AnsweredPollKeeps(s: State, i: nat)
    requires Invariant(s) && i < |s.polls|
    ensures Invariant(s.(polls := s.polls[i := None]))
  {
    hide TasksInOrder, OneConnect, OneCleanup;
    SameButPolls(s, s.(polls := s.polls[i := None]));
  }

  lemma CurrentPollIsLive(s: State, i: nat)
    requires Invariant(s) && i < |s.polls| && s.polls[i] == Some(s.generation)
    ensures Live(s)
  {
    hide TasksInOrder, OneConnect, OneCleanup, PhaseAgrees, CleanupWaits, ConnectOwns;
  }

  lemma StepKeepsInvariant(s: State, e: Event)
    requires Invariant(s)
    ensures Invariant(Step(s, e))
  {
    hide Invariant, Connect, DisconnectInternal, RetryCleanup, DismissError, PollStats, FrameRendered, RunTask,
      ConnectReturns, DisconnectReturns, ConnectContinues, ConnectEnds, CleanupContinues, CleanupEnds, PollReturns;
    match e
    case UserConnect(invalid) => ConnectKeeps(s, invalid);
    case UserDisconnect => DisconnectKeeps(s, false);
    case UserRetry => RetryKeeps(s);
    case UserDismiss => DismissKeeps(s);
    case UserPoll => PollKeeps(s);
    case Rendered(generation) => RenderedKeeps(s, generation);
    case Microtask => RunTaskKeeps(s);
    case NativeConnect(id, error) => ConnectReturnsKeeps(s, id, error);
    case NativeDisconnect(id, error) => DisconnectReturnsKeeps(s, id, error);
    case AfterConnect(id) => ConnectContinuesKeeps(s, id);
    case AfterConnectCleanup(id) => ConnectEndsKeeps(s, id);
    case AfterDisconnect(id) => CleanupContinuesKeeps(s, id);
    case FinallyDisconnect(id) => CleanupEndsKeeps(s, id);
    case AfterPoll(i, error) => PollReturnsKeeps(s, i, error);
  }

  lemma {:induction false} RunKeepsInvariant(hasNative: bool, es: seq<Event>)
    ensures Invariant(Run(Initial(hasNative), es))
  {
    hide Invariant, Step;
    if es == [] {
      InitialInvariant(hasNative);
    } else {
      RunKeepsInvariant(hasNative, es[..|es| - 1]);
      StepKeepsInvariant(Run(Initial(hasNative), es[..|es| - 1]), es[|es| - 1]);
    }
  }

  // ----- native calls: never two sessions

  /** The connect issued at `i` has returned. */
  ghost predicate Returned(log: seq<NativeEvent>, i: nat)
    requires i < |log|
  {
    exists p: nat :: i < p < |log| && log[p].ConnectReturned? && log[p].id == log[i].id
  }

  ghost predicate DisconnectIssuedAfter(log: seq<NativeEvent>, i: nat, k: nat) {
    exists m: nat :: i < m < |log| && log[m] == DisconnectIssued(k)
  }

  ghost predicate SuccessAfter(log: seq<NativeEvent>, m: nat, k: nat) {
    exists q: nat :: m < q < |log| && log[q] == DisconnectReturned(k, true)
  }

  /** A disconnect issued after `i` has succeeded. */
  ghost predicate Ended(log: seq<NativeEvent>, i: nat) {
    exists m: nat :: i < m < |log| && log[m].DisconnectIssued? && SuccessAfter(log, m, log[m].id)
  }

  ghost predicate IssuesConnect(log: seq<NativeEvent>, i: nat) { i < |log| && log[i].ConnectIssued? }

  /** Between two native connects the first has returned, and a disconnect issued after it has succeeded. */
  ghost predicate SessionsAreSeparate(log: seq<NativeEvent>) {
    forall i: nat, j: nat :: IssuesConnect(log, i) && IssuesConnect(log, j) && i < j ==>
      Returned(log[..j], i) && Ended(log[..j], i)
  }

  lemma ExtendReturned(log: seq<NativeEvent>, e: NativeEvent, i: nat)
    requires i < |log| && Returned(log, i)
    ensures Returned(log + [e], i)
  {
    var p: nat :| i < p < |log| && log[p].ConnectReturned? && log[p].id == log[i].id;
    assert (log + [e])[p] == log[p];
  }

  lemma ExtendEnded(log: seq<NativeEvent>, e: NativeEvent, i: nat)
    requires Ended(log, i)
    ensures Ended(log + [e], i)
  {
    var m: nat :| i < m < |log| && log[m].DisconnectIssued? && SuccessAfter(log, m, log[m].id);
    var q: nat :| m < q < |log| && log[q] == DisconnectReturned(log[m].id, true);
    assert (log + [e])[m] == log[m] && (log + [e])[q] == log[q];
    assert SuccessAfter(log + [e], m, (log + [e])[m].id);
  }

  lemma ExtendIssued(log: seq<NativeEvent>, e: NativeEvent, i: nat, k: nat)
    requires DisconnectIssuedAfter(log, i, k)
    ensures DisconnectIssuedAfter(log + [e], i, k)
  {
    var m: nat :| i < m < |log| && log[m] == DisconnectIssued(k);
    assert (log + [e])[m] == log[m];
  }

  /** Issued connects are known; those past the native side have returned. */
  ghost predicate ConnectsAreLogged(s: State) {
    forall i: nat :: IssuesConnect(s.log, i) ==>
      && s.log[i].id < |s.connects|
      && !s.connects[s.log[i].id].stage.ConnectQueued?
      && (!s.connects[s.log[i].id].stage.ConnectInFlight? ==> Returned(s.log, i))
  }

  /**
   Once the pending cleanup has been issued, every connect was issued before it; once it has succeeded,
   all are ended.
   */
  ghost predicate CleanupIsLogged(s: State)
    requires OneCleanup(s)
  {
    s.pendingCleanup.Some? && !s.cleanups[|s.cleanups| - 1].stage.CleanupQueued? && s.hasNative ==>
      && !LastConnectQueued(s)
      && (forall i: nat :: IssuesConnect(s.log, i) ==> DisconnectIssuedAfter(s.log, i, |s.cleanups| - 1))
      && (s.cleanups[|s.cleanups| - 1].stage == CleanupSettled(None) ==>
            forall i: nat :: IssuesConnect(s.log, i) ==> Ended(s.log, i))
  }

  /** Every connect but the one that owns the session has returned and has been ended. */
  ghost predicate OthersAreEnded(s: State) {
    forall i: nat :: IssuesConnect(s.log, i) && (s.hasOwnedSession ==> s.log[i].id < |s.connects| - 1) ==>
      Returned(s.log, i) && Ended(s.log, i)
  }

  ghost predicate LogInvariant(s: State)
    requires OneCleanup(s)
  {
    ConnectsAreLogged(s) && CleanupIsLogged(s) && OthersAreEnded(s) && SessionsAreSeparate(s.log)
  }

  /** Steps that leave the log, the ownership and the stages alone. */
  lemma QuietStepKeepsLog(s: State, t: State)
    requires Invariant(s) && Invariant(t) && LogInvariant(s)
    requires t.log == s.log && t.connects == s.connects && t.cleanups == s.cleanups
    requires t.hasOwnedSession == s.hasOwnedSession && t.hasNative == s.hasNative
    ensures LogInvariant(t)
  {
    hide Returned, Ended, DisconnectIssuedAfter, SessionsAreSeparate, TasksInOrder, PhaseAgrees, GenerationsAgree,
      CleanupWaits;
  }

  lemma BeginCleanupKeepsLog(s: State, t: State)
    requires Invariant(s) && Invariant(t) && LogInvariant(s) && s.pendingCleanup.None? && s.hasNative
    requires t.log == s.log && t.connects == s.connects && t.hasOwnedSession == s.hasOwnedSession
    requires t.cleanups != [] && t.cleanups[|t.cleanups| - 1].stage.CleanupQueued?
    ensures LogInvariant(t)
  {
    hide Returned, Ended, DisconnectIssuedAfter, SessionsAreSeparate, TasksInOrder, PhaseAgrees, GenerationsAgree,
      CleanupWaits;
  }

  lemma ConnectKeepsLog(s: State, invalid: Option<Message>)
    requires Invariant(s) && LogInvariant(s)
    ensures OneCleanup(Connect(s, invalid)) && LogInvariant(Connect(s, invalid))
  {
    hide Returned, Ended, DisconnectIssuedAfter, SessionsAreSeparate, TasksInOrder, GenerationsAgree, CleanupWaits;
    ConnectKeeps(s, invalid);
  }

  lemma DisconnectKeepsLog(s: State, retainError: bool)
    requires Invariant(s) && LogInvariant(s)
    ensures OneCleanup(DisconnectInternal(s, retainError)) && LogInvariant(DisconnectInternal(s, retainError))
  {
    hide LogInvariant, TasksInOrder, GenerationsAgree, CleanupWaits, OneConnect;
    DisconnectKeeps(s, retainError);
    var t := DisconnectInternal(s, retainError);
    if s.pendingCleanup.None? && !NothingToCleanUp(s) {
      BeginCleanupKeepsLog(s, t);
    } else {
      QuietStepKeepsLog(s, t);
    }
  }

  lemma FailWithKeepsLog(s: State, error: Message)
    requires Invariant(s) && LogInvariant(s) && (s.phase.Connecting? || Live(s))
    ensures OneCleanup(FailWith(s, error)) && LogInvariant(FailWith(s, error))
  {
    hide LogInvariant, TasksInOrder, GenerationsAgree, CleanupWaits, OneConnect;
    FailWithKeeps(s, error);
    BeginCleanupKeepsLog(s, FailWith(s, error));
  }

  lemma IssueKeepsLog(s: State)
    requires Invariant(s) && LogInvariant(s) && s.tasks != []
    ensures OneCleanup(RunTask(s)) && LogInvariant(RunTask(s))
  {
    RunTaskKeeps(s);
    if LastConnectQueued(s) {
      IssueConnectKeepsLog(s);
    } else {
      IssueDisconnectKeepsLog(s);
    }
  }

  lemma IssueConnectKeepsLog(s: State)
    requires Invariant(s) && Invariant(RunTask(s)) && LogInvariant(s) && LastConnectQueued(s)
    ensures LogInvariant(RunTask(s))
  {
    hide Returned, Ended, DisconnectIssuedAfter, GenerationsAgree, CleanupWaits, PhaseAgrees;
    var t, c := RunTask(s), |s.connects| - 1;
    assert s.tasks[0] == IssueConnect(c);
    var e := ConnectIssued(c);
    assert t.log == s.log + [e];
    AppendToLog(s.log, e);
    forall i: nat | IssuesConnect(s.log, i) ensures s.log[i].id < c && Returned(s.log, i) && Ended(s.log, i) {
      assert s.log[i].id != c;
    }
    SeparateAgain(s.log, c);
  }

  /** What holds of the issued connects survives any further event. */
  lemma AppendToLog(log: seq<NativeEvent>, e: NativeEvent)
    ensures
      forall i: nat :: i < |log| ==>
        (IssuesConnect(log + [e], i) <==> IssuesConnect(log, i)) && (log + [e])[i] == log[i]
    ensures forall i: nat :: IssuesConnect(log, i) && Returned(log, i) ==> Returned(log + [e], i)
    ensures forall i: nat :: IssuesConnect(log, i) && Ended(log, i) ==> Ended(log + [e], i)
    ensures forall i: nat, k: nat :: DisconnectIssuedAfter(log, i, k) ==> DisconnectIssuedAfter(log + [e], i, k)
  {
    hide Returned, Ended, DisconnectIssuedAfter;
    forall i: nat | IssuesConnect(log, i) && Returned(log, i) ensures Returned(log + [e], i) {
      ExtendReturned(log, e, i);
    }
    forall i: nat | IssuesConnect(log, i) && Ended(log, i) ensures Ended(log + [e], i) {
      ExtendEnded(log, e, i);
    }
    forall i: nat, k: nat | DisconnectIssuedAfter(log, i, k) ensures DisconnectIssuedAfter(log + [e], i, k) {
      ExtendIssued(log, e, i, k);
    }
  }

  lemma SeparateAgain(log: seq<NativeEvent>, c: nat)
    requires SessionsAreSeparate(log)
    requires forall i: nat :: IssuesConnect(log, i) ==> Returned(log, i) && Ended(log, i)
    ensures SessionsAreSeparate(log + [ConnectIssued(c)])
  {
    hide Returned, Ended;
    var all := log + [ConnectIssued(c)];
    forall i: nat, j: nat | IssuesConnect(all, i) && IssuesConnect(all, j) && i < j
      ensures Returned(all[..j], i) && Ended(all[..j], i)
    {
      assert IssuesConnect(log, i);
      if j == |log| {
        assert all[..j] == log;
      } else {
        assert IssuesConnect(log, j) && all[..j] == log[..j];
      }
    }
  }

  lemma SeparateStill(log: seq<NativeEvent>, e: NativeEvent)
    requires SessionsAreSeparate(log) && !e.ConnectIssued?
    ensures SessionsAreSeparate(log + [e])
  {
    hide Returned, Ended;
    var all := log + [e];
    forall i: nat, j: nat | IssuesConnect(all, i) && IssuesConnect(all, j) && i < j
      ensures Returned(all[..j], i) && Ended(all[..j], i)
    {
      assert IssuesConnect(log, i) && IssuesConnect(log, j) && all[..j] == log[..j];
    }
  }

  lemma IssueDisconnectKeepsLog(s: State)
    requires Invariant(s) && Invariant(RunTask(s)) && LogInvariant(s) && !LastConnectQueued(s) && s.tasks != []
    ensures LogInvariant(RunTask(s))
  {
    hide Returned, Ended, GenerationsAgree, CleanupWaits, PhaseAgrees, SessionsAreSeparate, RunTask, TasksInOrder;
    var t, k := RunTask(s), |s.cleanups| - 1;
    DisconnectIsIssued(s);
    var e := DisconnectIssued(k);
    AppendToLog(s.log, e);
    SeparateStill(s.log, e);
    assert t.log[|s.log|] == e;
  }

  lemma DisconnectIsIssued(s: State)
    requires TasksInOrder(s) && !LastConnectQueued(s) && s.tasks != []
    ensures
      var t, k := RunTask(s), |s.cleanups| - 1;
      && 0 <= k && t == s.(tasks := [], cleanups := t.cleanups, log := s.log + [DisconnectIssued(k)])
      && t.cleanups == s.cleanups[k := s.cleanups[k].(stage := CleanupInFlight)]
  {
    assert s.tasks == [IssueDisconnect(|s.cleanups| - 1)];
  }

  lemma ConnectReturnsKeepsLog(s: State, id: nat, error: Option<Message>)
    requires Invariant(s) && LogInvariant(s)
    ensures OneCleanup(ConnectReturns(s, id, error)) && LogInvariant(ConnectReturns(s, id, error))
  {
    hide Ended, DisconnectIssuedAfter, GenerationsAgree, CleanupWaits, PhaseAgrees, SessionsAreSeparate, TasksInOrder;
    var t := ConnectReturns(s, id, error);
    if t != s {
      var e := ConnectReturned(id, error.None?);
      AppendToLog(s.log, e);
      SeparateStill(s.log, e);
      assert t.log[|s.log|] == e;
    }
  }

  lemma DisconnectReturnsKeepsLog(s: State, id: nat, error: Option<Message>)
    requires Invariant(s) && LogInvariant(s)
    ensures OneCleanup(DisconnectReturns(s, id, error)) && LogInvariant(DisconnectReturns(s, id, error))
  {
    hide Returned, Ended, DisconnectIssuedAfter, GenerationsAgree, CleanupWaits, SessionsAreSeparate, TasksInOrder;
    var t := DisconnectReturns(s, id, error);
    if t != s {
      var e := DisconnectReturned(id, error.None?);
      assert id == |s.cleanups| - 1;
      AppendToLog(s.log, e);
      SeparateStill(s.log, e);
      if error.None? && s.hasNative {
        forall i: nat | IssuesConnect(s.log, i) ensures Ended(t.log, i) { SuccessEnds(s.log, i, id); }
      }
    }
  }

  lemma SuccessEnds(log: seq<NativeEvent>, i: nat, k: nat)
    requires DisconnectIssuedAfter(log, i, k)
    ensures Ended(log + [DisconnectReturned(k, true)], i)
  {
    var all := log + [DisconnectReturned(k, true)];
    var m: nat :| i < m < |log| && log[m] == DisconnectIssued(k);
    assert all[m] == DisconnectIssued(k) && all[|log|] == DisconnectReturned(k, true);
    assert SuccessAfter(all, m, k);
  }

  lemma EndConnectKeepsLog(s: State, id: nat)
    requires Invariant(s) && LogInvariant(s) && id < |s.connects|
    requires !s.connects[id].stage.ConnectQueued? && !s.connects[id].stage.ConnectInFlight?
    ensures OneCleanup(EndConnect(s, id)) && LogInvariant(EndConnect(s, id))
  {
    hide Returned, Ended, DisconnectIssuedAfter, GenerationsAgree, CleanupWaits, PhaseAgrees, SessionsAreSeparate,
      TasksInOrder;
  }

  lemma StageChangeKeepsLog(s: State, t: State, id: nat)
    requires OneConnect(s) && OneCleanup(s) && LogInvariant(s) && id < |s.connects|
    requires !s.connects[id].stage.ConnectQueued? && !s.connects[id].stage.ConnectInFlight?
    requires |t.connects| == |s.connects| && t == s.(connects := t.connects, phase := t.phase)
    requires t.connects == s.connects[id := t.connects[id]]
    requires !t.connects[id].stage.ConnectQueued? && !t.connects[id].stage.ConnectInFlight?
    ensures OneCleanup(t) && LogInvariant(t)
  {
    hide Returned, Ended, DisconnectIssuedAfter, SessionsAreSeparate;
  }

  lemma ConnectContinuesKeepsLog(s: State, id: nat)
    requires Invariant(s) && LogInvariant(s)
    ensures OneCleanup(ConnectContinues(s, id)) && LogInvariant(ConnectContinues(s, id))
  {
    hide LogInvariant, TasksInOrder, CleanupWaits;
    var t := ConnectContinues(s, id);
    if t != s {
      if s.connects[id].generation == s.generation {
        if s.connects[id].stage.error.Some? {
          FailWithKeepsLog(s, s.connects[id].stage.error.value);
          FailWithKeeps(s, s.connects[id].stage.error.value);
          StageChangeKeepsLog(FailWith(s, s.connects[id].stage.error.value), t, id);
        } else {
          EndConnectKeepsLog(s, id);
          PhaseIsNotLogged(EndConnect(s, id), t);
        }
      } else {
        EndConnectKeepsLog(s, id);
      }
    }
  }

  lemma PhaseIsNotLogged(s: State, t: State)
    requires OneCleanup(s) && LogInvariant(s) && t == s.(phase := t.phase)
    ensures OneCleanup(t) && LogInvariant(t)
  {
    hide Returned, Ended, DisconnectIssuedAfter, SessionsAreSeparate;
  }

  lemma CleanupContinuesKeepsLog(s: State, id: nat)
    requires Invariant(s) && LogInvariant(s)
    ensures OneCleanup(CleanupContinues(s, id)) && LogInvariant(CleanupContinues(s, id))
  {
    hide Returned, Ended, DisconnectIssuedAfter, GenerationsAgree, SessionsAreSeparate, TasksInOrder;
    CleanupContinuesKeeps(s, id);
    var t := CleanupContinues(s, id);
    if t != s {
      assert id == |s.cleanups| - 1;
    }
  }

  lemma CleanupEndsKeepsLog(s: State, id: nat)
    requires Invariant(s) && LogInvariant(s)
    ensures OneCleanup(CleanupEnds(s, id)) && LogInvariant(CleanupEnds(s, id))
  {
    hide Returned, Ended, DisconnectIssuedAfter, GenerationsAgree, SessionsAreSeparate, TasksInOrder;
    CleanupEndsKeeps(s, id);
  }

  lemma PollReturnsKeepsLog(s: State, i: nat, error: Option<Message>)
    requires Invariant(s) && LogInvariant(s)
    ensures OneCleanup(PollReturns(s, i, error)) && LogInvariant(PollReturns(s, i, error))
  {
    hide LogInvariant, TasksInOrder, OneConnect;
    if i < |s.polls| && s.polls[i].Some? {
      var t := s.(polls := s.polls[i := None]);
      SameButPolls(s, t);
      assert Invariant(t);
      QuietStepKeepsLog(s, t);
      if s.polls[i].value == s.generation && error.Some? {
        FailWithKeepsLog(t, error.value);
      }
    }
  }

  lemma StepKeepsLog(s: State, e: Event)
    requires Invariant(s) && LogInvariant(s)
    ensures Invariant(Step(s, e)) && LogInvariant(Step(s, e))
  {
    hide Invariant, LogInvariant, Connect, DisconnectInternal, RunTask, ConnectReturns, DisconnectReturns,
      ConnectContinues, CleanupContinues, CleanupEnds, PollReturns;
    StepKeepsInvariant(s, e);
    match e
    case UserConnect(invalid) => ConnectKeepsLog(s, invalid);
    case UserDisconnect => DisconnectKeepsLog(s, false);
    case UserRetry =>
      var t := if s.lastError.Some? && s.lastError == s.cleanupError then s.(lastError := None) else s;
      MessagesDoNotMatter(s, t);
      QuietStepKeepsLog(s, t);
      DisconnectKeepsLog(t, t.lastError.Some?);
    case UserDismiss =>
      DisconnectKeepsLog(s, false);
      if !(s.hasOwnedSession || s.phase.CleanupFailed?) { QuietStepKeepsLog(s, Step(s, e)); }
    case UserPoll => QuietStepKeepsLog(s, Step(s, e));
    case Rendered(generation) => QuietStepKeepsLog(s, Step(s, e));
    case Microtask => if s.tasks != [] { IssueKeepsLog(s); } else { NothingRuns(s); }
    case NativeConnect(id, error) => ConnectReturnsKeepsLog(s, id, error);
    case NativeDisconnect(id, error) => DisconnectReturnsKeepsLog(s, id, error);
    case AfterConnect(id) => ConnectContinuesKeepsLog(s, id);
    case AfterConnectCleanup(id) => if Step(s, e) != s { EndConnectKeepsLog(s, id); }
    case AfterDisconnect(id) => CleanupContinuesKeepsLog(s, id);
    case FinallyDisconnect(id) => CleanupEndsKeepsLog(s, id);
    case AfterPoll(i, error) => PollReturnsKeepsLog(s, i, error);
  }

  lemma NothingRuns(s: State)
    requires s.tasks == []
    ensures RunTask(s) == s
  {
  }

  lemma {:induction false} RunKeepsLog(hasNative: bool, es: seq<Event>)
    ensures Invariant(Run(Initial(hasNative), es)) && LogInvariant(Run(Initial(hasNative), es))
  {
    hide Step;
    if es == [] {
      InitialInvariant(hasNative);
    } else {
      hide Invariant, LogInvariant;
      RunKeepsLog(hasNative, es[..|es| - 1]);
      StepKeepsLog(Run(Initial(hasNative), es[..|es| - 1]), es[|es| - 1]);
    }
  }

  /**
   Never two sessions: in every run, a native connect is issued only after every earlier one has
   returned and a native disconnect issued after that earlier one has succeeded.
   */
  lemma NativeSessionsAreSeparate(hasNative: bool, es: seq<Event>)
    ensures SessionsAreSeparate(Run(Initial(hasNative), es).log)
  {
    RunKeepsLog(hasNative, es);
  }

  // ----- phases

  /** The generation of the activation that an event continues; user actions and microtasks have none. */
  function GenerationOf(s: State, e: Event): Option<nat> {
    match e
    case AfterConnect(id) => if id < |s.connects| then Some(s.connects[id].generation) else None
    case AfterConnectCleanup(id) => if id < |s.connects| then Some(s.connects[id].generation) else None
    case AfterDisconnect(id) => if id < |s.cleanups| then Some(s.cleanups[id].generation) else None
    case FinallyDisconnect(id) => if id < |s.cleanups| then Some(s.cleanups[id].generation) else None
    case AfterPoll(i, _) => if i < |s.polls| then s.polls[i] else None
    case Rendered(generation) => Some(generation)
    case _ => None
  }

  /** A completion that belongs to an older generation never changes the phase. */
  lemma StaleCompletionsAreInert(hasNative: bool, es: seq<Event>, e: Event)
    requires
      var s := Run(Initial(hasNative), es);
      GenerationOf(s, e).Some? && GenerationOf(s, e).value != s.generation
    ensures var s := Run(Initial(hasNative), es); Step(s, e).phase == s.phase && Step(s, e).generation == s.generation
  {
    hide Run, TasksInOrder, GenerationsAgree, CleanupWaits;
    RunKeepsInvariant(hasNative, es);
  }

  /** A step to `t` does not begin to wait for or to show video. */
  predicate NotNewlyLive(s: State, t: State) { t.phase == s.phase || !Live(t) }

  lemma DisconnectIsNotLive(s: State, retainError: bool)
    ensures NotNewlyLive(s, DisconnectInternal(s, retainError))
  {
  }

  lemma UserStepsAreNotLive(s: State, invalid: Option<Message>)
    ensures NotNewlyLive(s, Connect(s, invalid)) && NotNewlyLive(s, RetryCleanup(s))
    ensures NotNewlyLive(s, DismissError(s)) && NotNewlyLive(s, PollStats(s))
  {
    hide DisconnectInternal;
    DisconnectIsNotLive(s, false);
    DisconnectIsNotLive(s.(lastError := None), false);
    DisconnectIsNotLive(s, true);
  }

  lemma NativeStepsAreNotLive(s: State, id: nat, error: Option<Message>)
    ensures NotNewlyLive(s, RunTask(s)) && NotNewlyLive(s, ConnectReturns(s, id, error))
    ensures NotNewlyLive(s, DisconnectReturns(s, id, error)) && NotNewlyLive(s, ConnectEnds(s, id))
  {
  }

  lemma CleanupStepsAreNotLive(s: State, id: nat)
    ensures NotNewlyLive(s, CleanupContinues(s, id)) && NotNewlyLive(s, CleanupEnds(s, id))
  {
  }

  lemma PollAnswersAreNotLive(s: State, i: nat, error: Option<Message>)
    ensures NotNewlyLive(s, PollReturns(s, i, error))
  {
  }

  /** A settled connect begins to wait for video if it is of the current generation and has succeeded. */
  lemma ContinuingBeginsToWait(s: State, id: nat)
    ensures
      var t := ConnectContinues(s, id);
      NotNewlyLive(s, t) ||
      (t.phase.WaitingVideo? && t.generation == s.generation && id < |s.connects| &&
       s.connects[id] == ConnectCall(s.generation, ConnectSettled(None)))
  {
  }

  /** Only a rendered frame and a connect that continues can begin to wait for or to show video. */
  lemma OtherStepsAreNotLive(s: State, e: Event)
    requires !e.Rendered? && !e.AfterConnect?
    ensures NotNewlyLive(s, Step(s, e))
  {
    hide NotNewlyLive, Connect, DisconnectInternal, RetryCleanup, DismissError, PollStats, RunTask, ConnectReturns,
      DisconnectReturns, ConnectEnds, CleanupContinues, CleanupEnds, PollReturns;
    match e
    case UserConnect(invalid) => UserStepsAreNotLive(s, invalid);
    case UserDisconnect => DisconnectIsNotLive(s, false);
    case UserRetry => UserStepsAreNotLive(s, None);
    case UserDismiss => UserStepsAreNotLive(s, None);
    case UserPoll => UserStepsAreNotLive(s, None);
    case Microtask => NativeStepsAreNotLive(s, 0, None);
    case NativeConnect(id, error) => NativeStepsAreNotLive(s, id, error);
    case NativeDisconnect(id, error) => NativeStepsAreNotLive(s, id, error);
    case AfterConnectCleanup(id) => NativeStepsAreNotLive(s, id, None);
    case AfterDisconnect(id) => CleanupStepsAreNotLive(s, id);
    case FinallyDisconnect(id) => CleanupStepsAreNotLive(s, id);
    case AfterPoll(i, error) => PollAnswersAreNotLive(s, i, error);
  }

  /** Streaming begins only when a frame of the current generation is rendered while video is awaited. */
  lemma StreamingNeedsVideo(s: State, e: Event)
    requires Step(s, e).phase.Streaming? && !s.phase.Streaming?
    ensures s.phase.WaitingVideo? && e == Rendered(s.generation) && Step(s, e).generation == s.generation
  {
    hide ConnectContinues;
    if e.AfterConnect? {
      ContinuingBeginsToWait(s, e.id);
    } else if !e.Rendered? {
      hide Step;
      OtherStepsAreNotLive(s, e);
    }
  }

  /** Waiting for video begins only when a settled connect of the current generation continues. */
  lemma WaitingNeedsSettled(s: State, e: Event)
    requires Step(s, e).phase.WaitingVideo? && !s.phase.WaitingVideo?
    ensures e.AfterConnect? && e.id < |s.connects|
    ensures s.connects[e.id] == ConnectCall(s.generation, ConnectSettled(None)) && Step(s, e).generation == s.generation
  {
    hide ConnectContinues;
    if e.AfterConnect? {
      ContinuingBeginsToWait(s, e.id);
    } else if !e.Rendered? {
      hide Step;
      OtherStepsAreNotLive(s, e);
    }
  }

  /** Video is awaited only once the native connect of the current generation has succeeded. */
  lemma WaitingNeedsConnection(hasNative: bool, es: seq<Event>, e: Event)
    requires var s := Run(Initial(hasNative), es); Step(s, e).phase.WaitingVideo? && !s.phase.WaitingVideo?
    ensures
      var s := Run(Initial(hasNative), es);
      && s.phase.Connecting? && e.AfterConnect? && e.id < |s.connects|
      && s.connects[e.id] == ConnectCall(s.generation, ConnectSettled(None))
      && Step(s, e).generation == s.generation
  {
    hide Run, Step, Invariant;
    RunKeepsInvariant(hasNative, es);
    var s := Run(Initial(hasNative), es);
    WaitingNeedsSettled(s, e);
    SettledConnectIsConnecting(s, e.id);
  }

  /** The step that continues a successful native connect of the current generation. */
  predicate Connected(s: State, e: Event) {
    e.AfterConnect? && e.id < |s.connects| && s.connects[e.id] == ConnectCall(s.generation, ConnectSettled(None))
  }

  lemma LiveKeepsGeneration(s: State, e: Event)
    requires Invariant(s) && Live(s) && Live(Step(s, e))
    ensures Step(s, e).generation == s.generation
  {
    hide OneConnect, TasksInOrder, CleanupWaits;
  }

  /** Video is awaited or shown only in the generation of a native connect that has succeeded. */
  lemma {:induction false} LiveHasConnection(hasNative: bool, es: seq<Event>) returns (k: nat)
    requires Live(Run(Initial(hasNative), es))
    ensures k < |es| && Connected(Run(Initial(hasNative), es[..k]), es[k])
    ensures Run(Initial(hasNative), es[..k]).generation == Run(Initial(hasNative), es).generation
  {
    hide Step, Connected, Invariant;
    var front, e := es[..|es| - 1], es[|es| - 1];
    var s := Run(Initial(hasNative), front);
    RunKeepsInvariant(hasNative, front);
    if Live(s) {
      k := LiveHasConnection(hasNative, front);
      assert front[..k] == es[..k] && front[k] == es[k];
      LiveKeepsGeneration(s, e);
    } else {
      k := |front|;
      if Step(s, e).phase.Streaming? {
        StreamingNeedsVideo(s, e);
      }
      WaitingNeedsConnection(hasNative, front, e);
      ConnectedBy(s, e);
    }
  }

  lemma ConnectedBy(s: State, e: Event)
    requires e.AfterConnect? && e.id < |s.connects|
    requires s.connects[e.id] == ConnectCall(s.generation, ConnectSettled(None))
    ensures Connected(s, e)
  {
  }

  /** The step in which a cleanup takes effect after a successful native disconnect. */
  predicate SuccessfulCleanup(s: State, e: Event) {
    && e.AfterDisconnect? && e.id < |s.cleanups|
    && s.cleanups[e.id].stage == CleanupSettled(None) && ConnectHasSettled(s, s.cleanups[e.id].waitsFor)
  }

  predicate Stuck(s: State) { s.phase.CleanupFailed? || s.phase.Disconnecting? }

  lemma StuckUntilCleanup(s: State, e: Event)
    requires Invariant(s) && Stuck(s) && !SuccessfulCleanup(s, e)
    ensures Stuck(Step(s, e))
  {
    hide TasksInOrder, CleanupWaits;
  }

  lemma StuckOwns(s: State)
    requires Invariant(s)
    ensures Stuck(s) ==> s.hasOwnedSession
  {
  }

  /**
   A failed cleanup is left only through a successful one: as long as no cleanup succeeds, the phase
   stays "cleanup failed", or "disconnecting" while a retry is under way.
   */
  lemma {:induction false} FailedCleanupNeedsSuccess(hasNative: bool, es: seq<Event>, more: seq<Event>)
    requires Run(Initial(hasNative), es).phase.CleanupFailed?
    requires forall k :: 0 <= k < |more| ==> !SuccessfulCleanup(Run(Initial(hasNative), es + more[..k]), more[k])
    ensures Stuck(Run(Initial(hasNative), es + more)) && Run(Initial(hasNative), es + more).hasOwnedSession
    decreases |more|
  {
    hide Step, SuccessfulCleanup, Invariant;
    RunKeepsInvariant(hasNative, es + more);
    StuckOwns(Run(Initial(hasNative), es + more));
    if more == [] {
      assert es + more == es;
    } else {
      var front, e := more[..|more| - 1], more[|more| - 1];
      assert (es + more)[..|es + more| - 1] == es + front;
      assert forall k :: 0 <= k < |front| ==> front[..k] == more[..k] && front[k] == more[k];
      FailedCleanupNeedsSuccess(hasNative, es, front);
      RunKeepsInvariant(hasNative, es + front);
      StuckUntilCleanup(Run(Initial(hasNative), es + front), e);
    }
  }

  // ----- progress

  /** When a cleanup has failed, the connect that was pending has come back. */
  ghost predicate SettledWhenFailed(s: State) { s.phase.CleanupFailed? ==> ConnectHasSettled(s, s.pendingConnect) }

  lemma StepKeepsSettled(s: State, e: Event)
    requires Invariant(s) && SettledWhenFailed(s)
    ensures SettledWhenFailed(Step(s, e))
  {
    hide Invariant, Connect, DisconnectInternal, RetryCleanup, DismissError, FrameRendered, RunTask, ConnectReturns,
      DisconnectReturns, ConnectContinues, ConnectEnds, CleanupContinues, CleanupEnds, PollReturns;
    match e
    case UserConnect(invalid) => UserKeepsSettled(s, invalid);
    case UserDisconnect => UserKeepsSettled(s, None);
    case UserRetry => UserKeepsSettled(s, None);
    case UserDismiss => UserKeepsSettled(s, None);
    case UserPoll =>
    case Rendered(generation) => RenderedKeepsSettled(s, generation);
    case Microtask => TaskKeepsSettled(s);
    case NativeConnect(id, error) => ReturnsKeepSettled(s, id, error);
    case NativeDisconnect(id, error) => ReturnsKeepSettled(s, id, error);
    case AfterConnect(id) => ContinuesKeepsSettled(s, id);
    case AfterConnectCleanup(id) => ContinuesKeepsSettled(s, id);
    case AfterDisconnect(id) => CleanupKeepsSettled(s, id);
    case FinallyDisconnect(id) => CleanupKeepsSettled(s, id);
    case AfterPoll(i, error) => PollKeepsSettled(s, i, error);
  }

  lemma RenderedKeepsSettled(s: State, generation: nat)
    requires SettledWhenFailed(s)
    ensures SettledWhenFailed(FrameRendered(s, generation))
  {
  }

  lemma UserKeepsSettled(s: State, invalid: Option<Message>)
    requires SettledWhenFailed(s)
    ensures SettledWhenFailed(Connect(s, invalid)) && SettledWhenFailed(DisconnectInternal(s, false))
    ensures SettledWhenFailed(RetryCleanup(s)) && SettledWhenFailed(DismissError(s))
  {
  }

  lemma TaskKeepsSettled(s: State)
    requires SettledWhenFailed(s) && Invariant(s)
    ensures SettledWhenFailed(RunTask(s))
  {
    hide PhaseAgrees, GenerationsAgree, CleanupWaits, ConnectOwns;
  }

  lemma ReturnsKeepSettled(s: State, id: nat, error: Option<Message>)
    requires SettledWhenFailed(s)
    ensures SettledWhenFailed(ConnectReturns(s, id, error)) && SettledWhenFailed(DisconnectReturns(s, id, error))
  {
  }

  lemma ContinuesKeepsSettled(s: State, id: nat)
    requires SettledWhenFailed(s)
    ensures SettledWhenFailed(ConnectContinues(s, id)) && SettledWhenFailed(ConnectEnds(s, id))
  {
  }

  lemma PollKeepsSettled(s: State, i: nat, error: Option<Message>)
    requires SettledWhenFailed(s)
    ensures SettledWhenFailed(PollReturns(s, i, error))
  {
  }

  lemma CleanupKeepsSettled(s: State, id: nat)
    requires Invariant(s) && SettledWhenFailed(s)
    ensures SettledWhenFailed(CleanupContinues(s, id)) && SettledWhenFailed(CleanupEnds(s, id))
  {
    hide TasksInOrder, PhaseAgrees, GenerationsAgree, ConnectOwns;
  }

  lemma {:induction false} FailedCleanupIsSettled(hasNative: bool, es: seq<Event>)
    ensures SettledWhenFailed(Run(Initial(hasNative), es))
  {
    hide Step, Invariant;
    if es != [] {
      var front := es[..|es| - 1];
      FailedCleanupIsSettled(hasNative, front);
      RunKeepsInvariant(hasNative, front);
      StepKeepsSettled(Run(Initial(hasNative), front), es[|es| - 1]);
    }
  }

  lemma RunFive(s: State, a: Event, b: Event, c: Event, d: Event, e: Event)
    ensures Run(s, [a, b, c, d, e]) == Step(Step(Step(Step(Step(s, a), b), c), d), e)
  {
    hide Step;
    var es := [a, b, c, d, e];
    assert es[..4] == [a, b, c, d] && es[..4][..3] == [a, b, c] && [a, b, c][..2] == [a, b] && [a, b][..1] == [a];
    assert [a][..0] == [];
    assert Run(s, [a]) == Step(s, a);
    assert Run(s, [a, b]) == Step(Step(s, a), b);
    assert Run(s, [a, b, c]) == Step(Step(Step(s, a), b), c);
    assert Run(s, [a, b, c, d]) == Step(Step(Step(Step(s, a), b), c), d);
  }

  /** The error that a retry keeps: any but that of the failed cleanup itself. */
  function KeptError(s: State): Option<Message> { if s.lastError == s.cleanupError then None else s.lastError }

  /** A failed cleanup can always be retried, and a native disconnect that then succeeds gives the session up. */
  lemma FailedCleanupCanBeRetried(hasNative: bool, es: seq<Event>)
    requires var s := Run(Initial(hasNative), es); s.phase.CleanupFailed? && s.pendingCleanup.None?
    ensures
      var s := Run(Initial(hasNative), es);
      var n := |s.cleanups|;
      var t := Run(s, [UserRetry, Microtask, NativeDisconnect(n, None), AfterDisconnect(n), FinallyDisconnect(n)]);
      && !t.hasOwnedSession && t.pendingCleanup.None? && t.cleanupError.None?
      && t.lastError == KeptError(s) && t.phase == (if KeptError(s).Some? then Failed else Idle)
      && t.log == s.log + [DisconnectIssued(n), DisconnectReturned(n, true)]
  {
    hide Run, GenerationsAgree, CleanupWaits;
    RunKeepsInvariant(hasNative, es);
    FailedCleanupIsSettled(hasNative, es);
    var s := Run(Initial(hasNative), es);
    RetrySucceeds(s);
  }

  lemma RetrySucceeds(s: State)
    requires OneConnect(s) && OneCleanup(s) && TasksInOrder(s) && PhaseAgrees(s) && SettledWhenFailed(s)
    requires s.phase.CleanupFailed? && s.pendingCleanup.None?
    ensures
      var n := |s.cleanups|;
      var t := Run(s, [UserRetry, Microtask, NativeDisconnect(n, None), AfterDisconnect(n), FinallyDisconnect(n)]);
      && !t.hasOwnedSession && t.pendingCleanup.None? && t.cleanupError.None?
      && t.lastError == KeptError(s) && t.phase == (if KeptError(s).Some? then Failed else Idle)
      && t.log == s.log + [DisconnectIssued(n), DisconnectReturned(n, true)]
  {
    hide Run, RunTask, DisconnectReturns, CleanupContinues, CleanupEnds, RetryCleanup, TasksInOrder,
      ConnectHasSettled;
    var n := |s.cleanups|;
    RunFive(s, UserRetry, Microtask, NativeDisconnect(n, None), AfterDisconnect(n), FinallyDisconnect(n));
    RetryBegins(s);
    var a := RetryCleanup(s);
    RetryRuns(a, n);
    assert s.log + [DisconnectIssued(n)] + [DisconnectReturned(n, true)] ==
           s.log + [DisconnectIssued(n), DisconnectReturned(n, true)];
  }

  /** The state in which the only thing to do is to issue the disconnect of cleanup `n`. */
  ghost predicate AboutToDisconnect(s: State, n: nat) {
    && s.tasks == [IssueDisconnect(n)] && s.pendingCleanup == Some(n) && n < |s.cleanups|
    && s.cleanups[n].stage.CleanupQueued? && ConnectHasSettled(s, s.cleanups[n].waitsFor)
  }

  lemma RetryBegins(s: State)
    requires OneConnect(s) && OneCleanup(s) && TasksInOrder(s) && PhaseAgrees(s) && SettledWhenFailed(s)
    requires s.phase.CleanupFailed? && s.pendingCleanup.None?
    ensures AboutToDisconnect(RetryCleanup(s), |s.cleanups|) && RetryCleanup(s).log == s.log
    ensures
      var a := RetryCleanup(s);
      a.lastError == KeptError(s) && a.cleanups[|s.cleanups|].retainError == KeptError(s).Some?
  {
    assert !LastConnectQueued(s) && !LastCleanupQueued(s);
    assert s.tasks == [] && s.hasNative && s.hasOwnedSession;
  }

  lemma RetryRuns(a: State, n: nat)
    requires AboutToDisconnect(a, n)
    ensures
      var t := CleanupEnds(CleanupContinues(DisconnectReturns(RunTask(a), n, None), n), n);
      && !t.hasOwnedSession && t.pendingCleanup.None? && t.cleanupError.None?
      && t.lastError == a.lastError
      && t.phase == (if a.cleanups[n].retainError && a.lastError.Some? then Failed else Idle)
      && t.log == a.log + [DisconnectIssued(n)] + [DisconnectReturned(n, true)]
  {
    var b := RunTask(a);
    assert b == a.(tasks := [], cleanups := b.cleanups, log := a.log + [DisconnectIssued(n)]);
    assert b.cleanups[n] == a.cleanups[n].(stage := CleanupInFlight);
    var c := DisconnectReturns(b, n, None);
    assert c.cleanups[n] == a.cleanups[n].(stage := CleanupSettled(None));
    var d := CleanupContinues(c, n);
    assert d.cleanups[n].stage.CleanupFinished? && !d.hasOwnedSession;
  }

  /** From any state without session, cleanup or pending connect, a valid connect that succeeds leads to streaming. */
  lemma ConnectLeadsToStreaming(hasNative: bool, es: seq<Event>)
    requires var s := Run(Initial(hasNative), es); s.hasNative && !Busy(s)
    ensures
      var s := Run(Initial(hasNative), es);
      var n := |s.connects|;
      var t := Run(s, [UserConnect(None), Microtask, NativeConnect(n, None), AfterConnect(n),
                         Rendered(s.generation + 1)]);
      && t.phase.Streaming? && t.generation == s.generation + 1 && t.hasOwnedSession && t.pendingConnect.None?
      && t.lastError.None? && t.cleanupError.None?
      && t.log == s.log + [ConnectIssued(n), ConnectReturned(n, true)]
  {
    hide Run;
    RunKeepsInvariant(hasNative, es);
    FreshConnectSucceeds(Run(Initial(hasNative), es));
  }

  lemma FreshConnectSucceeds(s: State)
    requires OneConnect(s) && OneCleanup(s) && TasksInOrder(s) && s.hasNative && !Busy(s)
    ensures
      var n := |s.connects|;
      var t := Run(s, [UserConnect(None), Microtask, NativeConnect(n, None), AfterConnect(n),
                         Rendered(s.generation + 1)]);
      && t.phase.Streaming? && t.generation == s.generation + 1 && t.hasOwnedSession && t.pendingConnect.None?
      && t.lastError.None? && t.cleanupError.None?
      && t.log == s.log + [ConnectIssued(n), ConnectReturned(n, true)]
  {
    hide Run;
    var n := |s.connects|;
    RunFive(s, UserConnect(None), Microtask, NativeConnect(n, None), AfterConnect(n), Rendered(s.generation + 1));
    assert !LastConnectQueued(s) && !LastCleanupQueued(s) && s.tasks == [];
    var a := Step(s, UserConnect(None));
    assert a.tasks == [IssueConnect(n)] && a.connects[n] == ConnectCall(s.generation + 1, ConnectQueued);
    var b := Step(a, Microtask);
    assert b.connects[n].stage.ConnectInFlight? && b.log == s.log + [ConnectIssued(n)];
    var c := Step(b, NativeConnect(n, None));
    assert c.connects[n] == ConnectCall(c.generation, ConnectSettled(None));
    assert c.log == b.log + [ConnectReturned(n, true)];
    var d := Step(c, AfterConnect(n));
    assert d.phase.WaitingVideo? && d.pendingConnect.None?;
  }

  // ----- a disconnect ends the session

  /** A session is being set up or is there. */
  predicate UnderWay(s: State) { s.phase.Connecting? || Live(s) }

  /**
   In every run, a disconnect by the user while a session is set up or there begins a cleanup of a new
   generation, which forgets the error and waits for the connect that is still pending.
   */
  lemma DisconnectBeginsCleanup(hasNative: bool, es: seq<Event>)
    requires UnderWay(Run(Initial(hasNative), es))
    ensures
      var s := Run(Initial(hasNative), es);
      var t := Step(s, UserDisconnect);
      && t.phase.Disconnecting? && t.generation == s.generation + 1 && t.hasOwnedSession
      && t.lastError.None? && t.cleanupError.None? && t.pendingCleanup == Some(|s.cleanups|)
      && t.cleanups == s.cleanups + [Cleanup(t.generation, false, s.pendingConnect, CleanupQueued)]
      && t.tasks == s.tasks + [IssueDisconnect(|s.cleanups|)] && t.connects == s.connects
  {
    hide Run, GenerationsAgree, CleanupWaits, ConnectOwns, OneConnect, OneCleanup, TasksInOrder;
    RunKeepsInvariant(hasNative, es);
  }

  /** The last connect call, if there is one. */
  function LastConnect(s: State): nat { if s.connects == [] then 0 else |s.connects| - 1 }

  /** The cleanup `n` has begun and its disconnect is to be issued, after the connect if that is still to be. */
  ghost predicate CleanupBegun(a: State, n: nat, retainError: bool) {
    var c := LastConnect(a);
    && |a.cleanups| == n + 1 && a.pendingCleanup == Some(n) && a.cleanups[n].stage.CleanupQueued?
    && a.cleanups[n].retainError == retainError
    && (a.cleanups[n].waitsFor.Some? ==> a.cleanups[n].waitsFor == Some(c) && c < |a.connects|)
    && (a.tasks == [IssueDisconnect(n)] || a.tasks == [IssueConnect(c), IssueDisconnect(n)])
    && (c < |a.connects| && a.connects[c].stage.ConnectQueued? ==> |a.tasks| == 2)
  }

  /** How a cleanup ends: given up without a session, or still with it because the disconnect failed. */
  ghost predicate CleanupEnded(t: State, lastError: Option<Message>, retainError: bool, result: Option<Message>) {
    t.pendingCleanup.None? &&
    match result
    case None =>
      && !t.hasOwnedSession && t.cleanupError.None? && t.lastError == lastError
      && t.phase == if retainError && lastError.Some? then Failed else Idle
    case Some(e) =>
      && t.hasOwnedSession && t.phase.CleanupFailed? && t.cleanupError == Some(e)
      && t.lastError == if lastError.Some? then lastError else Some(e)
  }

  /**
   The events that end a cleanup: both microtasks, the native calls with any results, and what follows.  If
   the connect is not pending or the microtask has run, the events for it change nothing.
   */
  function CleanupRun(a: State, n: nat, error: Option<Message>, result: Option<Message>): seq<Event> {
    [Microtask, Microtask, NativeConnect(LastConnect(a), error), NativeDisconnect(n, result), AfterDisconnect(n),
     FinallyDisconnect(n)]
  }

  lemma {:induction false} RunAppend(s: State, a: seq<Event>, b: seq<Event>)
    ensures Run(s, a + b) == Run(Run(s, a), b)
  {
    hide Step;
    if b == [] {
      assert a + b == a;
    } else {
      assert (a + b)[..|a + b| - 1] == a + b[..|b| - 1];
      RunAppend(s, a, b[..|b| - 1]);
    }
  }

  lemma RunOne(s: State, e: Event)
    ensures Run(s, [e]) == Step(s, e)
  {
    hide Step;
    assert [e][..0] == [];
    assert Run(s, [e][..0]) == s;
  }

  lemma RunSix(s: State, es: seq<Event>)
    requires |es| == 6
    ensures Run(s, es) == Step(Step(Step(Step(Step(Step(s, es[0]), es[1]), es[2]), es[3]), es[4]), es[5])
  {
    hide Step;
    RunFive(s, es[0], es[1], es[2], es[3], es[4]);
    assert es[..5] == [es[0], es[1], es[2], es[3], es[4]];
  }

  lemma CleanupRuns(a: State, n: nat, retainError: bool, error: Option<Message>, result: Option<Message>)
    requires CleanupBegun(a, n, retainError)
    ensures
      var t := Run(a, CleanupRun(a, n, error, result));
      CleanupEnded(t, a.lastError, retainError, result) && t.generation == a.generation
  {
    hide Run, Step, CleanupEnded;
    RunSix(a, CleanupRun(a, n, error, result));
    TasksAreIssued(a, n, retainError);
    CleanupReturns(Step(Step(a, Microtask), Microtask), n, LastConnect(a), error, result);
  }

  lemma TasksAreIssued(a: State, n: nat, retainError: bool)
    requires CleanupBegun(a, n, retainError)
    ensures
      var b, c := Step(Step(a, Microtask), Microtask), LastConnect(a);
      && b == a.(tasks := [], connects := b.connects, cleanups := b.cleanups, log := b.log)
      && |b.connects| == |a.connects| && |b.cleanups| == n + 1
      && b.cleanups[n] == a.cleanups[n].(stage := CleanupInFlight)
      && (c < |b.connects| ==> !b.connects[c].stage.ConnectQueued?)
  {
    assert a.tasks == [IssueDisconnect(n)] ==> Step(a, Microtask).tasks == [];
    assert |a.tasks| == 2 ==> Step(a, Microtask).tasks == [IssueDisconnect(n)];
  }

  /** Both calls come back and the cleanup ends. */
  lemma CleanupReturns(b: State, n: nat, c: nat, error: Option<Message>, result: Option<Message>)
    requires n < |b.cleanups| && b.cleanups[n].stage.CleanupInFlight? && b.pendingCleanup == Some(n)
    requires
      var w := b.cleanups[n].waitsFor;
      w.Some? ==> w == Some(c) && c < |b.connects| && !b.connects[c].stage.ConnectQueued?
    ensures
      var t := Step(Step(Step(Step(b, NativeConnect(c, error)), NativeDisconnect(n, result)), AfterDisconnect(n)),
                    FinallyDisconnect(n));
      CleanupEnded(t, b.lastError, b.cleanups[n].retainError, result) && t.generation == b.generation
  {
    hide CleanupEnded;
    var d := Step(b, NativeConnect(c, error));
    assert d == b.(connects := d.connects, log := d.log) && |d.connects| == |b.connects|;
    assert c < |b.connects| && !b.connects[c].stage.ConnectQueued? ==> ConnectHasSettled(d, Some(c));
    var e := Step(d, NativeDisconnect(n, result));
    assert e.cleanups[n] == b.cleanups[n].(stage := CleanupSettled(result)) && e.connects == d.connects;
    SettledCleanupEnds(e, n, result);
  }

  lemma SettledCleanupEnds(e: State, n: nat, result: Option<Message>)
    requires n < |e.cleanups| && e.cleanups[n].stage == CleanupSettled(result) && e.pendingCleanup == Some(n)
    requires ConnectHasSettled(e, e.cleanups[n].waitsFor)
    ensures
      var t := Step(Step(e, AfterDisconnect(n)), FinallyDisconnect(n));
      CleanupEnded(t, e.lastError, e.cleanups[n].retainError, result) && t.generation == e.generation
  {
    var f := Step(e, AfterDisconnect(n));
    assert f.cleanups[n].stage.CleanupFinished?;
  }

  /**
   From every reachable session, set up or not: a disconnect by the user ends it without an error if the
   native side disconnects, and fails with the native error if not, whatever the pending connect comes back with.
   */
  lemma DisconnectEndsSession(hasNative: bool, es: seq<Event>, error: Option<Message>, result: Option<Message>)
    requires UnderWay(Run(Initial(hasNative), es))
    ensures
      var s := Run(Initial(hasNative), es);
      var a := Step(s, UserDisconnect);
      var t := Run(s, [UserDisconnect] + CleanupRun(a, |s.cleanups|, error, result));
      CleanupEnded(t, None, false, result) && t.generation == s.generation + 1
  {
    hide Run, Step, CleanupEnded, CleanupRun, GenerationsAgree, CleanupWaits, ConnectOwns;
    RunKeepsInvariant(hasNative, es);
    DisconnectBeginsCleanup(hasNative, es);
    var s := Run(Initial(hasNative), es);
    var a := Step(s, UserDisconnect);
    BegunFrom(s, a, false);
    CleanupRuns(a, |s.cleanups|, false, error, result);
    RunOne(s, UserDisconnect);
    RunAppend(s, [UserDisconnect], CleanupRun(a, |s.cleanups|, error, result));
  }

  lemma BegunFrom(s: State, a: State, retainError: bool)
    requires OneConnect(s) && OneCleanup(s) && TasksInOrder(s) && s.pendingCleanup.None?
    requires a.cleanups == s.cleanups + [Cleanup(a.generation, retainError, s.pendingConnect, CleanupQueued)]
    requires a.tasks == s.tasks + [IssueDisconnect(|s.cleanups|)] && a.pendingCleanup == Some(|s.cleanups|)
    requires
      && |a.connects| == |s.connects|
      && forall i :: 0 <= i < |a.connects| ==>
           (a.connects[i].stage.ConnectQueued? <==> s.connects[i].stage.ConnectQueued?)
    ensures CleanupBegun(a, |s.cleanups|, retainError)
  {
    assert !LastCleanupQueued(s);
    if LastConnectQueued(s) {
      assert s.tasks == [IssueConnect(|s.connects| - 1)];
    } else {
      assert s.tasks == [];
    }
  }

  /** Failing a session that is under way begins a cleanup that keeps the error. */
  lemma FailingBegins(s: State, e: Message)
    requires OneConnect(s) && OneCleanup(s) && TasksInOrder(s) && PhaseAgrees(s) && UnderWay(s)
    ensures
      var a := FailWith(s, e);
      && CleanupBegun(a, |s.cleanups|, true) && a.lastError == Some(e) && a.generation == s.generation + 1
      && a.connects == s.connects && a.pendingConnect == s.pendingConnect
      && (!LastConnectQueued(s) ==> a.tasks == [IssueDisconnect(|s.cleanups|)])
  {
    var a := FailWith(s, e);
    assert s.hasNative && s.hasOwnedSession && s.pendingCleanup.None?;
    assert a == BeginCleanup(s.(phase := Failed, lastError := Some(e)), true);
    BegunFrom(s, a, true);
  }

  /**
   From every reachable session that is there: a terminal answer to a poll of the current generation leads to
   a failure with that error once the native side has disconnected.
   */
  lemma TerminalPollEndsSession(hasNative: bool, es: seq<Event>, i: nat, e: Message, error: Option<Message>,
                                result: Option<Message>)
    requires
      var s := Run(Initial(hasNative), es);
      i < |s.polls| && s.polls[i] == Some(s.generation)
    ensures
      var s := Run(Initial(hasNative), es);
      var a := Step(s, AfterPoll(i, Some(e)));
      var t := Run(s, [AfterPoll(i, Some(e))] + CleanupRun(a, |s.cleanups|, error, result));
      CleanupEnded(t, Some(e), true, result) && t.generation == s.generation + 1
  {
    hide Run, CleanupEnded, CleanupRun, CleanupWaits, ConnectOwns, OneConnect, OneCleanup, TasksInOrder, FailWith,
      CleanupBegun;
    RunKeepsInvariant(hasNative, es);
    var s := Run(Initial(hasNative), es);
    var p := s.(polls := s.polls[i := None]);
    var a := Step(s, AfterPoll(i, Some(e)));
    SameButPolls(s, p);
    FailingBegins(p, e);
    assert a == FailWith(p, e);
    CleanupRuns(a, |s.cleanups|, true, error, result);
    RunOne(s, AfterPoll(i, Some(e)));
    RunAppend(s, [AfterPoll(i, Some(e))], CleanupRun(a, |s.cleanups|, error, result));
  }

  /**
   In every run, a native connect of the current generation that has come back with an error leads, once the
   native side has disconnected, to a failure with that error, and to no pending connect.
   */
  lemma FailedConnectIsReported(hasNative: bool, es: seq<Event>, id: nat, e: Message, result: Option<Message>)
    requires
      var s := Run(Initial(hasNative), es);
      && id < |s.connects| && s.connects[id].stage == ConnectSettled(Some(e))
      && s.connects[id].generation == s.generation
    ensures
      var s := Run(Initial(hasNative), es);
      var a := Step(s, AfterConnect(id));
      var t := Run(s, [AfterConnect(id)] + CleanupRun(a, |s.cleanups|, None, result) + [AfterConnectCleanup(id)]);
      CleanupEnded(t, Some(e), true, result) && t.generation == s.generation + 1 && t.pendingConnect.None?
  {
    hide Run, CleanupEnded, CleanupRun, CleanupWaits, ConnectOwns, FailWith, CleanupBegun, TasksInOrder,
      OneCleanup;
    RunKeepsInvariant(hasNative, es);
    var s := Run(Initial(hasNative), es);
    var a, n := Step(s, AfterConnect(id)), |s.cleanups|;
    FailingBegins(s, e);
    FailedConnectWaits(s, FailWith(s, e), a, id);
    CleanupRuns(a, n, true, None, result);
    var u := Run(a, CleanupRun(a, n, None, result));
    WaitingConnectStays(a, n, id, result);
    RunOne(s, AfterConnect(id));
    RunAppend(s, [AfterConnect(id)], CleanupRun(a, n, None, result));
    RunOne(u, AfterConnectCleanup(id));
    RunAppend(s, [AfterConnect(id)] + CleanupRun(a, n, None, result), [AfterConnectCleanup(id)]);
    ConnectEndsAfterCleanup(u, id, n, Some(e), true, result);
  }

  lemma FailedConnectWaits(s: State, f: State, a: State, id: nat)
    requires OneConnect(s) && id < |s.connects| && s.connects[id].stage.ConnectSettled?
    requires CleanupBegun(f, |s.cleanups|, true) && f.connects == s.connects && f.pendingConnect == s.pendingConnect
    requires !LastConnectQueued(s) ==> f.tasks == [IssueDisconnect(|s.cleanups|)]
    requires a == f.(connects := f.connects[id := f.connects[id].(stage := AwaitingCleanup(f.pendingCleanup))])
    ensures CleanupBegun(a, |s.cleanups|, true) && id == |a.connects| - 1 && a.pendingConnect == Some(id)
    ensures a.connects[id].stage == AwaitingCleanup(Some(|s.cleanups|)) && a.tasks == [IssueDisconnect(|s.cleanups|)]
  {
  }

  /** A connect that waits for the cleanup still waits when the cleanup is over. */
  lemma WaitingConnectStays(a: State, n: nat, id: nat, result: Option<Message>)
    requires CleanupBegun(a, n, true) && id == |a.connects| - 1 && a.pendingConnect == Some(id)
    requires a.connects[id].stage == AwaitingCleanup(Some(n)) && a.tasks == [IssueDisconnect(n)]
    ensures
      var u := Run(a, CleanupRun(a, n, None, result));
      && |u.connects| == |a.connects| && u.connects[id] == a.connects[id] && u.pendingConnect == Some(id)
      && n < |u.cleanups| && u.cleanups[n].stage.CleanupDone?
  {
    hide Run, Step;
    RunSix(a, CleanupRun(a, n, None, result));
    TasksAreIssued(a, n, true);
    var b := Step(Step(a, Microtask), Microtask);
    WaitingConnectIsLeft(a, n);
    WaitingIsNotInFlight(b, id);
    DisconnectLeavesConnects(b, n, result);
  }

  lemma WaitingIsNotInFlight(b: State, id: nat)
    requires id < |b.connects| && b.connects[id].stage.AwaitingCleanup?
    ensures Step(b, NativeConnect(id, None)) == b
  {
  }

  lemma DisconnectLeavesConnects(b: State, n: nat, result: Option<Message>)
    requires n < |b.cleanups| && b.cleanups[n].stage.CleanupInFlight?
    requires ConnectHasSettled(b, b.cleanups[n].waitsFor)
    ensures
      var u := Step(Step(Step(b, NativeDisconnect(n, result)), AfterDisconnect(n)), FinallyDisconnect(n));
      && u.connects == b.connects && u.pendingConnect == b.pendingConnect
      && n < |u.cleanups| && u.cleanups[n].stage.CleanupDone?
  {
    var e := Step(b, NativeDisconnect(n, result));
    assert e.cleanups[n] == b.cleanups[n].(stage := CleanupSettled(result)) && e.connects == b.connects;
    var f := Step(e, AfterDisconnect(n));
    assert f.cleanups[n].stage.CleanupFinished? && f.connects == b.connects;
  }

  lemma WaitingConnectIsLeft(a: State, n: nat)
    requires CleanupBegun(a, n, true) && a.tasks == [IssueDisconnect(n)]
    ensures Step(Step(a, Microtask), Microtask).connects == a.connects
  {
    assert Step(a, Microtask).tasks == [] && Step(a, Microtask).connects == a.connects;
  }

  lemma ConnectEndsAfterCleanup(u: State, id: nat, n: nat, lastError: Option<Message>, retainError: bool,
                                result: Option<Message>)
    requires CleanupEnded(u, lastError, retainError, result) && id < |u.connects| && u.pendingConnect == Some(id)
    requires u.connects[id].stage == AwaitingCleanup(Some(n)) && n < |u.cleanups| && u.cleanups[n].stage.CleanupDone?
    ensures
      var t := Step(u, AfterConnectCleanup(id));
      CleanupEnded(t, lastError, retainError, result) && t.generation == u.generation && t.pendingConnect.None?
  {
  }

  // ----- what is shown when nothing is connected

  /** A connect that is refused before anything is done about it: what changes, and only that. */
  lemma RefusedConnects(s: State, invalid: Option<Message>)
    ensures
      s.hasOwnedSession || s.pendingCleanup.Some? || s.pendingConnect.Some? || s.phase.CleanupFailed? ==>
        Step(s, UserConnect(invalid)) == s
    ensures !Busy(s) && invalid.Some? ==> Step(s, UserConnect(invalid)) == s.(lastError := invalid)
    ensures
      !Busy(s) && invalid.None? && !s.hasNative ==>
        Step(s, UserConnect(invalid)) ==
        s.(generation := s.generation + 1, phase := Failed, lastError := Some(NO_CONTROLS), cleanupError := None)
  {
  }

  /**
   In every run a poll is taken exactly while a session is there, for its generation; an answer that is not
   terminal, or not of the current generation, only ends the poll.
   */
  lemma PollsOfLiveSessions(hasNative: bool, es: seq<Event>, i: nat, error: Option<Message>)
    ensures
      var s := Run(Initial(hasNative), es);
      Step(s, UserPoll) == if Live(s) then s.(polls := s.polls + [Some(s.generation)]) else s
    ensures
      var s := Run(Initial(hasNative), es);
      i < |s.polls| && s.polls[i].Some? && (error.None? || s.polls[i] != Some(s.generation)) ==>
        Step(s, AfterPoll(i, error)) == s.(polls := s.polls[i := None])
  {
    hide Run, OneConnect, OneCleanup, TasksInOrder, CleanupWaits, ConnectOwns;
    RunKeepsInvariant(hasNative, es);
  }

  /** In every run, dismissing or disconnecting a failure that has no session left clears it. */
  lemma FailureCanBeCleared(hasNative: bool, es: seq<Event>)
    requires var s := Run(Initial(hasNative), es); s.phase.Failed? && s.pendingCleanup.None?
    ensures
      var s := Run(Initial(hasNative), es);
      && Step(s, UserDismiss) == s.(phase := Idle, lastError := None, cleanupError := None)
      && Step(s, UserDisconnect) == s.(phase := Idle, lastError := None)
  {
    hide Run, OneConnect, OneCleanup, TasksInOrder, GenerationsAgree, CleanupWaits, ConnectOwns;
    RunKeepsInvariant(hasNative, es);
  }
}
