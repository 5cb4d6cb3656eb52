/**
 Sessions: requests served one after the other, beginning with nothing held.  Which sessions keep the
 record covering what the remote machine holds, whatever sends fail.
 */
module HeldInputSessions {
  import opened Prelude
  import opened HeldInput
  import opened HeldInputSafety

  /** The requests of a session; a release comes from a client, the watchdog or a disconnect. */
  datatype Request = RunActions(actions: seq<Action>) | ReleaseHeld

  function Serve(w: World, r: Request, m: Machine): Machine {
    match r
    case RunActions(actions) => Batch(w, actions, m, {}).machine
    case ReleaseHeld => Release(w, m)
  }

  function Session(w: World, rs: seq<Request>): Machine {
    if rs == [] then Machine({}, {}, 0) else Serve(w, rs[|rs| - 1], Session(w, rs[..|rs| - 1]))
  }

  /** No request of the session releases something held since before that request. */
  ghost predicate ReleasesOnlyItsOwn(w: World, rs: seq<Request>) {
    rs == [] || (
      var m, r := Session(w, rs[..|rs| - 1]), rs[|rs| - 1];
      ReleasesOnlyItsOwn(w, rs[..|rs| - 1]) &&
      (r.RunActions? ==> forall h :: h in m.remote ==> !AtRisk(r.actions, h)))
  }

  /** Throughout such a session the record covers what the remote machine holds, whatever fails. */
  lemma {:induction false} SessionIsCovered(w: World, rs: seq<Request>)
    requires ReleasesOnlyItsOwn(w, rs)
    ensures Covered(Session(w, rs))
  {
    if rs != [] {
      var m, r := Session(w, rs[..|rs| - 1]), rs[|rs| - 1];
      SessionIsCovered(w, rs[..|rs| - 1]);
      match r
      case RunActions(actions) => SafeBatchKeepsCoverage(w, actions, m, {});
      case ReleaseHeld => ReleaseKeepsCoverage(w, m);
    }
  }

  // ----- what a request can press

  /** Do the events of the action press `h`? */
  predicate Presses(a: Action, h: Hold) {
    match a
    case MouseDown(b) => h == Button(b)
    case Click(_, b, count) => h == Button(b) && count > 0
    case Drag(_, b, _) => h == Button(b)
    case KeyDown(key) => key.Some? && h == Key(key.value)
    case KeyPress(key) => key.Some? && h == Key(key.value)
    case TypeText(text) => h in Holds({}, CodesIn(text))
    case _ => false
  }

  /** Some action of the batch presses `h`, and every action up to that one converts. */
  predicate PressedIn(actions: seq<Action>, h: Hold) {
    actions != [] && Convertible(actions[0]) && (Presses(actions[0], h) || PressedIn(actions[1..], h))
  }

  predicate PressedBy(r: Request, h: Hold) { r.RunActions? && PressedIn(r.actions, h) }

  predicate RiskedBy(r: Request, h: Hold) { r.RunActions? && AtRisk(r.actions, h) }

  lemma {:induction false} TapsPress(g: Hold, count: nat, h: Hold)
    ensures Down(h) in Taps(g, count) <==> h == g && count > 0
  {
    if count > 0 {
      TapsPress(g, count - 1, h);
    }
  }

  lemma {:induction false} TypingPresses(text: seq<Typed>, h: Hold)
    ensures Down(h) in TypedEvents(text) <==> h in Holds({}, CodesIn(text))
  {
    if text != [] {
      var front, last := text[..|text| - 1], text[|text| - 1];
      TypingPresses(front, h);
      assert CodesIn(text) == CodesIn(front) + if last.Mapped? then {last.code} else {};
    }
  }

  lemma PressesExactly(a: Action, order: seq<Hold>, h: Hold)
    requires Convertible(a)
    ensures Down(h) in Expand(a, order) <==> Presses(a, h)
  {
    hide EventBound, CodesIn, Holds;
    match a
    case Click(_, b, count) => TapsPress(Button(b), count, h);
    case TypeText(text) => TypingPresses(text, h);
    case _ =>
  }

  // ----- what is held has been pressed

  lemma {:induction false} SentWasPressed(w: World, es: seq<InputEvent>, remote: set<Hold>, pressed: set<Hold>,
                                          sends: nat, h: Hold)
    requires h in SendUntilFailure(w, es, remote, pressed, sends).remote
    ensures h in remote || Down(h) in es
    decreases |es|
  {
    if es != [] && w.accepts(sends) {
      SentWasPressed(w, es[1..], Receive(remote, es[0]), Receive(pressed, es[0]), sends + 1, h);
    }
  }

  lemma {:induction false} HeldWasPressed(w: World, actions: seq<Action>, m: Machine, pressed: set<Hold>, h: Hold)
    requires h in Batch(w, actions, m, pressed).machine.remote
    ensures h in m.remote || PressedIn(actions, h)
    decreases |actions|
  {
    hide Convertible, Track, Expand, SendUntilFailure, Release, Presses;
    if actions != [] && Convertible(actions[0]) {
      var order := w.drain(m.sends, m.tracked);
      var s := SendUntilFailure(w, Expand(actions[0], order), m.remote, pressed, m.sends);
      if s.ok {
        HeldWasPressed(w, actions[1..], Machine(Track(actions[0], m.tracked), s.remote, s.sends), s.pressed, h);
      } else {
        ReleaseKeepsCoverage(w, Machine(Track(actions[0], m.tracked) + s.pressed, s.remote, s.sends));
      }
      if h in s.remote {
        SentWasPressed(w, Expand(actions[0], order), m.remote, pressed, m.sends, h);
        PressesExactly(actions[0], order, h);
      }
    }
  }

  ghost predicate PressedEarlier(rs: seq<Request>, h: Hold) { exists i :: 0 <= i < |rs| && PressedBy(rs[i], h) }

  /** Whatever the remote machine holds in a session was pressed by one of its requests. */
  lemma {:induction false} SessionHoldsWhatItPressed(w: World, rs: seq<Request>, h: Hold)
    requires h in Session(w, rs).remote
    ensures PressedEarlier(rs, h)
  {
    hide Batch, Release, PressedIn;
    if rs != [] {
      var front, r := rs[..|rs| - 1], rs[|rs| - 1];
      var m := Session(w, front);
      match r {
        case RunActions(actions) => HeldWasPressed(w, actions, m, {}, h);
        case ReleaseHeld => ReleaseKeepsCoverage(w, m);
      }
      if h in m.remote {
        SessionHoldsWhatItPressed(w, front, h);
        var i :| 0 <= i < |front| && PressedBy(front[i], h);
        assert PressedBy(rs[i], h);
      } else {
        assert PressedBy(rs[|rs| - 1], h);
      }
    }
  }

  /** No request puts at risk what an earlier one may have pressed. */
  ghost predicate ReleasesOnlyOwnPresses(rs: seq<Request>) {
    forall i, j, h :: 0 <= i < j < |rs| && PressedBy(rs[i], h) ==> !RiskedBy(rs[j], h)
  }

  lemma {:induction false} OwnPressesSuffice(w: World, rs: seq<Request>)
    requires ReleasesOnlyOwnPresses(rs)
    ensures ReleasesOnlyItsOwn(w, rs)
  {
    hide Session, PressedBy, AtRisk;
    if rs != [] {
      var front, r := rs[..|rs| - 1], rs[|rs| - 1];
      OwnPressesSuffice(w, front);
      forall h | h in Session(w, front).remote ensures !RiskedBy(r, h) {
        SessionHoldsWhatItPressed(w, front, h);
        var i :| 0 <= i < |front| && PressedBy(front[i], h);
        assert PressedBy(rs[i], h);
      }
    }
  }

  // ----- a press and a later risk can be made to meet

  ghost predicate Silent(w: World, first: nat) { forall i :: first <= i ==> !w.accepts(i) }

  /** The world `w` up to send number `first`, and from there on one in which exactly the sends below `n` succeed. */
  function Switched(w: World, first: nat, n: nat): World {
    World((i: nat) => if i < first then w.accepts(i) else i < n, w.drain)
  }

  lemma {:induction false} SendsCount(w: World, es: seq<InputEvent>, remote: set<Hold>, pressed: set<Hold>, sends: nat)
    ensures
      var s := SendUntilFailure(w, es, remote, pressed, sends);
      s.sends >= sends && (Silent(w, sends) ==> s.remote == remote)
    decreases |es|
  {
    if es != [] && w.accepts(sends) {
      SendsCount(w, es[1..], Receive(remote, es[0]), Receive(pressed, es[0]), sends + 1);
    }
  }

  lemma ReleaseCounts(w: World, m: Machine)
    ensures Release(w, m).sends == m.sends + |w.drain(m.sends, m.tracked)| + 1
    ensures Silent(w, m.sends) ==> Release(w, m).remote == m.remote
  {
    if Silent(w, m.sends) {
      NothingSent(w, Ups(w.drain(m.sends, m.tracked)) + [Reset], m.remote, m.sends);
    }
  }

  lemma {:induction false} BatchCounts(w: World, actions: seq<Action>, m: Machine, pressed: set<Hold>)
    ensures
      var m' := Batch(w, actions, m, pressed).machine;
      m'.sends >= m.sends && (Silent(w, m.sends) ==> m'.remote == m.remote)
    decreases |actions|
  {
    hide Convertible, Track, Expand, SendUntilFailure, Release;
    if actions != [] && Convertible(actions[0]) {
      var tracked, es := Track(actions[0], m.tracked), Expand(actions[0], w.drain(m.sends, m.tracked));
      var s := SendUntilFailure(w, es, m.remote, pressed, m.sends);
      SendsCount(w, es, m.remote, pressed, m.sends);
      if s.ok {
        BatchCounts(w, actions[1..], Machine(tracked, s.remote, s.sends), s.pressed);
      } else {
        ReleaseCounts(w, Machine(tracked + s.pressed, s.remote, s.sends));
      }
    }
  }

  lemma ServeCounts(w: World, r: Request, m: Machine)
    ensures Serve(w, r, m).sends >= m.sends && (Silent(w, m.sends) ==> Serve(w, r, m).remote == m.remote)
  {
    hide Batch, Release;
    match r
    case RunActions(actions) => BatchCounts(w, actions, m, {});
    case ReleaseHeld => ReleaseCounts(w, m);
  }

  lemma {:induction false} PressIsSent(w: World, es: seq<InputEvent>, remote: set<Hold>, pressed: set<Hold>,
                                       sends: nat, p: nat, h: Hold)
    requires p < |es| && es[p] == Down(h) && CutsOff(w, sends, sends + p + 1)
    ensures
      var s := SendUntilFailure(w, es, remote, pressed, sends);
      h in s.remote && s.sends >= sends + p + 1
    decreases p
  {
    if p == 0 {
      SendsCount(w, es[1..], Receive(remote, es[0]), Receive(pressed, es[0]), sends + 1);
    } else {
      PressIsSent(w, es[1..], Receive(remote, es[0]), Receive(pressed, es[0]), sends + 1, p - 1, h);
    }
  }

  ghost predicate HeldBeyond(m: Machine, h: Hold, n: nat) { h in m.remote && m.sends >= n }

  /** For an item that a batch presses there is a number such that, if sends fail from there on, it stays held. */
  lemma {:induction false} PressIsReal(w: World, actions: seq<Action>, m: Machine, pressed: set<Hold>, h: Hold)
    returns (n: nat)
    requires PressedIn(actions, h)
    ensures n >= m.sends
    ensures
      forall w': World :: w'.drain == w.drain && CutsOff(w', m.sends, n) ==>
        HeldBeyond(Batch(w', actions, m, pressed).machine, h, n)
    decreases |actions|
  {
    hide Convertible, Track, Expand, SendUntilFailure, Release, Presses, ReceiveAll;
    var a, es := actions[0], Expand(actions[0], w.drain(m.sends, m.tracked));
    if Presses(a, h) {
      PressesExactly(a, w.drain(m.sends, m.tracked), h);
      var p :| 0 <= p < |es| && es[p] == Down(h);
      n := m.sends + p + 1;
      forall w': World | w'.drain == w.drain && CutsOff(w', m.sends, n)
        ensures HeldBeyond(Batch(w', actions, m, pressed).machine, h, n)
      {
        PressStaysHeld(w', actions, m, pressed, p, h);
      }
    } else {
      var next := Machine(Track(a, m.tracked), ReceiveAll(m.remote, es), m.sends + |es|);
      n := PressIsReal(w, actions[1..], next, ReceiveAll(pressed, es), h);
      forall w': World | w'.drain == w.drain && CutsOff(w', m.sends, n)
        ensures HeldBeyond(Batch(w', actions, m, pressed).machine, h, n)
      {
        SendAllIsReceiveAll(w', es, m.remote, pressed, m.sends);
      }
    }
  }

  lemma PressStaysHeld(w: World, actions: seq<Action>, m: Machine, pressed: set<Hold>, p: nat, h: Hold)
    requires actions != [] && Convertible(actions[0])
    requires
      var es := Expand(actions[0], w.drain(m.sends, m.tracked));
      p < |es| && es[p] == Down(h)
    requires CutsOff(w, m.sends, m.sends + p + 1)
    ensures HeldBeyond(Batch(w, actions, m, pressed).machine, h, m.sends + p + 1)
  {
    hide Convertible, Track, Expand, SendUntilFailure, Release;
    var tracked, es := Track(actions[0], m.tracked), Expand(actions[0], w.drain(m.sends, m.tracked));
    var s := SendUntilFailure(w, es, m.remote, pressed, m.sends);
    PressIsSent(w, es, m.remote, pressed, m.sends, p, h);
    if s.ok {
      BatchCounts(w, actions[1..], Machine(tracked, s.remote, s.sends), s.pressed);
    } else {
      ReleaseCounts(w, Machine(tracked + s.pressed, s.remote, s.sends));
    }
  }

  // ----- a session depends only on the sends it makes

  ghost predicate Agree(w: World, w': World, first: nat, n: nat) {
    w'.drain == w.drain && forall i :: first <= i < n ==> (w'.accepts(i) <==> w.accepts(i))
  }

  lemma {:induction false} SendsAgree(w: World, w': World, es: seq<InputEvent>, remote: set<Hold>, pressed: set<Hold>,
                                      sends: nat)
    requires Agree(w, w', sends, SendUntilFailure(w, es, remote, pressed, sends).sends)
    ensures SendUntilFailure(w', es, remote, pressed, sends) == SendUntilFailure(w, es, remote, pressed, sends)
    decreases |es|
  {
    if es != [] {
      SendsCount(w, es[1..], Receive(remote, es[0]), Receive(pressed, es[0]), sends + 1);
      if w.accepts(sends) {
        SendsAgree(w, w', es[1..], Receive(remote, es[0]), Receive(pressed, es[0]), sends + 1);
      }
    }
  }

  lemma {:induction false} SendEachAgrees(w: World, w': World, es: seq<InputEvent>, remote: set<Hold>, sends: nat)
    requires Agree(w, w', sends, sends + |es|)
    ensures SendEach(w', es, remote, sends) == SendEach(w, es, remote, sends)
    decreases |es|
  {
    if es != [] {
      SendEachAgrees(w, w', es[1..], if w.accepts(sends) then Receive(remote, es[0]) else remote, sends + 1);
    }
  }

  lemma ReleaseAgrees(w: World, w': World, m: Machine)
    requires Agree(w, w', m.sends, Release(w, m).sends)
    ensures Release(w', m) == Release(w, m)
  {
    SendEachAgrees(w, w', Ups(w.drain(m.sends, m.tracked)) + [Reset], m.remote, m.sends);
  }

  lemma {:induction false} BatchAgrees(w: World, w': World, actions: seq<Action>, m: Machine, pressed: set<Hold>)
    requires Agree(w, w', m.sends, Batch(w, actions, m, pressed).machine.sends)
    ensures Batch(w', actions, m, pressed) == Batch(w, actions, m, pressed)
    decreases |actions|
  {
    hide Convertible, Track, Expand, SendUntilFailure, Release;
    if actions != [] && Convertible(actions[0]) {
      var tracked, es := Track(actions[0], m.tracked), Expand(actions[0], w.drain(m.sends, m.tracked));
      var s := SendUntilFailure(w, es, m.remote, pressed, m.sends);
      SendsCount(w, es, m.remote, pressed, m.sends);
      if s.ok {
        BatchCounts(w, actions[1..], Machine(tracked, s.remote, s.sends), s.pressed);
        SendsAgree(w, w', es, m.remote, pressed, m.sends);
        BatchAgrees(w, w', actions[1..], Machine(tracked, s.remote, s.sends), s.pressed);
      } else {
        ReleaseCounts(w, Machine(tracked + s.pressed, s.remote, s.sends));
        SendsAgree(w, w', es, m.remote, pressed, m.sends);
        ReleaseAgrees(w, w', Machine(tracked + s.pressed, s.remote, s.sends));
      }
    }
  }

  /** Sends that a session does not make do not matter to it. */
  lemma {:induction false} SessionAgrees(w: World, w': World, rs: seq<Request>)
    requires Agree(w, w', 0, Session(w, rs).sends)
    ensures Session(w', rs) == Session(w, rs)
  {
    hide Batch, Release;
    if rs != [] {
      var front, r := rs[..|rs| - 1], rs[|rs| - 1];
      var m := Session(w, front);
      ServeCounts(w, r, m);
      SessionAgrees(w, w', front);
      match r
      case RunActions(actions) => BatchAgrees(w, w', actions, m, {});
      case ReleaseHeld => ReleaseAgrees(w, w', m);
    }
  }

  // ----- the exact condition

  lemma OneMoreRequest(w: World, rs: seq<Request>, j: nat)
    requires j < |rs|
    ensures Session(w, rs[..j + 1]) == Serve(w, rs[j], Session(w, rs[..j]))
  {
    assert rs[..j + 1][..j] == rs[..j];
  }

  /** What is held when sends begin to fail stays held. */
  lemma {:induction false} StaysHeld(w: World, rs: seq<Request>, i: nat, j: nat, n: nat, h: Hold)
    requires i <= j <= |rs| && Silent(w, n) && HeldBeyond(Session(w, rs[..i]), h, n)
    ensures HeldBeyond(Session(w, rs[..j]), h, n)
    decreases j
  {
    hide Serve, Session;
    if i < j {
      StaysHeld(w, rs, i, j - 1, n, h);
      OneMoreRequest(w, rs, j - 1);
      ServeCounts(w, rs[j - 1], Session(w, rs[..j - 1]));
    }
  }

  /** In some fair world the press gets through, and everything after it fails. */
  lemma PressMeets(rs: seq<Request>, i: nat, h: Hold) returns (w: World, n: nat)
    requires i < |rs| && PressedBy(rs[i], h)
    ensures w.Fair() && Silent(w, n) && HeldBeyond(Session(w, rs[..i + 1]), h, n)
  {
    hide Session, IsDrain, PressedIn, Batch;
    var w0 := FairWorldExists();
    var m := Session(w0, rs[..i]);
    n := PressIsReal(w0, rs[i].actions, m, {}, h);
    w := Switched(w0, m.sends, n);
    SessionAgrees(w0, w, rs[..i]);
    OneMoreRequest(w, rs, i);
  }

  /** A press and a later request that puts it at risk: in some fair world the item is lost. */
  lemma SessionLoses(rs: seq<Request>, i: nat, j: nat, h: Hold) returns (w: World)
    requires i < j < |rs| && PressedBy(rs[i], h) && RiskedBy(rs[j], h)
    ensures w.Fair() && Lost(Session(w, rs[..j + 1]), h)
  {
    hide Session, IsDrain, PressedIn, Batch, AtRisk;
    var w1, n1 := PressMeets(rs, i, h);
    StaysHeld(w1, rs, i + 1, j, n1, h);
    var m := Session(w1, rs[..j]);
    var n := RiskIsReal(w1, rs[j].actions, m, {}, h);
    w := Switched(w1, m.sends, n);
    SessionAgrees(w1, w, rs[..j]);
    OneMoreRequest(w, rs, j);
  }

  ghost predicate AlwaysCovered(w: World, rs: seq<Request>) {
    forall k :: 0 <= k <= |rs| ==> Covered(Session(w, rs[..k]))
  }

  /**
   The exact guarantee of a session: its record covers what is held after each of its requests, whatever
   sends fail, if and only if no request puts at risk what an earlier one may have pressed.
   */
  lemma SessionsAreCoveredExactly(rs: seq<Request>)
    ensures (forall w: World :: w.Fair() ==> AlwaysCovered(w, rs)) <==> ReleasesOnlyOwnPresses(rs)
  {
    hide Session, IsDrain, PressedBy, RiskedBy, ReleasesOnlyItsOwn;
    if ReleasesOnlyOwnPresses(rs) {
      forall w: World, k | w.Fair() && 0 <= k <= |rs| ensures Covered(Session(w, rs[..k])) {
        OwnPressesSuffice(w, rs[..k]);
        SessionIsCovered(w, rs[..k]);
      }
    } else {
      var i, j, h :| 0 <= i < j < |rs| && PressedBy(rs[i], h) && RiskedBy(rs[j], h);
      var w := SessionLoses(rs, i, j, h);
      assert !Covered(Session(w, rs[..j + 1]));
    }
  }

  /** A concrete loss: a session presses a button, and no send succeeds from the request that releases it on. */
  lemma ReleaseOfEarlierPressCanBeLost(w: World)
    requires w.Fair()
    ensures
      var m := Session(FailingFrom(w, 1), [RunActions([MouseDown(Left)]), RunActions([MouseUp(Left)])]);
      m.remote == {Button(Left)} && m.tracked == {}
  {
    hide Batch, Release, IsDrain;
    var f, press, release := FailingFrom(w, 1), RunActions([MouseDown(Left)]), RunActions([MouseUp(Left)]);
    var held := {Button(Left)};
    assert [press, release][..1] == [press] && [press][..0] == [];
    PressGoesOut(f);
    assert Session(f, [press]) == Machine(held, held, 1);
    FailureAtReleaseUncovers(f, [MouseUp(Left)], Machine(held, held, 1), {}, Button(Left));
    FailedReleaseAddsNothing(f);
  }

  lemma PressGoesOut(w: World)
    requires w.accepts(0)
    ensures Batch(w, [MouseDown(Left)], Machine({}, {}, 0), {}).machine == Machine({Button(Left)}, {Button(Left)}, 1)
  {
    var es := [Down(Button(Left))];
    assert es[1..] == [] && [MouseDown(Left)][1..] == [];
    assert SendUntilFailure(w, es, {}, {}, 0) == Sending({Button(Left)}, {Button(Left)}, 1, true);
  }

  lemma FailedReleaseAddsNothing(w: World)
    requires !w.accepts(1)
    ensures
      var held := {Button(Left)};
      var m := Batch(w, [MouseUp(Left)], Machine(held, held, 1), {}).machine;
      m.remote <= held && m.tracked <= {}
  {
    ReleaseKeepsCoverage(w, Machine({}, {Button(Left)}, 2));
    assert Track(MouseUp(Left), {Button(Left)}) + {} == {};
  }
}
