/** When the local record covers what the remote machine holds, and exactly when it may fail to. */
module HeldInputSafety {
  import opened Prelude
  import opened HeldInput

  // ----- release

  lemma {:induction false} SendEachOnlyReleases(w: World, order: seq<Hold>, remote: set<Hold>, sends: nat)
    ensures SendEach(w, Ups(order) + [Reset], remote, sends) <= remote
    ensures w.accepts(sends + |order|) ==> SendEach(w, Ups(order) + [Reset], remote, sends) == {}
    decreases |order|
  {
    var es := Ups(order) + [Reset];
    var next := if w.accepts(sends) then Receive(remote, es[0]) else remote;
    if order == [] {
      assert es == [Reset] && es[1..] == [];
    } else {
      assert es[1..] == Ups(order[1..]) + [Reset];
      SendEachOnlyReleases(w, order[1..], next, sends + 1);
    }
  }

  /** For every pattern of failed sends a release keeps the record covering; an accepted Reset empties both. */
  lemma ReleaseKeepsCoverage(w: World, m: Machine)
    ensures Covered(m) ==> Covered(Release(w, m))
    ensures
      var reset := m.sends + |w.drain(m.sends, m.tracked)|;
      w.accepts(reset) ==> Release(w, m).tracked == {} == Release(w, m).remote
    ensures !w.accepts(m.sends + |w.drain(m.sends, m.tracked)|) ==> Release(w, m).tracked == m.tracked
    ensures Release(w, m).remote <= m.remote
  {
    SendEachOnlyReleases(w, w.drain(m.sends, m.tracked), m.remote, m.sends);
  }

  /** Was the up of `h` among the first |order| sends from number `sends` on accepted? */
  ghost predicate UpAccepted(w: World, order: seq<Hold>, sends: nat, h: Hold) {
    exists k :: 0 <= k < |order| && order[k] == h && w.accepts(sends + k)
  }

  lemma UpAcceptedCons(w: World, order: seq<Hold>, sends: nat, h: Hold)
    requires order != []
    ensures
      UpAccepted(w, order, sends, h) <==>
      (order[0] == h && w.accepts(sends)) || UpAccepted(w, order[1..], sends + 1, h)
  {
    if UpAccepted(w, order[1..], sends + 1, h) {
      var k :| 0 <= k < |order[1..]| && order[1..][k] == h && w.accepts(sends + 1 + k);
      assert order[k + 1] == h && w.accepts(sends + (k + 1));
    }
    if UpAccepted(w, order, sends, h) && !(order[0] == h && w.accepts(sends)) {
      var k :| 0 <= k < |order| && order[k] == h && w.accepts(sends + k);
      assert order[1..][k - 1] == h && w.accepts(sends + 1 + (k - 1));
    }
  }

  lemma {:induction false} SendEachExactly(w: World, order: seq<Hold>, remote: set<Hold>, sends: nat, h: Hold)
    ensures
      h in SendEach(w, Ups(order) + [Reset], remote, sends) <==>
      h in remote && !w.accepts(sends + |order|) && !UpAccepted(w, order, sends, h)
    decreases |order|
  {
    var es := Ups(order) + [Reset];
    if order == [] {
      assert es == [Reset] && es[1..] == [];
    } else {
      hide UpAccepted;
      assert es[1..] == Ups(order[1..]) + [Reset];
      UpAcceptedCons(w, order, sends, h);
      SendEachExactly(w, order[1..], if w.accepts(sends) then Receive(remote, es[0]) else remote, sends + 1, h);
    }
  }

  /** After a release exactly those items are still held whose own up and the Reset both failed. */
  lemma ReleaseIsExact(w: World, m: Machine, h: Hold)
    requires w.Fair()
    ensures
      var order := w.drain(m.sends, m.tracked);
      h in Release(w, m).remote <==>
      h in m.remote && !w.accepts(m.sends + |order|) && !UpAccepted(w, order, m.sends, h)
    ensures h in w.drain(m.sends, m.tracked) <==> h in m.tracked
  {
    SendEachExactly(w, w.drain(m.sends, m.tracked), m.remote, m.sends, h);
    DrainIsSet(w.drain(m.sends, m.tracked), m.tracked);
  }

  lemma {:induction false} DistinctCount(order: seq<Hold>)
    requires forall i, j :: 0 <= i < j < |order| ==> order[i] != order[j]
    ensures |set h | h in order| == |order|
  {
    if order == [] {
      assert (set h | h in order) == {};
    } else {
      var front, last := order[..|order| - 1], order[|order| - 1];
      DistinctCount(front);
      assert (set h | h in order) == (set h | h in front) + {last};
    }
  }

  /** A release sends one up for each item, buttons before keys, and one Reset. */
  lemma ReleaseSendsEachOnce(w: World, m: Machine)
    requires w.Fair()
    ensures Release(w, m).sends == m.sends + |m.tracked| + 1
    ensures
      var order, buttons := w.drain(m.sends, m.tracked), set h | h in m.tracked && h.Button?;
      forall i :: 0 <= i < |order| ==> (order[i].Button? <==> i < |buttons|)
  {
    var order := w.drain(m.sends, m.tracked);
    DistinctCount(order);
    DrainIsSet(order, m.tracked);
    ButtonsFirst(order, m.tracked);
  }

  lemma ButtonsFirst(order: seq<Hold>, held: set<Hold>)
    requires IsDrain(order, held)
    ensures
      var buttons := set h | h in held && h.Button?;
      forall i :: 0 <= i < |order| ==> (order[i].Button? <==> i < |buttons|)
  {
    var cut := ButtonCount(order);
    DistinctCount(order[..cut]);
    assert (set h | h in order[..cut]) == set h | h in held && h.Button?;
  }

  /** The length of the part of the order that consists of buttons. */
  function ButtonCount(order: seq<Hold>): (n: nat)
    ensures n <= |order| && (forall i :: 0 <= i < n ==> order[i].Button?) && (n < |order| ==> order[n].Key?)
  {
    if order == [] || order[0].Key? then 0 else 1 + ButtonCount(order[1..])
  }

  // ----- one action

  lemma {:induction false} TapsRelease(h: Hold, count: nat, held: set<Hold>)
    ensures ReceiveAll(held, Taps(h, count)) == if count == 0 then held else held - {h}
  {
    if count > 0 {
      TapsRelease(h, count - 1, held);
      ReceiveAppend(held, Taps(h, count - 1), [Down(h), Up(h)]);
      var before := ReceiveAll(held, Taps(h, count - 1));
      ReceiveTwo(before, Down(h), Up(h));
    }
  }

  lemma {:induction false} ReceiveAppend(held: set<Hold>, a: seq<InputEvent>, b: seq<InputEvent>)
    ensures ReceiveAll(held, a + b) == ReceiveAll(ReceiveAll(held, a), b)
    decreases |a|
  {
    if a == [] {
      assert a + b == b;
    } else {
      assert (a + b)[1..] == a[1..] + b;
      ReceiveAppend(Receive(held, a[0]), a[1..], b);
    }
  }

  lemma ReceiveOne(held: set<Hold>, e: InputEvent)
    ensures ReceiveAll(held, [e]) == Receive(held, e)
  {
    assert [e][1..] == [];
  }

  lemma ReceiveTwo(held: set<Hold>, e: InputEvent, f: InputEvent)
    ensures ReceiveAll(held, [e, f]) == Receive(Receive(held, e), f)
  {
    assert [e, f][1..] == [f];
    ReceiveOne(Receive(held, e), f);
  }

  predicate Inert(e: InputEvent) { e.Move? || e.Dragged? || e.Scroll? || e.Unicode? }

  lemma {:induction false} ReceiveInert(held: set<Hold>, e: InputEvent, n: nat)
    requires Inert(e)
    ensures ReceiveAll(held, Repeat(e, n)) == held
  {
    if n > 0 {
      assert Repeat(e, n)[1..] == Repeat(e, n - 1);
      ReceiveInert(held, e, n - 1);
    }
  }

  function CodesIn(text: seq<Typed>): set<nat> { set i | 0 <= i < |text| && text[i].Mapped? :: text[i].code }

  lemma {:induction false} TypingReleases(text: seq<Typed>, held: set<Hold>)
    ensures ReceiveAll(held, TypedEvents(text)) == held - Holds({}, CodesIn(text))
  {
    if text != [] {
      var front, last := text[..|text| - 1], text[|text| - 1];
      var before := ReceiveAll(held, TypedEvents(front));
      TypingReleases(front, held);
      match last
      case Mapped(code) =>
        ReceiveAppend(held, TypedEvents(front), [Down(Key(code)), Up(Key(code))]);
        ReceiveTwo(before, Down(Key(code)), Up(Key(code)));
        assert CodesIn(text) == CodesIn(front) + {code};
        assert Holds({}, CodesIn(text)) == Holds({}, CodesIn(front)) + {Key(code)};
      case Unmapped =>
        assert TypedEvents(text) == TypedEvents(front);
        assert CodesIn(text) == CodesIn(front);
      case Wide(units) =>
        ReceiveAppend(held, TypedEvents(front), Repeat(Unicode, units));
        ReceiveInert(before, Unicode, units);
        assert CodesIn(text) == CodesIn(front);
    }
  }

  lemma {:induction false} UpsRelease(held: set<Hold>, order: seq<Hold>)
    ensures ReceiveAll(held, Ups(order) + [Reset]) == {}
    decreases |order|
  {
    ReceiveAppend(held, Ups(order), [Reset]);
    ReceiveOne(ReceiveAll(held, Ups(order)), Reset);
  }

  /** Does the action release `h` in the record? */
  predicate Releases(a: Action, h: Hold) {
    match a
    case MouseUp(b) => h == Button(b)
    case Drag(_, b, _) => h == Button(b)
    case KeyUp(key) => key.Some? && h == Key(key.value)
    case ReleaseAll => true
    case _ => false
  }

  /** Do the events of the action concern `h` at all? */
  predicate Touches(a: Action, h: Hold) {
    Releases(a, h) ||
    match a
    case MouseDown(b) => h == Button(b)
    case Click(_, b, count) => h == Button(b) && count > 0
    case KeyDown(key) => key.Some? && h == Key(key.value)
    case KeyPress(key) => key.Some? && h == Key(key.value)
    case TypeText(text) => h in Holds({}, CodesIn(text))
    case _ => false
  }

  /** What an action leaves held, in one step instead of event by event. */
  function HeldAfter(a: Action, held: set<Hold>): set<Hold>
    requires Convertible(a)
  {
    match a
    case MouseDown(b) => held + {Button(b)}
    case KeyDown(key) => held + {Key(key.value)}
    case MouseUp(b) => held - {Button(b)}
    case Click(_, b, count) => if count == 0 then held else held - {Button(b)}
    case Drag(_, b, _) => held - {Button(b)}
    case KeyUp(key) => held - {Key(key.value)}
    case KeyPress(key) => held - {Key(key.value)}
    case TypeText(text) => held - Holds({}, CodesIn(text))
    case ReleaseAll => {}
    case _ => held
  }

  /** Everything an action whose sends all succeed leaves held: what it presses, and what it does not touch. */
  lemma ActionEffect(a: Action, order: seq<Hold>, held: set<Hold>)
    requires Convertible(a)
    ensures ReceiveAll(held, Expand(a, order)) == HeldAfter(a, held)
  {
    hide Holds, CodesIn, EventBound, ReceiveAll;
    match a
    case MouseMove(_) => ReceiveOne(held, Move);
    case MouseDown(b) => ReceiveOne(held, Down(Button(b)));
    case MouseUp(b) => ReceiveOne(held, Up(Button(b)));
    case Click(_, b, count) =>
      ReceiveAppend(held, [Move], Taps(Button(b), count));
      ReceiveOne(held, Move);
      TapsRelease(Button(b), count, held);
    case Drag(_, b, steps) => DragReleases(held, Button(b), AtLeastOne(steps));
    case ScrollBy(_) => ReceiveOne(held, Scroll);
    case KeyDown(key) => ReceiveOne(held, Down(Key(key.value)));
    case KeyUp(key) => ReceiveOne(held, Up(Key(key.value)));
    case KeyPress(key) =>
      ReceiveTwo(held, Down(Key(key.value)), Up(Key(key.value)));
    case TypeText(text) => TypingReleases(text, held);
    case ReleaseAll => UpsRelease(held, order);
  }

  lemma DragReleases(held: set<Hold>, h: Hold, n: nat)
    ensures ReceiveAll(held, [Move, Down(h)] + Repeat(Dragged, n) + [Up(h)]) == held - {h}
  {
    ReceiveAppend(held, [Move, Down(h)] + Repeat(Dragged, n), [Up(h)]);
    ReceiveAppend(held, [Move, Down(h)], Repeat(Dragged, n));
    ReceiveTwo(held, Move, Down(h));
    ReceiveInert(held + {h}, Dragged, n);
    ReceiveOne(held + {h}, Up(h));
  }

  /** If all sends of an action succeed, coverage is kept, and a touched item is held only if freshly pressed. */
  lemma ActionKeepsCoverage(a: Action, order: seq<Hold>, remote: set<Hold>, tracked: set<Hold>, pressed: set<Hold>)
    requires Convertible(a) && remote <= tracked
    ensures ReceiveAll(remote, Expand(a, order)) <= Track(a, tracked)
    ensures forall h :: h in ReceiveAll(remote, Expand(a, order)) ==>
              if Touches(a, h) then h in ReceiveAll(pressed, Expand(a, order))
              else h in remote && (h in pressed ==> h in ReceiveAll(pressed, Expand(a, order)))
  {
    hide ReceiveAll, Expand, CodesIn, EventBound;
    ActionEffect(a, order, remote);
    ActionEffect(a, order, pressed);
  }

  // ----- sending

  lemma {:induction false} SendAllIsReceiveAll(w: World, es: seq<InputEvent>, remote: set<Hold>, pressed: set<Hold>,
                                               sends: nat)
    ensures
      var s := SendUntilFailure(w, es, remote, pressed, sends);
      s.ok ==> s.remote == ReceiveAll(remote, es) && s.pressed == ReceiveAll(pressed, es) && s.sends == sends + |es|
    ensures
      (forall i :: sends <= i < sends + |es| ==> w.accepts(i)) ==>
        SendUntilFailure(w, es, remote, pressed, sends).ok
    decreases |es|
  {
    if es != [] && w.accepts(sends) {
      SendAllIsReceiveAll(w, es[1..], Receive(remote, es[0]), Receive(pressed, es[0]), sends + 1);
    }
  }

  /** However far the sends get, what is held remotely was held before or has been pressed by this request. */
  lemma {:induction false} HeldIsOldOrPressed(w: World, es: seq<InputEvent>, remote: set<Hold>, pressed: set<Hold>,
                                              sends: nat)
    ensures
      var s := SendUntilFailure(w, es, remote, pressed, sends);
      s.remote - s.pressed <= remote - pressed
    decreases |es|
  {
    if es != [] && w.accepts(sends) {
      assert Receive(remote, es[0]) - Receive(pressed, es[0]) <= remote - pressed;
      HeldIsOldOrPressed(w, es[1..], Receive(remote, es[0]), Receive(pressed, es[0]), sends + 1);
    }
  }

  // ----- batches

  /**
   Item `h`, held since before the request, is at risk: the first action of the batch that touches it
   releases it, and every action up to that one converts.
   */
  predicate AtRisk(actions: seq<Action>, h: Hold) {
    actions != [] && Convertible(actions[0]) &&
    if Touches(actions[0], h) then Releases(actions[0], h) else AtRisk(actions[1..], h)
  }

  /** Everything held remotely is tracked, and is freshly pressed or not at risk in the rest of the batch. */
  ghost predicate Safe(m: Machine, pressed: set<Hold>, rest: seq<Action>) {
    Covered(m) && forall h :: h in m.remote ==> h in pressed || !AtRisk(rest, h)
  }

  lemma SafeAfterAction(w: World, actions: seq<Action>, m: Machine, pressed: set<Hold>)
    requires actions != [] && Convertible(actions[0]) && Safe(m, pressed, actions)
    requires SendUntilFailure(w, Expand(actions[0], w.drain(m.sends, m.tracked)), m.remote, pressed, m.sends).ok
    ensures
      var s := SendUntilFailure(w, Expand(actions[0], w.drain(m.sends, m.tracked)), m.remote, pressed, m.sends);
      Safe(Machine(Track(actions[0], m.tracked), s.remote, s.sends), s.pressed, actions[1..])
  {
    hide Convertible, Track, Expand, Touches, Releases, SendUntilFailure, ReceiveAll;
    var order := w.drain(m.sends, m.tracked);
    SendAllIsReceiveAll(w, Expand(actions[0], order), m.remote, pressed, m.sends);
    ActionKeepsCoverage(actions[0], order, m.remote, m.tracked, pressed);
  }

  lemma TrackKeeps(a: Action, tracked: set<Hold>, h: Hold)
    requires Convertible(a) && h in tracked && !Releases(a, h)
    ensures h in Track(a, tracked)
  {
  }

  lemma CoveredAfterFailure(w: World, actions: seq<Action>, m: Machine, pressed: set<Hold>)
    requires actions != [] && Convertible(actions[0]) && Safe(m, pressed, actions)
    ensures
      var s := SendUntilFailure(w, Expand(actions[0], w.drain(m.sends, m.tracked)), m.remote, pressed, m.sends);
      Covered(Machine(Track(actions[0], m.tracked) + s.pressed, s.remote, s.sends))
  {
    hide Convertible, Track, Expand, SendUntilFailure;
    var es := Expand(actions[0], w.drain(m.sends, m.tracked));
    var s := SendUntilFailure(w, es, m.remote, pressed, m.sends);
    HeldIsOldOrPressed(w, es, m.remote, pressed, m.sends);
    forall h | h in s.remote && h !in s.pressed ensures h in Track(actions[0], m.tracked) {
      assert h in m.remote - pressed;
      assert !AtRisk(actions, h);
      assert Touches(actions[0], h) || !Releases(actions[0], h);
      TrackKeeps(actions[0], m.tracked, h);
    }
  }

  /** No failed send, wherever it strikes, uncovers a machine whose held items are not at risk. */
  lemma {:induction false} SafeBatchKeepsCoverage(w: World, actions: seq<Action>, m: Machine, pressed: set<Hold>)
    requires Safe(m, pressed, actions)
    ensures Covered(Batch(w, actions, m, pressed).machine)
    decreases |actions|
  {
    hide Convertible, Track, Expand, SendUntilFailure, Release, AtRisk;
    if actions != [] && Convertible(actions[0]) {
      var tracked := Track(actions[0], m.tracked);
      var s := SendUntilFailure(w, Expand(actions[0], w.drain(m.sends, m.tracked)), m.remote, pressed, m.sends);
      if s.ok {
        SafeAfterAction(w, actions, m, pressed);
        SafeBatchKeepsCoverage(w, actions[1..], Machine(tracked, s.remote, s.sends), s.pressed);
      } else {
        CoveredAfterFailure(w, actions, m, pressed);
        ReleaseKeepsCoverage(w, Machine(tracked + s.pressed, s.remote, s.sends));
      }
    }
  }

  /** A batch in which no send fails keeps coverage, also when it stops at an action that does not convert. */
  lemma {:induction false} BatchWithoutFailureKeepsCoverage(w: World, actions: seq<Action>, m: Machine,
                                                            pressed: set<Hold>)
    requires Covered(m) && !Batch(w, actions, m, pressed).status.InternalError?
    ensures Covered(Batch(w, actions, m, pressed).machine)
    decreases |actions|
  {
    hide Convertible, Track, Expand, SendUntilFailure, Release;
    if actions != [] && Convertible(actions[0]) {
      var order := w.drain(m.sends, m.tracked);
      var s := SendUntilFailure(w, Expand(actions[0], order), m.remote, pressed, m.sends);
      SendAllIsReceiveAll(w, Expand(actions[0], order), m.remote, pressed, m.sends);
      ActionKeepsCoverage(actions[0], order, m.remote, m.tracked, pressed);
      var next := Machine(Track(actions[0], m.tracked), s.remote, s.sends);
      BatchWithoutFailureKeepsCoverage(w, actions[1..], next, s.pressed);
    }
  }

  /** A batch that starts with nothing held remotely keeps coverage whichever send fails. */
  lemma BatchFromNothingKeepsCoverage(w: World, actions: seq<Action>, m: Machine)
    requires m.remote == {}
    ensures Covered(Batch(w, actions, m, {}).machine)
  {
    SafeBatchKeepsCoverage(w, actions, m, {});
  }

  // ----- what a request is answered with

  ghost predicate AllAccepted(w: World, first: nat, n: nat) { forall i :: first <= i < n ==> w.accepts(i) }

  lemma {:induction false} SendingIsOkIfAccepted(w: World, es: seq<InputEvent>, remote: set<Hold>, pressed: set<Hold>,
                                                 sends: nat)
    ensures
      var s := SendUntilFailure(w, es, remote, pressed, sends);
      sends <= s.sends && (s.ok <==> AllAccepted(w, sends, s.sends))
    decreases |es|
  {
    if es != [] && w.accepts(sends) {
      SendingIsOkIfAccepted(w, es[1..], Receive(remote, es[0]), Receive(pressed, es[0]), sends + 1);
    }
  }

  /**
   A request is answered with an internal error exactly if one of its sends failed, else with a bad request
   exactly if one of its actions does not convert, and with success otherwise.
   */
  lemma {:induction false} StatusExactly(w: World, actions: seq<Action>, m: Machine, pressed: set<Hold>)
    ensures
      var r := Batch(w, actions, m, pressed);
      && m.sends <= r.machine.sends
      && r.status == if !AllAccepted(w, m.sends, r.machine.sends) then InternalError
                     else if exists k :: 0 <= k < |actions| && !Convertible(actions[k]) then BadRequest
                     else Good
    decreases |actions|
  {
    hide Convertible, Track, Expand, SendUntilFailure, Release;
    if actions != [] && Convertible(actions[0]) {
      var tracked, es := Track(actions[0], m.tracked), Expand(actions[0], w.drain(m.sends, m.tracked));
      var s := SendUntilFailure(w, es, m.remote, pressed, m.sends);
      SendingIsOkIfAccepted(w, es, m.remote, pressed, m.sends);
      if s.ok {
        StatusExactly(w, actions[1..], Machine(tracked, s.remote, s.sends), s.pressed);
        assert forall k :: 1 <= k < |actions| ==> actions[k] == actions[1..][k - 1];
      } else {
        ReleaseSends(w, Machine(tracked + s.pressed, s.remote, s.sends));
      }
    } else if actions != [] {
      assert !Convertible(actions[0]);
    }
  }

  lemma ReleaseSends(w: World, m: Machine)
    ensures Release(w, m).sends > m.sends
  {
  }

  /** Does the action press `h` and leave it down? */
  predicate HoldsDown(a: Action, h: Hold) {
    match a
    case MouseDown(b) => h == Button(b)
    case KeyDown(key) => key.Some? && h == Key(key.value)
    case _ => false
  }

  /** Is `h` down after the actions?  The last one that holds it down or releases it decides. */
  predicate StaysDown(actions: seq<Action>, h: Hold, before: bool) {
    if actions == [] then before
    else
      var last := actions[|actions| - 1];
      HoldsDown(last, h) || (!Releases(last, h) && StaysDown(actions[..|actions| - 1], h, before))
  }

  /** After a request that succeeds the record holds exactly what its actions leave down. */
  lemma {:induction false} TrackedExactly(w: World, actions: seq<Action>, m: Machine, pressed: set<Hold>, h: Hold)
    requires Batch(w, actions, m, pressed).status.Good?
    ensures h in Batch(w, actions, m, pressed).machine.tracked <==> StaysDown(actions, h, h in m.tracked)
    decreases |actions|
  {
    hide Expand, SendUntilFailure, Release, EventBound;
    if actions != [] {
      var s := SendUntilFailure(w, Expand(actions[0], w.drain(m.sends, m.tracked)), m.remote, pressed, m.sends);
      var next := Machine(Track(actions[0], m.tracked), s.remote, s.sends);
      TrackedExactly(w, actions[1..], next, s.pressed, h);
      TrackedStep(actions[0], m.tracked, h);
      StaysDownCons(actions, h, h in m.tracked);
    }
  }

  lemma TrackedStep(a: Action, tracked: set<Hold>, h: Hold)
    requires Convertible(a)
    ensures h in Track(a, tracked) <==> StaysDown([a], h, h in tracked)
  {
    hide EventBound;
    assert [a][..0] == [];
    assert StaysDown([], h, h in tracked) <==> h in tracked;
  }

  lemma {:induction false} StaysDownCons(actions: seq<Action>, h: Hold, before: bool)
    requires actions != []
    ensures StaysDown(actions, h, before) == StaysDown(actions[1..], h, StaysDown([actions[0]], h, before))
    decreases |actions|
  {
    var front := actions[..|actions| - 1];
    if front == [] {
      assert actions == [actions[0]] && actions[1..] == [];
    } else {
      StaysDownCons(front, h, before);
      assert front[1..] == actions[1..][..|actions| - 2] && front[0] == actions[0];
    }
  }

  // ----- the exact condition

  /** Hash sets can drain: buttons first, in any order among themselves. */
  ghost function SomeDrain(held: set<Hold>): (order: seq<Hold>)
    ensures IsDrain(order, held)
    decreases held
  {
    if held == {} then []
    else
      FirstToDrain(held);
      var h :| DrainsFirst(held, h);
      [h] + SomeDrain(held - {h})
  }

  ghost predicate DrainsFirst(held: set<Hold>, h: Hold) {
    h in held && (h.Key? ==> forall other :: other in held ==> other.Key?)
  }

  lemma FirstToDrain(held: set<Hold>)
    requires held != {}
    ensures exists h :: DrainsFirst(held, h)
  {
    var some :| some in held;
    if h :| h in held && h.Button? {
      assert DrainsFirst(held, h);
    } else {
      assert DrainsFirst(held, some);
    }
  }

  /** There are fair worlds in which no send succeeds. */
  lemma FairWorldExists() returns (w: World)
    ensures w.Fair() && forall i :: !w.accepts(i)
  {
    w := World(_ => false, (_, held) => SomeDrain(held));
  }

  /** From number `first` on, exactly the sends before number `n` succeed. */
  ghost predicate CutsOff(w: World, first: nat, n: nat) {
    forall i :: first <= i ==> (w.accepts(i) <==> i < n)
  }

  /** Sends succeed up to number `n`, and none from there on. */
  function FailingFrom(w: World, n: nat): World { World(i => i < n, w.drain) }

  lemma {:induction false} NothingSent(w: World, es: seq<InputEvent>, remote: set<Hold>, sends: nat)
    requires forall i :: sends <= i < sends + |es| ==> !w.accepts(i)
    ensures SendEach(w, es, remote, sends) == remote
    decreases |es|
  {
    if es != [] {
      NothingSent(w, es[1..], remote, sends + 1);
    }
  }

  /** If every send fails from the action that releases `h` on, `h` stays held but is no longer tracked. */
  lemma FailureAtReleaseUncovers(w: World, actions: seq<Action>, m: Machine, pressed: set<Hold>, h: Hold)
    requires actions != [] && Convertible(actions[0]) && Releases(actions[0], h)
    requires h in m.remote && h !in pressed
    requires forall i :: m.sends <= i ==> !w.accepts(i)
    ensures
      var m' := Batch(w, actions, m, pressed).machine;
      h in m'.remote && h !in m'.tracked
  {
    var order := w.drain(m.sends, m.tracked);
    var es := Expand(actions[0], order);
    assert es != [] by { ReleasingHasEvents(actions[0], order, h); }
    var s := SendUntilFailure(w, es, m.remote, pressed, m.sends);
    assert s == Sending(m.remote, pressed, m.sends + 1, false);
    var failed := Machine(Track(actions[0], m.tracked) + pressed, m.remote, m.sends + 1);
    assert h !in failed.tracked;
    NothingSent(w, Ups(w.drain(failed.sends, failed.tracked)) + [Reset], failed.remote, failed.sends);
  }

  lemma ReleasingHasEvents(a: Action, order: seq<Hold>, h: Hold)
    requires Convertible(a) && Releases(a, h)
    ensures Expand(a, order) != []
  {
  }

  lemma UntouchedStays(a: Action, order: seq<Hold>, held: set<Hold>, h: Hold)
    requires Convertible(a) && !Touches(a, h)
    ensures h in ReceiveAll(held, Expand(a, order)) <==> h in held
  {
    hide ReceiveAll, Expand, CodesIn, EventBound;
    ActionEffect(a, order, held);
  }

  ghost predicate Lost(m: Machine, h: Hold) { h in m.remote && h !in m.tracked }

  /** For an item at risk there is a number such that, if sends fail from there on, it is lost. */
  lemma {:induction false} RiskIsReal(w: World, actions: seq<Action>, m: Machine, pressed: set<Hold>, h: Hold)
    returns (n: nat)
    requires AtRisk(actions, h) && h in m.remote && h !in pressed
    ensures n >= m.sends
    ensures
      forall w': World :: w'.drain == w.drain && CutsOff(w', m.sends, n) ==>
        Lost(Batch(w', actions, m, pressed).machine, h)
    decreases |actions|
  {
    hide Convertible, Track, Expand, SendUntilFailure, Release, Touches, Releases, ReceiveAll;
    var a, order := actions[0], w.drain(m.sends, m.tracked);
    if Touches(a, h) {
      n := m.sends;
      forall w': World | w'.drain == w.drain && CutsOff(w', m.sends, n)
        ensures Lost(Batch(w', actions, m, pressed).machine, h)
      {
        FailureAtReleaseUncovers(w', actions, m, pressed, h);
      }
    } else {
      var es := Expand(a, order);
      var next := Machine(Track(a, m.tracked), ReceiveAll(m.remote, es), m.sends + |es|);
      UntouchedStays(a, order, m.remote, h);
      UntouchedStays(a, order, pressed, h);
      n := RiskIsReal(w, actions[1..], next, ReceiveAll(pressed, es), h);
      forall w': World | w'.drain == w.drain && CutsOff(w', m.sends, n)
        ensures Lost(Batch(w', actions, m, pressed).machine, h)
      {
        SendAllIsReceiveAll(w', es, m.remote, pressed, m.sends);
      }
    }
  }

  /**
   The exact guarantee of a batch: starting covered, it ends covered under every pattern of failed
   sends if and only if nothing held remotely is at risk.
   */
  lemma BatchKeepsCoverageExactly(actions: seq<Action>, m: Machine)
    requires Covered(m)
    ensures
      (forall w: World :: w.Fair() ==> Covered(Batch(w, actions, m, {}).machine)) <==>
      (forall h :: h in m.remote ==> !AtRisk(actions, h))
  {
    if forall h :: h in m.remote ==> !AtRisk(actions, h) {
      forall w: World | w.Fair() ensures Covered(Batch(w, actions, m, {}).machine) {
        SafeBatchKeepsCoverage(w, actions, m, {});
      }
    } else {
      var h :| h in m.remote && AtRisk(actions, h);
      var w0 := FairWorldExists();
      var n := RiskIsReal(w0, actions, m, {}, h);
      assert FailingFrom(w0, n).Fair();
      assert Lost(Batch(FailingFrom(w0, n), actions, m, {}).machine, h);
    }
  }
}
