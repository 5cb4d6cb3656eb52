/**
 Remote-controlled input: the agent server keeps a local record of the mouse buttons and keys it
 believes are held on the remote machine, so that it can release them.  The record must cover what
 the remote machine really holds, whatever sends fail.
 */
module HeldInput {
  import opened Prelude

  datatype MouseButton = Left | Right | Middle

  datatype Hold = Button(button: MouseButton) | Key(code: nat)

  /** Input events as far as they matter for what is held; coordinates and modifiers are not modelled. */
  datatype InputEvent = Move | Down(hold: Hold) | Up(hold: Hold) | Dragged | Scroll | Unicode | Reset

  /** What a machine that holds `held` holds after it has received `e`. */
  function Receive(held: set<Hold>, e: InputEvent): set<Hold> {
    match e
    case Down(h) => held + {h}
    case Up(h) => held - {h}
    case Reset => {}
    case _ => held
  }

  function ReceiveAll(held: set<Hold>, es: seq<InputEvent>): set<Hold>
    decreases |es|
  {
    if es == [] then held else ReceiveAll(Receive(held, es[0]), es[1..])
  }

  // ----- actions and their events

  /** A character takes one UTF-16 unit or two. */
  type Units = n: nat | 1 <= n <= 2 witness 1

  /** A typed character: a mapped ASCII key, an ASCII key without a code, or UTF-16 units. */
  datatype Typed = Mapped(code: nat) | Unmapped | Wide(units: Units)

  /**
   Agent actions with the outcome of parsing already applied: `valid` says whether the coordinates
   are accepted, `key` is absent when the key name is unknown or has no code.
   */
  datatype Action =
    | MouseMove(valid: bool)
    | MouseDown(button: MouseButton)
    | MouseUp(button: MouseButton)
    | Click(valid: bool, button: MouseButton, count: nat)
    | Drag(valid: bool, button: MouseButton, steps: nat)
    | ScrollBy(valid: bool)
    | KeyDown(key: Option<nat>)
    | KeyUp(key: Option<nat>)
    | KeyPress(key: Option<nat>)
    | TypeText(text: seq<Typed>)
    | ReleaseAll

  const MAX_ACTION_EVENTS: nat := 4096

  function AtLeastOne(n: nat): nat { if n == 0 then 1 else n }

  function EventBound(a: Action): nat {
    match a
    case Click(_, _, count) => AtLeastOne(count) * 2 + 1
    case Drag(_, _, steps) => AtLeastOne(steps) + 3
    case TypeText(text) => Min(|text|, MAX_ACTION_EVENTS / 2 + 1) * 2
    case _ => 0
  }

  /** Does the conversion of this action succeed? */
  predicate Convertible(a: Action) {
    EventBound(a) <= MAX_ACTION_EVENTS &&
    match a
    case MouseMove(valid) => valid
    case Click(valid, _, _) => valid
    case Drag(valid, _, _) => valid
    case ScrollBy(valid) => valid
    case KeyDown(key) => key.Some?
    case KeyUp(key) => key.Some?
    case KeyPress(key) => key.Some?
    case _ => true
  }

  function Taps(h: Hold, count: nat): seq<InputEvent> {
    if count == 0 then [] else Taps(h, count - 1) + [Down(h), Up(h)]
  }

  function TypedEvents(text: seq<Typed>): seq<InputEvent> {
    if text == [] then []
    else
      TypedEvents(text[..|text| - 1]) +
      match text[|text| - 1]
      case Mapped(code) => [Down(Key(code)), Up(Key(code))]
      case Unmapped => []
      case Wide(units) => Repeat(Unicode, units)
  }

  /** `order` lists the members of `held` once each, buttons before keys: one way to drain the two sets. */
  ghost predicate IsDrain(order: seq<Hold>, held: set<Hold>) {
    && (forall h :: h in order <==> h in held)
    && (forall i, j :: 0 <= i < j < |order| ==> order[i] != order[j])
    && (forall i, j :: 0 <= i < j < |order| && order[i].Key? ==> order[j].Key?)
  }

  function Ups(order: seq<Hold>): (es: seq<InputEvent>)
    ensures |es| == |order| && forall i :: 0 <= i < |order| ==> es[i] == Up(order[i])
  {
    seq(|order|, i requires 0 <= i < |order| => Up(order[i]))
  }

  /** The events of a convertible action; `order` is how the tracked set drains, should it be released. */
  function Expand(a: Action, order: seq<Hold>): seq<InputEvent>
    requires Convertible(a)
  {
    match a
    case MouseMove(_) => [Move]
    case MouseDown(b) => [Down(Button(b))]
    case MouseUp(b) => [Up(Button(b))]
    case Click(_, b, count) => [Move] + Taps(Button(b), count)
    case Drag(_, b, steps) => [Move, Down(Button(b))] + Repeat(Dragged, AtLeastOne(steps)) + [Up(Button(b))]
    case ScrollBy(_) => [Scroll]
    case KeyDown(key) => [Down(Key(key.value))]
    case KeyUp(key) => [Up(Key(key.value))]
    case KeyPress(key) => [Down(Key(key.value)), Up(Key(key.value))]
    case TypeText(text) => TypedEvents(text)
    case ReleaseAll => Ups(order) + [Reset]
  }

  /** What is tracked once the action has been converted, before any of its events is sent. */
  function Track(a: Action, tracked: set<Hold>): set<Hold>
    requires Convertible(a)
  {
    match a
    case MouseDown(b) => tracked + {Button(b)}
    case MouseUp(b) => tracked - {Button(b)}
    case Drag(_, b, _) => tracked - {Button(b)}
    case KeyDown(key) => tracked + {Key(key.value)}
    case KeyUp(key) => tracked - {Key(key.value)}
    case ReleaseAll => {}
    case _ => tracked
  }

  // ----- requests against an unreliable connection

  /** Which sends succeed, by number, and in which order the hash sets drain.  A failed send has no effect. */
  datatype World = World(accepts: nat -> bool, drain: (nat, set<Hold>) -> seq<Hold>) {
    ghost predicate Fair() { forall n, held :: IsDrain(drain(n, held), held) }
  }

  datatype Machine = Machine(tracked: set<Hold>, remote: set<Hold>, sends: nat)

  predicate Covered(m: Machine) { m.remote <= m.tracked }

  /** Sending events until one fails: what is held remotely, what this request has pressed, and whether all went out. */
  datatype Sending = Sending(remote: set<Hold>, pressed: set<Hold>, sends: nat, ok: bool)

  function SendUntilFailure(w: World, es: seq<InputEvent>, remote: set<Hold>, pressed: set<Hold>, sends: nat): Sending {
    if es == [] then Sending(remote, pressed, sends, true)
    else if !w.accepts(sends) then Sending(remote, pressed, sends + 1, false)
    else SendUntilFailure(w, es[1..], Receive(remote, es[0]), Receive(pressed, es[0]), sends + 1)
  }

  /** Sending every event even if earlier ones fail. */
  function SendEach(w: World, es: seq<InputEvent>, remote: set<Hold>, sends: nat): set<Hold> {
    if es == [] then remote
    else SendEach(w, es[1..], if w.accepts(sends) then Receive(remote, es[0]) else remote, sends + 1)
  }

  /** Release everything tracked: all ups and a Reset; the record is kept unless the Reset went out. */
  function Release(w: World, m: Machine): Machine {
    var order := w.drain(m.sends, m.tracked);
    var resetSent := w.accepts(m.sends + |order|);
    Machine(if resetSent then {} else m.tracked,
            SendEach(w, Ups(order) + [Reset], m.remote, m.sends),
            m.sends + |order| + 1)
  }

  datatype Status = Good | BadRequest | InternalError

  datatype Response = Response(machine: Machine, status: Status)

  /** A batch of actions; `pressed` is what this request has pressed and not released so far. */
  function Batch(w: World, actions: seq<Action>, m: Machine, pressed: set<Hold>): Response {
    if actions == [] then Response(m, Good)
    else if !Convertible(actions[0]) then Response(m, BadRequest)
    else
      var tracked := Track(actions[0], m.tracked);
      var s := SendUntilFailure(w, Expand(actions[0], w.drain(m.sends, m.tracked)), m.remote, pressed, m.sends);
      if s.ok then Batch(w, actions[1..], Machine(tracked, s.remote, s.sends), s.pressed)
      else Response(Release(w, Machine(tracked + s.pressed, s.remote, s.sends)), InternalError)
  }

  // ----- the implementation

  class Backend {
    const world: World
    var sends: nat
    /** What the remote machine holds. */
    ghost var held: set<Hold>

    constructor (world: World)
      ensures this.world == world && sends == 0 && held == {}
    {
      this.world, sends, held := world, 0, {};
    }

    method SendInputEvent(e: InputEvent) returns (ok: bool)
      modifies this
      ensures ok == world.accepts(old(sends)) && sends == old(sends) + 1
      ensures held == if ok then Receive(old(held), e) else old(held)
    {
      ok := world.accepts(sends);
      if ok { held := Receive(held, e); }
      sends := sends + 1;
    }
  }

  function Holds(buttons: set<MouseButton>, keys: set<nat>): set<Hold> {
    (set b | b in buttons :: Button(b)) + (set k | k in keys :: Key(k))
  }

  class InputStateTracker {
    var activeButtons: set<MouseButton>
    var activeKeys: set<nat>

    function Tracked(): set<Hold>
      reads this
    {
      Holds(activeButtons, activeKeys)
    }

    constructor ()
      ensures Tracked() == {}
    {
      activeButtons, activeKeys := {}, {};
    }

    method RecordDown(h: Hold)
      modifies this
      ensures Tracked() == old(Tracked()) + {h}
    {
      match h
      case Button(b) => activeButtons := activeButtons + {b};
      case Key(k) => activeKeys := activeKeys + {k};
    }

    method RecordUp(h: Hold)
      modifies this
      ensures Tracked() == old(Tracked()) - {h}
    {
      match h
      case Button(b) => activeButtons := activeButtons - {b};
      case Key(k) => activeKeys := activeKeys - {k};
    }

    /** Forget everything and return the ups that release it, followed by a Reset. */
    method ReleaseAll(order: seq<Hold>) returns (events: seq<InputEvent>)
      requires IsDrain(order, Tracked())
      modifies this
      ensures Tracked() == {} && events == Ups(order) + [Reset]
    {
      events := [];
      for i := 0 to |order|
        invariant events == Ups(order)[..i]
      {
        events := events + [Up(order[i])];
      }
      activeButtons, activeKeys := {}, {};
      events := events + [Reset];
    }
  }

  method ConvertAction(a: Action, tracker: InputStateTracker, order: seq<Hold>) returns (r: Result<seq<InputEvent>, ()>)
    requires IsDrain(order, tracker.Tracked())
    modifies tracker
    ensures r.Ok? <==> Convertible(a)
    ensures r.Ok? ==> r.value == Expand(a, order) && tracker.Tracked() == Track(a, old(tracker.Tracked()))
    ensures r.Err? ==> tracker.Tracked() == old(tracker.Tracked())
  {
    hide IsDrain;
    if EventBound(a) > MAX_ACTION_EVENTS { return Err(()); }
    match a
    case MouseMove(valid) =>
      if !valid { return Err(()); }
      return Ok([Move]);
    case MouseDown(b) =>
      tracker.RecordDown(Button(b));
      return Ok([Down(Button(b))]);
    case MouseUp(b) =>
      tracker.RecordUp(Button(b));
      return Ok([Up(Button(b))]);
    case Click(valid, b, count) =>
      if !valid { return Err(()); }
      var events := [Move];
      for i := 0 to count
        invariant events == [Move] + Taps(Button(b), i)
      {
        events := events + [Down(Button(b)), Up(Button(b))];
      }
      return Ok(events);
    case Drag(valid, b, steps) =>
      if !valid { return Err(()); }
      tracker.RecordDown(Button(b));
      var events := [Move, Down(Button(b))];
      for i := 0 to AtLeastOne(steps)
        invariant events == [Move, Down(Button(b))] + Repeat(Dragged, i)
      {
        events := events + [Dragged];
      }
      tracker.RecordUp(Button(b));
      return Ok(events + [Up(Button(b))]);
    case ScrollBy(valid) =>
      if !valid { return Err(()); }
      return Ok([Scroll]);
    case KeyDown(key) =>
      if key.None? { return Err(()); }
      tracker.RecordDown(Key(key.value));
      return Ok([Down(Key(key.value))]);
    case KeyUp(key) =>
      if key.None? { return Err(()); }
      tracker.RecordUp(Key(key.value));
      return Ok([Up(Key(key.value))]);
    case KeyPress(key) =>
      if key.None? { return Err(()); }
      return Ok([Down(Key(key.value)), Up(Key(key.value))]);
    case TypeText(text) =>
      var events := [];
      for i := 0 to |text|
        invariant events == TypedEvents(text[..i])
      {
        assert text[..i + 1][..i] == text[..i];
        match text[i]
        case Mapped(code) => events := events + [Down(Key(code)), Up(Key(code))];
        case Unmapped =>
        case Wide(units) => events := events + Repeat(Unicode, units);
      }
      assert text[..|text|] == text;
      return Ok(events);
    case ReleaseAll =>
      var events := tracker.ReleaseAll(order);
      return Ok(events);
  }

  /** How many of `n` sends from number `first` on succeed. */
  function Accepted(w: World, first: nat, n: nat): (k: nat)
    ensures k <= n
  {
    if n == 0 then 0 else Accepted(w, first, n - 1) + if w.accepts(first + n - 1) then 1 else 0
  }

  method ReleaseInputs(backend: Backend, tracker: InputStateTracker) returns (sent: nat, failed: bool)
    requires backend.world.Fair()
    modifies backend, tracker
    ensures Machine(tracker.Tracked(), backend.held, backend.sends)
         == Release(backend.world, Machine(old(tracker.Tracked()), old(backend.held), old(backend.sends)))
    ensures failed <==> exists i :: old(backend.sends) <= i < backend.sends && !backend.world.accepts(i)
    ensures sent <= backend.sends - old(backend.sends) && (failed <==> sent < backend.sends - old(backend.sends))
    ensures old(backend.sends) <= backend.sends
    ensures sent == Accepted(backend.world, old(backend.sends), backend.sends - old(backend.sends))
  {
    hide IsDrain, Holds, SendEach;
    var order := backend.world.drain(backend.sends, tracker.Tracked());
    ghost var tracked := tracker.Tracked();
    var events := tracker.ReleaseAll(order);
    var resetSent: bool;
    sent, failed, resetSent := AttemptAll(backend, events);
    if !resetSent {
      KeepRecord(tracker, events, order);
      DrainIsSet(order, tracked);
    }
  }

  /** The part of ReleaseInputs that sends all the events, whichever of them fail. */
  method AttemptAll(backend: Backend, events: seq<InputEvent>) returns (sent: nat, failed: bool, resetSent: bool)
    requires events != [] && forall i :: 0 <= i < |events| ==> (events[i] == Reset <==> i == |events| - 1)
    modifies backend
    ensures backend.sends == old(backend.sends) + |events|
    ensures backend.held == SendEach(backend.world, events, old(backend.held), old(backend.sends))
    ensures resetSent <==> backend.world.accepts(backend.sends - 1)
    ensures sent <= |events| && (failed <==> sent < |events|)
    ensures sent == Accepted(backend.world, old(backend.sends), |events|)
    ensures failed <==> exists i :: old(backend.sends) <= i < backend.sends && !backend.world.accepts(i)
  {
    var w := backend.world;
    ghost var first, remote := backend.sends, backend.held;
    sent, failed, resetSent := 0, false, false;
    for i := 0 to |events|
      invariant backend.sends == first + i && backend.world == w
      invariant SendEach(w, events[i..], backend.held, first + i) == SendEach(w, events, remote, first)
      invariant resetSent <==> i == |events| && w.accepts(first + i - 1)
      invariant sent <= i && (failed <==> sent < i) && sent == Accepted(w, first, i)
    {
      assert events[i..][1..] == events[i + 1..];
      var ok := backend.SendInputEvent(events[i]);
      if ok {
        sent := sent + 1;
        resetSent := resetSent || events[i] == Reset;
      } else {
        failed := true;
      }
    }
    AcceptedAll(w, first, |events|);
  }

  lemma {:induction false} AcceptedAll(w: World, first: nat, n: nat)
    ensures Accepted(w, first, n) < n <==> exists i :: first <= i < first + n && !w.accepts(i)
  {
    if n > 0 {
      AcceptedAll(w, first, n - 1);
      if !w.accepts(first + n - 1) {
        assert first <= first + n - 1 < first + n;
      }
    }
  }

  /** The part of ReleaseInputs that puts back into the record whatever may still be held. */
  method KeepRecord(tracker: InputStateTracker, events: seq<InputEvent>, ghost order: seq<Hold>)
    requires events == Ups(order) + [Reset] && tracker.Tracked() == {}
    modifies tracker
    ensures tracker.Tracked() == set h | h in order
  {
    hide Holds;
    for i := 0 to |events|
      invariant tracker.Tracked() == set h | h in order[..Min(i, |order|)]
    {
      if events[i].Up? {
        tracker.RecordDown(events[i].hold);
      }
    }
    assert order[..|order|] == order;
  }

  lemma DrainIsSet(order: seq<Hold>, held: set<Hold>)
    requires IsDrain(order, held)
    ensures (set h | h in order) == held
  {
  }

  /** The job behind one input request: convert, send, and on a failed send release what may be held. */
  method RunBatch(actions: seq<Action>, backend: Backend, tracker: InputStateTracker) returns (status: Status)
    requires backend.world.Fair()
    modifies backend, tracker
    ensures Response(Machine(tracker.Tracked(), backend.held, backend.sends), status)
         == Batch(backend.world, actions, Machine(old(tracker.Tracked()), old(backend.held), old(backend.sends)), {})
  {
    hide Expand, Track, Convertible, Holds, Release;
    var w := backend.world;
    var pressed: set<Hold> := {};
    ghost var goal := Batch(w, actions, Machine(tracker.Tracked(), backend.held, backend.sends), {});
    assert actions[0..] == actions;
    for k := 0 to |actions|
      invariant backend.world == w
      invariant Batch(w, actions[k..], Machine(tracker.Tracked(), backend.held, backend.sends), pressed) == goal
    {
      assert actions[k..][1..] == actions[k + 1..];
      var order := w.drain(backend.sends, tracker.Tracked());
      var converted := ConvertAction(actions[k], tracker, order);
      if converted.Err? { return BadRequest; }
      var events := converted.value;
      ghost var tracked := tracker.Tracked();
      ghost var sending := SendUntilFailure(w, events, backend.held, pressed, backend.sends);
      assert events[0..] == events;
      for i := 0 to |events|
        invariant backend.world == w && tracker.Tracked() == tracked
        invariant SendUntilFailure(w, events[i..], backend.held, pressed, backend.sends) == sending
      {
        assert events[i..][1..] == events[i + 1..];
        var ok := backend.SendInputEvent(events[i]);
        if !ok {
          // What this request has pressed may be held: track it, then let everything go.
          assert sending == Sending(backend.held, pressed, backend.sends, false);
          RecordAll(tracker, pressed);
          var sent, failed := ReleaseInputs(backend, tracker);
          return InternalError;
        }
        pressed := Receive(pressed, events[i]);
      }
      assert events[|events|..] == [];
    }
    assert actions[|actions|..] == [];
    return Good;
  }

  method RecordAll(tracker: InputStateTracker, holds: set<Hold>)
    modifies tracker
    ensures tracker.Tracked() == old(tracker.Tracked()) + holds
  {
    var rest := holds;
    while rest != {}
      invariant rest <= holds && tracker.Tracked() == old(tracker.Tracked()) + (holds - rest)
      decreases |rest|
    {
      var h :| h in rest;
      tracker.RecordDown(h);
      rest := rest - {h};
    }
  }
}
