/** Which events an action is sent as: what is pressed and released, in which order, and how much of it. */
module InputEvents {
  import opened Prelude
  import opened HeldInput

  // ----- presses and releases

  /** The items pressed by a list of events, in order. */
  function PressesIn(es: seq<InputEvent>): seq<Hold> {
    if es == [] then []
    else PressesIn(es[..|es| - 1]) + if es[|es| - 1].Down? then [es[|es| - 1].hold] else []
  }

  function ReleasesIn(es: seq<InputEvent>): seq<Hold> {
    if es == [] then []
    else ReleasesIn(es[..|es| - 1]) + if es[|es| - 1].Up? then [es[|es| - 1].hold] else []
  }

  lemma {:induction false} StrokesAppend(a: seq<InputEvent>, b: seq<InputEvent>)
    ensures PressesIn(a + b) == PressesIn(a) + PressesIn(b)
    ensures ReleasesIn(a + b) == ReleasesIn(a) + ReleasesIn(b)
  {
    if b == [] {
      assert a + b == a;
    } else {
      assert (a + b)[..|a + b| - 1] == a + b[..|b| - 1];
      StrokesAppend(a, b[..|b| - 1]);
    }
  }

  lemma StrokesOfOne(e: InputEvent)
    ensures PressesIn([e]) == if e.Down? then [e.hold] else []
    ensures ReleasesIn([e]) == if e.Up? then [e.hold] else []
  {
    assert [e][..0] == [];
  }

  lemma StrokesOfTap(h: Hold)
    ensures PressesIn([Down(h), Up(h)]) == [h] == ReleasesIn([Down(h), Up(h)])
  {
    StrokesAppend([Down(h)], [Up(h)]);
    StrokesOfOne(Down(h));
    StrokesOfOne(Up(h));
  }

  lemma {:induction false} NoStrokes(es: seq<InputEvent>)
    requires forall i :: 0 <= i < |es| ==> !es[i].Down? && !es[i].Up?
    ensures PressesIn(es) == [] == ReleasesIn(es)
  {
    if es != [] {
      NoStrokes(es[..|es| - 1]);
    }
  }

  lemma {:induction false} StrokesOfUps(order: seq<Hold>)
    ensures PressesIn(Ups(order)) == [] && ReleasesIn(Ups(order)) == order
  {
    if order == [] {
      assert Ups(order) == [];
    } else {
      var front := order[..|order| - 1];
      assert Ups(order) == Ups(front) + [Up(order[|order| - 1])];
      StrokesOfUps(front);
      StrokesAppend(Ups(front), [Up(order[|order| - 1])]);
      StrokesOfOne(Up(order[|order| - 1]));
    }
  }

  lemma {:induction false} StrokesOfTaps(h: Hold, count: nat)
    ensures PressesIn(Taps(h, count)) == Repeat(h, count) == ReleasesIn(Taps(h, count))
  {
    if count > 0 {
      StrokesOfTaps(h, count - 1);
      StrokesAppend(Taps(h, count - 1), [Down(h), Up(h)]);
      StrokesOfTap(h);
      RepeatSnoc(h, count);
    }
  }

  /** The keys of the characters that have one, in order. */
  function KeysOf(text: seq<Typed>): seq<Hold> {
    if text == [] then []
    else
      var last := text[|text| - 1];
      KeysOf(text[..|text| - 1]) + if last.Mapped? then [Key(last.code)] else []
  }

  lemma {:induction false} StrokesOfText(text: seq<Typed>)
    ensures PressesIn(TypedEvents(text)) == KeysOf(text) == ReleasesIn(TypedEvents(text))
  {
    if text != [] {
      var front, last := text[..|text| - 1], text[|text| - 1];
      StrokesOfText(front);
      match last
      case Mapped(code) =>
        StrokesAppend(TypedEvents(front), [Down(Key(code)), Up(Key(code))]);
        StrokesOfTap(Key(code));
      case Unmapped =>
        assert TypedEvents(text) == TypedEvents(front) && KeysOf(text) == KeysOf(front);
      case Wide(units) =>
        StrokesAppend(TypedEvents(front), Repeat(Unicode, units));
        NoStrokes(Repeat(Unicode, units));
    }
  }

  /** What an action presses, in order. */
  function Pressed(a: Action): seq<Hold>
    requires Convertible(a)
  {
    match a
    case MouseDown(b) => [Button(b)]
    case Click(_, b, count) => Repeat(Button(b), count)
    case Drag(_, b, _) => [Button(b)]
    case KeyDown(key) => [Key(key.value)]
    case KeyPress(key) => [Key(key.value)]
    case TypeText(text) => KeysOf(text)
    case _ => []
  }

  /** Does the action let go of what it presses? */
  predicate LetsGo(a: Action) { a.Click? || a.Drag? || a.KeyPress? || a.TypeText? }

  /**
   The presses of an action are its clicks, its drag, its key or the keys of its text, as often and in the
   order asked for; and the releases are the same, or those the action is there for.
   */
  lemma StrokesExactly(a: Action, order: seq<Hold>)
    requires Convertible(a)
    ensures PressesIn(Expand(a, order)) == Pressed(a)
    ensures
      ReleasesIn(Expand(a, order)) ==
      match a
      case MouseUp(b) => [Button(b)]
      case KeyUp(key) => [Key(key.value)]
      case ReleaseAll => order
      case _ => if LetsGo(a) then Pressed(a) else []
  {
    hide EventBound, PressesIn, ReleasesIn;
    match a
    case MouseMove(_) => StrokesOfOne(Move);
    case MouseDown(b) => StrokesOfOne(Down(Button(b)));
    case MouseUp(b) => StrokesOfOne(Up(Button(b)));
    case Click(_, b, count) =>
      StrokesAppend([Move], Taps(Button(b), count));
      StrokesOfOne(Move);
      StrokesOfTaps(Button(b), count);
    case Drag(_, b, steps) => StrokesOfDrag(Button(b), AtLeastOne(steps));
    case ScrollBy(_) => StrokesOfOne(Scroll);
    case KeyDown(key) => StrokesOfOne(Down(Key(key.value)));
    case KeyUp(key) => StrokesOfOne(Up(Key(key.value)));
    case KeyPress(key) => StrokesOfTap(Key(key.value));
    case TypeText(text) => StrokesOfText(text);
    case ReleaseAll =>
      StrokesAppend(Ups(order), [Reset]);
      StrokesOfUps(order);
      StrokesOfOne(Reset);
  }

  lemma StrokesOfDrag(h: Hold, n: nat)
    ensures PressesIn([Move, Down(h)] + Repeat(Dragged, n) + [Up(h)]) == [h]
    ensures ReleasesIn([Move, Down(h)] + Repeat(Dragged, n) + [Up(h)]) == [h]
  {
    hide PressesIn, ReleasesIn;
    assert [Move, Down(h)] == [Move] + [Down(h)];
    StrokesAppend([Move, Down(h)] + Repeat(Dragged, n), [Up(h)]);
    StrokesAppend([Move, Down(h)], Repeat(Dragged, n));
    StrokesAppend([Move], [Down(h)]);
    StrokesOfOne(Move);
    StrokesOfOne(Down(h));
    StrokesOfOne(Up(h));
    NoStrokes(Repeat(Dragged, n));
  }

  // ----- every press is followed by its own release

  /** Event `j` releases what event `i` presses, and between the two the mouse is only dragged. */
  predicate EndsPress(es: seq<InputEvent>, i: nat, j: nat)
    requires i < |es| && es[i].Down?
  {
    i < j < |es| && es[j] == Up(es[i].hold) && forall k :: i < k < j ==> es[k].Dragged?
  }

  ghost predicate PressesEnd(es: seq<InputEvent>) {
    forall i :: 0 <= i < |es| && es[i].Down? ==> exists j: nat :: EndsPress(es, i, j)
  }

  lemma EndsPressAppend(a: seq<InputEvent>, b: seq<InputEvent>, i: nat, j: nat)
    ensures i < |a| && a[i].Down? && EndsPress(a, i, j) ==> EndsPress(a + b, i, j)
    ensures i < |b| && b[i].Down? && EndsPress(b, i, j) ==> EndsPress(a + b, |a| + i, |a| + j)
  {
    if i < |b| && b[i].Down? && EndsPress(b, i, j) {
      forall k | |a| + i < k < |a| + j ensures (a + b)[k].Dragged? {
        assert (a + b)[k] == b[k - |a|];
      }
    }
  }

  lemma PressesEndAppend(a: seq<InputEvent>, b: seq<InputEvent>)
    requires PressesEnd(a) && PressesEnd(b)
    ensures PressesEnd(a + b)
  {
    hide EndsPress;
    forall i | 0 <= i < |a + b| && (a + b)[i].Down? ensures exists j: nat :: EndsPress(a + b, i, j) {
      if i < |a| {
        var j: nat :| EndsPress(a, i, j);
        EndsPressAppend(a, b, i, j);
      } else {
        var j: nat :| EndsPress(b, i - |a|, j);
        EndsPressAppend(a, b, i - |a|, j);
      }
    }
  }

  lemma TapEnds(h: Hold)
    ensures PressesEnd([Down(h), Up(h)])
  {
    assert EndsPress([Down(h), Up(h)], 0, 1);
  }

  lemma {:induction false} TapsEnd(h: Hold, count: nat)
    ensures PressesEnd(Taps(h, count))
  {
    if count > 0 {
      TapsEnd(h, count - 1);
      TapEnds(h);
      PressesEndAppend(Taps(h, count - 1), [Down(h), Up(h)]);
    }
  }

  lemma {:induction false} TextEnds(text: seq<Typed>)
    ensures PressesEnd(TypedEvents(text))
  {
    if text != [] {
      hide PressesEnd;
      var front, last := text[..|text| - 1], text[|text| - 1];
      TextEnds(front);
      match last
      case Mapped(code) =>
        TapEnds(Key(code));
        PressesEndAppend(TypedEvents(front), [Down(Key(code)), Up(Key(code))]);
      case Unmapped =>
        assert TypedEvents(text) == TypedEvents(front);
      case Wide(units) =>
        NoPressEnds(Repeat(Unicode, units));
        PressesEndAppend(TypedEvents(front), Repeat(Unicode, units));
    } else {
      NoPressEnds([]);
    }
  }

  lemma NoPressEnds(es: seq<InputEvent>)
    requires forall i :: 0 <= i < |es| ==> !es[i].Down?
    ensures PressesEnd(es)
  {
  }

  /** Every press of an action that lets go is followed by its own release before anything else is pressed. */
  lemma PressesAreReleased(a: Action, order: seq<Hold>)
    requires Convertible(a) && LetsGo(a)
    ensures PressesEnd(Expand(a, order))
  {
    hide EventBound, PressesEnd;
    match a
    case Click(_, b, count) =>
      NoPressEnds([Move]);
      TapsEnd(Button(b), count);
      PressesEndAppend([Move], Taps(Button(b), count));
    case Drag(_, b, steps) => DragEnds(Button(b), AtLeastOne(steps));
    case KeyPress(key) => TapEnds(Key(key.value));
    case TypeText(text) => TextEnds(text);
  }

  lemma DragEnds(h: Hold, n: nat)
    ensures PressesEnd([Move, Down(h)] + Repeat(Dragged, n) + [Up(h)])
  {
    var es := [Move, Down(h)] + Repeat(Dragged, n) + [Up(h)];
    assert EndsPress(es, 1, n + 2);
  }

  // ----- the other events

  /** How often an event other than a press or a release occurs. */
  function Others(a: Action, e: InputEvent): nat
    requires Convertible(a)
  {
    match e
    case Move => if a.MouseMove? || a.Click? || a.Drag? then 1 else 0
    case Dragged => if !a.Drag? then 0 else if a.steps == 0 then 1 else a.steps
    case Scroll => if a.ScrollBy? then 1 else 0
    case Unicode => if a.TypeText? then UnitsOf(a.text) else 0
    case Reset => if a.ReleaseAll? then 1 else 0
    case _ => 0
  }

  /** The UTF-16 units of the characters that are not ASCII. */
  function UnitsOf(text: seq<Typed>): nat {
    if text == [] then 0
    else
      var last := text[|text| - 1];
      UnitsOf(text[..|text| - 1]) + if last.Wide? then last.units else 0
  }

  function CountOf(es: seq<InputEvent>, e: InputEvent): nat { multiset(es)[e] }

  lemma {:induction false} CountRepeat(x: InputEvent, n: nat, e: InputEvent)
    ensures CountOf(Repeat(x, n), e) == if e == x then n else 0
  {
    if n > 0 {
      RepeatSnoc(x, n);
      CountRepeat(x, n - 1, e);
    }
  }

  lemma {:induction false} CountTaps(h: Hold, count: nat, e: InputEvent)
    requires !e.Down? && !e.Up?
    ensures CountOf(Taps(h, count), e) == 0
  {
    if count > 0 {
      CountTaps(h, count - 1, e);
    }
  }

  lemma {:induction false} CountText(text: seq<Typed>, e: InputEvent)
    requires !e.Down? && !e.Up?
    ensures CountOf(TypedEvents(text), e) == if e.Unicode? then UnitsOf(text) else 0
  {
    if text != [] {
      CountText(text[..|text| - 1], e);
      if text[|text| - 1].Wide? {
        CountRepeat(Unicode, text[|text| - 1].units, e);
      }
    }
  }

  lemma CountUps(order: seq<Hold>, e: InputEvent)
    requires !e.Up?
    ensures CountOf(Ups(order), e) == 0
  {
  }

  lemma CountClick(h: Hold, count: nat, e: InputEvent)
    requires !e.Down? && !e.Up?
    ensures CountOf([Move] + Taps(h, count), e) == if e.Move? then 1 else 0
  {
    hide Taps;
    CountTaps(h, count, e);
  }

  lemma CountDrag(h: Hold, n: nat, e: InputEvent)
    requires !e.Down? && !e.Up?
    ensures
      CountOf([Move, Down(h)] + Repeat(Dragged, n) + [Up(h)], e) ==
      if e.Move? then 1 else if e.Dragged? then n else 0
  {
    hide Repeat;
    CountRepeat(Dragged, n, e);
  }

  lemma CountRelease(order: seq<Hold>, e: InputEvent)
    requires !e.Down? && !e.Up?
    ensures CountOf(Ups(order) + [Reset], e) == if e.Reset? then 1 else 0
  {
    hide Ups;
    CountUps(order, e);
  }

  lemma CountOne(x: InputEvent, e: InputEvent)
    ensures CountOf([x], e) == if e == x then 1 else 0
  {
  }

  lemma CountTap(h: Hold, e: InputEvent)
    requires !e.Down? && !e.Up?
    ensures CountOf([Down(h), Up(h)], e) == 0
  {
  }

  /** Moves, drag steps, scrolls, UTF-16 units and the final Reset are as many as the action asks for. */
  lemma OthersExactly(a: Action, order: seq<Hold>, e: InputEvent)
    requires Convertible(a) && !e.Down? && !e.Up?
    ensures CountOf(Expand(a, order), e) == Others(a, e)
  {
    hide EventBound, Taps, TypedEvents, Repeat, UnitsOf, Ups, CountOf;
    match a
    case Click(_, b, count) => CountClick(Button(b), count, e);
    case Drag(_, b, steps) => CountDrag(Button(b), AtLeastOne(steps), e);
    case TypeText(text) => CountText(text, e);
    case ReleaseAll => CountRelease(order, e);
    case MouseMove(_) => CountOne(Move, e);
    case ScrollBy(_) => CountOne(Scroll, e);
    case MouseDown(b) => CountOne(Down(Button(b)), e);
    case MouseUp(b) => CountOne(Up(Button(b)), e);
    case KeyDown(key) => CountOne(Down(Key(key.value)), e);
    case KeyUp(key) => CountOne(Up(Key(key.value)), e);
    case KeyPress(key) => CountTap(Key(key.value), e);
  }

  /** A click and a drag begin by moving there, and a release ends with the Reset. */
  lemma EndsOfExpansion(a: Action, order: seq<Hold>)
    requires Convertible(a)
    ensures a.Click? || a.Drag? ==> Expand(a, order)[0] == Move
    ensures a.ReleaseAll? ==> Expand(a, order)[|order|] == Reset && |Expand(a, order)| == |order| + 1
  {
    hide EventBound, Taps;
  }

  /** Text is typed character by character. */
  lemma {:induction false} TextIsTypedInOrder(a: seq<Typed>, b: seq<Typed>)
    ensures TypedEvents(a + b) == TypedEvents(a) + TypedEvents(b)
  {
    if b == [] {
      assert a + b == a;
    } else {
      assert (a + b)[..|a + b| - 1] == a + b[..|b| - 1];
      TextIsTypedInOrder(a, b[..|b| - 1]);
    }
  }

  // ----- the limit on events

  lemma {:induction false} TextLength(text: seq<Typed>)
    ensures |TypedEvents(text)| <= 2 * |text|
  {
    if text != [] {
      TextLength(text[..|text| - 1]);
    }
  }

  lemma {:induction false} TapsLength(h: Hold, count: nat)
    ensures |Taps(h, count)| == 2 * count
  {
    if count > 0 {
      TapsLength(h, count - 1);
    }
  }

  /** The bound computed before the conversion bounds the events of clicks, drags and text, and so 4096 does. */
  lemma EventsAreBounded(a: Action, order: seq<Hold>)
    requires Convertible(a) && (a.Click? || a.Drag? || a.TypeText?)
    ensures |Expand(a, order)| <= EventBound(a) <= MAX_ACTION_EVENTS
  {
    hide Taps, TypedEvents, Repeat;
    match a
    case Click(_, b, count) => TapsLength(Button(b), count);
    case Drag(_, _, _) =>
    case TypeText(text) => TextLength(text);
  }

  /**
   What is converted: clicks up to 2047, drags up to 4093 steps, text up to 2048 characters, coordinates
   that are accepted and keys that have a code; and the rest always.
   */
  lemma LimitsExactly(valid: bool, b: MouseButton, n: nat, text: seq<Typed>)
    ensures Convertible(Click(valid, b, n)) <==> valid && n <= 2047
    ensures Convertible(Drag(valid, b, n)) <==> valid && n <= 4093
    ensures Convertible(TypeText(text)) <==> |text| <= 2048
    ensures Convertible(MouseMove(valid)) == Convertible(ScrollBy(valid)) == valid
    ensures Convertible(MouseDown(b)) && Convertible(MouseUp(b)) && Convertible(ReleaseAll)
    ensures
      forall key ::
        Convertible(KeyDown(key)) == Convertible(KeyUp(key)) == Convertible(KeyPress(key)) == key.Some?
  {
  }
}
