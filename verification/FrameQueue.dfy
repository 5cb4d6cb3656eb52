/**
 The bounded queue between the frame assembler and the decoder: four slots, serial-number ordering,
 and recovery at the next keyframe whenever a reference is lost.
 */
module FrameQueue {
  import opened Prelude
  import opened SerialNumbers

  const CAPACITY: nat := 4

  /** `payload` stands for everything the queue only carries: encoded data and receive instant. */
  datatype Frame = Frame(id: u32, key: bool, payload: int)

  datatype State = State(frames: seq<Frame>, lastId: Option<u32>, recovering: bool, stopped: bool)

  const INITIAL: State := State([], None, false, false)

  // ----- the four operations as functions of the state

  /** A frame at or behind the last accepted one in serial order. */
  predicate Late(s: State, f: Frame) {
    s.lastId.Some? && (f.id == s.lastId.value || WrappingSub(f.id, s.lastId.value) >= TWO_31)
  }

  predicate Discontinuous(s: State, f: Frame) {
    s.lastId.Some? && WrappingSub(f.id, s.lastId.value) != 1
  }

  predicate Accepts(s: State, f: Frame) { !s.stopped && !Late(s, f) }

  /** The state after a push that is accepted. */
  function Accept(s: State, f: Frame): State {
    var loses := Discontinuous(s, f) || |s.frames| == CAPACITY;
    if (loses || s.recovering) && !f.key then
      State(if loses then [] else s.frames, Some(f.id), true, s.stopped)
    else
      State((if loses then [] else s.frames) + [f], Some(f.id), false, s.stopped)
  }

  function AfterPush(s: State, f: Frame): State { if Accepts(s, f) then Accept(s, f) else s }

  function AfterReceive(s: State): State {
    if s.stopped || s.frames == [] then s else s.(frames := s.frames[1..])
  }

  /** The index of the first keyframe, or the length when there is none. */
  function FirstKey(frames: seq<Frame>): (k: nat)
    ensures k <= |frames|
    ensures forall i :: 0 <= i < k ==> !frames[i].key
    ensures k < |frames| ==> frames[k].key
  {
    if frames == [] || frames[0].key then 0 else 1 + FirstKey(frames[1..])
  }

  function AfterFailure(s: State): State {
    var k := FirstKey(s.frames);
    if s.stopped then s
    else if k < |s.frames| then s.(frames := s.frames[k..], recovering := false)
    else s.(frames := [], recovering := true)
  }

  function AfterStop(s: State): State { s.(stopped := true, frames := []) }

  /** Is the event answered with a request for a keyframe? */
  predicate Asks(s: State, e: Event) {
    match e
    case Pushed(f) =>
      Accepts(s, f) && !f.key && !s.recovering && (Discontinuous(s, f) || |s.frames| == CAPACITY)
    case DecodeFailed => !s.stopped && !s.recovering && FirstKey(s.frames) == |s.frames|
    case _ => false
  }

  // ----- the implementation

  class FrameQueue {
    var frames: seq<Frame>
    var lastFrameId: Option<u32>
    var recovering: bool
    var stopped: bool

    function Abs(): State
      reads this
    {
      State(frames, lastFrameId, recovering, stopped)
    }

    constructor ()
      ensures Abs() == INITIAL
    {
      frames, lastFrameId, recovering, stopped := [], None, false, false;
    }

    /** Admit a frame without blocking; true asks for one keyframe, an error means stopped. */
    method Push(frame: Frame) returns (r: Result<bool, ()>)
      modifies this
      ensures Abs() == AfterPush(old(Abs()), frame)
      ensures r == if old(stopped) then Err(()) else Ok(Asks(old(Abs()), Pushed(frame)))
    {
      if stopped { return Err(()); }
      var discontinuity := false;
      if lastFrameId.Some? {
        var advance := WrappingSub(frame.id, lastFrameId.value);
        if advance == 0 || advance >= TWO_31 { return Ok(false); }
        discontinuity := advance != 1;
      }
      lastFrameId := Some(frame.id);
      var requestKeyframe := false;
      if discontinuity || |frames| == CAPACITY {
        // None of the queued frames can be decoded any more, or there is no room for the new one.
        frames := [];
        requestKeyframe := !recovering && !frame.key;
        recovering := true;
      }
      if recovering && !frame.key { return Ok(requestKeyframe); }
      recovering := false;
      frames := frames + [frame];
      return Ok(requestKeyframe);
    }

    /** The atomic part of both receive operations, once their wait is over. */
    method Receive() returns (r: Option<Frame>)
      modifies this
      ensures Abs() == AfterReceive(old(Abs()))
      ensures r == if old(stopped) || old(frames) == [] then None else Some(old(frames)[0])
    {
      if stopped || frames == [] { return None; }
      r := Some(frames[0]);
      frames := frames[1..];
    }

    method DecodeFailed() returns (request: bool)
      modifies this
      ensures Abs() == AfterFailure(old(Abs()))
      ensures request == Asks(old(Abs()), Event.DecodeFailed)
    {
      if stopped { return false; }
      var key := 0;
      while key < |frames| && !frames[key].key
        invariant 0 <= key <= |frames|
        invariant FirstKey(frames) == key + FirstKey(frames[key..])
      {
        assert frames[key..][1..] == frames[key + 1..];
        key := key + 1;
      }
      if key < |frames| {
        frames := frames[key..];
        recovering := false;
        return false;
      }
      frames := [];
      request := !recovering;
      recovering := true;
    }

    method Stop()
      modifies this
      ensures Abs() == AfterStop(old(Abs()))
    {
      stopped := true;
      frames := [];
    }
  }

  // ----- whole runs

  /** Any interleaving of the producer, the decoder and a stop; each operation runs under the lock. */
  datatype Event = Pushed(frame: Frame) | Received | DecodeFailed | Stopped

  function Next(s: State, e: Event): State {
    match e
    case Pushed(f) => AfterPush(s, f)
    case Received => AfterReceive(s)
    case DecodeFailed => AfterFailure(s)
    case Stopped => AfterStop(s)
  }

  function Run(s: State, es: seq<Event>): State {
    if es == [] then s else Next(Run(s, es[..|es| - 1]), es[|es| - 1])
  }

  /** A delivered frame: its index among the accepted ones, and whether a decode failed since the previous delivery. */
  datatype Delivery = Delivery(index: nat, afterFailure: bool)

  /** What an observer records of a run: accepted pushes and deliveries, both in order. */
  datatype Trail = Trail(queue: State, accepted: seq<Frame>, delivered: seq<Delivery>, failed: bool)

  function NextTrail(t: Trail, e: Event): Trail {
    var s := t.queue;
    match e
    case Pushed(f) => t.(queue := AfterPush(s, f), accepted := if Accepts(s, f) then t.accepted + [f] else t.accepted)
    case Received =>
      if s.stopped || s.frames == [] || |s.frames| > |t.accepted| then t.(queue := AfterReceive(s))
      else
        t.(queue := AfterReceive(s),
           delivered := t.delivered + [Delivery(|t.accepted| - |s.frames|, t.failed)],
           failed := false)
    case DecodeFailed => t.(queue := AfterFailure(s), failed := t.failed || !s.stopped)
    case Stopped => t.(queue := AfterStop(s))
  }

  const START: Trail := Trail(INITIAL, [], [], false)

  function RunTrail(es: seq<Event>): (t: Trail)
    ensures t.queue == Run(INITIAL, es)
  {
    if es == [] then START else NextTrail(RunTrail(es[..|es| - 1]), es[|es| - 1])
  }

  predicate Follows(g: Frame, f: Frame) { WrappingSub(g.id, f.id) == 1 }

  /** Each accepted frame is ahead of the previous one. */
  ghost predicate Ascending(accepted: seq<Frame>) {
    forall i :: 0 < i < |accepted| ==> 0 < WrappingSub(accepted[i].id, accepted[i - 1].id) < TWO_31
  }

  ghost predicate Contiguous(frames: seq<Frame>) {
    forall i :: 0 < i < |frames| ==> Follows(frames[i], frames[i - 1])
  }

  ghost predicate IsTail(frames: seq<Frame>, accepted: seq<Frame>) {
    |frames| <= |accepted| && frames == accepted[|accepted| - |frames|..]
  }

  /** The queue holds the newest accepted frames, with contiguous ids, and nothing while recovering. */
  ghost predicate QueueInvariant(s: State, accepted: seq<Frame>) {
    && |s.frames| <= CAPACITY
    && IsTail(s.frames, accepted)
    && (s.recovering || s.stopped ==> s.frames == [])
    && s.lastId == (if accepted == [] then None else Some(accepted[|accepted| - 1].id))
    && Ascending(accepted)
    && Contiguous(s.frames)
  }

  /** A decoder that was given `prev` last can be given `next`. */
  ghost predicate Decodable(accepted: seq<Frame>, prev: nat, next: nat)
    requires prev < |accepted| && next < |accepted|
  {
    accepted[next].key || (next == prev + 1 && Follows(accepted[next], accepted[prev]))
  }

  ghost predicate DeliveriesInOrder(t: Trail) {
    && (forall i :: 0 <= i < |t.delivered| ==> t.delivered[i].index < |t.accepted|)
    && (forall i, j :: 0 <= i < j < |t.delivered| ==> t.delivered[i].index < t.delivered[j].index)
    && (forall i :: 0 < i < |t.delivered| ==> Decodable(t.accepted, t.delivered[i - 1].index, t.delivered[i].index))
    && (forall i :: 0 <= i < |t.delivered| && t.delivered[i].afterFailure ==> t.accepted[t.delivered[i].index].key)
  }

  /** Whatever is delivered next will be decodable. */
  ghost predicate NextIsDecodable(t: Trail)
    requires IsTail(t.queue.frames, t.accepted) && DeliveriesInOrder(t)
  {
    var head := |t.accepted| - |t.queue.frames|;
    && (forall i :: 0 <= i < |t.delivered| ==> t.delivered[i].index < head)
    && (t.queue.stopped || t.queue.recovering || (
          && (t.delivered != [] && t.queue.frames != [] ==>
                Decodable(t.accepted, t.delivered[|t.delivered| - 1].index, head))
          && (t.delivered != [] && t.queue.frames == [] ==> t.delivered[|t.delivered| - 1].index == head - 1)
          && (t.failed ==> t.queue.frames != [] && t.queue.frames[0].key)))
  }

  ghost predicate TrailInvariant(t: Trail) {
    QueueInvariant(t.queue, t.accepted) && DeliveriesInOrder(t) && NextIsDecodable(t)
  }

  lemma TailSnoc(frames: seq<Frame>, accepted: seq<Frame>, f: Frame)
    requires IsTail(frames, accepted)
    ensures IsTail(frames + [f], accepted + [f]) && IsTail([], accepted + [f])
  {
  }

  lemma TailDrop(frames: seq<Frame>, accepted: seq<Frame>, k: nat)
    requires IsTail(frames, accepted) && k <= |frames|
    ensures IsTail(frames[k..], accepted)
    ensures k < |frames| ==> frames[k] == accepted[|accepted| - |frames| + k]
  {
    assert accepted[|accepted| - |frames|..][k..] == accepted[|accepted| - |frames[k..]|..];
  }

  lemma AscendingSnoc(accepted: seq<Frame>, f: Frame)
    requires Ascending(accepted)
    requires accepted != [] ==> 0 < WrappingSub(f.id, accepted[|accepted| - 1].id) < TWO_31
    ensures Ascending(accepted + [f])
  {
    hide WrappingSub;
  }

  lemma ContiguousSnoc(frames: seq<Frame>, f: Frame)
    requires frames != [] ==> Contiguous(frames) && Follows(f, frames[|frames| - 1])
    ensures Contiguous(frames + [f]) && Contiguous([])
  {
    hide Follows;
  }

  lemma PushKeepsQueueInvariant(s: State, accepted: seq<Frame>, f: Frame)
    requires QueueInvariant(s, accepted) && Accepts(s, f)
    ensures QueueInvariant(Accept(s, f), accepted + [f])
  {
    hide IsTail, Ascending, Contiguous;
    if s.frames != [] {
      TailDrop(s.frames, accepted, |s.frames| - 1);
    }
    AscendingSnoc(accepted, f);
    TailSnoc(s.frames, accepted, f);
    TailDrop(s.frames, accepted, |s.frames|);
    assert s.frames[|s.frames|..] == [] && [] + [f] == [f];
    TailSnoc([], accepted, f);
    ContiguousSnoc([], f);
    if !Discontinuous(s, f) && |s.frames| < CAPACITY {
      ContiguousSnoc(s.frames, f);
    }
  }

  lemma PushKeepsDeliveries(t: Trail, f: Frame)
    requires TrailInvariant(t) && Accepts(t.queue, f)
    ensures TrailInvariant(NextTrail(t, Pushed(f)))
  {
    hide Accept;
    PushKeepsQueueInvariant(t.queue, t.accepted, f);
    var u := NextTrail(t, Pushed(f));
    assert forall i :: 0 <= i < |t.accepted| ==> u.accepted[i] == t.accepted[i];
    PushKeepsNext(t, f);
  }

  lemma PushKeepsNext(t: Trail, f: Frame)
    requires TrailInvariant(t) && Accepts(t.queue, f)
    requires DeliveriesInOrder(NextTrail(t, Pushed(f))) && QueueInvariant(Accept(t.queue, f), t.accepted + [f])
    ensures NextIsDecodable(NextTrail(t, Pushed(f)))
  {
    hide IsTail, Ascending, Contiguous, DeliveriesInOrder, Accept, Follows;
    var s, u := t.queue, NextTrail(t, Pushed(f));
    TailDrop(s.frames, t.accepted, 0);
    assert u.accepted == t.accepted + [f] && forall i :: 0 <= i < |t.accepted| ==> u.accepted[i] == t.accepted[i];
    AcceptCases(s, t.accepted, f);
  }

  /** An accepted frame makes the queue recover, stands alone in it, or extends it. */
  lemma AcceptCases(s: State, accepted: seq<Frame>, f: Frame)
    requires QueueInvariant(s, accepted) && Accepts(s, f)
    ensures
      var v := Accept(s, f);
      && v.stopped == s.stopped
      && (v.recovering || (v.frames == [f] && f.key) ||
          (v.frames == s.frames + [f] && !s.recovering &&
           (accepted != [] ==> Follows(f, accepted[|accepted| - 1]))) ||
          (v.frames == s.frames + [f] && f.key))
      && (v.recovering ==> v.frames == [])
  {
    hide IsTail, Ascending, Contiguous;
  }

  lemma ContiguousDrop(frames: seq<Frame>, k: nat)
    requires Contiguous(frames) && k <= |frames|
    ensures Contiguous(frames[k..])
  {
    hide Follows;
  }

  /** Dropping frames from the front of the queue keeps it a contiguous tail. */
  lemma DropKeepsQueueInvariant(s: State, accepted: seq<Frame>, k: nat, recovering: bool)
    requires QueueInvariant(s, accepted) && k <= |s.frames| && (recovering ==> k == |s.frames|)
    ensures QueueInvariant(s.(frames := s.frames[k..], recovering := recovering), accepted)
  {
    hide IsTail, Ascending, Contiguous;
    TailDrop(s.frames, accepted, k);
    ContiguousDrop(s.frames, k);
  }

  lemma SameDeliveries(t: Trail, u: Trail)
    requires DeliveriesInOrder(t) && u.accepted == t.accepted && u.delivered == t.delivered
    ensures DeliveriesInOrder(u)
  {
    hide Decodable;
  }

  lemma ReceiveKeepsInvariant(t: Trail)
    requires TrailInvariant(t)
    ensures TrailInvariant(NextTrail(t, Received))
  {
    hide QueueInvariant, DeliveriesInOrder, NextIsDecodable;
    var s := t.queue;
    QueueIsTail(s, t.accepted);
    if !s.stopped && s.frames != [] {
      DropKeepsQueueInvariant(s, t.accepted, 1, false);
      DeliveryKeepsOrder(t);
      QueueIsTail(s.(frames := s.frames[1..]), t.accepted);
      DeliveryKeepsNext(t);
    }
  }

  lemma QueueIsTail(s: State, accepted: seq<Frame>)
    requires QueueInvariant(s, accepted)
    ensures IsTail(s.frames, accepted) && |s.frames| <= |accepted|
    ensures s.frames != [] ==> !s.recovering
  {
  }

  lemma DeliveryKeepsNext(t: Trail)
    requires TrailInvariant(t) && !t.queue.stopped && t.queue.frames != []
    requires IsTail(t.queue.frames[1..], t.accepted) && DeliveriesInOrder(NextTrail(t, Received))
    ensures NextIsDecodable(NextTrail(t, Received))
  {
    hide IsTail, Ascending, Contiguous, Follows, DeliveriesInOrder;
    var s := t.queue;
    TailDrop(s.frames, t.accepted, 0);
    TailDrop(s.frames, t.accepted, 1);
    if |s.frames| > 1 {
      TailDrop(s.frames[1..], t.accepted, 0);
      SecondFollowsFirst(s.frames);
    }
  }

  lemma SecondFollowsFirst(frames: seq<Frame>)
    requires Contiguous(frames) && |frames| > 1
    ensures Follows(frames[1], frames[0])
  {
  }

  lemma DeliveryKeepsOrder(t: Trail)
    requires TrailInvariant(t) && !t.queue.stopped && t.queue.frames != []
    ensures DeliveriesInOrder(NextTrail(t, Received))
  {
    hide Ascending, Contiguous, Follows;
    var s, u := t.queue, NextTrail(t, Received);
    var head := |t.accepted| - |s.frames|;
    assert s.frames[0] == t.accepted[head];
    assert u.delivered == t.delivered + [Delivery(head, t.failed)];
  }

  lemma FailureKeepsInvariant(t: Trail)
    requires TrailInvariant(t)
    ensures TrailInvariant(NextTrail(t, DecodeFailed))
  {
    hide QueueInvariant, DeliveriesInOrder, NextIsDecodable, FirstKey;
    var s, u := t.queue, NextTrail(t, DecodeFailed);
    var k := FirstKey(s.frames);
    if !s.stopped {
      assert s.frames[|s.frames|..] == [];
      DropKeepsQueueInvariant(s, t.accepted, k, k == |s.frames|);
      DropAllKeepsQueueInvariant(s, t.accepted);
      SameDeliveries(t, u);
      QueueIsTail(s.(frames := s.frames[k..], recovering := k == |s.frames|), t.accepted);
      FailureKeepsNext(t);
    } else {
      assert u == t;
    }
  }

  lemma DropAllKeepsQueueInvariant(s: State, accepted: seq<Frame>)
    requires QueueInvariant(s, accepted)
    ensures QueueInvariant(s.(frames := [], recovering := true), accepted)
  {
    assert s.frames[|s.frames|..] == [];
    DropKeepsQueueInvariant(s, accepted, |s.frames|, true);
  }

  lemma FailureKeepsNext(t: Trail)
    requires TrailInvariant(t) && !t.queue.stopped && DeliveriesInOrder(NextTrail(t, DecodeFailed))
    requires IsTail(NextTrail(t, DecodeFailed).queue.frames, t.accepted)
    ensures NextIsDecodable(NextTrail(t, DecodeFailed))
  {
    hide IsTail, Ascending, Contiguous, Follows, FirstKey, DeliveriesInOrder;
    var s := t.queue;
    var k := FirstKey(s.frames);
    TailDrop(s.frames, t.accepted, 0);
    TailDrop(s.frames, t.accepted, k);
  }

  lemma StepKeepsInvariant(t: Trail, e: Event)
    requires TrailInvariant(t)
    ensures TrailInvariant(NextTrail(t, e))
  {
    match e
    case Pushed(f) => if Accepts(t.queue, f) { PushKeepsDeliveries(t, f); }
    case Received => ReceiveKeepsInvariant(t);
    case DecodeFailed => FailureKeepsInvariant(t);
    case Stopped => TailDrop(t.queue.frames, t.accepted, |t.queue.frames|);
  }

  lemma {:induction false} RunKeepsInvariant(es: seq<Event>)
    ensures TrailInvariant(RunTrail(es))
  {
    if es != [] {
      RunKeepsInvariant(es[..|es| - 1]);
      StepKeepsInvariant(RunTrail(es[..|es| - 1]), es[|es| - 1]);
    }
  }

  /**
   The decoder is always handed a decodable chain: in any run, of two frames delivered one after the
   other the second is a keyframe or comes from the next position and was accepted right after the first; the
   first frame delivered after a decode failure is a keyframe; deliveries follow the order of acceptance
   without repetition; and the very first one is the first accepted frame or a keyframe.
   */
  lemma DeliveriesAreDecodable(es: seq<Event>)
    ensures DeliveriesInOrder(RunTrail(es)) && |Run(INITIAL, es).frames| <= CAPACITY
    ensures
      var t := RunTrail(es);
      t.delivered != [] ==> t.delivered[0].index == 0 || t.accepted[t.delivered[0].index].key
    ensures
      var t := RunTrail(es);
      forall i :: 0 < i < |t.delivered| ==>
        t.accepted[t.delivered[i].index].key ||
        Position(t.accepted, t.delivered[i].index) == Position(t.accepted, t.delivered[i - 1].index) + 1
  {
    hide RunTrail, Run, Follows, QueueInvariant, NextIsDecodable;
    RunKeepsFirst(es);
    var t := RunTrail(es);
    BoundedQueue(t.queue, t.accepted);
    forall i | 0 < i < |t.delivered| && !t.accepted[t.delivered[i].index].key
      ensures Position(t.accepted, t.delivered[i].index) == Position(t.accepted, t.delivered[i - 1].index) + 1
    {
      NextPosition(t.accepted, t.delivered[i - 1].index);
    }
  }

  lemma BoundedQueue(s: State, accepted: seq<Frame>)
    requires QueueInvariant(s, accepted)
    ensures |s.frames| <= CAPACITY
  {
  }

  lemma NextPosition(accepted: seq<Frame>, i: nat)
    requires i + 1 < |accepted| && Follows(accepted[i + 1], accepted[i])
    ensures Position(accepted, i + 1) == Position(accepted, i) + 1
  {
  }

  // ----- the first link of the chain

  /** While nothing has been delivered, whatever will be delivered first is the first accepted frame or a keyframe. */
  ghost predicate FirstIsFresh(t: Trail)
    requires TrailInvariant(t)
  {
    && (t.delivered == [] && !t.queue.stopped && !t.queue.recovering ==>
          |t.queue.frames| == |t.accepted| || (t.queue.frames != [] && t.queue.frames[0].key))
    && (t.delivered != [] ==> t.delivered[0].index == 0 || t.accepted[t.delivered[0].index].key)
  }

  lemma PushKeepsFirst(t: Trail, f: Frame)
    requires TrailInvariant(t) && FirstIsFresh(t) && Accepts(t.queue, f)
    ensures TrailInvariant(NextTrail(t, Pushed(f))) && FirstIsFresh(NextTrail(t, Pushed(f)))
  {
    hide IsTail, Ascending, Contiguous, NextIsDecodable;
    PushKeepsDeliveries(t, f);
    TailDrop(t.queue.frames, t.accepted, 0);
  }

  lemma ReceiveKeepsFirst(t: Trail)
    requires TrailInvariant(t) && FirstIsFresh(t)
    ensures TrailInvariant(NextTrail(t, Received)) && FirstIsFresh(NextTrail(t, Received))
  {
    hide IsTail, Ascending, Contiguous, NextIsDecodable;
    ReceiveKeepsInvariant(t);
    TailDrop(t.queue.frames, t.accepted, 0);
  }

  lemma FailureKeepsFirst(t: Trail)
    requires TrailInvariant(t) && FirstIsFresh(t)
    ensures TrailInvariant(NextTrail(t, DecodeFailed)) && FirstIsFresh(NextTrail(t, DecodeFailed))
  {
    hide IsTail, Ascending, Contiguous, NextIsDecodable, FirstKey;
    FailureKeepsInvariant(t);
  }

  lemma {:induction false} RunKeepsFirst(es: seq<Event>)
    ensures TrailInvariant(RunTrail(es)) && FirstIsFresh(RunTrail(es))
  {
    if es != [] {
      hide TrailInvariant, FirstIsFresh, NextTrail;
      var t, e := RunTrail(es[..|es| - 1]), es[|es| - 1];
      RunKeepsFirst(es[..|es| - 1]);
      StepKeepsFirst(t, e);
    } else {
      RunKeepsInvariant([]);
    }
  }

  lemma StepKeepsFirst(t: Trail, e: Event)
    requires TrailInvariant(t) && FirstIsFresh(t)
    ensures TrailInvariant(NextTrail(t, e)) && FirstIsFresh(NextTrail(t, e))
  {
    hide Accept, AfterFailure, AfterReceive;
    match e
    case Pushed(f) => if Accepts(t.queue, f) { PushKeepsFirst(t, f); }
    case Received => ReceiveKeepsFirst(t);
    case DecodeFailed => FailureKeepsFirst(t);
    case Stopped => StepKeepsInvariant(t, e);
  }

  /**
   In every run the first frame delivered is a keyframe exactly if an accepted frame was skipped or the
   first one accepted is a keyframe.
   */
  lemma FirstDeliveryExactly(es: seq<Event>)
    requires RunTrail(es).delivered != []
    ensures
      var t := RunTrail(es);
      && t.delivered[0].index < |t.accepted|
      && (t.accepted[t.delivered[0].index].key <==> t.delivered[0].index > 0 || t.accepted[0].key)
  {
    RunKeepsFirst(es);
  }

  lemma {:induction false} FirstAcceptedStays(es: seq<Event>, f: Frame)
    requires es != [] && es[0] == Pushed(f)
    ensures RunTrail(es).accepted != [] && RunTrail(es).accepted[0] == f
  {
    if |es| == 1 {
      assert es[..0] == [];
    } else {
      FirstAcceptedStays(es[..|es| - 1], f);
    }
  }

  lemma PushedIsDelivered(f: Frame)
    ensures
      RunTrail([Pushed(f), Received]) ==
      Trail(State([], Some(f.id), false, false), [f], [Delivery(0, false)], false)
  {
    var es := [Pushed(f), Received];
    assert es[..1] == [Pushed(f)] && [Pushed(f)][..0] == [];
    assert RunTrail([]) == START;
    assert RunTrail([Pushed(f)]) == Trail(State([f], Some(f.id), false, false), [f], [], false);
    assert RunTrail(es) == NextTrail(RunTrail(es[..1]), Received);
  }

  /** Does the decoder get a keyframe first, if it gets anything? */
  ghost predicate StartsWithKeyframe(es: seq<Event>)
    requires |es| > 0
  {
    var t := RunTrail(es);
    t.delivered != [] ==> t.delivered[0].index < |t.accepted| && t.accepted[t.delivered[0].index].key
  }

  /** All runs that begin with the push of `f` give the decoder a keyframe first, if and only if `f` is one. */
  lemma RunsStartWithKeyframeExactly(f: Frame)
    ensures (forall es :: es != [] && es[0] == Pushed(f) ==> StartsWithKeyframe(es)) <==> f.key
  {
    hide RunTrail;
    if f.key {
      forall es | es != [] && es[0] == Pushed(f) ensures StartsWithKeyframe(es) {
        if RunTrail(es).delivered != [] {
          FirstAcceptedStays(es, f);
          FirstDeliveryExactly(es);
        }
      }
    } else {
      PushedIsDelivered(f);
      assert !StartsWithKeyframe([Pushed(f), Received]);
    }
  }

  // ----- after a stop

  lemma StoppedStays(t: Trail, e: Event)
    requires t.queue.stopped && t.queue.frames == []
    ensures NextTrail(t, e) == t
  {
  }

  /** Once stopped, nothing changes any more: no frame is accepted, delivered or asked for. */
  lemma {:induction false} StoppedIsFinal(es: seq<Event>, more: seq<Event>)
    requires Run(INITIAL, es).stopped
    ensures RunTrail(es + more) == RunTrail(es)
    decreases |more|
  {
    hide NextTrail, Next;
    if more == [] {
      assert es + more == es;
    } else {
      var all := es + more;
      assert all[..|all| - 1] == es + more[..|more| - 1];
      StoppedIsFinal(es, more[..|more| - 1]);
      RunKeepsInvariant(es);
      StoppedStays(RunTrail(es), more[|more| - 1]);
    }
  }

  // ----- positions behind the wrapping ids

  /** The unbounded position of the i-th accepted frame. */
  function Position(accepted: seq<Frame>, i: nat): int
    requires i < |accepted|
  {
    if i == 0 then accepted[0].id
    else Position(accepted, i - 1) + WrappingSub(accepted[i].id, accepted[i - 1].id)
  }

  lemma {:induction false} PositionCarriesId(accepted: seq<Frame>, i: nat)
    requires i < |accepted|
    ensures Wrap(Position(accepted, i)) == accepted[i].id
  {
    if i > 0 {
      PositionCarriesId(accepted, i - 1);
      WrapOfSum(Position(accepted, i - 1), accepted[i].id);
    }
  }

  lemma {:induction false} PositionsIncrease(accepted: seq<Frame>, i: nat, j: nat)
    requires Ascending(accepted) && i < j < |accepted|
    ensures Position(accepted, i) < Position(accepted, j)
  {
    if i < j - 1 {
      PositionsIncrease(accepted, i, j - 1);
    }
  }

  /**
   Through any number of wraps, the positions of the accepted frames strictly increase, each carries
   its frame's id, and the positions delivered are strictly increasing too.
   */
  lemma DeliveredPositionsIncrease(es: seq<Event>, i: nat, j: nat)
    requires i < j < |RunTrail(es).delivered|
    ensures
      var t := RunTrail(es);
      && t.delivered[j].index < |t.accepted| && t.delivered[i].index < |t.accepted|
      && Position(t.accepted, t.delivered[i].index) < Position(t.accepted, t.delivered[j].index)
      && Wrap(Position(t.accepted, t.delivered[j].index)) == t.accepted[t.delivered[j].index].id
  {
    hide Position, Wrap;
    RunKeepsInvariant(es);
    var t := RunTrail(es);
    PositionsIncrease(t.accepted, t.delivered[i].index, t.delivered[j].index);
    PositionCarriesId(t.accepted, t.delivered[j].index);
  }

  /**
   A frame from position `p`, within half a ring of the newest accepted one, is accepted exactly if
   it lies ahead; a late or duplicate frame leaves the queue as it was.
   */
  lemma AcceptedExactlyWhenAhead(es: seq<Event>, f: Frame, p: int)
    requires !Run(INITIAL, es).stopped && RunTrail(es).accepted != []
    requires Wrap(p) == f.id
    requires var a := RunTrail(es).accepted; Near(p, Position(a, |a| - 1))
    ensures
      var s, a := Run(INITIAL, es), RunTrail(es).accepted;
      && (Accepts(s, f) <==> p > Position(a, |a| - 1))
      && (p <= Position(a, |a| - 1) ==> AfterPush(s, f) == s)
  {
    hide Position, Wrap, RunTrail, NextTrail, Run, WrappingSub;
    RunKeepsInvariant(es);
    var a := RunTrail(es).accepted;
    var h := Position(a, |a| - 1);
    PositionCarriesId(a, |a| - 1);
    AheadMeansHigher(p, h);
    WrappingSubZero(f.id, a[|a| - 1].id);
  }

  lemma WrappingSubZero(a: u32, b: u32)
    ensures WrappingSub(a, b) == 0 <==> a == b
  {
  }

  // ----- one keyframe request per recovery

  predicate AdmitsKeyframe(s: State, e: Event) {
    e.Pushed? && e.frame.key && s.recovering && Next(s, e).frames == [e.frame]
  }

  /** Recovery ends only with an admitted keyframe. */
  lemma RecoveryEndsWithKeyframe(es: seq<Event>, e: Event)
    requires Run(INITIAL, es).recovering && !Next(Run(INITIAL, es), e).recovering
    ensures AdmitsKeyframe(Run(INITIAL, es), e)
  {
    RunKeepsInvariant(es);
  }

  lemma {:induction false} RecoveryEnds(es: seq<Event>, i: nat, j: nat) returns (k: nat)
    requires i <= j <= |es| && Run(INITIAL, es[..i]).recovering && !Run(INITIAL, es[..j]).recovering
    ensures i <= k < j && AdmitsKeyframe(Run(INITIAL, es[..k]), es[k])
    decreases j - i
  {
    assert i < j;
    assert es[..i + 1][..i] == es[..i];
    if Run(INITIAL, es[..i + 1]).recovering {
      k := RecoveryEnds(es, i + 1, j);
    } else {
      RecoveryEndsWithKeyframe(es[..i], es[i]);
      k := i;
    }
  }

  predicate RequestedAt(es: seq<Event>, i: nat)
    requires i < |es|
  {
    Asks(Run(INITIAL, es[..i]), es[i])
  }

  /** A keyframe is asked for exactly when recovery begins. */
  lemma AsksWhenRecoveryBegins(s: State, e: Event)
    ensures Asks(s, e) <==> !s.recovering && Next(s, e).recovering
  {
    hide FirstKey, Late, Discontinuous;
  }

  /** Between two keyframe requests of a run, a keyframe was admitted. */
  lemma RequestsAreSeparated(es: seq<Event>, i: nat, j: nat)
    requires i < j < |es| && RequestedAt(es, i) && RequestedAt(es, j)
    ensures exists k :: i < k < j && AdmitsKeyframe(Run(INITIAL, es[..k]), es[k])
  {
    AsksWhenRecoveryBegins(Run(INITIAL, es[..i]), es[i]);
    AsksWhenRecoveryBegins(Run(INITIAL, es[..j]), es[j]);
    assert es[..i + 1][..i] == es[..i];
    var k := RecoveryEnds(es, i + 1, j);
  }

  predicate TakesKeyframe(es: seq<Event>, k: nat)
    requires k < |es|
  {
    es[k].Pushed? && es[k].frame.key && Accepts(Run(INITIAL, es[..k]), es[k].frame)
  }

  /** Some event was answered with a request, and no keyframe has been accepted since. */
  ghost predicate AwaitsKeyframe(es: seq<Event>) {
    exists i :: 0 <= i < |es| && RequestedAt(es, i) && forall k :: i < k < |es| ==> !TakesKeyframe(es, k)
  }

  lemma AwaitsSnoc(es: seq<Event>, e: Event)
    ensures
      AwaitsKeyframe(es + [e]) <==>
      Asks(Run(INITIAL, es), e) || (AwaitsKeyframe(es) && !TakesKeyframe(es + [e], |es|))
  {
    hide Run, Asks;
    var more := es + [e];
    assert more[..|es|] == es;
    forall i | 0 <= i < |es|
      ensures RequestedAt(more, i) == RequestedAt(es, i) && TakesKeyframe(more, i) == TakesKeyframe(es, i)
    {
      assert more[..i] == es[..i];
    }
    if AwaitsKeyframe(es) && !TakesKeyframe(more, |es|) {
      var i :| 0 <= i < |es| && RequestedAt(es, i) && forall k :: i < k < |es| ==> !TakesKeyframe(es, k);
      assert RequestedAt(more, i);
    }
    if Asks(Run(INITIAL, es), e) {
      assert RequestedAt(more, |es|);
    }
  }

  /** In every run the queue is recovering exactly as long as the answer to a request is awaited. */
  lemma {:induction false} RecoveringExactly(es: seq<Event>)
    ensures Run(INITIAL, es).recovering <==> AwaitsKeyframe(es)
  {
    if es != [] {
      hide Asks, AwaitsKeyframe, Next;
      var front, e := es[..|es| - 1], es[|es| - 1];
      assert es == front + [e];
      RecoveringExactly(front);
      AwaitsSnoc(front, e);
      AsksWhenRecoveryBegins(Run(INITIAL, front), e);
      if Run(INITIAL, front).recovering { RecoveryStep(front, e); }
    }
  }

  lemma RecoveryStep(es: seq<Event>, e: Event)
    requires Run(INITIAL, es).recovering
    ensures Next(Run(INITIAL, es), e).recovering <==> !TakesKeyframe(es + [e], |es|)
  {
    hide Run;
    assert (es + [e])[..|es|] == es;
    RunKeepsInvariant(es);
    RecoveringIsEmpty(Run(INITIAL, es), RunTrail(es).accepted);
  }

  lemma RecoveringIsEmpty(s: State, accepted: seq<Frame>)
    requires QueueInvariant(s, accepted) && s.recovering
    ensures s.frames == []
  {
  }

  // ----- nothing is lost needlessly

  /**
   A queued frame leaves the queue only for cause: it is delivered, the queue stops, a newer frame finds
   a gap or no room, or a decode fails and no keyframe is queued at or before it.
   */
  lemma FramesLeaveForCause(s: State, e: Event, i: nat)
    requires i < |s.frames|
    ensures
      || s.frames[i] in Next(s, e).frames
      || (e.Received? && i == 0)
      || e.Stopped?
      || (e.Pushed? && Accepts(s, e.frame) && (Discontinuous(s, e.frame) || |s.frames| == CAPACITY))
      || (e.DecodeFailed? && forall j :: 0 <= j <= i ==> !s.frames[j].key)
  {
    match e
    case Pushed(f) =>
      assert (s.frames + [f])[i] == s.frames[i];
    case Received =>
      if i > 0 { assert s.frames[1..][i - 1] == s.frames[i]; }
    case DecodeFailed =>
      var k := FirstKey(s.frames);
      if k <= i { assert s.frames[k..][i - k] == s.frames[i]; }
    case Stopped =>
  }

  /**
   In every reachable state an accepted frame, from a position `p` near the newest accepted one, is queued
   exactly if it is a keyframe, or if it comes right after that one, and there is room and no recovery.
   */
  lemma AcceptedFrameIsQueuedIfUsable(es: seq<Event>, f: Frame, p: int)
    requires Accepts(Run(INITIAL, es), f) && Wrap(p) == f.id
    requires var a := RunTrail(es).accepted; a != [] ==> Near(p, Position(a, |a| - 1))
    ensures
      var s, t, a := Run(INITIAL, es), Next(Run(INITIAL, es), Pushed(f)), RunTrail(es).accepted;
      && (t.frames != [] && t.frames[|t.frames| - 1] == f <==>
            f.key || (!s.recovering && |s.frames| < CAPACITY && (a != [] ==> p == Position(a, |a| - 1) + 1)))
      && (t.frames == [] <==> t.recovering)
  {
    hide Run, RunTrail, Discontinuous, Position, Wrap;
    RunKeepsInvariant(es);
    var a := RunTrail(es).accepted;
    if Run(INITIAL, es).frames != [] {
      LastOfQueue(Run(INITIAL, es), a, f);
    }
    if a != [] {
      PositionCarriesId(a, |a| - 1);
      ContinuesExactly(Run(INITIAL, es), a, f, p, Position(a, |a| - 1));
    } else {
      NothingToContinue(Run(INITIAL, es), a, f);
    }
  }

  lemma ContinuesExactly(s: State, accepted: seq<Frame>, f: Frame, p: int, h: int)
    requires QueueInvariant(s, accepted) && accepted != [] && Accepts(s, f)
    requires Wrap(p) == f.id && Wrap(h) == accepted[|accepted| - 1].id && Near(p, h)
    ensures Discontinuous(s, f) <==> p != h + 1
  {
    hide Wrap;
    AheadMeansHigher(p, h);
    WrappingSubZero(f.id, accepted[|accepted| - 1].id);
  }

  lemma NothingToContinue(s: State, accepted: seq<Frame>, f: Frame)
    requires QueueInvariant(s, accepted) && accepted == []
    ensures !Discontinuous(s, f)
  {
  }

  /** An accepted frame is none of those already queued: its id is ahead of the last one's. */
  lemma LastOfQueue(s: State, accepted: seq<Frame>, f: Frame)
    requires QueueInvariant(s, accepted) && Accepts(s, f) && s.frames != []
    ensures s.frames[|s.frames| - 1] != f
  {
  }
}
