/**
 What the verdicts on lost packets mean, said over the events of a trace alone: which positions count
 as received, which as missing, and when a verdict is reached.
 */
module LossMeaning {
  import opened Prelude
  import opened SerialNumbers
  import opened NaiveLoss
  import opened PacketLoss
  import opened SequenceTraces

  /** A packet at position `p` arrives in the trace. */
  ghost predicate Arrives(es: seq<Event>, p: int) {
    exists k :: 0 <= k < |es| && es[k].Observed? && es[k].position == p
  }

  /** Event `k` brings the first packet at or ahead of position `p`. */
  ghost predicate Opens(es: seq<Event>, p: int, k: nat) {
    && k < |es| && es[k].Observed? && p <= es[k].position
    && forall j :: 0 <= j < k && es[j].Observed? ==> es[j].position < p
  }

  /** The first packet at or ahead of position `p` comes at time `at`. */
  ghost predicate OpenedAt(es: seq<Event>, p: int, at: nat) {
    exists k: nat :: Opens(es, p, k) && es[k].now == at
  }

  lemma ArrivesSnoc(es: seq<Event>, e: Event, p: int)
    ensures Arrives(es + [e], p) <==> Arrives(es, p) || (e.Observed? && e.position == p)
  {
    var more := es + [e];
    assert more[|es|] == e && forall k :: 0 <= k < |es| ==> more[k] == es[k];
  }

  lemma OpenedAtSnoc(es: seq<Event>, e: Event, p: int, at: nat)
    requires OpenedAt(es, p, at)
    ensures OpenedAt(es + [e], p, at)
  {
    var k: nat :| Opens(es, p, k) && es[k].now == at;
    assert forall j :: 0 <= j < |es| ==> (es + [e])[j] == es[j];
    assert Opens(es + [e], p, k);
  }

  // ----- one event

  /** The positions finalized because their grace is over, each at its own deadline. */
  lemma {:induction false} DueVerdicts(n: Naive, now: nat)
    requires n.Valid()
    ensures
      var d := n.FinalizeDue(now);
      && |n.done| <= |d.done| <= |d.slots| == |n.slots| && !d.OldestIsDue(now)
      && forall i :: |n.done| <= i < |d.done| ==> d.done[i] == n.slots[i].observedAt + GRACE <= now
    decreases |n.slots| - |n.done|
  {
    if n.OldestIsDue(now) {
      hide Naive.History;
      var m := n.FinalizeOldest(n.Pending()[0].observedAt + GRACE);
      DueVerdicts(m, now);
      assert m.done <= m.FinalizeDue(now).done;
      assert m.done[|n.done|] == n.slots[|n.done|].observedAt + GRACE;
    }
  }

  /** What remains of the positions known before, and what is opened, when a packet is placed. */
  ghost predicate Placed(n: Naive, m: Naive, position: int, now: nat) {
    && n.Valid() && m.Valid() && n.slots != [] && m.first == n.first && n.done <= m.done
    && |n.slots| <= |m.slots| && |m.slots| - |m.done| <= CAPACITY
    && m.Highest() == (if position > n.Highest() then position else n.Highest())
    && (forall i :: 0 <= i < |n.slots| ==> m.slots[i].observedAt == n.slots[i].observedAt)
    && (forall i :: |n.slots| <= i < |m.slots| ==> m.slots[i] == Slot(n.first + i == position, now))
    && (forall i :: 0 <= i < |n.done| ==> m.slots[i] == n.slots[i])
    && (forall i :: |n.done| <= i < |n.slots| ==>
          (m.slots[i].received <==> n.slots[i].received || n.first + i == position))
    && (forall i :: |n.done| <= i < |m.done| ==> m.done[i] == now && n.first + i + CAPACITY <= position)
  }

  lemma PlaceIsPlaced(n: Naive, position: int, now: nat)
    requires n.Valid() && |n.Pending()| <= CAPACITY && n.slots != []
    ensures Placed(n, n.Place(position, now), position, now)
  {
    hide Naive.Place, Naive.History, Placed, Jumped;
    if position > n.Highest() {
      PlaceInBulk(n, position, position - n.Highest(), now);
      JumpIsPlaced(n, n.Place(position, now), position, now);
    } else {
      MarkIsPlaced(n, position, now);
    }
  }

  lemma JumpIsPlaced(n: Naive, m: Naive, position: int, now: nat)
    requires n.Valid() && |n.Pending()| <= CAPACITY && n.slots != [] && position > n.Highest()
    requires Jumped(n, m, position - n.Highest(), now)
    ensures Placed(n, m, position, now)
  {
    var distance := position - n.Highest();
    assert |m.slots| == |n.slots| + distance && |m.done| == |n.done| + Overflow(n, distance);
    assert forall i :: 0 <= i < |n.slots| ==> m.slots[i] == n.slots[i];
    assert forall i :: 0 <= i < |n.done| ==> m.done[i] == n.done[i];
    assert forall i :: |n.done| <= i < |m.done| ==> m.done[i] == now;
  }

  lemma MarkIsPlaced(n: Naive, position: int, now: nat)
    requires n.Valid() && |n.Pending()| <= CAPACITY && n.slots != [] && position <= n.Highest()
    ensures Placed(n, n.Place(position, now), position, now)
  {
    hide Naive.History;
  }

  // ----- whole traces

  lemma OneMoreEvent(es: seq<Event>, e: Event)
    ensures Run(EMPTY, es + [e]) == Step(Run(EMPTY, es), e)
  {
    RunSnoc(EMPTY, es, e);
  }

  /** No packet is ahead of the highest position. */
  lemma {:induction false} HighestIsHighest(es: seq<Event>)
    ensures
      var n := Run(EMPTY, es);
      forall k :: 0 <= k < |es| && es[k].Observed? ==> n.slots != [] && es[k].position <= n.Highest()
  {
    if es != [] {
      hide Run, Step;
      var front, e := es[..|es| - 1], es[|es| - 1];
      assert es == front + [e];
      HighestIsHighest(front);
      OneMoreEvent(front, e);
      StepHighest(Run(EMPTY, front), e);
    }
  }

  /** The account of the positions of a trace: which are still pending, and what is known of them. */
  ghost predicate Accounts(n: Naive, es: seq<Event>) {
    && n.Valid() && |n.Pending()| <= CAPACITY
    && (forall i :: |n.done| <= i < |n.slots| ==> (n.slots[i].received <==> Arrives(es, n.first + i)))
    && (forall i :: 0 <= i < |n.slots| ==> OpenedAt(es, n.first + i, n.slots[i].observedAt))
  }

  /**
   In every trace: a position still pending counts as received exactly if a packet at it has arrived,
   and every position is dated by the first packet at or ahead of it.
   */
  lemma {:induction false} PendingMeansArrived(es: seq<Event>)
    ensures Accounts(Run(EMPTY, es), es)
  {
    if es == [] {
      assert Run(EMPTY, es) == EMPTY;
    } else {
      hide Run, Step, Accounts;
      var front, e := es[..|es| - 1], es[|es| - 1];
      assert es == front + [e];
      PendingMeansArrived(front);
      OneMoreEvent(front, e);
      HighestIsHighest(front);
      StepAccounts(Run(EMPTY, front), front, e);
    }
  }

  lemma StepAccounts(n: Naive, es: seq<Event>, e: Event)
    requires Accounts(n, es)
    requires forall k :: 0 <= k < |es| && es[k].Observed? ==> n.slots != [] && es[k].position <= n.Highest()
    ensures Accounts(Step(n, e), es + [e])
  {
    hide Arrives, OpenedAt, Naive.Place, Naive.FinalizeDue, Naive.History;
    DueVerdicts(n, e.now);
    var d := n.FinalizeDue(e.now);
    DueAccounts(n, d, es);
    if e.WasRead? {
      SameAccounts(d, es, e);
    } else if n.slots == [] {
      FirstAccounts(d, es, e);
    } else {
      PlaceIsPlaced(d, e.position, e.now);
      PlacedAccounts(d, d.Place(e.position, e.now), es, e);
    }
  }

  lemma DueAccounts(n: Naive, d: Naive, es: seq<Event>)
    requires Accounts(n, es) && d.Valid() && d.first == n.first && d.slots == n.slots && |n.done| <= |d.done|
    ensures Accounts(d, es)
  {
    hide Arrives, OpenedAt;
  }

  lemma SameAccounts(n: Naive, es: seq<Event>, e: Event)
    requires Accounts(n, es) && e.WasRead?
    ensures Accounts(n, es + [e])
  {
    hide Arrives, OpenedAt;
    forall i | |n.done| <= i < |n.slots| ensures n.slots[i].received <==> Arrives(es + [e], n.first + i) {
      ArrivesSnoc(es, e, n.first + i);
    }
    StillOpened(n, es, e);
  }

  lemma StillOpened(n: Naive, es: seq<Event>, e: Event)
    requires Accounts(n, es)
    ensures forall i :: 0 <= i < |n.slots| ==> OpenedAt(es + [e], n.first + i, n.slots[i].observedAt)
  {
    hide Arrives, OpenedAt;
    forall i | 0 <= i < |n.slots| ensures OpenedAt(es + [e], n.first + i, n.slots[i].observedAt) {
      OpenedAtSnoc(es, e, n.first + i, n.slots[i].observedAt);
    }
  }

  lemma NewlyOpened(es: seq<Event>, e: Event, p: int)
    requires e.Observed? && p <= e.position && forall k :: 0 <= k < |es| && es[k].Observed? ==> es[k].position < p
    ensures OpenedAt(es + [e], p, e.now)
    ensures Arrives(es + [e], p) <==> e.position == p
  {
    assert forall j :: 0 <= j < |es| ==> (es + [e])[j] == es[j];
    assert Opens(es + [e], p, |es|);
    ArrivesSnoc(es, e, p);
  }

  lemma FirstAccounts(n: Naive, es: seq<Event>, e: Event)
    requires n.Valid() && n.slots == [] && e.Observed? && forall k :: 0 <= k < |es| ==> !es[k].Observed?
    ensures Accounts(n.Place(e.position, e.now), es + [e])
  {
    NewlyOpened(es, e, e.position);
  }

  lemma PlacedAccounts(n: Naive, m: Naive, es: seq<Event>, e: Event)
    requires Accounts(n, es) && e.Observed? && Placed(n, m, e.position, e.now)
    requires forall k :: 0 <= k < |es| && es[k].Observed? ==> es[k].position <= n.Highest()
    ensures Accounts(m, es + [e])
  {
    hide Arrives, OpenedAt;
    StillOpened(n, es, e);
    forall i | 0 <= i < |m.slots|
      ensures i >= |m.done| ==> (m.slots[i].received <==> Arrives(es + [e], m.first + i))
      ensures OpenedAt(es + [e], m.first + i, m.slots[i].observedAt)
    {
      if i < |n.slots| {
        ArrivesSnoc(es, e, n.first + i);
      } else {
        NewlyOpened(es, e, n.first + i);
      }
    }
  }

  // ----- what a verdict means

  /** Position number `i` of the trace is finalized by event `k`. */
  ghost predicate FinalizedBy(es: seq<Event>, i: nat, k: nat) {
    k < |es| && |Run(EMPTY, es[..k]).done| <= i < |Run(EMPTY, es[..k + 1]).done|
  }

  /**
   The verdict of event `k` on position `p`: missing exactly if no packet at `p` has arrived before, and
   reached either at the deadline set by the packet that opened `p`, not before it, or on the spot
   because the packet of event `k` leaves `p` no room.
   */
  ghost predicate JustVerdict(v: Final, es: seq<Event>, p: int, k: nat)
    requires k < |es|
  {
    && (v.missing <==> !Arrives(es[..k], p))
    && ((v.at <= es[k].now && v.at >= GRACE && OpenedAt(es[..k], p, v.at - GRACE)) ||
        (es[k].Observed? && p + CAPACITY <= es[k].position && v.at == es[k].now))
  }

  lemma StepVerdict(n: Naive, es: seq<Event>, e: Event, i: nat)
    requires Accounts(n, es) && |n.done| <= i < |Step(n, e).done|
    requires forall k :: 0 <= k < |es| && es[k].Observed? ==> n.slots != [] && es[k].position <= n.Highest()
    ensures JustVerdict(Step(n, e).History()[i], es + [e], n.first + i, |es|) && Step(n, e).first == n.first
  {
    hide Arrives, OpenedAt, Naive.Place, Naive.FinalizeDue;
    DueVerdicts(n, e.now);
    var d, m := n.FinalizeDue(e.now), Step(n, e);
    assert (es + [e])[..|es|] == es && (es + [e])[|es|] == e;
    if n.slots == [] {
      NothingToFinalize(n, e);
    } else if e.Observed? {
      PlaceIsPlaced(d, e.position, e.now);
    }
    if i < |d.done| {
      assert m.done[i] == d.done[i] && m.slots[i] == n.slots[i];
    } else {
      assert m.done[i] == e.now && n.first + i + CAPACITY <= e.position;
      if i >= |n.slots| {
        NotYetArrived(es, n.first + i);
      }
    }
  }

  lemma NotYetArrived(es: seq<Event>, p: int)
    requires forall k :: 0 <= k < |es| && es[k].Observed? ==> es[k].position < p
    ensures !Arrives(es, p)
  {
  }

  lemma NothingToFinalize(n: Naive, e: Event)
    requires n.Valid() && n.slots == []
    ensures Step(n, e).done == []
  {
  }

  /** In every trace every verdict is just, for the event that brought it. */
  lemma VerdictsAreJust(es: seq<Event>, i: nat, k: nat)
    requires FinalizedBy(es, i, k)
    ensures
      var n := Run(EMPTY, es);
      i < |n.done| && JustVerdict(n.History()[i], es, n.first + i, k)
  {
    hide Run, Step, Accounts, JustVerdict, Naive.History;
    var front, e := es[..k], es[k];
    assert es[..k + 1] == front + [e];
    PendingMeansArrived(front);
    HighestIsHighest(front);
    OneMoreEvent(front, e);
    StepVerdict(Run(EMPTY, front), front, e, i);
    VerdictsStay(es, k + 1);
    JustVerdictStays(Run(EMPTY, es).History()[i], es, Run(EMPTY, es).first + i, k);
  }

  lemma JustVerdictStays(v: Final, es: seq<Event>, p: int, k: nat)
    requires k < |es| && JustVerdict(v, es[..k + 1], p, k)
    ensures JustVerdict(v, es, p, k)
  {
    var part := es[..k + 1];
    assert part[..k] == es[..k];
  }

  /** What has been reached at some event is there at the end. */
  lemma {:induction false} VerdictsStay(es: seq<Event>, k: nat)
    requires k <= |es|
    ensures
      var n, m := Run(EMPTY, es[..k]), Run(EMPTY, es);
      && n.History() <= m.History()
      && (n.slots != [] ==> m.slots != [] && m.first == n.first && n.Highest() <= m.Highest())
  {
    hide Run, Step, Naive.History;
    if k == |es| {
      assert es[..k] == es;
    } else {
      var front, e := es[..|es| - 1], es[|es| - 1];
      assert es == front + [e] && front[..k] == es[..k];
      VerdictsStay(front, k);
      OneMoreEvent(front, e);
      StepKeepsVerdicts(Run(EMPTY, front), e);
      StepHighest(Run(EMPTY, front), e);
    }
  }

  /** Every verdict was brought by one event of the trace. */
  lemma {:induction false} VerdictHasEvent(es: seq<Event>, i: nat) returns (k: nat)
    requires i < |Run(EMPTY, es).done|
    ensures FinalizedBy(es, i, k)
  {
    var front := es[..|es| - 1];
    if i < |Run(EMPTY, front).done| {
      k := VerdictHasEvent(front, i);
      assert front[..k] == es[..k] && front[..k + 1] == es[..k + 1];
    } else {
      k := |es| - 1;
      assert es[..k + 1] == es;
    }
  }

  // ----- no verdict comes too late

  /** Nothing is due that is still pending. */
  ghost predicate Fresh(n: Naive, now: nat) { Timely(n, now) && !n.OldestIsDue(now) }

  lemma PlaceIsFresh(n: Naive, position: int, now: nat)
    requires Fresh(n, now)
    ensures Fresh(n.Place(position, now), now)
  {
    hide Naive.AppendGap, Naive.AppendOne, Naive.MarkReceived, Timely;
    TimelyIsValid(n, now);
    PlaceIsTimely(n, position, now);
    if n.slots != [] && position > n.Highest() {
      AppendGapIsTimely(n, position - n.Highest() - 1, now);
      AppendOneIsTimely(n.AppendGap(position - n.Highest() - 1, now), true, now);
    } else if n.slots != [] {
      MarkingKeepsDates(n, position);
    }
  }

  lemma TimelyIsValid(n: Naive, now: nat)
    requires Timely(n, now)
    ensures n.Valid()
  {
  }

  lemma MarkingKeepsDates(n: Naive, position: int)
    requires n.Valid() && position <= n.Highest()
    ensures forall now :: n.MarkReceived(position).OldestIsDue(now) == n.OldestIsDue(now)
  {
    var m := n.MarkReceived(position);
    assert |m.slots| == |n.slots| && forall i :: 0 <= i < |n.slots| ==> m.slots[i].observedAt == n.slots[i].observedAt;
  }

  lemma {:induction false} RunIsFresh(n: Naive, es: seq<Event>, t: nat)
    requires Fresh(n, t) && NondecreasingFrom(es, t)
    ensures Fresh(Run(n, es), if es == [] then t else es[|es| - 1].now)
    decreases |es|
  {
    if es != [] {
      hide Fresh, Naive.Place, Naive.FinalizeDue;
      var e := es[0];
      StepIsFresh(n, e, t);
      RunIsFresh(Step(n, e), es[1..], e.now);
    }
  }

  lemma StepIsFresh(n: Naive, e: Event, t: nat)
    requires Fresh(n, t) && t <= e.now
    ensures Fresh(Step(n, e), e.now)
  {
    hide Timely, Naive.OldestIsDue, Naive.Place, Naive.FinalizeDue;
    TimelyLater(n, t, e.now);
    FinalizeDueIsTimely(n, e.now);
    if e.Observed? {
      PlaceIsFresh(n.FinalizeDue(e.now), e.position, e.now);
    }
  }

  /**
   With a clock that does not run backwards, a position is still pending only as long as the grace after
   the packet that opened it has not passed, and as long as it is among the newest 4096.
   */
  lemma PendingIsWithinGrace(es: seq<Event>, i: nat)
    requires es != [] && NondecreasingFrom(es, 0) && |Run(EMPTY, es).done| <= i < |Run(EMPTY, es).slots|
    ensures
      var n := Run(EMPTY, es);
      && OpenedAt(es, n.first + i, n.slots[i].observedAt)
      && es[|es| - 1].now < n.slots[i].observedAt + GRACE && n.Highest() < n.first + i + CAPACITY
  {
    hide Run, OpenedAt;
    PendingMeansArrived(es);
    assert Fresh(EMPTY, 0);
    RunIsFresh(EMPTY, es, 0);
    FreshPending(Run(EMPTY, es), es[|es| - 1].now, i);
  }

  lemma FreshPending(n: Naive, now: nat, i: nat)
    requires Fresh(n, now) && |n.done| <= i < |n.slots|
    ensures now < n.slots[i].observedAt + GRACE
  {
    assert n.Pending()[0] == n.slots[|n.done|];
  }

  // ----- the same over sequence numbers

  ghost predicate SequenceArrives(inputs: seq<Input>, sequence: u32) {
    exists k :: 0 <= k < |inputs| && inputs[k].Arrived? && inputs[k].sequence == sequence
  }

  /** Each packet is placed near the highest position of the packets before it. */
  lemma {:induction false} UnwrappedAt(n: Naive, inputs: seq<Input>, k: nat)
    requires n.Valid() && k < |inputs| && inputs[k].Arrived?
    ensures
      var es := Unwrapped(HighestIn(n), inputs);
      es[k].position == NextPosition(HighestIn(Run(n, es[..k])), inputs[k].sequence)
    decreases |inputs|
  {
    hide Step, Unwrapped, NextPosition;
    var es := Unwrapped(HighestIn(n), inputs);
    var e := Unwrapped(HighestIn(n), [inputs[0]])[0];
    UnwrappedCons(HighestIn(n), inputs);
    assert es[..0] == [];
    if k == 0 {
      FirstUnwrapped(HighestIn(n), inputs[0]);
    } else {
      TakeIsStep(n, inputs[0]);
      var rest := Unwrapped(HighestIn(Step(n, e)), inputs[1..]);
      assert es == [e] + rest && es[..k] == [e] + rest[..k - 1] && es[..k][1..] == rest[..k - 1];
      UnwrappedAt(Step(n, e), inputs[1..], k - 1);
    }
  }

  lemma FirstUnwrapped(highest: Option<int>, i: Input)
    requires i.Arrived?
    ensures Unwrapped(highest, [i])[0] == Observed(NextPosition(highest, i.sequence), i.now)
  {
    hide NextPosition;
  }

  /** No packet is placed farther than half a ring below the first or above the highest position. */
  lemma {:induction false} PositionsAreNear(inputs: seq<Input>, k: nat)
    requires k < |inputs| && inputs[k].Arrived?
    ensures
      var n, p := Run(EMPTY, Unwrapped(None, inputs)), Unwrapped(None, inputs)[k].position;
      n.slots != [] && n.first - TWO_31 <= p < n.Highest() + TWO_31
  {
    hide Run, Step, Unwrapped, Wrap, Unwrap;
    var es := Unwrapped(None, inputs);
    var m := Run(EMPTY, es[..k]);
    UnwrappedAt(EMPTY, inputs, k);
    assert es[..k + 1] == es[..k] + [es[k]];
    OneMoreEvent(es[..k], es[k]);
    StepHighest(m, es[k]);
    VerdictsStay(es, k + 1);
    if m.slots != [] {
      NearMeans(es[k].position, m.Highest());
    }
  }

  lemma NearMeans(p: int, h: int)
    ensures Near(Unwrap(Wrap(p), h), h)
    ensures forall sequence: u32 :: Near(Unwrap(sequence, h), h)
  {
  }

  lemma WrapIsInjective(p: int, q: int)
    requires Wrap(p) == Wrap(q) && -TWO_32 < p - q < TWO_32
    ensures p == q
  {
    var k := p / TWO_32 - q / TWO_32;
    assert p - q == TWO_32 * k;
  }

  /** As long as a trace spans at most half a ring, a position has arrived exactly if its sequence number has. */
  lemma {:induction false} ArrivesMeansSequence(inputs: seq<Input>, j: nat, p: int)
    requires j <= |inputs|
    requires
      var n := Run(EMPTY, Unwrapped(None, inputs));
      n.first <= p <= n.Highest() && |n.slots| <= TWO_31
    ensures Arrives(Unwrapped(None, inputs)[..j], p) <==> SequenceArrives(inputs[..j], Wrap(p))
  {
    hide Run, Unwrapped, Wrap;
    var es := Unwrapped(None, inputs);
    if Arrives(es[..j], p) {
      var k :| 0 <= k < j && es[..j][k].Observed? && es[..j][k].position == p;
      UnwrappedCarriesSequence(None, inputs, k);
      assert inputs[..j][k].Arrived? && inputs[..j][k].sequence == Wrap(p);
    }
    if SequenceArrives(inputs[..j], Wrap(p)) {
      var k :| 0 <= k < j && inputs[..j][k].Arrived? && inputs[..j][k].sequence == Wrap(p);
      UnwrappedCarriesSequence(None, inputs, k);
      PositionsAreNear(inputs, k);
      WrapIsInjective(p, es[k].position);
      assert es[..j][k].Observed? && es[..j][k].position == p;
    }
  }

  /**
   In every trace of sequence numbers, a pending position counts as received exactly if a packet unwrapped
   to it has arrived; as long as the trace spans at most half a ring, exactly if its sequence number has.
   */
  lemma {:induction false} WindowMeansArrived(inputs: seq<Input>, i: nat)
    requires var n := TakeAll(EMPTY, inputs); |n.done| <= i < |n.slots|
    ensures
      var n := TakeAll(EMPTY, inputs);
      && (n.slots[i].received <==> Arrives(Unwrapped(None, inputs), n.first + i))
      && (|n.slots| <= TWO_31 ==> (n.slots[i].received <==> SequenceArrives(inputs, Wrap(n.first + i))))
  {
    hide Run, Unwrapped, TakeAll, Arrives, SequenceArrives, Accounts, Wrap;
    WindowFollowsPositions(EMPTY, inputs);
    var es, n := Unwrapped(None, inputs), TakeAll(EMPTY, inputs);
    PendingMeansArrived(es);
    AccountOf(n, es, i);
    assert es[..|inputs|] == es && inputs[..|inputs|] == inputs;
    if |n.slots| <= TWO_31 {
      ArrivesMeansSequence(inputs, |inputs|, n.first + i);
    }
  }

  lemma AccountOf(n: Naive, es: seq<Event>, i: nat)
    requires Accounts(n, es) && |n.done| <= i < |n.slots|
    ensures n.slots[i].received <==> Arrives(es, n.first + i)
  {
    hide Arrives, OpenedAt;
  }

  /** The verdict that input `k` brings on position number `i` is just. */
  lemma {:induction false} WindowVerdictsAreJust(inputs: seq<Input>, i: nat, k: nat)
    requires FinalizedBy(Unwrapped(None, inputs), i, k)
    ensures
      var n, es := TakeAll(EMPTY, inputs), Unwrapped(None, inputs);
      i < |n.done| && JustVerdict(n.History()[i], es, n.first + i, k)
  {
    hide Run, Unwrapped, TakeAll, JustVerdict;
    WindowFollowsPositions(EMPTY, inputs);
    VerdictsAreJust(Unwrapped(None, inputs), i, k);
  }

  /** The verdict is "missing" exactly if the sequence number had not arrived before input `k`. */
  ghost predicate CountsArrivals(v: Final, inputs: seq<Input>, sequence: u32, k: nat)
    requires k <= |inputs|
  {
    v.missing <==> !SequenceArrives(inputs[..k], sequence)
  }

  /** As long as the trace spans at most half a ring, the verdicts count arrivals of sequence numbers. */
  lemma {:induction false} WindowVerdictsCountArrivals(inputs: seq<Input>, i: nat, k: nat)
    requires FinalizedBy(Unwrapped(None, inputs), i, k) && |TakeAll(EMPTY, inputs).slots| <= TWO_31
    ensures
      var n := TakeAll(EMPTY, inputs);
      i < |n.done| && CountsArrivals(n.History()[i], inputs, Wrap(n.first + i), k)
  {
    hide Run, Unwrapped, TakeAll, JustVerdict, CountsArrivals, Wrap;
    WindowFollowsPositions(EMPTY, inputs);
    WindowVerdictsAreJust(inputs, i, k);
    JustVerdictCounts(inputs, Run(EMPTY, Unwrapped(None, inputs)), i, k);
  }

  lemma {:induction false} JustVerdictCounts(inputs: seq<Input>, n: Naive, i: nat, k: nat)
    requires n == Run(EMPTY, Unwrapped(None, inputs)) && i < |n.done| && |n.slots| <= TWO_31 && k < |inputs|
    requires JustVerdict(n.History()[i], Unwrapped(None, inputs), n.first + i, k)
    ensures CountsArrivals(n.History()[i], inputs, Wrap(n.first + i), k)
  {
    hide Run, Unwrapped, OpenedAt, SequenceArrives, Arrives, Wrap, Naive.History, Naive.Pending;
    var es := Unwrapped(None, inputs);
    ArrivesMeansSequence(inputs, k, n.first + i);
    assert n.History()[i].missing <==> !Arrives(es[..k], n.first + i);
  }

  // ----- what a reader is told

  /** The verdicts from number `cut` on that fall into the window, or the missing ones among them. */
  ghost function InWindowFrom(h: seq<Final>, cut: nat, now: nat, onlyMissing: bool): set<nat> {
    set i: nat | cut <= i < |h| && h[i].at <= now && now - h[i].at <= WINDOW && (onlyMissing ==> h[i].missing)
  }

  /** The places where a verdict time differs from the one before. */
  ghost function Changes(h: seq<Final>, cut: nat): set<nat> { set i: nat | cut < i < |h| && TimeChanges(h, i) }

  predicate TimeChanges(h: seq<Final>, i: nat)
    requires 0 < i < |h|
  {
    h[i].at != h[i - 1].at
  }

  /** From verdict number `cut` on there are `budget` runs of equal times; or fewer, and nothing before. */
  ghost predicate NewestRuns(h: seq<Final>, cut: nat, budget: nat) {
    && cut <= |h|
    && (cut < |h| ==> |Changes(h, cut)| < budget)
    && (0 < cut < |h| ==> |Changes(h, cut)| + 1 == budget && h[cut - 1].at != h[cut].at)
    && (0 < cut == |h| ==> budget == 0)
  }

  /** The totals are the numbers of verdicts in the window, among those of the newest `budget` verdict times. */
  lemma {:induction false} WindowCountCounts(h: seq<Final>, now: nat, budget: nat) returns (cut: nat)
    ensures NewestRuns(h, cut, budget)
    ensures
      WindowCount(h, now, budget) ==
      Counts(|InWindowFrom(h, cut, now, false)|, |InWindowFrom(h, cut, now, true)|)
  {
    if h == [] || budget == 0 {
      cut := |h|;
      assert InWindowFrom(h, cut, now, false) == {} == InWindowFrom(h, cut, now, true);
    } else {
      var older, x, last := h[..|h| - 1], h[|h| - 1], |h| - 1;
      var sameTime := older != [] && older[|older| - 1].at == x.at;
      cut := WindowCountCounts(older, now, if sameTime then budget else budget - 1);
      InWindowSnoc(older, x, cut, now, false);
      InWindowSnoc(older, x, cut, now, true);
      assert h == older + [x];
      ChangesSnoc(older, x, cut);
      hide Changes, InWindowFrom, InWindow, WindowCount;
    }
  }

  lemma InWindowSnoc(h: seq<Final>, x: Final, cut: nat, now: nat, onlyMissing: bool)
    requires cut <= |h|
    ensures
      |InWindowFrom(h + [x], cut, now, onlyMissing)| ==
      |InWindowFrom(h, cut, now, onlyMissing)| + if InWindow(x.at, now) && (onlyMissing ==> x.missing) then 1 else 0
  {
    var more := if InWindow(x.at, now) && (onlyMissing ==> x.missing) then {|h| as nat} else {};
    assert InWindowFrom(h + [x], cut, now, onlyMissing) == InWindowFrom(h, cut, now, onlyMissing) + more;
  }

  lemma ChangesSnoc(h: seq<Final>, x: Final, cut: nat)
    requires cut <= |h|
    ensures
      |Changes(h + [x], cut)| == |Changes(h, cut)| + if cut < |h| && h[|h| - 1].at != x.at then 1 else 0
    ensures cut == |h| ==> Changes(h + [x], cut) == {}
  {
    var more := if cut < |h| && h[|h| - 1].at != x.at then {|h| as nat} else {};
    assert forall i: nat :: 0 < i < |h| ==> TimeChanges(h + [x], i) == TimeChanges(h, i);
    assert Changes(h + [x], cut) == Changes(h, cut) + more;
  }
}
