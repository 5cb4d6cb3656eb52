/**
 The reference model of packet loss: one slot per unwrapped sequence position, kept for ever.
 Positions are finalized strictly one at a time, in order; nothing is counted in bulk, merged,
 capped or wrapped.  Module PacketLoss proves that the windowed implementation agrees with it.
 */
module NaiveLoss {
  import opened Prelude

  /** Clock values are nanoseconds. */
  const GRACE: nat := 100_000_000
  const WINDOW: nat := 5_000_000_000
  const CAPACITY: nat := 4096

  datatype Slot = Slot(received: bool, observedAt: nat)

  /** The verdict on one position: when it was reached and whether the packet was missing. */
  datatype Final = Final(at: nat, missing: bool)

  datatype Counts = Counts(expected: nat, missing: nat) {
    /** More verdicts at time `at`, if that time is in the window. */
    function Add(at: nat, now: nat, expected: nat, missing: nat): Counts {
      if InWindow(at, now) then Counts(this.expected + expected, this.missing + missing) else this
    }
  }

  predicate InWindow(at: nat, now: nat) { at <= now <= at + WINDOW }

  /** Position `first + i` is described by `slots[i]` and was finalized at `done[i]`, if it was. */
  datatype Naive = Naive(first: int, slots: seq<Slot>, done: seq<nat>) {

    ghost predicate Valid() { |done| <= |slots| }

    function Highest(): int { first + |slots| - 1 }

    function Pending(): seq<Slot>
      requires Valid()
    {
      slots[|done|..]
    }

    /** Every verdict reached so far, oldest position first. */
    function History(): (h: seq<Final>)
      requires Valid()
      ensures |h| == |done|
    {
      seq(|done|, i requires 0 <= i < |done| => Final(done[i], !slots[i].received))
    }

    function FinalizeOldest(at: nat): (n: Naive)
      requires Valid() && |done| < |slots|
      ensures n.Valid() && n.first == first && n.slots == slots
      ensures n.History() == History() + [Final(at, !Pending()[0].received)]
    {
      this.(done := done + [at])
    }

    predicate OldestIsDue(now: nat)
      requires Valid()
    {
      |done| < |slots| && Pending()[0].observedAt + GRACE <= now
    }

    /** Finalize, one by one, every position whose reorder grace is over. */
    function FinalizeDue(now: nat): (n: Naive)
      requires Valid()
      ensures n.Valid() && n.first == first && n.slots == slots && done <= n.done
      decreases |slots| - |done|
    {
      if OldestIsDue(now) then
        FinalizeOldest(Pending()[0].observedAt + GRACE).FinalizeDue(now)
      else
        this
    }

    /** Open one more position; if that is one too many, the oldest is finalized on the spot. */
    function AppendOne(received: bool, now: nat): (n: Naive)
      requires Valid()
      ensures n.Valid() && n.first == first && done <= n.done
    {
      var n := this.(slots := slots + [Slot(received, now)]);
      if |n.Pending()| > CAPACITY then n.FinalizeOldest(now) else n
    }

    /** Open `count` positions nobody has seen a packet for. */
    function AppendGap(count: nat, now: nat): (n: Naive)
      requires Valid()
      ensures n.Valid() && n.first == first && done <= n.done
    {
      if count == 0 then this else AppendGap(count - 1, now).AppendOne(false, now)
    }

    /** Record a packet that is not ahead of the highest one; it counts only while still pending. */
    function MarkReceived(position: int): (n: Naive)
      requires Valid() && position <= Highest()
      ensures n.Valid() && n.first == first && n.done == done
    {
      var i := position - first;
      if |done| <= i then this.(slots := slots[i := slots[i].(received := true)]) else this
    }

    function Place(position: int, now: nat): (n: Naive)
      requires Valid()
      ensures n.Valid() && done <= n.done
    {
      if slots == [] then
        Naive(position, [Slot(true, now)], [])
      else if position > Highest() then
        AppendGap(position - Highest() - 1, now).AppendOne(true, now)
      else
        MarkReceived(position)
    }

    /** A packet at `position` arrives. */
    function Observe(position: int, now: nat): (n: Naive)
      requires Valid()
      ensures n.Valid() && done <= n.done
    {
      FinalizeDue(now).Place(position, now)
    }

    /** The window totals a reader sees at `now`. */
    function Read(now: nat): Counts
      requires Valid()
    {
      WindowCount(FinalizeDue(now).History(), now, CAPACITY)
    }
  }

  const EMPTY: Naive := Naive(0, [], [])

  /**
   Walk back from the newest verdict until `budget` distinct verdict times have been passed, and
   count the positions whose verdict lies in the window, one by one.
   */
  function WindowCount(h: seq<Final>, now: nat, budget: nat): (c: Counts)
    ensures c.missing <= c.expected <= |h|
  {
    if h == [] || budget == 0 then Counts(0, 0)
    else
      var x, older := h[|h| - 1], h[..|h| - 1];
      var sameTime := older != [] && older[|older| - 1].at == x.at;
      WindowCount(older, now, if sameTime then budget else budget - 1).Add(x.at, now, 1, if x.missing then 1 else 0)
  }

  // ----- whole traces

  datatype Event = Observed(position: int, now: nat) | WasRead(now: nat)

  function Step(n: Naive, e: Event): (n': Naive)
    requires n.Valid()
    ensures n'.Valid() && n.done <= n'.done
  {
    match e
    case Observed(position, now) => n.Observe(position, now)
    case WasRead(now) => n.FinalizeDue(now)
  }

  function Run(n: Naive, es: seq<Event>): (n': Naive)
    requires n.Valid()
    ensures n'.Valid()
    decreases |es|
  {
    if es == [] then n else Run(Step(n, es[0]), es[1..])
  }

  /** What each event of the trace returns: window totals for a read, nothing for a packet. */
  function Outputs(n: Naive, es: seq<Event>): (out: seq<Option<Counts>>)
    requires n.Valid()
    ensures |out| == |es|
    decreases |es|
  {
    if es == [] then []
    else
      [if es[0].WasRead? then Some(n.Read(es[0].now)) else None] + Outputs(Step(n, es[0]), es[1..])
  }

  ghost predicate NondecreasingFrom(es: seq<Event>, t: nat) {
    es == [] || (t <= es[0].now && NondecreasingFrom(es[1..], es[0].now))
  }

  // ----- reads are transparent

  /** Finalizing twice is finalizing once, at the later time. */
  lemma {:induction false} FinalizeDueAbsorbs(n: Naive, t1: nat, t2: nat)
    requires n.Valid() && t1 <= t2
    ensures n.FinalizeDue(t1).FinalizeDue(t2) == n.FinalizeDue(t2)
    decreases |n.slots| - |n.done|
  {
    if n.OldestIsDue(t1) {
      FinalizeDueAbsorbs(n.FinalizeOldest(n.Pending()[0].observedAt + GRACE), t1, t2);
    }
  }

  /** Two states that no event at or after `t` can tell apart. */
  ghost predicate SameFrom(n: Naive, m: Naive, t: nat) {
    n.Valid() && m.Valid() && n.FinalizeDue(t) == m.FinalizeDue(t)
  }

  lemma SameLater(n: Naive, m: Naive, t: nat, t': nat)
    requires SameFrom(n, m, t) && t <= t'
    ensures SameFrom(n, m, t')
  {
    FinalizeDueAbsorbs(n, t, t');
    FinalizeDueAbsorbs(m, t, t');
  }

  /** The elements of `s` whose flag is up. */
  function Keep<T>(s: seq<T>, flags: seq<bool>): seq<T>
    requires |s| == |flags|
  {
    if s == [] then [] else (if flags[0] then [s[0]] else []) + Keep(s[1..], flags[1..])
  }

  ghost predicate DropsOnlyReads(es: seq<Event>, flags: seq<bool>) {
    |es| == |flags| && forall i :: 0 <= i < |es| && es[i].Observed? ==> flags[i]
  }

  /** Deleting any set of reads from a trace changes no answer of a remaining read. */
  lemma {:induction false} ReadsAreTransparent(n: Naive, m: Naive, es: seq<Event>, flags: seq<bool>, t: nat)
    requires DropsOnlyReads(es, flags) && NondecreasingFrom(es, t) && SameFrom(n, m, t)
    ensures Outputs(m, Keep(es, flags)) == Keep(Outputs(n, es), flags)
    decreases |es|
  {
    if es != [] {
      var e := es[0];
      SameLater(n, m, t, e.now);
      var kept, out := Keep(es[1..], flags[1..]), Outputs(n, es);
      assert out[1..] == Outputs(Step(n, e), es[1..]);
      if flags[0] {
        assert Keep(es, flags) == [e] + kept;
        assert ([e] + kept)[1..] == kept;
        ReadsAreTransparent(Step(n, e), Step(m, e), es[1..], flags[1..], e.now);
        assert Outputs(m, [e] + kept) == [out[0]] + Outputs(Step(m, e), kept);
      } else {
        FinalizeDueAbsorbs(n, e.now, e.now);
        ReadsAreTransparent(Step(n, e), m, es[1..], flags[1..], e.now);
        assert Keep(es, flags) == kept;
        assert Keep(out, flags) == Keep(out[1..], flags[1..]);
      }
    } else {
      assert Outputs(m, []) == [];
    }
  }

  // ----- conservation, immutability and order of verdicts

  /** The unwrapped highest position of a trace: the largest one any packet carried. */
  function HighestOf(es: seq<Event>): Option<int> {
    if es == [] then None
    else
      var h := HighestOf(es[..|es| - 1]);
      match es[|es| - 1]
      case WasRead(_) => h
      case Observed(p, _) => if h.None? || p > h.value then Some(p) else h
  }

  function FirstOf(es: seq<Event>): Option<int> {
    if es == [] then None
    else if es[0].Observed? then Some(es[0].position)
    else FirstOf(es[1..])
  }

  lemma {:induction false} RunSnoc(n: Naive, es: seq<Event>, e: Event)
    requires n.Valid()
    ensures Run(n, es + [e]) == Step(Run(n, es), e)
    decreases |es|
  {
    if es == [] {
      assert [e][1..] == [];
      assert Run(Step(n, e), []) == Step(n, e);
      assert ([] + [e]) == [e];
    } else {
      assert (es + [e])[1..] == es[1..] + [e];
      RunSnoc(Step(n, es[0]), es[1..], e);
    }
  }

  lemma {:induction false} FirstOfSnoc(es: seq<Event>, e: Event)
    ensures FirstOf(es + [e]) == if FirstOf(es).Some? then FirstOf(es) else FirstOf([e])
    decreases |es|
  {
    if es == [] {
      assert [] + [e] == [e];
    } else {
      assert (es + [e])[1..] == es[1..] + [e];
      FirstOfSnoc(es[1..], e);
    }
  }

  lemma {:induction false} GapOpensEveryPosition(n: Naive, count: nat, now: nat)
    requires n.Valid()
    ensures n.AppendGap(count, now).slots == n.slots + Repeat(Slot(false, now), count)
  {
    if count > 0 {
      hide Naive.AppendGap, Naive.AppendOne, Repeat;
      GapOpensEveryPosition(n, count - 1, now);
      GapStep(n, count, now);
      AppendOneOpens(n.AppendGap(count - 1, now), false, now);
      RepeatSnoc(Slot(false, now), count);
      JoinSnoc(n.slots, Repeat(Slot(false, now), count - 1), Slot(false, now));
    } else {
      assert n.slots + Repeat(Slot(false, now), 0) == n.slots;
    }
  }

  lemma JoinSnoc<T>(a: seq<T>, b: seq<T>, x: T)
    ensures a + b + [x] == a + (b + [x])
  {
  }

  lemma GapStep(n: Naive, count: nat, now: nat)
    requires n.Valid() && count > 0
    ensures n.AppendGap(count, now) == n.AppendGap(count - 1, now).AppendOne(false, now)
  {
  }

  lemma AppendOneOpens(n: Naive, received: bool, now: nat)
    requires n.Valid()
    ensures n.AppendOne(received, now).slots == n.slots + [Slot(received, now)]
  {
    hide Naive.History;
  }

  lemma StepHighest(n: Naive, e: Event)
    requires n.Valid()
    ensures e.WasRead? ==> Step(n, e).slots == n.slots && Step(n, e).first == n.first
    ensures e.Observed? && n.slots == [] ==>
      Step(n, e).slots != [] && Step(n, e).first == Step(n, e).Highest() == e.position
    ensures e.Observed? && n.slots != [] ==>
      Step(n, e).slots != [] && Step(n, e).first == n.first &&
      Step(n, e).Highest() == if e.position > n.Highest() then e.position else n.Highest()
  {
    if e.Observed? && n.slots != [] && e.position > n.Highest() {
      GapOpensEveryPosition(n.FinalizeDue(e.now), e.position - n.Highest() - 1, e.now);
    }
  }

  /**
   Conservation: after any trace, the verdicts ever reached plus the positions still pending are
   exactly the positions from the first packet of the trace to the highest one.
   */
  lemma {:induction false} Conservation(es: seq<Event>)
    ensures
      var n := Run(EMPTY, es);
      if HighestOf(es).None? then FirstOf(es).None? && n.slots == []
      else
        && n.slots != [] && FirstOf(es) == Some(n.first) && HighestOf(es) == Some(n.Highest())
        && |n.History()| + |n.Pending()| == n.Highest() - n.first + 1
    decreases |es|
  {
    if es != [] {
      var front, e := es[..|es| - 1], es[|es| - 1];
      assert es == front + [e];
      Conservation(front);
      RunSnoc(EMPTY, front, e);
      FirstOfSnoc(front, e);
      StepHighest(Run(EMPTY, front), e);
    }
  }

  /** A verdict is never revised: not by a late packet, a gap, an eviction or a read. */
  lemma {:induction false} VerdictsAreImmutable(n: Naive, es: seq<Event>)
    requires n.Valid()
    ensures n.History() <= Run(n, es).History()
    decreases |es|
  {
    if es != [] {
      StepKeepsVerdicts(n, es[0]);
      VerdictsAreImmutable(Step(n, es[0]), es[1..]);
    }
  }

  lemma StepKeepsVerdicts(n: Naive, e: Event)
    requires n.Valid()
    ensures n.History() <= Step(n, e).History()
  {
    if e.Observed? {
      var m := n.FinalizeDue(e.now);
      assert n.History() <= m.History();
      PlaceKeepsVerdicts(m, e.position, e.now);
    }
  }

  lemma PlaceKeepsVerdicts(n: Naive, position: int, now: nat)
    requires n.Valid()
    ensures n.History() <= n.Place(position, now).History()
  {
    var m := n.Place(position, now);
    if n.slots != [] && position > n.Highest() {
      GapOpensEveryPosition(n, position - n.Highest() - 1, now);
    }
    forall i | 0 <= i < |n.done| ensures m.done[i] == n.done[i] && m.slots[i] == n.slots[i] {
    }
  }

  /** Pending positions were observed in order, no later than `now` and no earlier than the last verdict allows. */
  ghost predicate Timely(n: Naive, now: nat)
  {
    && n.Valid()
    && (forall i, j :: 0 <= i < j < |n.done| ==> n.done[i] <= n.done[j])
    && (forall i, j :: |n.done| <= i < j < |n.slots| ==> n.slots[i].observedAt <= n.slots[j].observedAt)
    && (forall i :: |n.done| <= i < |n.slots| ==> n.slots[i].observedAt <= now)
    && (forall i :: 0 <= i < |n.done| ==> n.done[i] <= now)
    && (forall i, j :: 0 <= i < |n.done| && |n.done| <= j < |n.slots| ==> n.done[i] <= n.slots[j].observedAt + GRACE)
  }

  lemma {:induction false} FinalizeDueIsTimely(n: Naive, now: nat)
    requires Timely(n, now)
    ensures Timely(n.FinalizeDue(now), now) && !n.FinalizeDue(now).OldestIsDue(now)
    decreases |n.slots| - |n.done|
  {
    if n.OldestIsDue(now) {
      FinalizeDueIsTimely(n.FinalizeOldest(n.Pending()[0].observedAt + GRACE), now);
    }
  }

  lemma {:induction false} AppendGapIsTimely(n: Naive, count: nat, now: nat)
    requires Timely(n, now)
    requires !n.OldestIsDue(now)
    ensures Timely(n.AppendGap(count, now), now) && !n.AppendGap(count, now).OldestIsDue(now)
  {
    if count > 0 {
      AppendGapIsTimely(n, count - 1, now);
      AppendOneIsTimely(n.AppendGap(count - 1, now), false, now);
    }
  }

  lemma AppendOneIsTimely(n: Naive, received: bool, now: nat)
    requires Timely(n, now)
    requires !n.OldestIsDue(now)
    ensures Timely(n.AppendOne(received, now), now) && !n.AppendOne(received, now).OldestIsDue(now)
  {
    hide Timely, Naive.OldestIsDue, Naive.FinalizeOldest, Naive.History;
    var m := n.(slots := n.slots + [Slot(received, now)]);
    OpenedIsTimely(n, received, now);
    if |m.Pending()| > CAPACITY {
      FinalizedEarlyIsTimely(m, now);
    }
  }

  lemma OpenedIsTimely(n: Naive, received: bool, now: nat)
    requires Timely(n, now) && !n.OldestIsDue(now)
    ensures
      var m := n.(slots := n.slots + [Slot(received, now)]);
      Timely(m, now) && !m.OldestIsDue(now) && |m.done| < |m.slots|
  {
    var m := n.(slots := n.slots + [Slot(received, now)]);
    if |n.done| < |n.slots| {
      assert m.Pending()[0] == n.Pending()[0];
    } else {
      assert m.Pending()[0] == Slot(received, now);
    }
  }

  /** Finalizing the oldest position before its time keeps the rest in order. */
  lemma FinalizedEarlyIsTimely(n: Naive, now: nat)
    requires Timely(n, now) && !n.OldestIsDue(now) && |n.done| < |n.slots|
    ensures Timely(n.FinalizeOldest(now), now) && !n.FinalizeOldest(now).OldestIsDue(now)
  {
    hide Naive.History;
    var oldest := n.Pending()[0];
    forall j | |n.done| <= j < |n.slots| ensures now < n.slots[j].observedAt + GRACE {
      assert oldest == n.slots[|n.done|] && oldest.observedAt <= n.slots[j].observedAt;
    }
  }

  lemma MarkReceivedIsTimely(n: Naive, position: int, now: nat)
    requires Timely(n, now) && position <= n.Highest()
    ensures Timely(n.MarkReceived(position), now)
  {
    var m := n.MarkReceived(position);
    assert |m.slots| == |n.slots|;
    assert forall i :: 0 <= i < |n.slots| ==> m.slots[i].observedAt == n.slots[i].observedAt;
  }

  lemma StepIsTimely(n: Naive, e: Event)
    requires Timely(n, e.now)
    ensures Timely(Step(n, e), e.now)
  {
    FinalizeDueIsTimely(n, e.now);
    if e.Observed? {
      PlaceIsTimely(n.FinalizeDue(e.now), e.position, e.now);
    }
  }

  lemma PlaceIsTimely(n: Naive, position: int, now: nat)
    requires Timely(n, now) && !n.OldestIsDue(now)
    ensures Timely(n.Place(position, now), now)
  {
    hide Naive.AppendGap, Naive.AppendOne, Naive.MarkReceived;
    if n.slots == [] {
      assert Timely(Naive(position, [Slot(true, now)], []), now);
    }
    if n.slots != [] {
      if position > n.Highest() {
        var gap := position - n.Highest() - 1;
        AppendGapIsTimely(n, gap, now);
        AppendOneIsTimely(n.AppendGap(gap, now), true, now);
      } else {
        MarkReceivedIsTimely(n, position, now);
      }
    }
  }

  lemma TimelyLater(n: Naive, t: nat, t': nat)
    requires Timely(n, t) && t <= t'
    ensures Timely(n, t')
  {
  }

  ghost predicate InTimeOrder(h: seq<Final>) {
    forall i, j :: 0 <= i < j < |h| ==> h[i].at <= h[j].at
  }

  /** With a clock that never runs backwards, verdicts are reached in time order. */
  lemma {:induction false} VerdictsAreInTimeOrder(n: Naive, es: seq<Event>, t: nat)
    requires Timely(n, t) && NondecreasingFrom(es, t)
    ensures InTimeOrder(Run(n, es).History())
    decreases |es|
  {
    if es == [] {
      assert Run(n, es) == n;
    } else {
      TimelyLater(n, t, es[0].now);
      StepIsTimely(n, es[0]);
      VerdictsAreInTimeOrder(Step(n, es[0]), es[1..], es[0].now);
      assert Run(n, es) == Run(Step(n, es[0]), es[1..]);
    }
  }
}
