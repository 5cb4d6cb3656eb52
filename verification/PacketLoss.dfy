/**
 The sliding packet-loss window over wrapping sequence numbers: a deque of pending positions, a
 capped log of merged verdicts with saturating counters, and arithmetic eviction of huge gaps.
 Every operation is proved to agree with the position-by-position model of module NaiveLoss.
 */
module PacketLoss {
  import opened Prelude
  import opened SerialNumbers
  import opened NaiveLoss

  type u64 = x: int | 0 <= x <= U64_MAX

  lemma SatOfSum(a: nat, b: nat)
    ensures Sat(Sat(a) + b) == Sat(a + b) == Sat(Sat(a) + Sat(b))
  {
  }

  function SaturatingAdd(a: u64, b: u64): u64 { Sat(a + b) }

  function Sat(n: nat): u64 { if n > U64_MAX then U64_MAX else n }

  datatype Entry = Entry(at: nat, expected: u64, missing: u64)

  // ----- the log as a function of the verdicts

  /** The log after `expected` more verdicts at time `at`, `missing` of them for missing packets. */
  function Record(log: seq<Entry>, at: nat, expected: u64, missing: u64): seq<Entry> {
    if expected == 0 then log
    else if log != [] && log[|log| - 1].at == at then
      var last := log[|log| - 1];
      log[|log| - 1 := Entry(at, SaturatingAdd(last.expected, expected), SaturatingAdd(last.missing, missing))]
    else
      LastN(log, CAPACITY - 1) + [Entry(at, expected, missing)]
  }

  function Flag(missing: bool): u64 { if missing then 1 else 0 }

  /** The log that records every verdict separately. */
  function Log(h: seq<Final>): (log: seq<Entry>)
    ensures |log| <= CAPACITY
    ensures h != [] ==> log != [] && log[|log| - 1].at == h[|h| - 1].at
    ensures h == [] ==> log == []
  {
    if h == [] then []
    else
      var x := h[|h| - 1];
      Record(Log(h[..|h| - 1]), x.at, 1, Flag(x.missing))
  }

  function CountMissing(slots: seq<Slot>): (n: nat)
    ensures n <= |slots|
  {
    if slots == [] then 0
    else CountMissing(slots[..|slots| - 1]) + if slots[|slots| - 1].received then 0 else 1
  }

  /** The verdicts on `slots` when all of them are finalized at `at`. */
  function Verdicts(slots: seq<Slot>, at: nat): (h: seq<Final>)
    ensures |h| == |slots|
  {
    seq(|slots|, i requires 0 <= i < |slots| => Final(at, !slots[i].received))
  }

  lemma VerdictsSnoc(slots: seq<Slot>, last: Slot, at: nat)
    ensures Verdicts(slots + [last], at) == Verdicts(slots, at) + [Final(at, !last.received)]
  {
  }

  lemma LogSnoc(h: seq<Final>, x: Final)
    ensures Log(h + [x]) == Record(Log(h), x.at, 1, Flag(x.missing))
  {
    assert (h + [x])[..|h|] == h;
  }

  lemma RecordMore(log: seq<Entry>, at: nat, expected: u64, missing: u64, flag: u64)
    requires expected < U64_MAX && missing <= expected && flag <= 1
    ensures Record(Record(log, at, expected, missing), at, 1, flag) == Record(log, at, expected + 1, missing + flag)
  {
  }

  lemma CountMissingSnoc(slots: seq<Slot>, last: Slot)
    ensures CountMissing(slots + [last]) == CountMissing(slots) + Flag(!last.received)
  {
    assert (slots + [last])[..|slots|] == slots;
  }

  /** Recording a batch of verdicts in one arithmetic step is recording them one by one. */
  lemma {:induction false} BulkRecordIsOneByOne(h: seq<Final>, slots: seq<Slot>, at: nat)
    requires |slots| <= U64_MAX
    ensures Log(h + Verdicts(slots, at)) == Record(Log(h), at, |slots|, CountMissing(slots))
  {
    hide Log, Verdicts;
    if slots == [] {
      assert h + Verdicts(slots, at) == h;
    } else {
      var front, last := slots[..|slots| - 1], slots[|slots| - 1];
      assert slots == front + [last];
      BulkRecordIsOneByOne(h, front, at);
      BulkRecordOneMore(h, front, last, at);
    }
  }

  lemma BulkRecordOneMore(h: seq<Final>, slots: seq<Slot>, last: Slot, at: nat)
    requires |slots| + 1 <= U64_MAX
    requires Log(h + Verdicts(slots, at)) == Record(Log(h), at, |slots|, CountMissing(slots))
    ensures
      Log(h + Verdicts(slots + [last], at)) == Record(Log(h), at, |slots + [last]|, CountMissing(slots + [last]))
  {
    hide Log, Record, Verdicts, CountMissing;
    var x, n, missing := Final(at, !last.received), |slots|, CountMissing(slots);
    VerdictsSnoc(slots, last, at);
    assert h + Verdicts(slots + [last], at) == (h + Verdicts(slots, at)) + [x];
    LogSnoc(h + Verdicts(slots, at), x);
    RecordMore(Log(h), at, n, missing, Flag(x.missing));
    CountMissingSnoc(slots, last);
    assert |slots + [last]| == n + 1;
  }

  // ----- what the log means

  /** An entry of a log that is merged but neither capped nor saturated. */
  datatype Merge = Merge(at: nat, expected: nat, missing: nat)

  function MergeIn(ms: seq<Merge>, at: nat, flag: nat): (ms': seq<Merge>)
    ensures ms' != [] && ms'[|ms'| - 1].at == at
  {
    if ms != [] && ms[|ms| - 1].at == at then
      var last := ms[|ms| - 1];
      ms[..|ms| - 1] + [Merge(at, last.expected + 1, last.missing + flag)]
    else
      ms + [Merge(at, 1, flag)]
  }

  function Merged(h: seq<Final>): (ms: seq<Merge>)
    ensures if h == [] then ms == [] else ms != [] && ms[|ms| - 1].at == h[|h| - 1].at
  {
    if h == [] then []
    else
      var x := h[|h| - 1];
      MergeIn(Merged(h[..|h| - 1]), x.at, Flag(x.missing))
  }

  function Saturated(ms: seq<Merge>): (log: seq<Entry>)
    ensures |log| == |ms|
  {
    seq(|ms|, i requires 0 <= i < |ms| => Entry(ms[i].at, Sat(ms[i].expected), Sat(ms[i].missing)))
  }

  lemma SaturatedSnoc(ms: seq<Merge>, m: Merge)
    ensures Saturated(ms + [m]) == Saturated(ms) + [Entry(m.at, Sat(m.expected), Sat(m.missing))]
  {
  }

  lemma SaturatedLastN(ms: seq<Merge>)
    ensures LastN(Saturated(LastN(ms, CAPACITY)), CAPACITY - 1) == Saturated(LastN(ms, CAPACITY - 1))
  {
  }

  lemma RecordSameTime(front: seq<Entry>, last: Entry, flag: u64)
    ensures
      Record(front + [last], last.at, 1, flag) ==
      front + [Entry(last.at, SaturatingAdd(last.expected, 1), SaturatingAdd(last.missing, flag))]
  {
  }

  lemma RecordNewTime(log: seq<Entry>, at: nat, flag: u64)
    requires log != [] ==> log[|log| - 1].at != at
    ensures Record(log, at, 1, flag) == LastN(log, CAPACITY - 1) + [Entry(at, 1, flag)]
  {
  }

  lemma RecordMirrorsMergeIn(ms: seq<Merge>, at: nat, flag: u64)
    requires flag <= 1
    ensures Record(Saturated(LastN(ms, CAPACITY)), at, 1, flag) == Saturated(LastN(MergeIn(ms, at, flag), CAPACITY))
  {
    hide LastN, Sat, Saturated, Record;
    if ms != [] && ms[|ms| - 1].at == at {
      MirrorSameTime(ms[..|ms| - 1], ms[|ms| - 1], flag);
      assert ms == ms[..|ms| - 1] + [ms[|ms| - 1]];
    } else {
      MirrorNewTime(ms, at, flag);
    }
  }

  lemma MirrorSameTime(front: seq<Merge>, last: Merge, flag: u64)
    requires flag <= 1
    ensures
      Record(Saturated(LastN(front + [last], CAPACITY)), last.at, 1, flag) ==
      Saturated(LastN(front + [Merge(last.at, last.expected + 1, last.missing + flag)], CAPACITY))
  {
    hide LastN, Sat, Saturated, Record;
    var last' := Merge(last.at, last.expected + 1, last.missing + flag);
    SatOfSum(last.expected, 1);
    SatOfSum(last.missing, flag);
    LastNSnoc(front, last, CAPACITY);
    LastNSnoc(front, last', CAPACITY);
    SaturatedSnoc(LastN(front, CAPACITY - 1), last);
    SaturatedSnoc(LastN(front, CAPACITY - 1), last');
    RecordSameTime(Saturated(LastN(front, CAPACITY - 1)), Entry(last.at, Sat(last.expected), Sat(last.missing)), flag);
  }

  lemma MirrorNewTime(ms: seq<Merge>, at: nat, flag: u64)
    requires flag <= 1 && (ms != [] ==> ms[|ms| - 1].at != at)
    ensures
      Record(Saturated(LastN(ms, CAPACITY)), at, 1, flag) == Saturated(LastN(ms + [Merge(at, 1, flag)], CAPACITY))
  {
    hide LastN, Saturated, Record;
    NewestIsNewest(ms);
    SatOfSmall(flag);
    LastNSnoc(ms, Merge(at, 1, flag), CAPACITY);
    SaturatedSnoc(LastN(ms, CAPACITY - 1), Merge(at, 1, flag));
    SaturatedLastN(ms);
    RecordNewTime(Saturated(LastN(ms, CAPACITY)), at, flag);
  }

  lemma SatOfSmall(flag: u64)
    requires flag <= 1
    ensures Sat(1) == 1 && Sat(flag) == flag
  {
  }

  /** The newest entry of the saturated log stands for the newest of the merged one. */
  lemma NewestIsNewest(ms: seq<Merge>)
    ensures
      var log := Saturated(LastN(ms, CAPACITY));
      (log == [] <==> ms == []) && (log != [] ==> log[|log| - 1].at == ms[|ms| - 1].at)
  {
  }

  lemma {:induction false} LogIsNewestMerged(h: seq<Final>)
    ensures Log(h) == Saturated(LastN(Merged(h), CAPACITY))
  {
    if h != [] {
      var older, x := h[..|h| - 1], h[|h| - 1];
      LogIsNewestMerged(older);
      RecordMirrorsMergeIn(Merged(older), x.at, Flag(x.missing));
    }
  }

  function SumExact(ms: seq<Merge>, now: nat): Counts {
    if ms == [] then Counts(0, 0)
    else
      var m := ms[|ms| - 1];
      SumExact(ms[..|ms| - 1], now).Add(m.at, now, m.expected, m.missing)
  }

  /** The saturating sum of the log entries inside the window. */
  function SumWindow(log: seq<Entry>, now: nat): (u64, u64) {
    if log == [] then (0, 0)
    else
      var c, e := SumWindow(log[..|log| - 1], now), log[|log| - 1];
      if InWindow(e.at, now) then (SaturatingAdd(c.0, e.expected), SaturatingAdd(c.1, e.missing)) else c
  }

  lemma SumExactSnoc(ms: seq<Merge>, m: Merge, now: nat)
    ensures SumExact(ms + [m], now) == SumExact(ms, now).Add(m.at, now, m.expected, m.missing)
  {
    assert (ms + [m])[..|ms|] == ms;
  }

  lemma SumWindowSnoc(log: seq<Entry>, e: Entry, now: nat)
    ensures
      var c := SumWindow(log, now);
      SumWindow(log + [e], now) ==
      if InWindow(e.at, now) then (SaturatingAdd(c.0, e.expected), SaturatingAdd(c.1, e.missing)) else c
  {
    assert (log + [e])[..|log|] == log;
  }

  lemma {:induction false} SumWindowSaturates(ms: seq<Merge>, now: nat)
    ensures SumWindow(Saturated(ms), now).0 == Sat(SumExact(ms, now).expected)
    ensures SumWindow(Saturated(ms), now).1 == Sat(SumExact(ms, now).missing)
  {
    if ms == [] {
      assert Saturated(ms) == [];
    } else {
      var front, m := ms[..|ms| - 1], ms[|ms| - 1];
      SumWindowSaturates(front, now);
      SumWindowSaturatesStep(front, m, now);
      assert ms == front + [m];
    }
  }

  lemma SumWindowSaturatesStep(ms: seq<Merge>, m: Merge, now: nat)
    requires SumWindow(Saturated(ms), now).0 == Sat(SumExact(ms, now).expected)
    requires SumWindow(Saturated(ms), now).1 == Sat(SumExact(ms, now).missing)
    ensures SumWindow(Saturated(ms + [m]), now).0 == Sat(SumExact(ms + [m], now).expected)
    ensures SumWindow(Saturated(ms + [m]), now).1 == Sat(SumExact(ms + [m], now).missing)
  {
    hide Sat, Saturated, SumWindow, SumExact;
    SaturatedSnoc(ms, m);
    SumWindowSnoc(Saturated(ms), Entry(m.at, Sat(m.expected), Sat(m.missing)), now);
    SumExactSnoc(ms, m, now);
    SatOfSum(SumExact(ms, now).expected, m.expected);
    SatOfSum(SumExact(ms, now).missing, m.missing);
  }

  lemma {:induction false} SumExactCountsPositions(h: seq<Final>, now: nat, k: nat)
    ensures SumExact(LastN(Merged(h), k), now) == WindowCount(h, now, k)
  {
    hide LastN, SumExact;
    if h == [] || k == 0 {
      assert LastN(Merged(h), k) == [] by { LastNOfNothing(Merged(h), k); }
      assert SumExact([], now) == Counts(0, 0) by { SumExactOfNothing(now); }
    } else {
      var x, older := h[|h| - 1], h[..|h| - 1];
      var sameTime := older != [] && older[|older| - 1].at == x.at;
      SumExactCountsPositions(older, now, if sameTime then k else k - 1);
      SumExactMerges(Merged(older), x.at, Flag(x.missing), now, k);
    }
  }

  lemma SumExactOfNothing(now: nat)
    ensures SumExact([], now) == Counts(0, 0)
  {
  }

  /** One more verdict counts once; only a verdict at a new time uses up one of the `k` entries. */
  lemma SumExactMerges(ms: seq<Merge>, at: nat, flag: nat, now: nat, k: nat)
    requires k > 0
    ensures
      var sameTime := ms != [] && ms[|ms| - 1].at == at;
      SumExact(LastN(MergeIn(ms, at, flag), k), now) ==
      SumExact(LastN(ms, if sameTime then k else k - 1), now).Add(at, now, 1, flag)
  {
    hide SumExact, LastN;
    if ms != [] && ms[|ms| - 1].at == at {
      var front, last := ms[..|ms| - 1], ms[|ms| - 1];
      var last' := Merge(at, last.expected + 1, last.missing + flag);
      assert ms == front + [last] && MergeIn(ms, at, flag) == front + [last'];
      LastNSnoc(front, last, k);
      LastNSnoc(front, last', k);
      SumExactSnoc(LastN(front, k - 1), last, now);
      SumExactSnoc(LastN(front, k - 1), last', now);
    } else {
      LastNSnoc(ms, Merge(at, 1, flag), k);
      SumExactSnoc(LastN(ms, k - 1), Merge(at, 1, flag), now);
    }
  }

  ghost predicate RatiosBounded(ms: seq<Merge>) {
    forall i :: 0 <= i < |ms| ==> 0 < ms[i].expected && ms[i].missing <= ms[i].expected
  }

  lemma {:induction false} MergedRatio(h: seq<Final>)
    ensures RatiosBounded(Merged(h))
  {
    hide MergeIn;
    if h != [] {
      var older, x := h[..|h| - 1], h[|h| - 1];
      MergedRatio(older);
      MergeInRatio(Merged(older), x.at, Flag(x.missing));
    }
  }

  lemma MergeInRatio(ms: seq<Merge>, at: nat, flag: nat)
    requires RatiosBounded(ms) && flag <= 1
    ensures RatiosBounded(MergeIn(ms, at, flag))
  {
  }

  /**
   The window sums over the merged, capped and saturating log are the position-by-position counts,
   saturated once.
   */
  lemma LogCountsPositions(h: seq<Final>, now: nat)
    ensures
      var c := WindowCount(h, now, CAPACITY);
      SumWindow(Log(h), now) == (Sat(c.expected), Sat(c.missing))
  {
    LogIsNewestMerged(h);
    SumWindowSaturates(LastN(Merged(h), CAPACITY), now);
    SumExactCountsPositions(h, now, CAPACITY);
  }

  /** Missing never exceeds expected, in any entry of the log and in any saturating window sum. */
  lemma RatioIsAtMostOne(h: seq<Final>, now: nat)
    ensures forall e :: e in Log(h) ==> 0 < e.expected && e.missing <= e.expected
    ensures SumWindow(Log(h), now).1 <= SumWindow(Log(h), now).0
  {
    LogIsNewestMerged(h);
    LogCountsPositions(h, now);
    MergedRatio(h);
    var ms := LastN(Merged(h), CAPACITY);
    forall e | e in Log(h) ensures 0 < e.expected && e.missing <= e.expected {
      var i :| 0 <= i < |Log(h)| && Log(h)[i] == e;
      assert ms[i] in Merged(h);
    }
  }

  ghost predicate TimesIncrease(ms: seq<Merge>) {
    forall i, j :: 0 <= i < j < |ms| ==> ms[i].at < ms[j].at
  }

  lemma {:induction false} MergedInTimeOrder(h: seq<Final>)
    requires InTimeOrder(h)
    ensures TimesIncrease(Merged(h))
  {
    if h != [] {
      var older, x := h[..|h| - 1], h[|h| - 1];
      MergedInTimeOrder(older);
      assert older != [] ==> older[|older| - 1].at <= x.at;
      MergeInTimeOrder(Merged(older), x.at, Flag(x.missing));
    }
  }

  lemma MergeInTimeOrder(ms: seq<Merge>, at: nat, flag: nat)
    requires TimesIncrease(ms)
    requires ms != [] ==> ms[|ms| - 1].at <= at
    ensures TimesIncrease(MergeIn(ms, at, flag))
  {
  }

  /** With a clock that never runs backwards, the timestamps of the log strictly increase. */
  lemma LogTimesStrictlyIncrease(es: seq<Event>)
    requires NondecreasingFrom(es, 0)
    ensures var log := Log(Run(EMPTY, es).History()); forall i, j :: 0 <= i < j < |log| ==> log[i].at < log[j].at
  {
    hide Log, Run, Merged, Naive.History, Saturated, LastN;
    var h := Run(EMPTY, es).History();
    assert Timely(EMPTY, 0);
    VerdictsAreInTimeOrder(EMPTY, es, 0);
    LogIsNewestMerged(h);
    MergedInTimeOrder(h);
    NewestTimesIncrease(Merged(h));
  }

  lemma NewestTimesIncrease(ms: seq<Merge>)
    requires TimesIncrease(ms)
    ensures
      var log := Saturated(LastN(ms, CAPACITY));
      forall i, j :: 0 <= i < j < |log| ==> log[i].at < log[j].at
  {
  }

  // ----- the effect of a gap on the model

  function Overflow(n: Naive, distance: nat): nat
    requires n.Valid()
  {
    SaturatingSub(|n.Pending()| + distance, CAPACITY)
  }

  /** How many of the pending positions a jump of `distance` pushes out. */
  function Evicted(n: Naive, distance: nat): (k: nat)
    requires n.Valid()
    ensures k <= |n.Pending()| && k <= Overflow(n, distance)
  {
    Min(Overflow(n, distance), |n.Pending()|)
  }

  /** How many verdicts of that jump are "missing", among evicted and never materialized positions. */
  function LostToJump(n: Naive, distance: nat): (k: nat)
    requires n.Valid()
    ensures k <= Overflow(n, distance)
  {
    CountMissing(n.Pending()[..Evicted(n, distance)]) + (Overflow(n, distance) - Evicted(n, distance))
  }

  function Gap(count: nat, now: nat): (s: seq<Slot>)
    ensures |s| == count
  {
    Repeat(Slot(false, now), count)
  }

  /** The positions a jump leaves in the window: all missing but the last. */
  function Opened(count: nat, now: nat): (s: seq<Slot>)
    requires count > 0
    ensures |s| == count && forall i :: 0 <= i < count ==> s[i] == Slot(i + 1 == count, now)
  {
    Gap(count - 1, now) + [Slot(true, now)]
  }

  lemma {:induction false} AppendGapInBulk(n: Naive, count: nat, now: nat)
    requires n.Valid() && |n.Pending()| <= CAPACITY
    ensures n.AppendGap(count, now).slots == n.slots + Gap(count, now)
    ensures n.AppendGap(count, now).done == n.done + Repeat(now, Overflow(n, count))
  {
    if count > 0 {
      hide Naive.AppendOne, Gap, Repeat, Naive.Pending, Overflow;
      AppendGapInBulk(n, count - 1, now);
      AppendOneInBulk(n, count, false, now);
      GapSnoc(count, now);
      JoinSnoc(n.slots, Gap(count - 1, now), Slot(false, now));
    } else {
      NoGap(n, now);
    }
  }

  lemma NoGap(n: Naive, now: nat)
    requires n.Valid() && |n.Pending()| <= CAPACITY
    ensures n.slots + Gap(0, now) == n.slots && n.done + Repeat(now, Overflow(n, 0)) == n.done
  {
  }

  lemma GapSnoc(count: nat, now: nat)
    requires count > 0
    ensures Gap(count, now) == Gap(count - 1, now) + [Slot(false, now)]
  {
  }

  /** One more position after a gap of `count - 1` evicts exactly when the window is full. */
  lemma AppendOneInBulk(n: Naive, count: nat, received: bool, now: nat)
    requires n.Valid() && |n.Pending()| <= CAPACITY && count > 0
    requires n.AppendGap(count - 1, now).slots == n.slots + Gap(count - 1, now)
    requires n.AppendGap(count - 1, now).done == n.done + Repeat(now, Overflow(n, count - 1))
    ensures
      var m := n.AppendGap(count - 1, now).AppendOne(received, now);
      && m.slots == n.slots + Gap(count - 1, now) + [Slot(received, now)]
      && m.done == n.done + Repeat(now, Overflow(n, count))
  {
    if Overflow(n, count) > Overflow(n, count - 1) {
      assert Repeat(now, Overflow(n, count)) == Repeat(now, Overflow(n, count - 1)) + [now];
    }
  }

  /** The closed form of opening `distance` positions, the last of them received. */
  ghost predicate Jumped(n: Naive, m: Naive, distance: nat, now: nat)
    requires distance > 0
  {
    && n.Valid() && m.Valid() && m.first == n.first
    && m.slots == n.slots + Gap(distance - 1, now) + [Slot(true, now)]
    && m.done == n.done + Repeat(now, Overflow(n, distance))
  }

  /** A packet ahead opens its positions one by one, with one eviction at a time; this is the sum of it. */
  lemma PlaceInBulk(n: Naive, position: int, distance: nat, now: nat)
    requires n.Valid() && |n.Pending()| <= CAPACITY && n.slots != []
    requires distance > 0 && position - n.Highest() == distance
    ensures Jumped(n, n.Place(position, now), distance, now)
  {
    hide Naive.AppendGap, Naive.AppendOne, Gap, Repeat, Overflow;
    assert position - n.Highest() - 1 == distance - 1;
    AppendGapInBulk(n, distance - 1, now);
    AppendOneInBulk(n, distance, true, now);
  }

  lemma {:induction false} CountMissingAppend(a: seq<Slot>, b: seq<Slot>)
    ensures CountMissing(a + b) == CountMissing(a) + CountMissing(b)
  {
    if b == [] {
      assert a + b == a;
    } else {
      assert (a + b)[..|a + b| - 1] == a + b[..|b| - 1];
      CountMissingAppend(a, b[..|b| - 1]);
    }
  }

  lemma {:induction false} GapIsMissing(count: nat, now: nat)
    ensures CountMissing(Gap(count, now)) == count
  {
    if count > 0 {
      assert Gap(count, now)[..count - 1] == Gap(count - 1, now);
      GapIsMissing(count - 1, now);
    }
  }

  /** The unbounded position that a sequence number stands for: the one within half a ring of the highest so far. */
  function PositionOf(n: Naive, sequence: u32): (p: int)
    requires n.Valid()
    ensures Wrap(p) == sequence && (n.slots != [] ==> Near(p, n.Highest()))
  {
    if n.slots == [] then
      FirstPosition(sequence);
      sequence
    else
      Unwrap(sequence, n.Highest())
  }

  lemma FirstPosition(sequence: u32)
    ensures Wrap(sequence) == sequence
  {
  }

  /** The fields of the implementation that stand for the model `n`. */
  ghost predicate Represents(n: Naive, highest: Option<u32>, pending: seq<Slot>, finalized: seq<Entry>) {
    && n.Valid()
    && |pending| <= CAPACITY
    && pending == n.Pending()
    && finalized == Log(n.History())
    && highest == (if n.slots == [] then None else Some(Wrap(n.Highest())))
  }

  lemma OldestRepresented(n: Naive, highest: Option<u32>, pending: seq<Slot>, finalized: seq<Entry>, at: nat)
    requires Represents(n, highest, pending, finalized) && pending != []
    ensures Represents(n.FinalizeOldest(at), highest, pending[1..],
                       Record(finalized, at, 1, if pending[0].received then 0 else 1))
  {
    LogSnoc(n.History(), Final(at, !pending[0].received));
  }

  lemma DueRepresented(n: Naive, highest: Option<u32>, pending: seq<Slot>, finalized: seq<Entry>, now: nat)
    requires Represents(n, highest, pending, finalized)
    ensures n.Valid() && |pending| == |n.slots| - |n.done| && |finalized| <= CAPACITY
    ensures
      n.FinalizeDue(now) ==
      if pending != [] && pending[0].observedAt + GRACE <= now then
        n.FinalizeOldest(pending[0].observedAt + GRACE).FinalizeDue(now)
      else
        n
  {
    hide Wrap, Log;
  }

  lemma FirstRepresented(n: Naive, finalized: seq<Entry>, position: int, now: nat)
    requires Represents(n, None, [], finalized)
    ensures Represents(n.Place(position, now), Some(Wrap(position)), [Slot(true, now)], finalized)
  {
    assert n.History() == [] == n.Place(position, now).History();
  }

  /** Pending positions after a packet `behind` places behind the highest one. */
  function MarkBehind(pending: seq<Slot>, behind: nat): seq<Slot> {
    if behind < |pending| then
      var index := |pending| - 1 - behind;
      pending[index := pending[index].(received := true)]
    else
      pending
  }

  lemma LateRepresented(n: Naive, highest: u32, pending: seq<Slot>, finalized: seq<Entry>, position: int, now: nat,
                        behind: nat)
    requires Represents(n, Some(highest), pending, finalized) && position + behind == n.Highest()
    ensures Represents(n.Place(position, now), Some(highest), MarkBehind(pending, behind), finalized)
  {
    hide Wrap;
    assert n.MarkReceived(position).History() == n.History();
    assert n.MarkReceived(position).Highest() == n.Highest();
  }

  lemma WhatIsRepresented(n: Naive, highest: Option<u32>, pending: seq<Slot>, finalized: seq<Entry>)
    requires Represents(n, highest, pending, finalized)
    ensures n.Valid() && highest == (if n.slots == [] then None else Some(Wrap(n.Highest())))
    ensures highest == None ==> pending == []
    ensures finalized == Log(n.History())
  {
  }

  lemma AheadRepresented(n: Naive, highest: u32, pending: seq<Slot>, finalized: seq<Entry>, position: int, now: nat,
                         distance: nat, overflow: nat, evicted: nat, retained: int, lost: int)
    requires Represents(n, Some(highest), pending, finalized)
    requires n.Highest() + distance == position && 0 < distance < TWO_31
    requires overflow == SaturatingSub(|pending| + distance, CAPACITY) && evicted == Min(overflow, |pending|)
    requires retained == distance - (overflow - evicted)
    requires lost == CountMissing(pending[..evicted]) + (overflow - evicted)
    ensures retained > 0 && 0 <= lost <= overflow <= U64_MAX
    ensures Represents(n.Place(position, now), Some(Wrap(position)),
                       pending[evicted..] + Opened(retained, now),
                       Record(finalized, now, overflow, lost))
  {
    hide Wrap, Log, Record, Naive.History, Naive.Place, SaturatingSub;
    var m := n.Place(position, now);
    assert pending == n.Pending() && finalized == Log(n.History());
    assert overflow == Overflow(n, distance) && evicted == Evicted(n, distance) && lost == LostToJump(n, distance);
    PlaceInBulk(n, position, distance, now);
    JumpHighest(n, m, distance, now);
    JumpPending(n, m, distance, now, overflow - evicted);
    EvictionsAreVerdicts(n, m, distance, now);
    assert m.Highest() == position;
    assert retained - 1 == distance - (overflow - evicted) - 1;
    assert m.Pending() == pending[evicted..] + Opened(retained, now);
  }

  lemma JumpHighest(n: Naive, m: Naive, distance: nat, now: nat)
    requires distance > 0 && Jumped(n, m, distance, now)
    ensures m.slots != [] && m.Highest() == n.Highest() + distance
  {
    assert |m.slots| == |n.slots| + distance;
  }

  lemma JumpPending(n: Naive, m: Naive, distance: nat, now: nat, skipped: nat)
    requires distance > 0 && Jumped(n, m, distance, now) && |n.Pending()| <= CAPACITY
    requires Overflow(n, distance) == Evicted(n, distance) + skipped
    ensures skipped < distance
    ensures m.Pending() == n.Pending()[Evicted(n, distance)..] + Gap(distance - skipped - 1, now) + [Slot(true, now)]
    ensures |m.Pending()| <= CAPACITY
  {
    var overflow := Overflow(n, distance);
    var all := n.Pending() + Gap(distance - 1, now) + [Slot(true, now)];
    assert |m.done| == |n.done| + overflow;
    assert m.slots == n.slots[..|n.done|] + all;
    assert m.Pending() == all[overflow..];
    DropFromJump(n.Pending(), distance, now, Evicted(n, distance), skipped);
  }

  /** Dropping from the front of what was pending followed by what a jump opens. */
  lemma DropFromJump(pending: seq<Slot>, distance: nat, now: nat, evicted: nat, skipped: nat)
    requires evicted <= |pending| && skipped < distance && (skipped > 0 ==> evicted == |pending|)
    ensures
      (pending + Gap(distance - 1, now) + [Slot(true, now)])[evicted + skipped..] ==
      pending[evicted..] + Gap(distance - skipped - 1, now) + [Slot(true, now)]
  {
  }

  /** The evicted and the skipped positions of a gap are its overflow, and are counted exactly. */
  lemma EvictionsAreVerdicts(n: Naive, m: Naive, distance: nat, now: nat)
    requires 0 < distance < TWO_31 && Jumped(n, m, distance, now) && |n.Pending()| <= CAPACITY
    ensures Log(m.History()) == Record(Log(n.History()), now, Overflow(n, distance), LostToJump(n, distance))
  {
    var skipped := Overflow(n, distance) - Evicted(n, distance);
    var gone := n.Pending()[..Evicted(n, distance)] + Gap(skipped, now);
    assert |gone| == Overflow(n, distance);
    EvictionHistory(n, m, distance, now, gone);
    BulkRecordIsOneByOne(n.History(), gone, now);
    CountMissingAppend(n.Pending()[..Evicted(n, distance)], Gap(skipped, now));
    GapIsMissing(skipped, now);
    assert CountMissing(gone) == LostToJump(n, distance);
  }

  lemma EvictionHistory(n: Naive, m: Naive, distance: nat, now: nat, gone: seq<Slot>)
    requires 0 < distance && Jumped(n, m, distance, now) && |n.Pending()| <= CAPACITY
    requires |gone| == Overflow(n, distance) && gone <= n.Pending() + Gap(distance - 1, now)
    ensures m.History() == n.History() + Verdicts(gone, now)
  {
    var h, h' := m.History(), n.History() + Verdicts(gone, now);
    assert |h| == |h'|;
    forall i | 0 <= i < |h| ensures h[i] == h'[i] {
      if |n.done| <= i {
        assert m.slots[i] == (n.Pending() + Gap(distance - 1, now))[i - |n.done|] == gone[i - |n.done|];
      }
    }
  }

  // ----- the implementation

  class PacketLoss {
    var highest: Option<u32>
    var pending: seq<Slot>
    var finalized: seq<Entry>
    /** The position-by-position account of everything observed so far. */
    ghost var naive: Naive

    ghost predicate Valid()
      reads this
    {
      Represents(naive, highest, pending, finalized)
    }

    constructor ()
      ensures Valid() && naive == EMPTY
    {
      highest, pending, finalized := None, [], [];
      naive := EMPTY;
    }

    /** A packet arrives; the model sees it at the position its sequence number stands for. */
    method Observe(sequence: u32, now: nat)
      requires Valid()
      modifies this
      ensures Valid()
      ensures naive == old(naive).Observe(PositionOf(old(naive), sequence), now)
    {
      hide Wrap, WrappingSub, Ahead, Log, Record, Represents, Naive.Place, Naive.FinalizeDue, Naive.History;
      WhatIsRepresented(naive, highest, pending, finalized);
      ghost var position := PositionOf(naive, sequence);
      FinalizeDue(now);
      ghost var n := naive;
      WhatIsRepresented(n, highest, pending, finalized);
      if highest == None {
        FirstRepresented(n, finalized, position, now);
        highest := Some(sequence);
        pending := pending + [Slot(true, now)];
        assert pending == [Slot(true, now)];
        naive := n.Place(position, now);
      } else {
        AheadMeansHigher(position, n.Highest());
        if Ahead(sequence, highest.value) {
          Advance(sequence, WrappingSub(sequence, highest.value), now, position);
        } else {
          MarkLate(WrappingSub(highest.value, sequence), now, position);
        }
      }
    }

    /** The part of Observe for a packet at or behind the highest one. */
    method MarkLate(behind: nat, now: nat, ghost position: int)
      requires Valid() && naive.slots != [] && position + behind == naive.Highest()
      modifies this
      ensures Valid()
      ensures naive == old(naive).Place(position, now)
    {
      hide Wrap, Log, Naive.Place, Naive.History;
      LateRepresented(naive, highest.value, pending, finalized, position, now, behind);
      if behind < |pending| {
        var index := |pending| - 1 - behind;
        pending := pending[index := pending[index].(received := true)];
      }
      naive := naive.Place(position, now);
    }

    /** The part of Observe for a packet ahead of the highest one. */
    method Advance(sequence: u32, distance: nat, now: nat, ghost position: int)
      requires Valid() && naive.slots != []
      requires Wrap(position) == sequence && naive.Highest() + distance == position && 0 < distance < TWO_31
      modifies this
      ensures Valid()
      ensures naive == old(naive).Place(position, now)
    {
      hide Wrap, WrappingSub, Log, Record, Naive.Place, Naive.History, CountMissing, SaturatingSub;
      ghost var n := naive;
      var overflow := SaturatingSub(|pending| + distance, CAPACITY);
      var evicted := Min(overflow, |pending|);
      var missing := CountMissing(pending[..evicted]);
      // The part of a huge gap that never fits the window is evicted arithmetically.
      var skipped := overflow - evicted;
      var retained := distance - skipped;
      AheadRepresented(n, highest.value, pending, finalized, position, now,
                       distance, overflow, evicted, retained, missing + skipped);
      pending := pending[evicted..];
      RecordFinalized(now, overflow, missing + skipped);
      naive := n.Place(position, now);
      ghost var kept, log := pending, finalized;
      for index := 0 to retained
        invariant naive == n.Place(position, now) && finalized == log
        invariant pending == kept + Opened(retained, now)[..index]
      {
        pending := pending + [Slot(index + 1 == retained, now)];
      }
      assert Opened(retained, now)[..retained] == Opened(retained, now);
      highest := Some(sequence);
    }

    method FinalizeDue(now: nat)
      requires Valid()
      modifies this
      ensures Valid() && highest == old(highest)
      ensures naive == old(naive).FinalizeDue(now)
    {
      hide Represents, Record, Naive.FinalizeDue;
      DueRepresented(naive, highest, pending, finalized, now);
      while pending != []
        invariant Valid() && naive.Valid() && highest == old(highest)
        invariant naive.FinalizeDue(now) == old(naive).FinalizeDue(now)
        invariant (pending == [] || pending[0].observedAt + GRACE > now) ==> naive.FinalizeDue(now) == naive
        decreases |pending|
      {
        var position := pending[0];
        if now < position.observedAt || now - position.observedAt < GRACE { break; }
        var at := position.observedAt + GRACE;
        DueRepresented(naive, highest, pending, finalized, now);
        OldestRepresented(naive, highest, pending, finalized, at);
        pending := pending[1..];
        RecordFinalized(at, 1, if position.received then 0 else 1);
        naive := naive.FinalizeOldest(at);
        DueRepresented(naive, highest, pending, finalized, now);
      }
    }

    method RecordFinalized(at: nat, expected: u64, missing: u64)
      requires |finalized| <= CAPACITY
      modifies this`finalized
      ensures finalized == Record(old(finalized), at, expected, missing)
    {
      if expected == 0 { return; }
      if finalized != [] {
        var last := finalized[|finalized| - 1];
        if last.at == at {
          finalized := finalized[|finalized| - 1 :=
            Entry(at, SaturatingAdd(last.expected, expected), SaturatingAdd(last.missing, missing))];
          return;
        }
      }
      if |finalized| == CAPACITY {
        finalized := finalized[1..];
      }
      finalized := finalized + [Entry(at, expected, missing)];
    }

    method Snapshot(now: nat) returns (expected: u64, missing: u64)
      requires Valid()
      modifies this
      ensures Valid()
      ensures naive == old(naive).FinalizeDue(now)
      ensures expected == Sat(old(naive).Read(now).expected) && missing == Sat(old(naive).Read(now).missing)
    {
      hide Represents, Naive.FinalizeDue, Naive.History, Log, Sat, WindowCount;
      FinalizeDue(now);
      WhatIsRepresented(naive, highest, pending, finalized);
      expected, missing := SumOf(finalized, now);
      LogCountsPositions(naive.History(), now);
    }

    /** The part of Snapshot that adds up the entries inside the window. */
    static method SumOf(log: seq<Entry>, now: nat) returns (expected: u64, missing: u64)
      ensures (expected, missing) == SumWindow(log, now)
    {
      expected, missing := 0, 0;
      for i := 0 to |log|
        invariant (expected, missing) == SumWindow(log[..i], now)
      {
        var e := log[i];
        assert log[..i + 1][..i] == log[..i];
        if InWindow(e.at, now) {
          expected, missing := SaturatingAdd(expected, e.expected), SaturatingAdd(missing, e.missing);
        }
      }
      assert log[..|log|] == log;
    }
  }
}
