/** The fixed-capacity ring of latency samples and its windowed percentiles. */
module LatencyRing {
  import opened Prelude

  /** A latency in microseconds; samples without an observation time are left out of windowed summaries. */
  datatype Sample = Sample(latencyUs: nat, observedAt: Option<nat>)

  datatype Stats = Stats(frames: nat, p50: nat, p95: nat, p99: nat, max: nat)

  // ----- the ring as a list

  /** What the ring retains after one more write. */
  function Write(retained: seq<Sample>, x: Sample, capacity: nat): seq<Sample> { LastN(retained + [x], capacity) }

  function WriteAll(xs: seq<Sample>, capacity: nat): seq<Sample> {
    if xs == [] then [] else Write(WriteAll(xs[..|xs| - 1], capacity), xs[|xs| - 1], capacity)
  }

  /** After any number of writes the ring retains exactly the newest ones, in the order written. */
  lemma {:induction false} RingKeepsNewest(xs: seq<Sample>, capacity: nat)
    requires capacity > 0
    ensures WriteAll(xs, capacity) == LastN(xs, capacity)
  {
    if xs != [] {
      hide LastN;
      var front, x := xs[..|xs| - 1], xs[|xs| - 1];
      assert xs == front + [x];
      RingKeepsNewest(front, capacity);
      LastNSnoc(front, x, capacity);
      LastNSnoc(LastN(front, capacity), x, capacity);
      LastNOfLastN(front, capacity);
    } else {
      LastNOfNothing(xs, capacity);
    }
  }

  lemma LastNOfLastN(xs: seq<Sample>, capacity: nat)
    requires capacity > 0
    ensures LastN(LastN(xs, capacity), capacity - 1) == LastN(xs, capacity - 1)
  {
  }

  // ----- percentiles

  /** Is the sample of a known age, at most `window`, at time `now`? */
  predicate InWindow(x: Sample, now: nat, window: nat) {
    x.observedAt.Some? && x.observedAt.value <= now <= x.observedAt.value + window
  }

  function Select(xs: seq<Sample>, now: nat, window: nat): seq<nat> {
    if xs == [] then []
    else
      Select(xs[..|xs| - 1], now, window) +
      if InWindow(xs[|xs| - 1], now, window) then [xs[|xs| - 1].latencyUs] else []
  }

  /** The samples no older than `window` whose latency is `v`. */
  ghost function WithLatency(xs: seq<Sample>, now: nat, window: nat, v: nat): set<nat> {
    set i: nat | i < |xs| && xs[i].latencyUs == v && xs[i].observedAt.Some?
                 && xs[i].observedAt.value <= now && now - xs[i].observedAt.value <= window
  }

  lemma WithLatencySnoc(xs: seq<Sample>, x: Sample, now: nat, window: nat, v: nat)
    ensures
      |WithLatency(xs + [x], now, window, v)| ==
      |WithLatency(xs, now, window, v)| + if InWindow(x, now, window) && x.latencyUs == v then 1 else 0
  {
    var more := if InWindow(x, now, window) && x.latencyUs == v then {|xs| as nat} else {};
    assert WithLatency(xs + [x], now, window, v) == WithLatency(xs, now, window, v) + more;
  }

  /** What is summarized has each latency as often as there are samples with it that are no older than the window. */
  lemma {:induction false} SelectExactly(xs: seq<Sample>, now: nat, window: nat, v: nat)
    ensures multiset(Select(xs, now, window))[v] == |WithLatency(xs, now, window, v)|
  {
    if xs == [] {
      assert WithLatency(xs, now, window, v) == {};
    } else {
      hide WithLatency, InWindow;
      var front, last := xs[..|xs| - 1], xs[|xs| - 1];
      assert xs == front + [last];
      SelectExactly(front, now, window, v);
      WithLatencySnoc(front, last, now, window, v);
    }
  }

  /** How many samples are at most `v`. */
  function AtMost(xs: seq<nat>, v: nat): nat {
    if xs == [] then 0 else (if xs[0] <= v then 1 else 0) + AtMost(xs[1..], v)
  }

  /** How many samples are below `v`. */
  function Below(xs: seq<nat>, v: nat): nat {
    if xs == [] then 0 else (if xs[0] < v then 1 else 0) + Below(xs[1..], v)
  }

  /**
   `v` is the sample of rank `k`, counting from 0 in ascending order: at most `k` are below it and more
   than `k` are not above it.
   */
  predicate HasRank(xs: seq<nat>, v: nat, k: nat) { v in xs && Below(xs, v) <= k < AtMost(xs, v) }

  /** The nearest rank of a percentile, ties upwards. */
  function Rank(count: nat, percent: nat): (k: nat)
    requires count > 0 && percent <= 100
    ensures k <= count - 1
  {
    RankBound(count - 1, percent);
    ((count - 1) * percent + 50) / 100
  }

  lemma RankBound(n: nat, percent: nat)
    requires percent <= 100
    ensures (n * percent + 50) / 100 <= n
  {
    MultiplyMonotone(percent, 100, n);
    assert percent * n == n * percent;
  }

  /** The rank is the integer nearest to that fraction of the last index, the upper one of two. */
  lemma RankIsNearest(count: nat, percent: nat)
    requires count > 0 && percent <= 100
    ensures 100 * Rank(count, percent) - 50 <= (count - 1) * percent < 100 * Rank(count, percent) + 50
  {
  }

  lemma RankMonotone(count: nat, p: nat, q: nat)
    requires count > 0 && p <= q <= 100
    ensures Rank(count, p) <= Rank(count, q)
  {
    MultiplyMonotone(p, q, count - 1);
    assert p * (count - 1) == (count - 1) * p && q * (count - 1) == (count - 1) * q;
  }

  function Insert(ys: seq<nat>, x: nat): (r: seq<nat>)
    ensures |r| == |ys| + 1
  {
    if ys == [] || x <= ys[0] then [x] + ys else [ys[0]] + Insert(ys[1..], x)
  }

  /** The samples in ascending order. */
  function Sort(xs: seq<nat>): (r: seq<nat>)
    ensures |r| == |xs|
  {
    if xs == [] then [] else Insert(Sort(xs[1..]), xs[0])
  }

  ghost predicate Sorted(ys: seq<nat>) { forall i, j :: 0 <= i <= j < |ys| ==> ys[i] <= ys[j] }

  lemma {:induction false} InsertKeepsAll(ys: seq<nat>, x: nat)
    ensures multiset(Insert(ys, x)) == multiset(ys) + multiset{x}
  {
    if ys != [] && x > ys[0] {
      InsertKeepsAll(ys[1..], x);
      assert ys == [ys[0]] + ys[1..];
    }
  }

  lemma {:induction false} InsertKeepsBound(ys: seq<nat>, x: nat, low: nat)
    requires low <= x && forall i :: 0 <= i < |ys| ==> low <= ys[i]
    ensures forall i :: 0 <= i < |Insert(ys, x)| ==> low <= Insert(ys, x)[i]
  {
    if ys != [] && x > ys[0] {
      InsertKeepsBound(ys[1..], x, low);
    }
  }

  lemma {:induction false} InsertSorts(ys: seq<nat>, x: nat)
    requires Sorted(ys)
    ensures Sorted(Insert(ys, x))
  {
    if ys != [] && x > ys[0] {
      InsertSorts(ys[1..], x);
      InsertKeepsBound(ys[1..], x, ys[0]);
    }
  }

  lemma {:induction false} InsertCounts(ys: seq<nat>, x: nat, v: nat)
    ensures AtMost(Insert(ys, x), v) == AtMost(ys, v) + (if x <= v then 1 else 0)
    ensures Below(Insert(ys, x), v) == Below(ys, v) + (if x < v then 1 else 0)
  {
    if ys == [] || x <= ys[0] {
      assert ([x] + ys)[1..] == ys;
    } else {
      InsertCounts(ys[1..], x, v);
      assert ([ys[0]] + Insert(ys[1..], x))[1..] == Insert(ys[1..], x);
    }
  }

  lemma {:induction false} SortCounts(xs: seq<nat>, v: nat)
    ensures AtMost(Sort(xs), v) == AtMost(xs, v) && Below(Sort(xs), v) == Below(xs, v)
  {
    if xs != [] {
      SortCounts(xs[1..], v);
      InsertCounts(Sort(xs[1..]), xs[0], v);
    }
  }

  lemma {:induction false} SortSorts(xs: seq<nat>)
    ensures Sorted(Sort(xs)) && multiset(Sort(xs)) == multiset(xs)
  {
    if xs != [] {
      SortSorts(xs[1..]);
      InsertSorts(Sort(xs[1..]), xs[0]);
      InsertKeepsAll(Sort(xs[1..]), xs[0]);
      assert xs == [xs[0]] + xs[1..];
    }
  }

  /** In ascending order, the element at index `k` has rank `k`. */
  lemma {:induction false} SortedRank(ys: seq<nat>, k: nat)
    requires Sorted(ys) && k < |ys|
    ensures Below(ys, ys[k]) <= k < AtMost(ys, ys[k])
  {
    if k == 0 {
      NoneBelow(ys, ys[0]);
    } else {
      SortedRank(ys[1..], k - 1);
    }
  }

  lemma {:induction false} NoneBelow(ys: seq<nat>, v: nat)
    requires forall i :: 0 <= i < |ys| ==> v <= ys[i]
    ensures Below(ys, v) == 0
  {
    if ys != [] {
      NoneBelow(ys[1..], v);
    }
  }

  function PercentileSorted(sorted: seq<nat>, percent: nat): nat
    requires percent <= 100
  {
    if sorted == [] then 0 else if |sorted| == 1 then sorted[0] else sorted[Rank(|sorted|, percent)]
  }

  /** The sorted element that is picked has the wanted rank among the samples as they came. */
  lemma PercentileHasRank(xs: seq<nat>, percent: nat)
    requires xs != [] && percent <= 100
    ensures HasRank(xs, PercentileSorted(Sort(xs), percent), Rank(|xs|, percent))
  {
    SortSorts(xs);
    var sorted, k := Sort(xs), Rank(|xs|, percent);
    SortedRank(sorted, k);
    SortCounts(xs, sorted[k]);
    assert sorted[k] in multiset(xs);
  }

  lemma {:induction false} BelowIsMonotone(xs: seq<nat>, v: nat, w: nat)
    requires v < w
    ensures AtMost(xs, v) <= Below(xs, w)
  {
    if xs != [] {
      BelowIsMonotone(xs[1..], v, w);
    }
  }

  /** A higher rank has a value at least as high; so a rank has only one value. */
  lemma RankOrdersValues(xs: seq<nat>, v: nat, w: nat, j: nat, k: nat)
    requires HasRank(xs, v, j) && HasRank(xs, w, k) && j <= k
    ensures v <= w
  {
    if w < v {
      BelowIsMonotone(xs, w, v);
    }
  }

  lemma {:induction false} SelectAppend(a: seq<Sample>, b: seq<Sample>, now: nat, window: nat)
    ensures Select(a + b, now, window) == Select(a, now, window) + Select(b, now, window)
    decreases |b|
  {
    if b == [] {
      assert a + b == a;
    } else {
      assert (a + b)[..|a + b| - 1] == a + b[..|b| - 1];
      SelectAppend(a, b[..|b| - 1], now, window);
    }
  }

  lemma {:induction false} CountAppend(a: seq<nat>, b: seq<nat>, v: nat)
    ensures AtMost(a + b, v) == AtMost(a, v) + AtMost(b, v) && Below(a + b, v) == Below(a, v) + Below(b, v)
    decreases |a|
  {
    if a == [] {
      assert a + b == b;
    } else {
      assert (a + b)[1..] == a[1..] + b;
      CountAppend(a[1..], b, v);
    }
  }

  lemma RankRotated(a: seq<nat>, b: seq<nat>, v: nat, k: nat)
    requires HasRank(a + b, v, k)
    ensures HasRank(b + a, v, k)
  {
    CountAppend(a, b, v);
    CountAppend(b, a, v);
  }

  /** The summary of some samples. */
  ghost predicate Summarizes(r: Stats, xs: seq<nat>) {
    && xs != [] && r.frames == |xs|
    && HasRank(xs, r.p50, Rank(|xs|, 50))
    && HasRank(xs, r.p95, Rank(|xs|, 95))
    && HasRank(xs, r.p99, Rank(|xs|, 99))
    && r.max in xs && (forall x :: x in xs ==> x <= r.max)
    && r.p50 <= r.p95 <= r.p99 <= r.max
  }

  /** A summary does not depend on where the ring starts. */
  lemma SelectRotated(a: seq<Sample>, b: seq<Sample>, now: nat, window: nat, r: Stats)
    requires Summarizes(r, Select(a + b, now, window))
    ensures Summarizes(r, Select(b + a, now, window))
  {
    SelectAppend(a, b, now, window);
    SelectAppend(b, a, now, window);
    var p, q := Select(a, now, window), Select(b, now, window);
    assert |p + q| == |q + p|;
    RankRotated(p, q, r.p50, Rank(|p + q|, 50));
    RankRotated(p, q, r.p95, Rank(|p + q|, 95));
    RankRotated(p, q, r.p99, Rank(|p + q|, 99));
    forall x | x in q + p ensures x <= r.max {
      assert x in p + q;
    }
  }

  // ----- the implementation

  class LatencyRecorder {
    var samples: seq<Sample>
    const capacity: nat
    var index: nat
    var count: nat

    ghost predicate Valid()
      reads this
    {
      && 0 < capacity && |samples| <= capacity && index < capacity && count <= U64_MAX
      && (|samples| < capacity ==> index == |samples|)
    }

    /** The retained samples, oldest first. */
    function Retained(): seq<Sample>
      requires Valid()
      reads this
    {
      if |samples| < capacity then samples else samples[index..] + samples[..index]
    }

    constructor (capacity: nat)
      ensures Valid() && Retained() == [] && this.capacity == (if capacity == 0 then 1 else capacity) && count == 0
    {
      this.capacity := if capacity == 0 then 1 else capacity;
      samples, index, count := [], 0, 0;
    }

    method PushSample(x: Sample)
      requires Valid()
      modifies this
      ensures Valid() && Retained() == Write(old(Retained()), x, capacity)
      ensures count == Min(old(count) + 1, U64_MAX)
    {
      ghost var before := Retained();
      if |samples| < capacity {
        samples := samples + [x];
      } else {
        samples := samples[index := x];
      }
      index := NextIndex(index, capacity);
      count := Min(count + 1, U64_MAX);
      if |before| == capacity {
        assert LastN(before + [x], capacity) == before[1..] + [x];
      }
    }

    /** Record a same-clock interval; one that ends before it starts is refused and changes nothing. */
    method RecordInterval(startedAt: nat, completedAt: nat) returns (recorded: bool)
      requires Valid()
      modifies this
      ensures Valid() && (recorded <==> startedAt <= completedAt)
      ensures !recorded ==> unchanged(this)
      ensures
        recorded ==>
          Retained() == Write(old(Retained()),
                              Sample(Min((completedAt - startedAt) / 1000, U64_MAX), Some(completedAt)), capacity)
    {
      if completedAt < startedAt { return false; }
      var us := Min((completedAt - startedAt) / 1000, U64_MAX);
      PushSample(Sample(us, Some(completedAt)));
      return true;
    }

    /**
     Summarize the retained samples of age at most `window`.  Each percentile is the sample of its
     nearest rank among them, the maximum bounds them all, and the four are in order.
     */
    method StatsAt(now: nat, window: nat) returns (r: Option<Stats>)
      requires Valid()
      ensures
        var xs := Select(Retained(), now, window);
        && (r.None? <==> xs == [])
        && (r.Some? ==> Summarizes(r.value, xs))
    {
      var selected := [];
      for i := 0 to |samples|
        invariant selected == Select(samples[..i], now, window)
      {
        assert samples[..i + 1][..i] == samples[..i];
        var x := samples[i];
        if x.observedAt.Some? && x.observedAt.value <= now && now - x.observedAt.value <= window {
          selected := selected + [x.latencyUs];
        }
      }
      assert samples[..|samples|] == samples;
      if selected == [] {
        if |samples| == capacity {
          assert samples == samples[..index] + samples[index..];
          SelectAppend(samples[..index], samples[index..], now, window);
          SelectAppend(samples[index..], samples[..index], now, window);
        }
        return None;
      }
      var stats := StatsFromSamples(selected, |selected|);
      if |samples| == capacity {
        assert samples[..index] + samples[index..] == samples;
        SelectRotated(samples[..index], samples[index..], now, window, stats);
      }
      return Some(stats);
    }
  }

  function NextIndex(index: nat, capacity: nat): (r: nat)
    requires index < capacity
    ensures r == if index + 1 == capacity then 0 else index + 1
  {
    if index + 1 < capacity then assert (index + 1) % capacity == index + 1; (index + 1) % capacity else 0
  }

  /** The four figures of a nonempty list of samples. */
  method StatsFromSamples(samples: seq<nat>, frames: nat) returns (r: Stats)
    ensures samples == [] ==> r == Stats(0, 0, 0, 0, 0)
    ensures samples != [] ==> r.frames == frames && Summarizes(r.(frames := |samples|), samples)
  {
    if samples == [] { return Stats(0, 0, 0, 0, 0); }
    var sorted := Sort(samples);
    SortSorts(samples);
    PercentileHasRank(samples, 50);
    PercentileHasRank(samples, 95);
    PercentileHasRank(samples, 99);
    RankMonotone(|samples|, 50, 95);
    RankMonotone(|samples|, 95, 99);
    assert sorted[|sorted| - 1] in multiset(samples);
    forall x | x in samples ensures x <= sorted[|sorted| - 1] {
      assert x in multiset(sorted);
    }
    return Stats(frames, PercentileSorted(sorted, 50), PercentileSorted(sorted, 95), PercentileSorted(sorted, 99),
                 sorted[|sorted| - 1]);
  }
}
