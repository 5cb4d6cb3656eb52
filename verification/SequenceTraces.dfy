/** The guarantees of the packet-loss window over traces of wrapping sequence numbers, as they arrive. */
module SequenceTraces {
  import opened Prelude
  import opened SerialNumbers
  import opened NaiveLoss
  import opened PacketLoss

  /** A packet with its 32-bit sequence number arrives, or the statistics are read. */
  datatype Input = Arrived(sequence: u32, now: nat) | Queried(now: nat)

  // ----- the window over a trace

  /** One input, as the window's methods take it: the model advances as they promise. */
  function Take(n: Naive, i: Input): (n': Naive)
    requires n.Valid()
    ensures n'.Valid()
  {
    match i
    case Arrived(sequence, now) => n.Observe(PositionOf(n, sequence), now)
    case Queried(now) => n.FinalizeDue(now)
  }

  function TakeAll(n: Naive, inputs: seq<Input>): (n': Naive)
    requires n.Valid()
    ensures n'.Valid()
    decreases |inputs|
  {
    if inputs == [] then n else TakeAll(Take(n, inputs[0]), inputs[1..])
  }

  /** The window totals that the queries of the trace are answered with. */
  function Answers(n: Naive, inputs: seq<Input>): (out: seq<Option<Counts>>)
    requires n.Valid()
    ensures |out| == |inputs|
    decreases |inputs|
  {
    if inputs == [] then []
    else
      [if inputs[0].Queried? then Some(n.Read(inputs[0].now)) else None] +
      Answers(Take(n, inputs[0]), inputs[1..])
  }

  // ----- unwrapping a trace, from the sequence numbers alone

  /** The position of the next packet, when `highest` is the highest position so far. */
  function NextPosition(highest: Option<int>, sequence: u32): int {
    if highest.None? then sequence else Unwrap(sequence, highest.value)
  }

  function Raised(highest: Option<int>, position: int): Option<int> {
    if highest.None? || position > highest.value then Some(position) else highest
  }

  function Unwrapped(highest: Option<int>, inputs: seq<Input>): (es: seq<Event>)
    ensures |es| == |inputs|
    ensures forall k :: 0 <= k < |es| ==> es[k].now == inputs[k].now && (es[k].Observed? <==> inputs[k].Arrived?)
    decreases |inputs|
  {
    if inputs == [] then []
    else
      match inputs[0]
      case Arrived(sequence, now) =>
        var p := NextPosition(highest, sequence);
        [Observed(p, now)] + Unwrapped(Raised(highest, p), inputs[1..])
      case Queried(now) => [WasRead(now)] + Unwrapped(highest, inputs[1..])
  }

  /** Every packet keeps its sequence number. */
  lemma {:induction false} UnwrappedCarriesSequence(highest: Option<int>, inputs: seq<Input>, k: nat)
    requires k < |inputs| && inputs[k].Arrived?
    ensures Wrap(Unwrapped(highest, inputs)[k].position) == inputs[k].sequence
    decreases |inputs|
  {
    hide Wrap, Unwrap;
    if k == 0 {
      FirstPosition(inputs[0].sequence);
    } else {
      var next := if inputs[0].Arrived? then Raised(highest, NextPosition(highest, inputs[0].sequence)) else highest;
      UnwrappedCarriesSequence(next, inputs[1..], k - 1);
    }
  }

  function HighestIn(n: Naive): Option<int> { if n.slots == [] then None else Some(n.Highest()) }

  lemma TakeIsStep(n: Naive, i: Input)
    requires n.Valid()
    ensures
      var e := Unwrapped(HighestIn(n), [i])[0];
      && Take(n, i) == Step(n, e)
      && HighestIn(Step(n, e)) == if e.Observed? then Raised(HighestIn(n), e.position) else HighestIn(n)
  {
    hide Naive.FinalizeDue, Naive.Place, Unwrap;
    assert [i][1..] == [];
    StepHighest(n, Unwrapped(HighestIn(n), [i])[0]);
  }

  lemma UnwrappedCons(highest: Option<int>, inputs: seq<Input>)
    requires inputs != []
    ensures
      var e := Unwrapped(highest, [inputs[0]])[0];
      Unwrapped(highest, inputs) ==
      [e] + Unwrapped(if e.Observed? then Raised(highest, e.position) else highest, inputs[1..])
  {
    hide Unwrap;
    assert [inputs[0]][1..] == [];
  }

  /** The window over sequence numbers is the position model over the unwrapped trace. */
  lemma {:induction false} WindowFollowsPositions(n: Naive, inputs: seq<Input>)
    requires n.Valid()
    ensures TakeAll(n, inputs) == Run(n, Unwrapped(HighestIn(n), inputs))
    ensures Answers(n, inputs) == Outputs(n, Unwrapped(HighestIn(n), inputs))
    decreases |inputs|
  {
    if inputs != [] {
      hide Take, Step, Unwrapped, Naive.Read;
      var e := Unwrapped(HighestIn(n), [inputs[0]])[0];
      TakeIsStep(n, inputs[0]);
      UnwrappedCons(HighestIn(n), inputs);
      WindowFollowsPositions(Step(n, e), inputs[1..]);
      var rest := Unwrapped(HighestIn(Step(n, e)), inputs[1..]);
      assert Unwrapped(HighestIn(n), inputs) == [e] + rest && ([e] + rest)[1..] == rest;
    }
  }

  // ----- reads are transparent

  ghost predicate DropsOnlyQueries(inputs: seq<Input>, flags: seq<bool>) {
    |inputs| == |flags| && forall k :: 0 <= k < |inputs| && inputs[k].Arrived? ==> flags[k]
  }

  /** Deleting reads changes no packet's position. */
  lemma {:induction false} UnwrappingIgnoresQueries(highest: Option<int>, inputs: seq<Input>, flags: seq<bool>)
    requires DropsOnlyQueries(inputs, flags)
    ensures Unwrapped(highest, Keep(inputs, flags)) == Keep(Unwrapped(highest, inputs), flags)
    decreases |inputs|
  {
    if inputs != [] {
      hide Unwrapped;
      var e := Unwrapped(highest, [inputs[0]])[0];
      var next := if e.Observed? then Raised(highest, e.position) else highest;
      var kept := Keep(inputs[1..], flags[1..]);
      UnwrappedCons(highest, inputs);
      UnwrappingIgnoresQueries(next, inputs[1..], flags[1..]);
      var all, rest := Unwrapped(highest, inputs), Unwrapped(next, inputs[1..]);
      assert all[0] == e && all[1..] == rest;
      if flags[0] {
        var more := [inputs[0]] + kept;
        assert more[0] == inputs[0] && more[1..] == kept;
        UnwrappedCons(highest, more);
      } else {
        assert [] + kept == kept && [] + Keep(rest, flags[1..]) == Keep(rest, flags[1..]);
        QueriesDoNotRaise(highest, inputs[0]);
      }
    } else {
      NothingUnwrapped(highest);
    }
  }

  lemma NothingUnwrapped(highest: Option<int>)
    ensures Unwrapped(highest, []) == []
  {
  }

  lemma QueriesDoNotRaise(highest: Option<int>, i: Input)
    requires i.Queried?
    ensures Unwrapped(highest, [i])[0] == WasRead(i.now)
  {
  }

  ghost predicate ClockRunsForward(inputs: seq<Input>, t: nat) {
    inputs == [] || (t <= inputs[0].now && ClockRunsForward(inputs[1..], inputs[0].now))
  }

  lemma {:induction false} UnwrappedClock(highest: Option<int>, inputs: seq<Input>, t: nat)
    requires ClockRunsForward(inputs, t)
    ensures NondecreasingFrom(Unwrapped(highest, inputs), t)
    decreases |inputs|
  {
    if inputs != [] {
      hide Unwrapped;
      var e := Unwrapped(highest, [inputs[0]])[0];
      var next := if e.Observed? then Raised(highest, e.position) else highest;
      UnwrappedCons(highest, inputs);
      UnwrappedClock(next, inputs[1..], inputs[0].now);
      assert Unwrapped(highest, inputs)[1..] == Unwrapped(next, inputs[1..]);
    } else {
      NothingUnwrapped(highest);
    }
  }

  /** Deleting any set of reads from a trace of sequence numbers changes no answer of a remaining read. */
  lemma QueriesAreTransparent(inputs: seq<Input>, flags: seq<bool>)
    requires DropsOnlyQueries(inputs, flags) && ClockRunsForward(inputs, 0)
    ensures Answers(EMPTY, Keep(inputs, flags)) == Keep(Answers(EMPTY, inputs), flags)
  {
    hide Answers, Outputs, Unwrapped, Keep;
    WindowFollowsPositions(EMPTY, inputs);
    WindowFollowsPositions(EMPTY, Keep(inputs, flags));
    UnwrappingIgnoresQueries(None, inputs, flags);
    UnwrappedClock(None, inputs, 0);
    assert DropsOnlyReads(Unwrapped(None, inputs), flags);
    ReadsAreTransparent(EMPTY, EMPTY, Unwrapped(None, inputs), flags, 0);
  }

  // ----- conservation

  /**
   After any trace of sequence numbers, the verdicts ever reached plus the positions still pending are
   exactly the positions from the first packet to the highest one, through any number of wraps; the
   position of each packet wraps to its sequence number.
   */
  lemma WindowConservesPositions(inputs: seq<Input>)
    ensures
      var es := Unwrapped(None, inputs);
      forall k :: 0 <= k < |inputs| && inputs[k].Arrived? ==> Wrap(es[k].position) == inputs[k].sequence
    ensures
      var n, es := TakeAll(EMPTY, inputs), Unwrapped(None, inputs);
      if HighestOf(es).None? then n.slots == []
      else
        && n.slots != [] && FirstOf(es) == Some(n.first) && HighestOf(es) == Some(n.Highest())
        && |n.History()| + |n.Pending()| == n.Highest() - n.first + 1
  {
    WindowFollowsPositions(EMPTY, inputs);
    Conservation(Unwrapped(None, inputs));
    forall k | 0 <= k < |inputs| && inputs[k].Arrived?
      ensures Wrap(Unwrapped(None, inputs)[k].position) == inputs[k].sequence
    {
      UnwrappedCarriesSequence(None, inputs, k);
    }
  }
}
