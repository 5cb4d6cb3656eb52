/** Arithmetic on the ring of 32-bit serial numbers, and the unbounded positions behind them. */
module SerialNumbers {

  const TWO_31: int := 0x8000_0000
  const TWO_32: int := 0x1_0000_0000

  type u32 = x: int | 0 <= x < TWO_32

  function WrappingSub(a: u32, b: u32): u32 { if a >= b then a - b else a - b + TWO_32 }

  /** The serial number carried by the packet or frame at an unbounded position. */
  function Wrap(position: int): u32 { position % TWO_32 }

  /** Is position `p` within half a ring of `h`?  Wrapping distances are unambiguous exactly then. */
  predicate Near(p: int, h: int) { -TWO_31 <= p - h < TWO_31 }

  /** Is `sequence` less than half a ring ahead of `previous`? */
  predicate Ahead(sequence: u32, previous: u32) {
    var delta := WrappingSub(sequence, previous);
    delta != 0 && delta < TWO_31
  }

  /** Below half a ring, wrapping subtraction of serial numbers is subtraction of positions. */
  lemma WrappingSubIsDistance(p: int, h: int)
    requires 0 <= p - h < TWO_32
    ensures WrappingSub(Wrap(p), Wrap(h)) == p - h
  {
    var qp, qh := p / TWO_32, h / TWO_32;
    assert Wrap(p) - Wrap(h) == (p - h) + TWO_32 * (qh - qp);
    ModPlusMultiple(p - h, qh - qp);
  }

  lemma ModPlusMultiple(x: int, k: int)
    requires 0 <= x < TWO_32
    ensures (x + TWO_32 * k) % TWO_32 == x
  {
  }

  lemma WrapPeriod(p: int)
    ensures Wrap(p + TWO_32) == Wrap(p)
  {
  }

  /** The position near `h` that a serial number stands for. */
  function Unwrap(sequence: u32, h: int): (p: int)
    ensures Near(p, h) && Wrap(p) == sequence
  {
    WrapOfSum(h - TWO_31, sequence);
    h - TWO_31 + WrappingSub(sequence, Wrap(h - TWO_31))
  }

  /** Every serial number denotes exactly one position near a given one. */
  lemma NearPositionIsUnique(sequence: u32, h: int, p: int)
    requires Near(p, h) && Wrap(p) == sequence
    ensures p == Unwrap(sequence, h)
  {
    hide Wrap;
    var q := Unwrap(sequence, h);
    if p <= q {
      WrappingSubIsDistance(q, p);
    } else {
      WrappingSubIsDistance(p, q);
    }
  }

  /** Going ahead by the wrapping distance to a serial number arrives at it. */
  lemma WrapOfSum(position: int, sequence: u32)
    ensures Wrap(position + WrappingSub(sequence, Wrap(position))) == sequence
  {
    var k := position / TWO_32;
    assert position == Wrap(position) + TWO_32 * k;
    ModPlusMultiple(sequence, if sequence >= Wrap(position) then k else k + 1);
  }

  /** The wrapping comparison decides the order of positions within half a ring of each other. */
  lemma AheadMeansHigher(position: int, highest: int)
    requires Near(position, highest)
    ensures Ahead(Wrap(position), Wrap(highest)) <==> position > highest
    ensures position > highest ==> WrappingSub(Wrap(position), Wrap(highest)) == position - highest
    ensures position <= highest ==> WrappingSub(Wrap(highest), Wrap(position)) == highest - position
  {
    if position >= highest {
      WrappingSubIsDistance(position, highest);
    } else {
      WrappingSubIsDistance(highest, position);
      WrappingSubIsDistance(position + TWO_32, highest);
    }
  }
}
