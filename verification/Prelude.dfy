/** Types and facts shared by the component models. */
module Prelude {

  datatype Option<+T> = None | Some(value: T)

  datatype Result<+T, +E> = Ok(value: T) | Err(error: E)

  newtype byte = x: int | 0 <= x < 256

  type Bytes = seq<byte>

  const U64_MAX: nat := 0xFFFF_FFFF_FFFF_FFFF

  function SaturatingSub(a: int, b: int): nat { if a > b then a - b else 0 }

  lemma MultiplyMonotone(a: nat, b: nat, k: nat)
    requires a <= b
    ensures a * k <= b * k
  {
  }

  function Min(a: int, b: int): int { if a < b then a else b }

  /** The last `k` elements of `s`, or all of them when there are fewer. */
  function LastN<T>(s: seq<T>, k: nat): seq<T> {
    if |s| <= k then s else s[|s| - k..]
  }

  lemma LastNOfNothing<T>(s: seq<T>, k: nat)
    requires s == [] || k == 0
    ensures LastN(s, k) == []
  {
  }

  /** `x`, `n` times over. */
  function Repeat<T>(x: T, n: nat): (s: seq<T>)
    ensures |s| == n && forall i :: 0 <= i < n ==> s[i] == x
  {
    seq(n, _ => x)
  }

  lemma RepeatSnoc<T>(x: T, n: nat)
    requires n > 0
    ensures Repeat(x, n) == Repeat(x, n - 1) + [x]
  {
  }

  lemma LastNSnoc<T>(s: seq<T>, x: T, k: nat)
    requires k > 0
    ensures LastN(s + [x], k) == LastN(s, k - 1) + [x]
  {
  }
}
