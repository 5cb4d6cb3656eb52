/** The byte-level checks of text and of white space, in terms of the Unicode scalar values that UTF-8 encodes. */
module Utf8Text {
  import opened Prelude
  import opened HttpHead

  /** A Unicode scalar value: a code point that is not a surrogate. */
  predicate Scalar(c: nat) { c <= 0x10_FFFF && !(0xD800 <= c <= 0xDFFF) }

  /** The UTF-8 form of a scalar value (section 3 of RFC 3629). */
  function Encode(c: nat): (b: Bytes)
    requires Scalar(c)
    ensures 1 <= |b| <= 4
  {
    if c < 0x80 then [c as byte]
    else if c < 0x800 then [(0xC0 + c / 64) as byte, (0x80 + c % 64) as byte]
    else if c < 0x1_0000 then [(0xE0 + c / 4096) as byte, (0x80 + c / 64 % 64) as byte, (0x80 + c % 64) as byte]
    else
      [(0xF0 + c / 262144) as byte, (0x80 + c / 4096 % 64) as byte, (0x80 + c / 64 % 64) as byte,
       (0x80 + c % 64) as byte]
  }

  ghost predicate Scalars(cs: seq<nat>) { forall i :: 0 <= i < |cs| ==> Scalar(cs[i]) }

  function EncodeAll(cs: seq<nat>): Bytes
    requires Scalars(cs)
  {
    if cs == [] then [] else Encode(cs[0]) + EncodeAll(cs[1..])
  }

  /** The UTF-8 form of a scalar value is recognized, whatever comes after it. */
  lemma EncodedIsRecognized(c: nat, rest: Bytes)
    requires Scalar(c)
    ensures Utf8Length(Encode(c) + rest) == |Encode(c)|
  {
    hide Utf8Length;
    EncodedBytes(c);
    var s := Encode(c) + rest;
    assert forall i :: 0 <= i < |Encode(c)| ==> s[i] == Encode(c)[i];
    hide Encode;
    RecognizedFromBytes(s, |Encode(c)|);
  }

  /** The bytes of the UTF-8 form are in the ranges of the table. */
  ghost predicate InRange(b: Bytes, n: nat)
    requires |b| >= n
  {
    || (n == 1 && b[0] as int < 0x80)
    || (n == 2 && 0xC2 <= b[0] as int <= 0xDF && Tail(b[1] as int))
    || (n == 3 && 0xE0 <= b[0] as int <= 0xEF && Tail(b[1] as int) && Tail(b[2] as int)
        && (b[0] == 0xE0 ==> b[1] >= 0xA0) && (b[0] == 0xED ==> b[1] <= 0x9F))
    || (n == 4 && 0xF0 <= b[0] as int <= 0xF4 && Tail(b[1] as int) && Tail(b[2] as int) && Tail(b[3] as int)
        && (b[0] == 0xF0 ==> b[1] >= 0x90) && (b[0] == 0xF4 ==> b[1] <= 0x8F))
  }

  lemma EncodedBytes(c: nat)
    requires Scalar(c)
    ensures InRange(Encode(c), |Encode(c)|)
  {
    if c < 0x1_0000 {
      assert c / 4096 == c / 64 / 64;
    } else {
      assert c / 4096 == c / 64 / 64 && c / 262144 == c / 4096 / 64;
    }
  }

  lemma RecognizedFromBytes(s: Bytes, n: nat)
    requires |s| >= n && InRange(s, n)
    ensures Utf8Length(s) == n
  {
  }

  predicate Tail(b: nat) { 0x80 <= b <= 0xBF }

  lemma EncodeTwo(a: nat, b: nat)
    requires 0xC2 <= a <= 0xDF && Tail(b)
    ensures
      var c := (a - 0xC0) * 64 + (b - 0x80);
      Scalar(c) && Encode(c) == [a as byte, b as byte]
  {
  }

  lemma EncodeThree(a: nat, b: nat, d: nat)
    requires 0xE0 <= a <= 0xEF && Tail(b) && Tail(d) && (a == 0xE0 ==> b >= 0xA0) && (a == 0xED ==> b <= 0x9F)
    ensures
      var c := ((a - 0xE0) * 64 + (b - 0x80)) * 64 + (d - 0x80);
      Scalar(c) && Encode(c) == [a as byte, b as byte, d as byte]
  {
    var c := ((a - 0xE0) * 64 + (b - 0x80)) * 64 + (d - 0x80);
    assert c / 64 == (a - 0xE0) * 64 + (b - 0x80) && c % 64 == d - 0x80;
    assert c / 4096 == c / 64 / 64;
  }

  lemma EncodeFour(a: nat, b: nat, d: nat, e: nat)
    requires 0xF0 <= a <= 0xF4 && Tail(b) && Tail(d) && Tail(e)
    requires (a == 0xF0 ==> b >= 0x90) && (a == 0xF4 ==> b <= 0x8F)
    ensures
      var c := (((a - 0xF0) * 64 + (b - 0x80)) * 64 + (d - 0x80)) * 64 + (e - 0x80);
      Scalar(c) && Encode(c) == [a as byte, b as byte, d as byte, e as byte]
  {
    var x := (a - 0xF0) * 64 + (b - 0x80);
    var y := x * 64 + (d - 0x80);
    var c := y * 64 + (e - 0x80);
    assert c / 64 == y && c % 64 == e - 0x80;
    assert y / 64 == x && y % 64 == d - 0x80;
    assert x / 64 == a - 0xF0 && x % 64 == b - 0x80;
    assert c / 4096 == c / 64 / 64 && c / 262144 == c / 4096 / 64;
  }

  /** Whatever is recognized is the UTF-8 form of a scalar value. */
  lemma RecognizedIsEncoded(s: Bytes) returns (c: nat)
    requires Utf8Length(s) > 0
    ensures Scalar(c) && Encode(c) == s[..Utf8Length(s)]
  {
    hide Encode, Scalar;
    RecognizedBytes(s);
    var n := Utf8Length(s);
    if n == 1 {
      c := s[0] as int;
      EncodeAscii(c);
    } else if n == 2 {
      c := (s[0] as int - 0xC0) * 64 + (s[1] as int - 0x80);
      EncodeTwo(s[0] as int, s[1] as int);
    } else if n == 3 {
      c := ((s[0] as int - 0xE0) * 64 + (s[1] as int - 0x80)) * 64 + (s[2] as int - 0x80);
      EncodeThree(s[0] as int, s[1] as int, s[2] as int);
    } else {
      c := (((s[0] as int - 0xF0) * 64 + (s[1] as int - 0x80)) * 64 + (s[2] as int - 0x80)) * 64 + (s[3] as int - 0x80);
      EncodeFour(s[0] as int, s[1] as int, s[2] as int, s[3] as int);
    }
  }

  lemma EncodeAscii(c: nat)
    requires c < 0x80
    ensures Scalar(c) && Encode(c) == [c as byte]
  {
  }

  lemma RecognizedBytes(s: Bytes)
    ensures Utf8Length(s) <= |s| && (Utf8Length(s) > 0 ==> InRange(s, Utf8Length(s)))
  {
  }

  /** Bytes are text exactly if they encode a sequence of scalar values. */
  lemma TextIsScalars(s: Bytes)
    ensures ValidUtf8(s) <==> exists cs: seq<nat> :: Scalars(cs) && s == EncodeAll(cs)
  {
    if ValidUtf8(s) {
      var cs := Decoded(s);
      assert Scalars(cs) && s == EncodeAll(cs);
    }
    if cs: seq<nat> :| Scalars(cs) && s == EncodeAll(cs) {
      EncodedIsText(cs);
    }
  }

  lemma {:induction false} Decoded(s: Bytes) returns (cs: seq<nat>)
    requires ValidUtf8(s)
    ensures Scalars(cs) && s == EncodeAll(cs)
    decreases |s|
  {
    hide Utf8Length, Encode;
    if s == [] {
      cs := [];
    } else {
      var c := RecognizedIsEncoded(s);
      var rest := Decoded(s[Utf8Length(s)..]);
      cs := [c] + rest;
      assert cs[1..] == rest && s == s[..Utf8Length(s)] + s[Utf8Length(s)..];
    }
  }

  lemma {:induction false} EncodedIsText(cs: seq<nat>)
    requires Scalars(cs)
    ensures ValidUtf8(EncodeAll(cs))
  {
    hide Utf8Length, Encode;
    if cs != [] {
      EncodedIsText(cs[1..]);
      EncodedIsRecognized(cs[0], EncodeAll(cs[1..]));
      var s := EncodeAll(cs);
      assert s[|Encode(cs[0])|..] == EncodeAll(cs[1..]);
    }
  }

  // ----- white space

  /** The code points with the Unicode property White_Space. */
  predicate WhiteSpace(c: nat) {
    || 9 <= c <= 13 || c == 0x20 || c == 0x85 || c == 0xA0 || c == 0x1680 || 0x2000 <= c <= 0x200A
    || c == 0x2028 || c == 0x2029 || c == 0x202F || c == 0x205F || c == 0x3000
  }

  lemma LeadingSpaceExactly(c: nat, rest: Bytes)
    requires Scalar(c)
    ensures LeadingSpace(Encode(c) + rest) == if WhiteSpace(c) then |Encode(c)| else 0
  {
    var s := Encode(c) + rest;
    assert forall i :: 0 <= i < |Encode(c)| ==> s[i] == Encode(c)[i];
  }

  lemma TrailingSpaceExactly(front: Bytes, c: nat)
    requires Scalar(c)
    ensures TrailingSpace(front + Encode(c)) == if WhiteSpace(c) then |Encode(c)| else 0
  {
    hide TrailingSpace;
    if c < 0x80 {
      TrailingOne(front, c);
    } else if c < 0x800 {
      TrailingTwo(front, c);
    } else if c < 0x1_0000 {
      TrailingThree(front, c);
    } else {
      TrailingFour(front, c);
    }
  }

  lemma TrailingOne(front: Bytes, c: nat)
    requires c < 0x80
    ensures TrailingSpace(front + [c as byte]) == if WhiteSpace(c) then 1 else 0
  {
  }

  lemma TrailingTwo(front: Bytes, c: nat)
    requires 0x80 <= c < 0x800
    ensures
      TrailingSpace(front + [(0xC0 + c / 64) as byte, (0x80 + c % 64) as byte]) == if WhiteSpace(c) then 2 else 0
  {
    var s := front + [(0xC0 + c / 64) as byte, (0x80 + c % 64) as byte];
    assert s[|s| - 1] == (0x80 + c % 64) as byte && s[|s| - 2] == (0xC0 + c / 64) as byte;
  }

  lemma TrailingThree(front: Bytes, c: nat)
    requires 0x800 <= c < 0x1_0000
    ensures
      TrailingSpace(front + [(0xE0 + c / 4096) as byte, (0x80 + c / 64 % 64) as byte, (0x80 + c % 64) as byte]) ==
      if WhiteSpace(c) then 3 else 0
  {
    var x, y, z := c / 4096, c / 64 % 64, c % 64;
    ThreeDigits(c);
    var s := front + [(0xE0 + x) as byte, (0x80 + y) as byte, (0x80 + z) as byte];
    assert s[|s| - 1] == (0x80 + z) as byte && s[|s| - 2] == (0x80 + y) as byte && s[|s| - 3] == (0xE0 + x) as byte;
  }

  lemma ThreeDigits(c: nat)
    requires c < 0x1_0000
    ensures c == c / 4096 * 4096 + c / 64 % 64 * 64 + c % 64
  {
    assert c / 4096 == c / 64 / 64;
  }

  lemma TrailingFour(front: Bytes, c: nat)
    requires 0x1_0000 <= c <= 0x10_FFFF
    ensures TrailingSpace(front + Encode(c)) == 0
  {
    var s, n := front + Encode(c), 4;
    assert Encode(c)[3] >= 0x80 && Encode(c)[2] >= 0x80 && 0x80 <= Encode(c)[1] <= 0xBF && Encode(c)[2] <= 0xBF;
    assert s[|s| - 1] == Encode(c)[3] && s[|s| - 2] == Encode(c)[2] && s[|s| - 3] == Encode(c)[1];
  }

  lemma {:induction false} EncodeAppend(a: seq<nat>, b: seq<nat>)
    requires Scalars(a) && Scalars(b)
    ensures EncodeAll(a + b) == EncodeAll(a) + EncodeAll(b)
  {
    hide Encode, Scalar;
    if a == [] {
      assert a + b == b;
    } else {
      assert (a + b)[1..] == a[1..] + b;
      EncodeAppend(a[1..], b);
    }
  }

  /** The scalar values of a trimmed text: no white space is left at either end, and nothing else is gone. */
  ghost predicate Trimmed(cs: seq<nat>, i: nat, j: nat) {
    && i <= j <= |cs|
    && (forall k :: 0 <= k < i ==> WhiteSpace(cs[k])) && (forall k :: j <= k < |cs| ==> WhiteSpace(cs[k]))
    && (i < j ==> !WhiteSpace(cs[i]) && !WhiteSpace(cs[j - 1]))
  }

  lemma {:induction false} TrimStartExactly(cs: seq<nat>) returns (i: nat)
    requires Scalars(cs)
    ensures i <= |cs| && TrimStart(EncodeAll(cs)) == EncodeAll(cs[i..])
    ensures (forall k :: 0 <= k < i ==> WhiteSpace(cs[k])) && (i < |cs| ==> !WhiteSpace(cs[i]))
  {
    hide LeadingSpace, Encode, WhiteSpace;
    if cs == [] {
      i := 0;
      NoLeadingSpace();
    } else {
      LeadingSpaceExactly(cs[0], EncodeAll(cs[1..]));
      if WhiteSpace(cs[0]) {
        var s, n := EncodeAll(cs), |Encode(cs[0])|;
        assert s[n..] == EncodeAll(cs[1..]);
        var k := TrimStartExactly(cs[1..]);
        i := k + 1;
        assert cs[1..][k..] == cs[i..];
        assert forall m :: 1 <= m < i ==> cs[m] == cs[1..][m - 1];
      } else {
        i := 0;
        assert cs[0..] == cs;
      }
    }
  }

  lemma NoLeadingSpace()
    ensures LeadingSpace([]) == 0 && TrailingSpace([]) == 0
  {
  }

  lemma {:induction false} TrimEndExactly(cs: seq<nat>) returns (j: nat)
    requires Scalars(cs)
    ensures j <= |cs| && TrimEnd(EncodeAll(cs)) == EncodeAll(cs[..j])
    ensures (forall k :: j <= k < |cs| ==> WhiteSpace(cs[k])) && (j > 0 ==> !WhiteSpace(cs[j - 1]))
  {
    hide TrailingSpace, Encode, WhiteSpace, EncodeAll;
    if cs == [] {
      j := 0;
      EncodeNothing();
      NoLeadingSpace();
    } else {
      var front, last := cs[..|cs| - 1], cs[|cs| - 1];
      assert cs == front + [last];
      EncodeAppend(front, [last]);
      EncodeOne(last);
      TrailingSpaceExactly(EncodeAll(front), last);
      if WhiteSpace(last) {
        var s := EncodeAll(cs);
        assert s[..|s| - |Encode(last)|] == EncodeAll(front);
        j := TrimEndExactly(front);
        assert front[..j] == cs[..j];
      } else {
        j := |cs|;
        assert cs[..j] == cs;
      }
    }
  }

  lemma EncodeNothing()
    ensures EncodeAll([]) == []
  {
  }

  lemma EncodeOne(c: nat)
    requires Scalar(c)
    ensures EncodeAll([c]) == Encode(c)
  {
    assert [c][1..] == [];
  }

  /** Trimming takes the white space off both ends of a text, and nothing else. */
  lemma TrimExactly(cs: seq<nat>) returns (i: nat, j: nat)
    requires Scalars(cs)
    ensures Trimmed(cs, i, j) && Trim(EncodeAll(cs)) == EncodeAll(cs[i..j])
  {
    hide TrimStart, TrimEnd, EncodeAll, WhiteSpace, Scalar;
    i := TrimStartExactly(cs);
    var rest := cs[i..];
    var k := TrimEndExactly(rest);
    j := i + k;
    assert rest[..k] == cs[i..j];
    assert forall m :: 0 <= m < |rest| ==> rest[m] == cs[i + m];
    assert forall m :: j <= m < |cs| ==> cs[m] == rest[m - i];
  }
}
