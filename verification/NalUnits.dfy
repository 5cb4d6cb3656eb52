/**
 Access units as length-prefixed NAL units: parsing, printing, the Annex B form, and the parameter-set
 blobs a decoder is opened with.
 */
module NalUnits {
  import opened Prelude

  const LENGTH_BYTES: nat := 4
  const MAX_UNIT: nat := 0xFFFF_FFFF
  const START_CODE: Bytes := [0, 0, 0, 1]

  datatype DecodeError = TruncatedNalu(offset: nat) | EmptyNalu(offset: nat) | MissingParameterSets

  datatype CodecKind = Hevc | H264

  // ----- four-byte big-endian lengths

  function FromBigEndian(b: Bytes): (n: nat)
    requires |b| == LENGTH_BYTES
    ensures n <= MAX_UNIT
  {
    ((b[0] as int * 256 + b[1] as int) * 256 + b[2] as int) * 256 + b[3] as int
  }

  function ToBigEndian(n: nat): (b: Bytes)
    requires n <= MAX_UNIT
    ensures |b| == LENGTH_BYTES
  {
    [(n / 256 / 256 / 256) as byte, (n / 256 / 256 % 256) as byte, (n / 256 % 256) as byte, (n % 256) as byte]
  }

  lemma BigEndianRoundTrip(n: nat)
    requires n <= MAX_UNIT
    ensures FromBigEndian(ToBigEndian(n)) == n
  {
  }

  lemma BigEndianIsUnique(b: Bytes)
    requires |b| == LENGTH_BYTES
    ensures ToBigEndian(FromBigEndian(b)) == b
  {
    var n := FromBigEndian(b);
    assert n / 256 == (b[0] as int * 256 + b[1] as int) * 256 + b[2] as int && n % 256 == b[3] as int;
    assert n / 256 / 256 == b[0] as int * 256 + b[1] as int && n / 256 % 256 == b[2] as int;
    assert n / 256 / 256 / 256 == b[0] as int && n / 256 / 256 % 256 == b[1] as int;
  }

  /** The first byte weighs most. */
  lemma BigEndianWeights(b: Bytes)
    requires |b| == LENGTH_BYTES
    ensures
      FromBigEndian(b) == 0x100_0000 * b[0] as int + 0x1_0000 * b[1] as int + 0x100 * b[2] as int + b[3] as int
  {
  }

  // ----- parsing and printing

  /** The units from `offset` to the end of the access unit. */
  function ParseFrom(s: Bytes, offset: nat): Result<seq<Bytes>, DecodeError>
    requires offset <= |s|
    decreases |s| - offset
  {
    if offset == |s| then Ok([])
    else if |s| - offset < LENGTH_BYTES then Err(TruncatedNalu(offset))
    else
      var length, start := FromBigEndian(s[offset..offset + LENGTH_BYTES]), offset + LENGTH_BYTES;
      if length < 2 then Err(EmptyNalu(offset))
      else if start + length > |s| then Err(TruncatedNalu(offset))
      else
        match ParseFrom(s, start + length)
        case Err(e) => Err(e)
        case Ok(units) => Ok([s[start..start + length]] + units)
  }

  function Parse(s: Bytes): Result<seq<Bytes>, DecodeError> {
    if s == [] then Err(TruncatedNalu(0)) else ParseFrom(s, 0)
  }

  predicate ValidUnit(u: Bytes) { 2 <= |u| <= MAX_UNIT }

  ghost predicate ValidUnits(units: seq<Bytes>) { forall i :: 0 <= i < |units| ==> ValidUnit(units[i]) }

  /** The length-prefixed form. */
  function Print(units: seq<Bytes>): Bytes
    requires ValidUnits(units)
  {
    if units == [] then [] else ToBigEndian(|units[0]|) + units[0] + Print(units[1..])
  }

  /** The Annex B form: start codes instead of lengths. */
  function AnnexB(units: seq<Bytes>): Bytes {
    if units == [] then [] else START_CODE + units[0] + AnnexB(units[1..])
  }

  /** A printed unit is parsed first, whatever comes before and after it. */
  lemma ParsePrinted(before: Bytes, u: Bytes, after: Bytes)
    requires ValidUnit(u)
    ensures
      var start := |before| + LENGTH_BYTES;
      ParseFrom(before + (ToBigEndian(|u|) + u) + after, |before|) ==
      Prefixed(u, ParseFrom(before + (ToBigEndian(|u|) + u) + after, start + |u|))
  {
    hide ParseFrom, ToBigEndian, FromBigEndian;
    var s, start := before + (ToBigEndian(|u|) + u) + after, |before| + LENGTH_BYTES;
    assert s[|before|..start] == ToBigEndian(|u|) && s[start..start + |u|] == u;
    BigEndianRoundTrip(|u|);
    ParseOne(s, |before|);
  }

  lemma PrintCons(units: seq<Bytes>)
    requires units != [] && ValidUnits(units)
    ensures ValidUnit(units[0]) && ValidUnits(units[1..])
    ensures Print(units) == (ToBigEndian(|units[0]|) + units[0]) + Print(units[1..])
  {
  }

  lemma ParsePrintedStep(before: Bytes, u: Bytes, rest: seq<Bytes>, after: Bytes)
    requires ValidUnit(u)
    requires ParseFrom(before + (ToBigEndian(|u|) + u) + after, |before + (ToBigEndian(|u|) + u)|) == Ok(rest)
    ensures ParseFrom(before + ((ToBigEndian(|u|) + u) + after), |before|) == Ok([u] + rest)
  {
    hide ParseFrom, ToBigEndian;
    ParsePrinted(before, u, after);
    assert before + (ToBigEndian(|u|) + u) + after == before + ((ToBigEndian(|u|) + u) + after);
  }

  /** Parsing the print of units that start at `offset` gives them back. */
  lemma {:induction false} ParsePrintFrom(before: Bytes, units: seq<Bytes>)
    requires ValidUnits(units)
    ensures ParseFrom(before + Print(units), |before|) == Ok(units)
    decreases |units|
  {
    hide ValidUnits, ParseFrom, ToBigEndian, Print;
    if units != [] {
      var u, rest := units[0], units[1..];
      PrintCons(units);
      ParsePrintFrom(before + (ToBigEndian(|u|) + u), rest);
      ParsePrintedStep(before, u, rest, Print(rest));
      assert units == [u] + rest;
    } else {
      PrintNothing();
      assert before + Print(units) == before;
      ParseNothing(before);
    }
  }

  lemma PrintNothing()
    ensures Print([]) == []
  {
  }

  /** Printing a nonempty list of units and parsing it again gives the list back. */
  lemma ParseUndoesPrint(units: seq<Bytes>)
    requires units != [] && ValidUnits(units)
    ensures Parse(Print(units)) == Ok(units)
  {
    ParsePrintFrom([], units);
    assert [] + Print(units) == Print(units);
  }

  lemma PrintParsedStep(s: Bytes, offset: nat)
    requires offset < |s| && ParseFrom(s, offset).Ok?
    ensures |s| - offset >= LENGTH_BYTES
    ensures
      var length, start := FromBigEndian(s[offset..offset + LENGTH_BYTES]), offset + LENGTH_BYTES;
      && 2 <= length && start + length <= |s| && ParseFrom(s, start + length).Ok?
      && ParseFrom(s, offset).value == [s[start..start + length]] + ParseFrom(s, start + length).value
      && s[offset..] == ToBigEndian(length) + s[start..start + length] + s[start + length..]
  {
    hide ParseFrom, ToBigEndian, FromBigEndian;
    ParseOne(s, offset);
    var start := offset + LENGTH_BYTES;
    var length := FromBigEndian(s[offset..start]);
    BigEndianIsUnique(s[offset..start]);
    assert s[offset..] == s[offset..start] + s[start..start + length] + s[start + length..];
  }

  lemma {:induction false} PrintParsedFrom(s: Bytes, offset: nat)
    requires offset <= |s| && ParseFrom(s, offset).Ok?
    ensures ValidUnits(ParseFrom(s, offset).value) && Print(ParseFrom(s, offset).value) == s[offset..]
    ensures offset < |s| ==> ParseFrom(s, offset).value != []
    decreases |s| - offset
  {
    hide ParseFrom, ToBigEndian, FromBigEndian;
    if offset < |s| {
      PrintParsedStep(s, offset);
      var length, start := FromBigEndian(s[offset..offset + LENGTH_BYTES]), offset + LENGTH_BYTES;
      PrintParsedFrom(s, start + length);
      var units, rest := ParseFrom(s, offset).value, ParseFrom(s, start + length).value;
      assert units[0] == s[start..start + length] && units[1..] == rest;
      PrintCons(units);
    } else {
      ParseNothing(s);
    }
  }

  /** Printing what has been parsed gives the access unit back; parsing accepts nothing else. */
  lemma PrintUndoesParse(s: Bytes)
    requires Parse(s).Ok?
    ensures Parse(s).value != [] && ValidUnits(Parse(s).value) && Print(Parse(s).value) == s
  {
    PrintParsedFrom(s, 0);
    assert s[0..] == s;
  }

  /** After the print of some units, the parser goes on with the rest. */
  lemma {:induction false} ParseAfterPrint(before: Bytes, units: seq<Bytes>, rest: Bytes)
    requires ValidUnits(units)
    ensures
      var s := before + Print(units) + rest;
      ParseFrom(s, |before + Print(units)|).Err? ==> ParseFrom(s, |before|) == ParseFrom(s, |before + Print(units)|)
    decreases |units|
  {
    hide ValidUnits, ParseFrom, ToBigEndian, Print;
    if units != [] {
      var u, more := units[0], units[1..];
      PrintCons(units);
      var first := ToBigEndian(|u|) + u;
      ParseAfterPrint(before + first, more, rest);
      ParsePrinted(before, u, Print(more) + rest);
      assert before + Print(units) + rest == before + first + (Print(more) + rest);
      assert before + Print(units) + rest == (before + first) + Print(more) + rest;
      assert before + Print(units) == (before + first) + Print(more);
    } else {
      PrintNothing();
      assert before + Print(units) == before;
    }
  }

  /** What is wrong with the bytes after the last proper unit, if anything. */
  ghost predicate BrokenOff(rest: Bytes) {
    || 1 <= |rest| <= 3
    || exists n: nat :: 2 <= n <= MAX_UNIT && |rest| >= 4 && rest[..4] == ToBigEndian(n) && |rest| < 4 + n
  }

  ghost predicate TooShort(rest: Bytes) { |rest| >= 4 && (rest[..4] == [0, 0, 0, 0] || rest[..4] == [0, 0, 0, 1]) }

  /**
   The first defect is reported with its offset: after any proper units, a length or a unit that breaks off,
   or a unit of less than two bytes.
   */
  lemma DefectsAreReported(units: seq<Bytes>, rest: Bytes)
    requires ValidUnits(units)
    ensures BrokenOff(rest) ==> Parse(Print(units) + rest) == Err(TruncatedNalu(|Print(units)|))
    ensures TooShort(rest) ==> Parse(Print(units) + rest) == Err(EmptyNalu(|Print(units)|))
    ensures Parse([]) == Err(TruncatedNalu(0))
  {
    hide ParseFrom, ToBigEndian, FromBigEndian, Print;
    var s, o := Print(units) + rest, |Print(units)|;
    ParseAfterPrint([], units, rest);
    assert [] + Print(units) + rest == s && [] + Print(units) == Print(units);
    if rest != [] {
      ParseOne(s, o);
      DefectAt(s, o, rest);
    }
  }

  lemma DefectAt(s: Bytes, o: nat, rest: Bytes)
    requires rest != [] && o + |rest| == |s| && s[o..] == rest
    ensures BrokenOff(rest) ==> ParseFrom(s, o) == Err(TruncatedNalu(o))
    ensures TooShort(rest) ==> ParseFrom(s, o) == Err(EmptyNalu(o))
  {
    hide ParseFrom, ToBigEndian, FromBigEndian;
    ParseOne(s, o);
    if |rest| >= 4 {
      assert s[o..o + LENGTH_BYTES] == rest[..4];
      ShortLengths();
      if n: nat :| 2 <= n <= MAX_UNIT && rest[..4] == ToBigEndian(n) && |rest| < 4 + n {
        BigEndianRoundTrip(n);
      }
    }
  }

  lemma ShortLengths()
    ensures FromBigEndian([0, 0, 0, 0]) == 0 && FromBigEndian([0, 0, 0, 1]) == 1
  {
  }

  /** Start codes are as long as lengths. */
  lemma {:induction false} AnnexBKeepsLength(units: seq<Bytes>)
    requires ValidUnits(units)
    ensures |AnnexB(units)| == |Print(units)|
  {
    if units != [] {
      AnnexBKeepsLength(units[1..]);
    }
  }

  /** The print of one unit more. */
  lemma {:induction false} PrintAppend(a: seq<Bytes>, b: seq<Bytes>)
    requires ValidUnits(a) && ValidUnits(b)
    ensures ValidUnits(a + b) && Print(a + b) == Print(a) + Print(b) && AnnexB(a + b) == AnnexB(a) + AnnexB(b)
    decreases |a|
  {
    if a == [] {
      assert a + b == b;
    } else {
      hide ToBigEndian;
      assert (a + b)[1..] == a[1..] + b;
      PrintAppend(a[1..], b);
    }
  }

  lemma PrintOne(u: Bytes)
    requires ValidUnit(u)
    ensures Print([u]) == ToBigEndian(|u|) + u && AnnexB([u]) == [0, 0, 0, 1] + u
  {
    hide ToBigEndian;
    assert [u][1..] == [];
  }

  /** At the same places where the one form has the lengths the other has start codes, and nothing else differs. */
  lemma FormsDifferInLengthsOnly(units: seq<Bytes>, i: nat)
    requires ValidUnits(units) && i < |units|
    ensures ValidUnits(units[..i])
    ensures
      var o, n := |Print(units[..i])|, |units[i]|;
      && o + 4 + n <= |Print(units)| == |AnnexB(units)|
      && Print(units)[o..o + 4] == ToBigEndian(n) && AnnexB(units)[o..o + 4] == [0, 0, 0, 1]
      && Print(units)[o + 4..o + 4 + n] == units[i] == AnnexB(units)[o + 4..o + 4 + n]
  {
    hide Print, AnnexB, ToBigEndian;
    var a, u, b := units[..i], units[i], units[i + 1..];
    assert units == a + ([u] + b);
    PrintAppend([u], b);
    PrintAppend(a, [u] + b);
    PrintOne(u);
    AnnexBKeepsLength(a);
    AnnexBKeepsLength(units);
    var p, q := Print(units), AnnexB(units);
    assert p == Print(a) + (ToBigEndian(|u|) + u + Print(b));
    assert q == AnnexB(a) + ([0, 0, 0, 1] + u + AnnexB(b));
  }

  // ----- parameter sets

  function HevcType(u: Bytes): nat
    requires u != []
  {
    u[0] as int / 2 % 64
  }

  function H264Type(u: Bytes): nat { if u == [] then 0 else u[0] as int % 32 }

  function TypeOf(kind: CodecKind, u: Bytes): nat {
    if kind.H264? then H264Type(u) else if u == [] then 0 else HevcType(u)
  }

  /** The parameter-set types of a codec, in the order of the blob: VPS, SPS, PPS or SPS, PPS. */
  function SetTypes(kind: CodecKind): seq<nat> { if kind.H264? then [7, 8] else [32, 33, 34] }

  /** The last unit of a type wins. */
  function LastOfType(kind: CodecKind, units: seq<Bytes>, t: nat): Option<Bytes> {
    if units == [] then None
    else if TypeOf(kind, units[|units| - 1]) == t then Some(units[|units| - 1])
    else LastOfType(kind, units[..|units| - 1], t)
  }

  /** The parameter sets of the given types, if all are there. */
  function Sets(kind: CodecKind, units: seq<Bytes>, types: seq<nat>): Option<seq<Bytes>> {
    if types == [] then Some([])
    else
      match (LastOfType(kind, units, types[0]), Sets(kind, units, types[1..]))
      case (Some(u), Some(rest)) => Some([u] + rest)
      case _ => None
  }

  /** The units of the parameter-set blob. */
  function BlobUnits(kind: CodecKind, s: Bytes): Result<seq<Bytes>, DecodeError> {
    match Parse(s)
    case Err(e) => Err(e)
    case Ok(units) =>
      match Sets(kind, units, SetTypes(kind))
      case None => Err(MissingParameterSets)
      case Some(sets) => Ok(sets)
  }

  /** The unit at index `i` is the last one of type `t`. */
  ghost predicate IsLastOfType(kind: CodecKind, units: seq<Bytes>, t: nat, i: nat) {
    i < |units| && TypeOf(kind, units[i]) == t && forall j :: i < j < |units| ==> TypeOf(kind, units[j]) != t
  }

  lemma {:induction false} NoneOfType(kind: CodecKind, units: seq<Bytes>, t: nat)
    requires LastOfType(kind, units, t).None?
    ensures forall i :: 0 <= i < |units| ==> TypeOf(kind, units[i]) != t
  {
    if units != [] {
      hide TypeOf;
      NoneOfType(kind, units[..|units| - 1], t);
    }
  }

  lemma {:induction false} IndexOfLastOfType(kind: CodecKind, units: seq<Bytes>, t: nat) returns (i: nat)
    requires LastOfType(kind, units, t).Some?
    ensures IsLastOfType(kind, units, t, i) && LastOfType(kind, units, t) == Some(units[i])
  {
    hide TypeOf;
    if TypeOf(kind, units[|units| - 1]) == t {
      i := |units| - 1;
    } else {
      i := IndexOfLastOfType(kind, units[..|units| - 1], t);
    }
  }

  /** The unit chosen for a type is the last one of that type; none is chosen exactly if there is none. */
  lemma LastOfTypeIsOne(kind: CodecKind, units: seq<Bytes>, t: nat)
    ensures
      LastOfType(kind, units, t).None? <==> forall i :: 0 <= i < |units| ==> TypeOf(kind, units[i]) != t
    ensures
      LastOfType(kind, units, t).Some? ==>
        exists i: nat :: IsLastOfType(kind, units, t, i) && units[i] == LastOfType(kind, units, t).value
  {
    hide LastOfType, TypeOf;
    if LastOfType(kind, units, t).Some? {
      var i := IndexOfLastOfType(kind, units, t);
    } else {
      NoneOfType(kind, units, t);
    }
  }

  /** The sets found are units of the access unit, one of each type, in order. */
  lemma {:induction false} SetsAreUnits(kind: CodecKind, units: seq<Bytes>, types: seq<nat>)
    requires ValidUnits(units) && Sets(kind, units, types).Some?
    ensures
      var sets := Sets(kind, units, types).value;
      && |sets| == |types|
      && forall i :: 0 <= i < |sets| ==> sets[i] in units && ValidUnit(sets[i]) && TypeOf(kind, sets[i]) == types[i]
  {
    if types != [] {
      SetsAreUnits(kind, units, types[1..]);
      var i := IndexOfLastOfType(kind, units, types[0]);
    }
  }

  lemma SoleOfType(kind: CodecKind, units: seq<Bytes>, i: nat)
    requires i < |units| && forall j :: i < j < |units| ==> TypeOf(kind, units[j]) != TypeOf(kind, units[i])
    ensures LastOfType(kind, units, TypeOf(kind, units[i])) == Some(units[i])
    decreases |units|
  {
    if i < |units| - 1 {
      var front := units[..|units| - 1];
      assert front[i] == units[i];
      SoleOfType(kind, front, i);
    }
  }

  /** A list that consists of one unit of each type in order is its own list of parameter sets. */
  lemma {:induction false} SetsOfBlob(kind: CodecKind, units: seq<Bytes>, types: seq<nat>, k: nat)
    requires |units| == |types| && k <= |types|
    requires forall i :: 0 <= i < |units| ==> TypeOf(kind, units[i]) == types[i]
    requires forall i, j :: 0 <= i < j < |types| ==> types[i] != types[j]
    ensures Sets(kind, units, types[k..]) == Some(units[k..])
    decreases |types| - k
  {
    if k == |types| {
      assert types[k..] == [] && units[k..] == [];
    } else {
      hide LastOfType, TypeOf;
      SetsOfBlob(kind, units, types, k + 1);
      SoleOfType(kind, units, k);
      assert types[k..][1..] == types[k + 1..] && types[k..][0] == types[k];
      assert [units[k]] + units[k + 1..] == units[k..];
    }
  }

  /** Taking the parameter sets of a parameter-set blob changes nothing. */
  lemma BlobIsIdempotent(kind: CodecKind, s: Bytes)
    requires BlobUnits(kind, s).Ok?
    ensures
      var sets := BlobUnits(kind, s).value;
      ValidUnits(sets) && sets != [] && BlobUnits(kind, Print(sets)) == Ok(sets)
  {
    PrintUndoesParse(s);
    SetsAreUnits(kind, Parse(s).value, SetTypes(kind));
    var sets := BlobUnits(kind, s).value;
    ParseUndoesPrint(sets);
    var types := SetTypes(kind);
    SetsOfBlob(kind, sets, types, 0);
    assert types[0..] == types && sets[0..] == sets;
  }

  ghost predicate HasType(kind: CodecKind, units: seq<Bytes>, t: nat) {
    exists i :: 0 <= i < |units| && TypeOf(kind, units[i]) == t
  }

  lemma HasTypeExactly(kind: CodecKind, units: seq<Bytes>, t: nat)
    ensures HasType(kind, units, t) <==> LastOfType(kind, units, t).Some?
  {
    LastOfTypeIsOne(kind, units, t);
  }

  /**
   There is a blob exactly if the access unit parses and has a parameter set of each kind: types 32, 33 and
   34 for HEVC, 7 and 8 for H.264; they are then its units, in this order.
   */
  lemma BlobExactly(kind: CodecKind, s: Bytes)
    ensures
      BlobUnits(kind, s).Ok? <==>
      Parse(s).Ok? &&
      if kind.Hevc? then
        HasType(kind, Parse(s).value, 32) && HasType(kind, Parse(s).value, 33) && HasType(kind, Parse(s).value, 34)
      else HasType(kind, Parse(s).value, 7) && HasType(kind, Parse(s).value, 8)
    ensures Parse(s).Ok? && BlobUnits(kind, s).Err? ==> BlobUnits(kind, s) == Err(MissingParameterSets)
    ensures
      BlobUnits(kind, s).Ok? ==>
        var sets := BlobUnits(kind, s).value;
        if kind.Hevc? then
          |sets| == 3 && TypeOf(kind, sets[0]) == 32 && TypeOf(kind, sets[1]) == 33 && TypeOf(kind, sets[2]) == 34
        else |sets| == 2 && TypeOf(kind, sets[0]) == 7 && TypeOf(kind, sets[1]) == 8
  {
    hide LastOfType, HasType, TypeOf;
    if Parse(s).Ok? {
      var units := Parse(s).value;
      PrintUndoesParse(s);
      if kind.Hevc? {
        SetsOfThree(kind, units, 32, 33, 34);
        HasTypeExactly(kind, units, 32);
        HasTypeExactly(kind, units, 33);
        HasTypeExactly(kind, units, 34);
      } else {
        SetsOfTwo(kind, units, 7, 8);
        HasTypeExactly(kind, units, 7);
        HasTypeExactly(kind, units, 8);
      }
      if BlobUnits(kind, s).Ok? {
        SetsAreUnits(kind, units, SetTypes(kind));
      }
    }
  }

  lemma SetsOfTwo(kind: CodecKind, units: seq<Bytes>, a: nat, b: nat)
    ensures Sets(kind, units, [a, b]).Some? <==> LastOfType(kind, units, a).Some? && LastOfType(kind, units, b).Some?
  {
    hide LastOfType;
    assert [a, b][1..] == [b] && [b][1..] == [];
    assert Sets(kind, units, [b]).Some? <==> LastOfType(kind, units, b).Some?;
  }

  lemma SetsOfThree(kind: CodecKind, units: seq<Bytes>, a: nat, b: nat, c: nat)
    ensures
      Sets(kind, units, [a, b, c]).Some? <==>
      LastOfType(kind, units, a).Some? && LastOfType(kind, units, b).Some? && LastOfType(kind, units, c).Some?
  {
    hide LastOfType;
    SetsOfTwo(kind, units, b, c);
    assert [a, b, c][1..] == [b, c];
  }

  // ----- codec detection

  function KindOf(u: Bytes): Option<CodecKind> {
    if H264Type(u) == 7 then Some(H264)
    else if 32 <= TypeOf(Hevc, u) <= 34 then Some(Hevc)
    else None
  }

  function FirstKind(units: seq<Bytes>): Option<CodecKind> {
    if units == [] then None else if KindOf(units[0]).Some? then KindOf(units[0]) else FirstKind(units[1..])
  }

  /** The codec of an access unit is that of its first unit that tells one. */
  lemma {:induction false} FirstKindIsFirst(units: seq<Bytes>)
    ensures FirstKind(units).None? <==> forall i :: 0 <= i < |units| ==> KindOf(units[i]).None?
    ensures
      FirstKind(units).Some? ==>
        exists i :: 0 <= i < |units| && KindOf(units[i]) == FirstKind(units) &&
                    forall j :: 0 <= j < i ==> KindOf(units[j]).None?
  {
    hide KindOf;
    if units != [] {
      var rest := units[1..];
      FirstKindIsFirst(rest);
      assert forall i :: 1 <= i < |units| ==> units[i] == rest[i - 1];
      if KindOf(units[0]).None? && FirstKind(rest).Some? {
        var i :| 0 <= i < |rest| && KindOf(rest[i]) == FirstKind(rest)
                 && forall j :: 0 <= j < i ==> KindOf(rest[j]).None?;
        assert KindOf(units[i + 1]) == FirstKind(units);
      }
    }
  }

  /** The blob of a codec is recognized as that codec's. */
  lemma BlobTellsCodec(kind: CodecKind, s: Bytes)
    requires BlobUnits(kind, s).Ok?
    ensures FirstKind(BlobUnits(kind, s).value) == Some(kind)
  {
    PrintUndoesParse(s);
    SetsAreUnits(kind, Parse(s).value, SetTypes(kind));
    HeaderBytesDiffer(kind, BlobUnits(kind, s).value[0]);
  }

  lemma HeaderBytesDiffer(kind: CodecKind, u: Bytes)
    requires u != [] && TypeOf(kind, u) == SetTypes(kind)[0]
    ensures KindOf(u) == Some(kind)
  {
    if kind.Hevc? {
      var b := u[0] as int;
      assert b / 2 % 64 == 32;
      assert b == 64 || b == 65 || b == 192 || b == 193;
    }
  }

  // ----- the implementation

  method ParseLengthPrefixedNalus(accessUnit: Bytes) returns (r: Result<seq<Bytes>, DecodeError>)
    ensures r == Parse(accessUnit)
  {
    hide ParseFrom;
    var offset := 0;
    var nalus: seq<Bytes> := [];
    ContinuesFromStart(ParseFrom(accessUnit, 0));
    while offset < |accessUnit|
      invariant 0 <= offset <= |accessUnit|
      invariant offset > 0 <==> nalus != []
      invariant Continues(ParseFrom(accessUnit, 0), nalus, ParseFrom(accessUnit, offset))
      decreases |accessUnit| - offset
    {
      ParseOne(accessUnit, offset);
      if |accessUnit| - offset < LENGTH_BYTES { return Err(TruncatedNalu(offset)); }
      var length := FromBigEndian(accessUnit[offset..offset + LENGTH_BYTES]);
      var lengthOffset := offset;
      offset := offset + LENGTH_BYTES;
      if length < 2 { return Err(EmptyNalu(lengthOffset)); }
      var end := offset + length;
      if end > |accessUnit| { return Err(TruncatedNalu(lengthOffset)); }
      ContinuesOneMore(ParseFrom(accessUnit, 0), nalus, accessUnit[offset..end], ParseFrom(accessUnit, end));
      nalus := nalus + [accessUnit[offset..end]];
      offset := end;
    }
    ParseNothing(accessUnit);
    assert nalus + [] == nalus;
    if nalus == [] { return Err(TruncatedNalu(0)); }
    return Ok(nalus);
  }

  /** The result for a list that starts with `u`. */
  function Prefixed(u: Bytes, rest: Result<seq<Bytes>, DecodeError>): Result<seq<Bytes>, DecodeError> {
    if rest.Ok? then Ok([u] + rest.value) else rest
  }

  lemma ParseNothing(s: Bytes)
    ensures ParseFrom(s, |s|) == Ok([])
  {
  }

  lemma ParseOne(s: Bytes, offset: nat)
    requires offset < |s|
    ensures |s| - offset < LENGTH_BYTES ==> ParseFrom(s, offset) == Err(TruncatedNalu(offset))
    ensures
      |s| - offset >= LENGTH_BYTES ==>
        var length, start := FromBigEndian(s[offset..offset + LENGTH_BYTES]), offset + LENGTH_BYTES;
        ParseFrom(s, offset) ==
        if length < 2 then Err(EmptyNalu(offset))
        else if start + length > |s| then Err(TruncatedNalu(offset))
        else Prefixed(s[start..start + length], ParseFrom(s, start + length))
  {
  }

  /** The whole result is the units found so far followed by the result for the rest. */
  ghost predicate Continues(whole: Result<seq<Bytes>, DecodeError>, found: seq<Bytes>,
                            rest: Result<seq<Bytes>, DecodeError>)
  {
    match rest
    case Err(e) => whole == Err(e)
    case Ok(units) => whole == Ok(found + units)
  }

  lemma ContinuesFromStart(whole: Result<seq<Bytes>, DecodeError>)
    ensures Continues(whole, [], whole)
  {
    if whole.Ok? {
      assert [] + whole.value == whole.value;
    }
  }

  lemma ContinuesOneMore(whole: Result<seq<Bytes>, DecodeError>, found: seq<Bytes>, u: Bytes,
                         rest: Result<seq<Bytes>, DecodeError>)
    requires Continues(whole, found, Prefixed(u, rest))
    ensures Continues(whole, found + [u], rest)
  {
    if rest.Ok? {
      assert found + ([u] + rest.value) == (found + [u]) + rest.value;
    }
  }

  method PrepareAnnexB(data: Bytes) returns (r: Result<Bytes, DecodeError>)
    ensures r.Ok? <==> Parse(data).Ok?
    ensures r.Ok? ==> r.value == AnnexB(Parse(data).value) && |r.value| == |data|
    ensures r.Err? ==> r.error == Parse(data).error
  {
    var nalus := ParseLengthPrefixedNalus(data);
    if nalus.Err? { return Err(nalus.error); }
    PrintUndoesParse(data);
    AnnexBKeepsLength(nalus.value);
    var out := [];
    for i := 0 to |nalus.value|
      invariant out == AnnexB(nalus.value[..i])
    {
      AnnexBSnoc(nalus.value[..i], nalus.value[i]);
      assert nalus.value[..i + 1] == nalus.value[..i] + [nalus.value[i]];
      out := out + START_CODE;
      out := out + nalus.value[i];
    }
    assert nalus.value[..|nalus.value|] == nalus.value;
    return Ok(out);
  }

  lemma {:induction false} AnnexBSnoc(units: seq<Bytes>, u: Bytes)
    ensures AnnexB(units + [u]) == AnnexB(units) + START_CODE + u
    decreases |units|
  {
    if units == [] {
      assert [] + [u] == [u] && [u][1..] == [];
    } else {
      assert (units + [u])[1..] == units[1..] + [u];
      AnnexBSnoc(units[1..], u);
    }
  }

  /** Overwrite a stretch of the buffer that follows `done` bytes with `bytes`. */
  method CopyFromSlice(output: array<byte>, done: nat, bytes: Bytes)
    requires done + |bytes| <= output.Length
    modifies output
    ensures output[..done + |bytes|] == old(output[..done]) + bytes
  {
    forall k | 0 <= k < |bytes| { output[done + k] := bytes[k]; }
    assert forall k :: 0 <= k < |bytes| ==> output[done..done + |bytes|][k] == bytes[k];
    assert output[done..done + |bytes|] == bytes;
    assert output[..done + |bytes|] == output[..done] + output[done..done + |bytes|];
  }

  /** The packet handed to the decoder, rewritten in place in a buffer of the size of the access unit. */
  method RewritePacket(accessUnit: Bytes) returns (r: Result<array<byte>, DecodeError>)
    ensures r.Ok? <==> Parse(accessUnit).Ok?
    ensures r.Ok? ==> fresh(r.value) && r.value[..] == AnnexB(Parse(accessUnit).value) && r.value.Length == |accessUnit|
    ensures r.Err? ==> r.error == Parse(accessUnit).error
  {
    hide AnnexB, Parse, Print;
    var nalus := ParseLengthPrefixedNalus(accessUnit);
    if nalus.Err? { return Err(nalus.error); }
    var units := nalus.value;
    PrintUndoesParse(accessUnit);
    AnnexBKeepsLength(units);
    var output := new byte[|accessUnit|];
    var offset := 0;
    assert units[..0] == [] && AnnexB([]) == [] by { AnnexBOfNothing(); }
    for i := 0 to |units|
      invariant offset == |AnnexB(units[..i])| <= output.Length
      invariant output[..offset] == AnnexB(units[..i])
    {
      assert units[..i + 1] == units[..i] + [units[i]];
      AnnexBSnoc(units[..i], units[i]);
      AnnexBPrefix(units, i + 1);
      CopyFromSlice(output, offset, START_CODE);
      offset := offset + 4;
      CopyFromSlice(output, offset, units[i]);
      offset := offset + |units[i]|;
    }
    assert units[..|units|] == units;
    assert output[..] == output[..offset];
    return Ok(output);
  }

  lemma AnnexBOfNothing()
    ensures AnnexB([]) == []
  {
  }

  lemma {:induction false} AnnexBPrefix(units: seq<Bytes>, i: nat)
    requires i <= |units|
    ensures |AnnexB(units[..i])| <= |AnnexB(units)|
    decreases |units| - i
  {
    if i == |units| {
      assert units[..i] == units;
    } else {
      assert units[..i + 1] == units[..i] + [units[i]];
      AnnexBSnoc(units[..i], units[i]);
      AnnexBPrefix(units, i + 1);
    }
  }

  /** The blob of VPS, SPS and PPS, or of SPS and PPS, of an access unit. */
  method ParameterSetBlob(kind: CodecKind, accessUnit: Bytes) returns (r: Result<Bytes, DecodeError>)
    ensures BlobUnits(kind, accessUnit).Err? ==> r == Err(BlobUnits(kind, accessUnit).error)
    ensures
      BlobUnits(kind, accessUnit).Ok? ==>
        ValidUnits(BlobUnits(kind, accessUnit).value) && r == Ok(Print(BlobUnits(kind, accessUnit).value))
  {
    hide LastOfType, TypeOf, Parse, SetTypes, Sets;
    var nalus := ParseLengthPrefixedNalus(accessUnit);
    if nalus.Err? { return Err(nalus.error); }
    var units, types := nalus.value, SetTypes(kind);
    var parameterSets := CollectSets(kind, units, types);
    SetsFound(kind, units, types, parameterSets);
    if !AllFound(parameterSets) { return Err(MissingParameterSets); }
    ghost var sets := BlobUnits(kind, accessUnit).value;
    PrintUndoesParse(accessUnit);
    SetsAreUnits(kind, units, types);
    var output := [];
    for k := 0 to |types|
      invariant output == Print(sets[..k])
    {
      assert sets[..k + 1] == sets[..k] + [sets[k]];
      PrintSnoc(sets[..k], sets[k]);
      output := output + ToBigEndian(|parameterSets[k].value|);
      output := output + parameterSets[k].value;
    }
    assert sets[..|types|] == sets;
    return Ok(output);
  }

  /** The last unit of each of the given types. */
  method CollectSets(kind: CodecKind, units: seq<Bytes>, types: seq<nat>) returns (found: seq<Option<Bytes>>)
    ensures |found| == |types| && forall k :: 0 <= k < |types| ==> found[k] == LastOfType(kind, units, types[k])
  {
    hide LastOfType, TypeOf;
    found := Repeat(None, |types|);
    LastOfTypeSnoc(kind, [], []);
    for i := 0 to |units|
      invariant |found| == |types|
      invariant forall k :: 0 <= k < |types| ==> found[k] == LastOfType(kind, units[..i], types[k])
    {
      assert units[..i + 1] == units[..i] + [units[i]];
      LastOfTypeSnoc(kind, units[..i], units[i]);
      for k := 0 to |types|
        invariant |found| == |types|
        invariant forall j :: 0 <= j < k ==> found[j] == LastOfType(kind, units[..i + 1], types[j])
        invariant forall j :: k <= j < |types| ==> found[j] == LastOfType(kind, units[..i], types[j])
      {
        if TypeOf(kind, units[i]) == types[k] {
          found := found[k := Some(units[i])];
        }
      }
    }
    assert units[..|units|] == units;
  }

  lemma LastOfTypeSnoc(kind: CodecKind, units: seq<Bytes>, u: Bytes)
    ensures forall t: nat :: LastOfType(kind, [], t) == None
    ensures
      forall t: nat ::
        LastOfType(kind, units + [u], t) == if TypeOf(kind, u) == t then Some(u) else LastOfType(kind, units, t)
  {
    assert (units + [u])[..|units|] == units;
  }

  predicate AllFound(found: seq<Option<Bytes>>) { forall k :: 0 <= k < |found| ==> found[k].Some? }

  lemma {:induction false} SetsFound(kind: CodecKind, units: seq<Bytes>, types: seq<nat>, found: seq<Option<Bytes>>)
    requires |found| == |types|
    requires forall k :: 0 <= k < |types| ==> found[k] == LastOfType(kind, units, types[k])
    ensures AllFound(found) <==> Sets(kind, units, types).Some?
    ensures
      AllFound(found) ==>
        |Sets(kind, units, types).value| == |types| &&
        forall k :: 0 <= k < |types| ==> Sets(kind, units, types).value[k] == found[k].value
    decreases |types|
  {
    if types != [] {
      assert forall k :: 0 <= k < |types| - 1 ==> found[1..][k] == found[k + 1] && types[1..][k] == types[k + 1];
      SetsFound(kind, units, types[1..], found[1..]);
      assert AllFound(found) <==> found[0].Some? && AllFound(found[1..]) by {
        assert forall k :: 1 <= k < |found| ==> found[k] == found[1..][k - 1];
      }
    }
  }

  lemma PrintSnoc(units: seq<Bytes>, u: Bytes)
    requires ValidUnits(units) && ValidUnit(u)
    ensures ValidUnits(units + [u]) && Print(units + [u]) == Print(units) + ToBigEndian(|u|) + u
  {
    hide Print, ToBigEndian;
    PrintAppend(units, [u]);
    PrintOne(u);
    assert Print(units) + (ToBigEndian(|u|) + u) == Print(units) + ToBigEndian(|u|) + u;
  }

  method DetectCodec(accessUnit: Bytes) returns (r: Result<CodecKind, DecodeError>)
    ensures Parse(accessUnit).Err? ==> r == Err(Parse(accessUnit).error)
    ensures
      Parse(accessUnit).Ok? ==>
        r == if FirstKind(Parse(accessUnit).value).Some? then Ok(FirstKind(Parse(accessUnit).value).value)
             else Err(MissingParameterSets)
  {
    var nalus := ParseLengthPrefixedNalus(accessUnit);
    if nalus.Err? { return Err(nalus.error); }
    var units := nalus.value;
    assert units[0..] == units;
    for i := 0 to |units|
      invariant FirstKind(units[i..]) == FirstKind(units)
    {
      assert units[i..][1..] == units[i + 1..];
      if units[i] == [] { continue; }
      var first := units[i][0] as int;
      if first % 32 == 7 { return Ok(H264); }
      var hevcType := first / 2 % 64;
      if hevcType == 32 || hevcType == 33 || hevcType == 34 { return Ok(Hevc); }
    }
    return Err(MissingParameterSets);
  }
}
