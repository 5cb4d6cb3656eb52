/** The head of an HTTP request: where it ends, and the body length it declares. */
module HttpHead {
  import opened Prelude

  const CR: byte := 13
  const LF: byte := 10
  const COLON: byte := 58

  const BLANK_LINE: Bytes := [CR, LF, CR, LF]
  const BARE_BLANK_LINE: Bytes := [LF, LF]

  const USIZE_MAX: nat := 0xFFFF_FFFF_FFFF_FFFF

  // ----- searching

  predicate OccursAt(s: Bytes, pattern: Bytes, i: nat) {
    i + |pattern| <= |s| && s[i..i + |pattern|] == pattern
  }

  /** The first position of `pattern` in `s` at or after `i`. */
  function FindFrom(s: Bytes, pattern: Bytes, i: nat): (r: Option<nat>)
    ensures r.Some? ==> i <= r.value && OccursAt(s, pattern, r.value)
    ensures r.Some? ==> forall k :: i <= k < r.value ==> !OccursAt(s, pattern, k)
    ensures r.None? ==> forall k :: i <= k ==> !OccursAt(s, pattern, k)
    decreases |s| - i
  {
    if i + |pattern| > |s| then None
    else if OccursAt(s, pattern, i) then Some(i)
    else FindFrom(s, pattern, i + 1)
  }

  function Find(s: Bytes, pattern: Bytes): Option<nat> { FindFrom(s, pattern, 0) }

  /** The end of the head and the length of the blank line after it. */
  datatype Delimiter = Delimiter(position: nat, length: nat)

  function FindDelimiter(s: Bytes): (d: Option<Delimiter>)
    ensures d.Some? ==> d.value.position + d.value.length <= |s|
  {
    match Find(s, BLANK_LINE)
    case Some(i) => Some(Delimiter(i, 4))
    case None =>
      match Find(s, BARE_BLANK_LINE)
      case Some(i) => Some(Delimiter(i, 2))
      case None => None
  }

  // ----- text

  /** Lines end at a line feed; a carriage return right before it goes too. */
  function Lines(s: Bytes): seq<Bytes>
    decreases |s|
  {
    if s == [] then []
    else
      match Find(s, [LF])
      case None => [s]
      case Some(i) => [WithoutTrailingCR(s[..i])] + Lines(s[i + 1..])
  }

  function WithoutTrailingCR(s: Bytes): Bytes { if s != [] && s[|s| - 1] == CR then s[..|s| - 1] else s }

  function Lower(b: byte): byte { if 65 <= b <= 90 then b + 32 else b }

  predicate EqualsIgnoringCase(s: Bytes, t: Bytes) {
    |s| == |t| && forall i :: 0 <= i < |s| ==> Lower(s[i]) == Lower(t[i])
  }

  /** The length of the white-space character at the start of UTF-8 text, 0 if there is none. */
  function LeadingSpace(s: Bytes): (n: nat)
    ensures n <= |s|
  {
    if |s| >= 1 && (9 <= s[0] <= 13 || s[0] == 32) then 1
    else if |s| >= 2 && IsSpace2(s[0], s[1]) then 2
    else if |s| >= 3 && IsSpace3(s[0], s[1], s[2]) then 3
    else 0
  }

  function TrailingSpace(s: Bytes): (n: nat)
    ensures n <= |s|
  {
    var e := |s|;
    if e >= 1 && (9 <= s[e - 1] <= 13 || s[e - 1] == 32) then 1
    else if e >= 2 && IsSpace2(s[e - 2], s[e - 1]) then 2
    else if e >= 3 && IsSpace3(s[e - 3], s[e - 2], s[e - 1]) then 3
    else 0
  }

  /** U+0085 and U+00A0. */
  predicate IsSpace2(a: byte, b: byte) { a == 0xC2 && (b == 0x85 || b == 0xA0) }

  /** U+1680, U+2000 to U+200A, U+2028, U+2029, U+202F, U+205F and U+3000. */
  predicate IsSpace3(a: byte, b: byte, c: byte) {
    || (a == 0xE1 && b == 0x9A && c == 0x80)
    || (a == 0xE2 && b == 0x80 && (0x80 <= c <= 0x8A || c == 0xA8 || c == 0xA9 || c == 0xAF))
    || (a == 0xE2 && b == 0x81 && c == 0x9F)
    || (a == 0xE3 && b == 0x80 && c == 0x80)
  }

  function TrimStart(s: Bytes): Bytes
    decreases |s|
  {
    var n := LeadingSpace(s);
    if n == 0 then s else TrimStart(s[n..])
  }

  function TrimEnd(s: Bytes): Bytes
    decreases |s|
  {
    var n := TrailingSpace(s);
    if n == 0 then s else TrimEnd(s[..|s| - n])
  }

  function Trim(s: Bytes): Bytes { TrimEnd(TrimStart(s)) }

  predicate Continuation(b: byte) { 0x80 <= b <= 0xBF }

  /** The length of the well-formed UTF-8 sequence at the start of `s` (table in section 4 of RFC 3629), or 0. */
  function Utf8Length(s: Bytes): (n: nat)
    ensures n <= |s|
  {
    if |s| >= 1 && s[0] <= 0x7F then 1
    else if |s| >= 2 && 0xC2 <= s[0] <= 0xDF && Continuation(s[1]) then 2
    else if |s| >= 3 && Continuation(s[2]) && (
              || (s[0] == 0xE0 && 0xA0 <= s[1] <= 0xBF)
              || (0xE1 <= s[0] <= 0xEC && Continuation(s[1]))
              || (s[0] == 0xED && 0x80 <= s[1] <= 0x9F)
              || (0xEE <= s[0] <= 0xEF && Continuation(s[1]))) then 3
    else if |s| >= 4 && Continuation(s[2]) && Continuation(s[3]) && (
              || (s[0] == 0xF0 && 0x90 <= s[1] <= 0xBF)
              || (0xF1 <= s[0] <= 0xF3 && Continuation(s[1]))
              || (s[0] == 0xF4 && 0x80 <= s[1] <= 0x8F)) then 4
    else 0
  }

  predicate ValidUtf8(s: Bytes)
    decreases |s|
  {
    s == [] || (Utf8Length(s) > 0 && ValidUtf8(s[Utf8Length(s)..]))
  }

  // ----- header lines

  datatype ErrorKind = InvalidInput | InvalidData | UnexpectedEof

  /** "content-length" */
  const CONTENT_LENGTH: Bytes := [99, 111, 110, 116, 101, 110, 116, 45, 108, 101, 110, 103, 116, 104]
  /** "transfer-encoding" */
  const TRANSFER_ENCODING: Bytes := [116, 114, 97, 110, 115, 102, 101, 114, 45, 101, 110, 99, 111, 100, 105, 110, 103]

  predicate HasName(line: Bytes, name: Bytes) {
    match Find(line, [COLON])
    case None => false
    case Some(i) => EqualsIgnoringCase(line[..i], name)
  }

  function ValueOf(line: Bytes): Bytes
    requires Find(line, [COLON]).Some?
  {
    Trim(line[Find(line, [COLON]).value + 1..])
  }

  predicate IsNumeral(s: Bytes) { s != [] && forall i :: 0 <= i < |s| ==> 48 <= s[i] <= 57 }

  function Numeral(s: Bytes): nat
    requires forall i :: 0 <= i < |s| ==> 48 <= s[i] <= 57
  {
    if s == [] then 0 else Numeral(s[..|s| - 1]) * 10 + (s[|s| - 1] - 48) as nat
  }

  /** One header line; `length` is the content length declared by the lines before it. */
  function ParseLine(line: Bytes, length: Option<nat>): Result<Option<nat>, ErrorKind> {
    if Find(line, [COLON]).None? then Err(InvalidData)
    else if HasName(line, TRANSFER_ENCODING) then Err(InvalidData)
    else if !HasName(line, CONTENT_LENGTH) then Ok(length)
    else
      var value := ValueOf(line);
      if length.Some? || !IsNumeral(value) then Err(InvalidData)
      else if Numeral(value) > USIZE_MAX then Err(InvalidInput)
      else Ok(Some(Numeral(value)))
  }

  /** The content length declared by a list of header lines. */
  function ParseLines(lines: seq<Bytes>): Result<Option<nat>, ErrorKind> {
    if lines == [] then Ok(None)
    else
      match ParseLines(lines[..|lines| - 1])
      case Err(e) => Err(e)
      case Ok(length) => ParseLine(lines[|lines| - 1], length)
  }

  function HeaderLines(head: Bytes): seq<Bytes> { if Lines(head) == [] then [] else Lines(head)[1..] }

  function DeclaredLength(head: Bytes): Result<Option<nat>, ErrorKind> {
    if !ValidUtf8(head) then Err(InvalidData) else ParseLines(HeaderLines(head))
  }

  // ----- what the header rules mean

  /** A line that does not by itself make the head invalid. */
  predicate Acceptable(line: Bytes) {
    && Find(line, [COLON]).Some?
    && !HasName(line, TRANSFER_ENCODING)
    && (HasName(line, CONTENT_LENGTH) ==> IsNumeral(ValueOf(line)) && Numeral(ValueOf(line)) <= USIZE_MAX)
  }

  ghost predicate AtMostOneLength(lines: seq<Bytes>) {
    forall i, j :: 0 <= i < j < |lines| ==> !(HasName(lines[i], CONTENT_LENGTH) && HasName(lines[j], CONTENT_LENGTH))
  }

  /**
   The header lines are accepted exactly if each of them has a colon, none is a transfer encoding, and
   at most one declares a content length, as a plain numeral that fits; that numeral is the result.
   */
  lemma {:induction false} AcceptedHeaders(lines: seq<Bytes>)
    ensures ParseLines(lines).Ok? <==> (forall i :: 0 <= i < |lines| ==> Acceptable(lines[i])) && AtMostOneLength(lines)
    ensures
      ParseLines(lines).Ok? ==>
        forall i :: 0 <= i < |lines| && HasName(lines[i], CONTENT_LENGTH) ==>
          Acceptable(lines[i]) && ParseLines(lines).value == Some(Numeral(ValueOf(lines[i])))
    ensures
      ParseLines(lines).Ok? && ParseLines(lines).value.Some? ==>
        exists i :: 0 <= i < |lines| && HasName(lines[i], CONTENT_LENGTH)
  {
    hide HasName, ValueOf, Numeral, Find;
    if lines != [] {
      var front, line := lines[..|lines| - 1], lines[|lines| - 1];
      AcceptedHeaders(front);
      assert forall i :: 0 <= i < |front| ==> front[i] == lines[i];
      if ParseLines(lines).Ok? {
        assert forall i :: 0 <= i < |lines| ==> i < |front| || lines[i] == line;
      } else if ParseLines(front).Ok? && Acceptable(line) {
        var i :| 0 <= i < |front| && HasName(front[i], CONTENT_LENGTH);
        assert HasName(lines[i], CONTENT_LENGTH) && HasName(lines[|lines| - 1], CONTENT_LENGTH);
      }
    }
  }

  /** Line `k` is the first one refused, and only because the content length in it does not fit a machine word. */
  ghost predicate Overlong(lines: seq<Bytes>, k: nat) {
    && k < |lines|
    && (forall i :: 0 <= i < k ==> Acceptable(lines[i]) && !HasName(lines[i], CONTENT_LENGTH))
    && HasName(lines[k], CONTENT_LENGTH)
    && IsNumeral(ValueOf(lines[k])) && Numeral(ValueOf(lines[k])) > USIZE_MAX
  }

  lemma NamesDiffer(line: Bytes)
    ensures HasName(line, CONTENT_LENGTH) ==> Find(line, [COLON]).Some? && !HasName(line, TRANSFER_ENCODING)
  {
  }

  /** Which header lines are refused as an invalid input, rather than as invalid data. */
  lemma {:induction false} OverlongHeaders(lines: seq<Bytes>)
    ensures ParseLines(lines) == Err(InvalidInput) <==> exists k: nat :: Overlong(lines, k)
  {
    hide HasName, ValueOf, Numeral, Find;
    if lines != [] {
      var front, line := lines[..|lines| - 1], lines[|lines| - 1];
      OverlongHeaders(front);
      AcceptedHeaders(front);
      NamesDiffer(line);
      assert forall i :: 0 <= i < |front| ==> front[i] == lines[i];
      assert forall k: nat :: k < |front| ==> (Overlong(front, k) <==> Overlong(lines, k));
      if ParseLines(lines) == Err(InvalidInput) && ParseLines(front).Ok? {
        assert Overlong(lines, |front|);
      } else if k: nat :| Overlong(lines, k) {
        assert k == |front| || Overlong(front, k);
      }
    }
  }

  // ----- when the end of the head does not depend on how much has arrived

  /** A bare blank line comes before the first proper one. */
  predicate BareBlankLineFirst(s: Bytes) {
    Find(s, BLANK_LINE).Some? && Find(s, BARE_BLANK_LINE).Some? &&
    Find(s, BARE_BLANK_LINE).value < Find(s, BLANK_LINE).value
  }

  lemma OccursInPrefix(s: Bytes, pattern: Bytes, u: nat, i: nat)
    requires u <= |s|
    ensures OccursAt(s[..u], pattern, i) <==> OccursAt(s, pattern, i) && i + |pattern| <= u
  {
    if i + |pattern| <= u {
      assert s[..u][i..i + |pattern|] == s[i..i + |pattern|];
    }
  }

  /** A prefix shows the first occurrence exactly if it is long enough. */
  lemma FindInPrefix(s: Bytes, pattern: Bytes, u: nat)
    requires u <= |s|
    ensures
      Find(s[..u], pattern) ==
      if Find(s, pattern).Some? && Find(s, pattern).value + |pattern| <= u then Find(s, pattern) else None
  {
    hide OccursAt;
    var f, g := Find(s, pattern), Find(s[..u], pattern);
    if g.Some? {
      OccursInPrefix(s, pattern, u, g.value);
    }
    if f.Some? {
      OccursInPrefix(s, pattern, u, f.value);
    }
  }

  /** The two kinds of blank line cannot overlap with the bare one inside the proper one. */
  lemma BlankLinesDoNotOverlap(s: Bytes, i: nat, j: nat)
    requires OccursAt(s, BLANK_LINE, i) && OccursAt(s, BARE_BLANK_LINE, j) && i <= j
    ensures i + 3 <= j
  {
    assert s[i..i + 4][0] == CR && s[i..i + 4][2] == CR;
    assert s[j..j + 2][0] == LF && s[j..j + 2][1] == LF;
    assert s[i] == CR && s[i + 2] == CR && s[j] == LF && s[j + 1] == LF;
  }

  /**
   Every prefix of `s` that shows a blank line shows the same end of head as the whole of `s`, exactly
   if no bare blank line comes before the first proper one.
   */
  lemma HeadEndIsStable(s: Bytes)
    ensures
      (forall u :: 0 <= u <= |s| ==> FindDelimiter(s[..u]).None? || FindDelimiter(s[..u]) == FindDelimiter(s)) <==>
      !BareBlankLineFirst(s)
  {
    hide Find;
    if BareBlankLineFirst(s) {
      var u := Find(s, BARE_BLANK_LINE).value + 2;
      FindBounds(s, BARE_BLANK_LINE);
      FindInPrefix(s, BLANK_LINE, u);
      FindInPrefix(s, BARE_BLANK_LINE, u);
      assert FindDelimiter(s[..u]) == Some(Delimiter(u - 2, 2));
    } else {
      forall u | 0 <= u <= |s| ensures FindDelimiter(s[..u]).None? || FindDelimiter(s[..u]) == FindDelimiter(s) {
        StablePrefix(s, u);
      }
    }
  }

  lemma FindBounds(s: Bytes, pattern: Bytes)
    ensures Find(s, pattern).Some? ==> OccursAt(s, pattern, Find(s, pattern).value)
  {
  }

  lemma StablePrefix(s: Bytes, u: nat)
    requires u <= |s| && !BareBlankLineFirst(s)
    ensures FindDelimiter(s[..u]).None? || FindDelimiter(s[..u]) == FindDelimiter(s)
  {
    hide Find;
    FindInPrefix(s, BLANK_LINE, u);
    FindInPrefix(s, BARE_BLANK_LINE, u);
    FindBounds(s, BLANK_LINE);
    FindBounds(s, BARE_BLANK_LINE);
    if Find(s, BLANK_LINE).Some? && Find(s, BARE_BLANK_LINE).Some? {
      BlankLinesDoNotOverlap(s, Find(s, BLANK_LINE).value, Find(s, BARE_BLANK_LINE).value);
    }
  }

  // ----- what a bare blank line means

  /** Text with a bare blank line has an empty line after its first one. */
  lemma {:induction false} BareBlankLineIsEmptyHeader(s: Bytes, i: nat) returns (k: nat)
    requires OccursAt(s, BARE_BLANK_LINE, i)
    ensures 0 < k < |Lines(s)| && Lines(s)[k] == []
    decreases |s|
  {
    hide Find;
    BareBlankLineBytes(s, i);
    FindLineFeed(s, i);
    var f := Find(s, [LF]).value;
    var rest := s[f + 1..];
    if f == i {
      FindLineFeed(rest, 0);
      assert rest[..0] == [];
      assert Lines(rest)[0] == [];
      k := 1;
    } else {
      assert rest[i - f - 1..i - f + 1] == s[i..i + 2];
      var j := BareBlankLineIsEmptyHeader(rest, i - f - 1);
      k := j + 1;
    }
  }

  lemma BareBlankLineBytes(s: Bytes, i: nat)
    requires OccursAt(s, BARE_BLANK_LINE, i)
    ensures i + 2 <= |s| && s[i] == LF && s[i + 1] == LF
  {
    assert s[i..i + 2][0] == LF && s[i..i + 2][1] == LF;
  }

  lemma FindLineFeed(s: Bytes, i: nat)
    requires i < |s| && s[i] == LF
    ensures Find(s, [LF]).Some? && Find(s, [LF]).value <= i
  {
    assert OccursAt(s, [LF], i);
  }

  /** A head with a bare blank line in it is never accepted. */
  lemma BareBlankLineIsRefused(head: Bytes, i: nat)
    requires OccursAt(head, BARE_BLANK_LINE, i)
    ensures DeclaredLength(head).Err?
  {
    hide Lines, OccursAt, Acceptable, AtMostOneLength, HasName, ValueOf, Numeral;
    var k := BareBlankLineIsEmptyHeader(head, i);
    var lines := HeaderLines(head);
    assert lines[k - 1] == [];
    AcceptedHeaders(lines);
    EmptyLineIsUnacceptable();
  }

  lemma EmptyLineIsUnacceptable()
    ensures !Acceptable([])
  {
  }

  /** A head that the header rules accept. */
  ghost predicate AcceptableHead(head: Bytes) {
    && ValidUtf8(head)
    && (forall i :: 0 <= i < |HeaderLines(head)| ==> Acceptable(HeaderLines(head)[i]))
    && AtMostOneLength(HeaderLines(head))
  }

  lemma AcceptedHeads(head: Bytes)
    ensures DeclaredLength(head).Ok? <==> AcceptableHead(head)
    ensures
      DeclaredLength(head).Ok? ==>
        forall i :: 0 <= i < |HeaderLines(head)| && HasName(HeaderLines(head)[i], CONTENT_LENGTH) ==>
          Acceptable(HeaderLines(head)[i]) && DeclaredLength(head).value == Some(Numeral(ValueOf(HeaderLines(head)[i])))
    ensures
      DeclaredLength(head).Ok? && DeclaredLength(head).value.Some? ==>
        exists i :: 0 <= i < |HeaderLines(head)| && HasName(HeaderLines(head)[i], CONTENT_LENGTH)
  {
    hide HeaderLines, Acceptable, AtMostOneLength, HasName, ValidUtf8;
    AcceptedHeaders(HeaderLines(head));
  }

  /** Which heads are refused as an invalid input. */
  lemma OverlongHeads(head: Bytes)
    ensures
      DeclaredLength(head) == Err(InvalidInput) <==>
      ValidUtf8(head) && exists k: nat :: Overlong(HeaderLines(head), k)
  {
    hide HeaderLines, Overlong, ValidUtf8;
    OverlongHeaders(HeaderLines(head));
  }

  lemma {:induction false} ErrorsStay(lines: seq<Bytes>, i: nat)
    requires i <= |lines| && ParseLines(lines[..i]).Err?
    ensures ParseLines(lines) == ParseLines(lines[..i])
    decreases |lines|
  {
    if i == |lines| {
      assert lines[..i] == lines;
    } else {
      var front := lines[..|lines| - 1];
      assert front[..i] == lines[..i];
      ErrorsStay(front, i);
    }
  }

  // ----- a head is checked line by line, so what comes after a bare blank line hardly matters

  lemma ByteOccursAt(s: Bytes, b: byte, i: nat)
    ensures OccursAt(s, [b], i) <==> i < |s| && s[i] == b
  {
    if i < |s| {
      assert s[i..i + 1] == [s[i]];
    }
  }

  lemma FindFirst(s: Bytes, b: byte, i: nat)
    requires i < |s| && s[i] == b && forall k :: 0 <= k < i ==> s[k] != b
    ensures Find(s, [b]) == Some(i)
  {
    hide OccursAt;
    forall k: nat ensures OccursAt(s, [b], k) <==> k < |s| && s[k] == b {
      ByteOccursAt(s, b, k);
    }
  }

  lemma FoundByte(s: Bytes, b: byte)
    ensures Find(s, [b]).Some? ==> Find(s, [b]).value < |s| && s[Find(s, [b]).value] == b
    ensures Find(s, [b]).Some? ==> forall k :: 0 <= k < Find(s, [b]).value ==> s[k] != b
    ensures Find(s, [b]).None? ==> forall k :: 0 <= k < |s| ==> s[k] != b
  {
    hide OccursAt;
    forall k: nat ensures OccursAt(s, [b], k) <==> k < |s| && s[k] == b {
      ByteOccursAt(s, b, k);
    }
  }

  lemma LinesStep(s: Bytes, i: nat)
    requires i < |s| && s[i] == LF && forall k :: 0 <= k < i ==> s[k] != LF
    ensures Lines(s) == [WithoutTrailingCR(s[..i])] + Lines(s[i + 1..])
  {
    FindFirst(s, LF, i);
  }

  /** Lines up to a line feed and lines after it. */
  lemma {:induction false} LinesAppend(a: Bytes, b: Bytes)
    ensures Lines(a + [LF] + b) == Lines(a + [LF]) + Lines(b)
    decreases |a|
  {
    hide Lines, WithoutTrailingCR;
    var s, t := a + [LF] + b, a + [LF];
    FoundByte(t, LF);
    FindLineFeed(t, |a|);
    var f := Find(t, [LF]).value;
    assert forall k :: 0 <= k <= |a| ==> s[k] == t[k];
    LinesStep(s, f);
    LinesStep(t, f);
    assert s[..f] == t[..f];
    if f == |a| {
      assert s[f + 1..] == b && t[f + 1..] == [];
      EmptyLines();
    } else {
      var a' := a[f + 1..];
      assert t == a[..f + 1] + (a' + [LF]);
      assert s == a[..f + 1] + (a' + [LF] + b);
      assert s[f + 1..] == a' + [LF] + b && t[f + 1..] == a' + [LF];
      LinesAppend(a', b);
    }
  }

  lemma LineWithoutFeed(s: Bytes)
    requires s != [] && forall k :: 0 <= k < |s| ==> s[k] != LF
    ensures Lines(s) == [s]
  {
    FoundByte(s, LF);
  }

  /** A line feed at the end takes only a carriage return off the last line. */
  lemma {:induction false} LinesTerminated(s: Bytes)
    requires s != [] && s[|s| - 1] != LF
    ensures
      var lines := Lines(s);
      lines != [] && Lines(s + [LF]) == lines[..|lines| - 1] + [WithoutTrailingCR(lines[|lines| - 1])]
    decreases |s|
  {
    hide WithoutTrailingCR, Lines, Find;
    FoundByte(s, LF);
    match Find(s, [LF])
    case None =>
      LineWithoutFeed(s);
      LinesStep(s + [LF], |s|);
      EmptyLines();
      assert (s + [LF])[..|s|] == s && (s + [LF])[|s| + 1..] == [];
    case Some(f) =>
      var rest := s[f + 1..];
      LinesStep(s, f);
      LinesStep(s + [LF], f);
      assert (s + [LF])[..f] == s[..f] && (s + [LF])[f + 1..] == rest + [LF];
      LinesTerminated(rest);
  }

  lemma {:induction false} TrimStartWithCR(v: Bytes)
    ensures TrimStart(v + [CR]) == if TrimStart(v) == [] then [] else TrimStart(v) + [CR]
    decreases |v|
  {
    if v == [] {
      assert [CR][1..] == [];
      assert TrimStart([CR]) == TrimStart([CR][1..]);
    } else {
      assert LeadingSpace(v + [CR]) == LeadingSpace(v);
      var n := LeadingSpace(v);
      if n > 0 {
        assert (v + [CR])[n..] == v[n..] + [CR];
        TrimStartWithCR(v[n..]);
      }
    }
  }

  lemma TrimWithCR(v: Bytes)
    ensures Trim(v + [CR]) == Trim(v)
  {
    TrimStartWithCR(v);
    var t := TrimStart(v);
    assert (t + [CR])[..|t|] == t;
  }

  /** A carriage return at the end of a header line makes no difference. */
  lemma ParseWithoutCR(line: Bytes, length: Option<nat>)
    ensures ParseLine(WithoutTrailingCR(line), length) == ParseLine(line, length)
  {
    hide Trim, EqualsIgnoringCase, IsNumeral, Numeral, Find;
    if line != [] && line[|line| - 1] == CR {
      var short := line[..|line| - 1];
      FoundByte(line, COLON);
      FindInPrefix(line, [COLON], |short|);
      if Find(line, [COLON]).Some? {
        var i := Find(line, [COLON]).value;
        assert short[..i] == line[..i] && line[i + 1..] == short[i + 1..] + [CR];
        TrimWithCR(short[i + 1..]);
      }
    }
  }

  lemma ParseLastWithoutCR(front: seq<Bytes>, last: Bytes)
    ensures ParseLines(front + [WithoutTrailingCR(last)]) == ParseLines(front + [last])
  {
    hide ParseLine, WithoutTrailingCR;
    assert (front + [WithoutTrailingCR(last)])[..|front|] == front == (front + [last])[..|front|];
    if ParseLines(front).Ok? {
      ParseWithoutCR(last, ParseLines(front).value);
    }
  }

  /** The header lines before a bare blank line, as they appear in front of it. */
  lemma LinesBeforeBareBlankLine(s: Bytes, i: nat) returns (before: seq<Bytes>, after: seq<Bytes>)
    requires OccursAt(s, BARE_BLANK_LINE, i) && (i > 0 ==> s[i - 1] != LF)
    ensures HeaderLines(s) == before + [[]] + after && ParseLines(before) == ParseLines(HeaderLines(s[..i]))
  {
    hide Lines, ParseLines;
    BareBlankLineBytes(s, i);
    var head, more := s[..i], s[i + 2..];
    assert s == head + [LF] + ([LF] + more) && [LF] + more == [] + [LF] + more;
    LinesAppend(head, [LF] + more);
    LinesAppend([], more);
    after := Lines(more);
    assert [] + [LF] == [LF];
    EmptyLines();
    if head == [] {
      before := [];
      assert Lines(s) == [[]] + ([[]] + after);
      assert HeaderLines(s) == before + [[]] + after;
    } else {
      LinesTerminated(head);
      var lines := Lines(head);
      var n := |lines|;
      assert Lines(s) == lines[..n - 1] + [WithoutTrailingCR(lines[n - 1])] + ([[]] + after);
      if n == 1 {
        before := [];
        assert HeaderLines(s) == before + [[]] + after && HeaderLines(head) == [];
      } else {
        var front := lines[1..n - 1];
        before := front + [WithoutTrailingCR(lines[n - 1])];
        assert HeaderLines(s) == before + [[]] + after;
        assert HeaderLines(head) == front + [lines[n - 1]];
        ParseLastWithoutCR(front, lines[n - 1]);
      }
    }
  }

  lemma EmptyLines()
    ensures Lines([]) == [] && Lines([LF]) == [[]]
  {
    var s: Bytes := [LF];
    LinesStep(s, 0);
    assert s[..0] == [] && s[1..] == [];
  }

  /** Of a text with a bare blank line, the lines before it decide, or else the empty line itself. */
  lemma BareBlankLineDecides(s: Bytes, i: nat)
    requires OccursAt(s, BARE_BLANK_LINE, i) && (i > 0 ==> s[i - 1] != LF)
    ensures
      DeclaredLength(s) ==
      if !ValidUtf8(s) || DeclaredLength(s[..i]).Ok? then Err(InvalidData) else DeclaredLength(s[..i])
  {
    hide HeaderLines, OccursAt, ValidUtf8, ParseLine;
    if ValidUtf8(s) {
      var before, after := LinesBeforeBareBlankLine(s, i);
      var lines := before + [[]] + after;
      BareBlankLineBytes(s, i);
      Utf8Prefix(s, i);
      assert lines[..|before|] == before && lines[..|before| + 1] == before + [[]];
      assert (before + [[]])[..|before|] == before;
      if ParseLines(before).Err? {
        ErrorsStay(lines, |before|);
      } else {
        EmptyLineIsInvalid(ParseLines(before).value);
        ErrorsStay(lines, |before| + 1);
      }
    }
  }

  /** The errors that header lines can lead to. */
  lemma {:induction false} HeaderErrors(lines: seq<Bytes>)
    ensures ParseLines(lines).Err? ==> ParseLines(lines).error == InvalidData || ParseLines(lines).error == InvalidInput
  {
    if lines != [] {
      HeaderErrors(lines[..|lines| - 1]);
    }
  }

  /** Before the first bare blank line there is no line feed right in front. */
  lemma FirstBareBlankLine(s: Bytes)
    requires Find(s, BARE_BLANK_LINE).Some?
    ensures
      var i := Find(s, BARE_BLANK_LINE).value;
      OccursAt(s, BARE_BLANK_LINE, i) && (i > 0 ==> s[i - 1] != LF)
  {
    var i := Find(s, BARE_BLANK_LINE).value;
    BareBlankLineBytes(s, i);
    if i > 0 {
      assert !OccursAt(s, BARE_BLANK_LINE, i - 1);
      assert s[i - 1..i + 1] == [s[i - 1], s[i]];
    }
  }

  lemma EmptyLineIsInvalid(length: Option<nat>)
    ensures ParseLine([], length) == Err(InvalidData)
  {
  }

  /** Text up to an ASCII character is text. */
  lemma {:induction false} Utf8Prefix(s: Bytes, i: nat)
    requires ValidUtf8(s) && i < |s| && s[i] < 0x80
    ensures ValidUtf8(s[..i])
    decreases |s|
  {
    if i > 0 {
      hide Utf8Length;
      var n := Utf8Length(s);
      Utf8LengthInPrefix(s, i);
      Utf8Prefix(s[n..], i - n);
      assert s[..i][n..] == s[n..][..i - n];
    }
  }

  /** A character ends before the next ASCII one. */
  lemma Utf8LengthInPrefix(s: Bytes, i: nat)
    requires 0 < i < |s| && s[i] < 0x80 && Utf8Length(s) > 0
    ensures Utf8Length(s) <= i && Utf8Length(s[..i]) == Utf8Length(s)
  {
    assert forall k :: 1 <= k < Utf8Length(s) ==> s[k] >= 0x80;
  }
}
