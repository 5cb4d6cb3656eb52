/**
 What the request reader is for, from the sender's side: a request written out line by line, with its
 body length in decimal, is read back exactly, however it is split.
 */
module HttpRequests {
  import opened Prelude
  import opened HttpHead
  import opened RequestReader

  // ----- decimal numbers

  function Decimal(n: nat): Bytes {
    if n < 10 then [(48 + n) as byte] else Decimal(n / 10) + [(48 + n % 10) as byte]
  }

  lemma {:induction false} NumeralOfDecimal(n: nat)
    ensures IsNumeral(Decimal(n)) && Numeral(Decimal(n)) == n
  {
    if n < 10 {
      assert Decimal(n)[..0] == [];
    } else {
      NumeralOfDecimal(n / 10);
      assert Decimal(n)[..|Decimal(n)| - 1] == Decimal(n / 10);
    }
  }

  // ----- names in any letter case

  predicate InAnyCase(s: Bytes, name: string) {
    && |s| == |name|
    && forall i :: 0 <= i < |s| ==>
         s[i] as int == name[i] as int || ('a' <= name[i] <= 'z' && s[i] as int == name[i] as int - 32)
  }

  lemma NamesInAnyCase(s: Bytes)
    ensures EqualsIgnoringCase(s, CONTENT_LENGTH) <==> InAnyCase(s, "content-length")
    ensures EqualsIgnoringCase(s, TRANSFER_ENCODING) <==> InAnyCase(s, "transfer-encoding")
  {
    Spelled(s, CONTENT_LENGTH, "content-length");
    Spelled(s, TRANSFER_ENCODING, "transfer-encoding");
  }

  lemma Spelled(s: Bytes, t: Bytes, name: string)
    requires |t| == |name| && forall i :: 0 <= i < |t| ==> t[i] as int == name[i] as int && !(65 <= t[i] <= 90)
    ensures EqualsIgnoringCase(s, t) <==> InAnyCase(s, name)
  {
    if |s| == |t| {
      forall i | 0 <= i < |s|
        ensures
          Lower(s[i]) == Lower(t[i]) <==>
          s[i] as int == name[i] as int || ('a' <= name[i] <= 'z' && s[i] as int == name[i] as int - 32)
      {
      }
    }
  }

  /** The part of a line before its first colon. */
  ghost predicate IsNameOf(line: Bytes, name: Bytes) {
    && |name| < |line| && line[..|name|] == name && line[|name|] == COLON
    && forall k :: 0 <= k < |name| ==> name[k] != COLON
  }

  lemma NameIsFound(line: Bytes, name: Bytes)
    requires IsNameOf(line, name)
    ensures Find(line, [COLON]) == Some(|name|)
  {
    forall k | 0 <= k < |name| ensures line[k] != COLON {
      assert line[..|name|][k] == name[k];
    }
    FindFirst(line, COLON, |name|);
  }

  /** A header line that says nothing about the body. */
  predicate Plain(line: Bytes) { Acceptable(line) && !HasName(line, CONTENT_LENGTH) }

  /** Such a line has a colon, and its name is neither of the two that say something about the body. */
  lemma PlainExactly(line: Bytes)
    ensures
      Plain(line) <==>
      exists name ::
        IsNameOf(line, name) && !InAnyCase(name, "content-length") && !InAnyCase(name, "transfer-encoding")
  {
    hide EqualsIgnoringCase, InAnyCase, Find;
    FoundByte(line, COLON);
    if Find(line, [COLON]).Some? {
      var i := Find(line, [COLON]).value;
      assert IsNameOf(line, line[..i]);
      NamesInAnyCase(line[..i]);
    }
    if name :| IsNameOf(line, name) && !InAnyCase(name, "content-length") && !InAnyCase(name, "transfer-encoding") {
      NameIsFound(line, name);
      NamesInAnyCase(name);
    }
  }

  // ----- the length line

  /** Spaces and tabs. */
  predicate Blank(s: Bytes) { forall i :: 0 <= i < |s| ==> s[i] == 32 || s[i] == 9 }

  predicate IsLengthLine(line: Bytes, name: Bytes, left: Bytes, n: nat, right: Bytes) {
    InAnyCase(name, "content-length") && Blank(left) && Blank(right) &&
    line == name + [COLON] + (left + Decimal(n) + right)
  }

  lemma {:induction false} TrimsLeft(left: Bytes, s: Bytes)
    requires Blank(left) && s != [] && 48 <= s[0] <= 57
    ensures TrimStart(left + s) == s
    decreases |left|
  {
    if left == [] {
      assert left + s == s;
    } else {
      assert (left + s)[1..] == left[1..] + s;
      TrimsLeft(left[1..], s);
    }
  }

  lemma {:induction false} TrimsRight(s: Bytes, right: Bytes)
    requires Blank(right) && s != [] && 48 <= s[|s| - 1] <= 57
    ensures TrimEnd(s + right) == s
    decreases |right|
  {
    if right == [] {
      assert s + right == s;
    } else {
      assert (s + right)[..|s + right| - 1] == s + right[..|right| - 1];
      TrimsRight(s, right[..|right| - 1]);
    }
  }

  lemma TrimsDecimal(left: Bytes, n: nat, right: Bytes)
    requires Blank(left) && Blank(right)
    ensures Trim(left + Decimal(n) + right) == Decimal(n)
  {
    hide TrimStart, TrimEnd, Numeral;
    NumeralOfDecimal(n);
    assert left + Decimal(n) + right == left + (Decimal(n) + right);
    TrimsLeft(left, Decimal(n) + right);
    TrimsRight(Decimal(n), right);
  }

  /** What the header rules see in a length line. */
  lemma LengthLineIsRead(line: Bytes, name: Bytes, left: Bytes, n: nat, right: Bytes)
    requires IsLengthLine(line, name, left, n, right)
    ensures HasName(line, CONTENT_LENGTH) && !HasName(line, TRANSFER_ENCODING) && ValueOf(line) == Decimal(n)
    ensures IsNumeral(ValueOf(line)) && Numeral(ValueOf(line)) == n
    ensures Acceptable(line) <==> n <= USIZE_MAX
  {
    hide Decimal, Numeral, Trim, EqualsIgnoringCase, Find;
    var value := left + Decimal(n) + right;
    assert line[..|name|] == name && line[|name|] == COLON && line[|name| + 1..] == value;
    NoColonInName(name);
    NameIsFound(line, name);
    NamesInAnyCase(name);
    TrimsDecimal(left, n, right);
    NumeralOfDecimal(n);
    NamesDiffer(line);
  }

  lemma NoColonInName(name: Bytes)
    requires InAnyCase(name, "content-length")
    ensures forall k :: 0 <= k < |name| ==> name[k] != COLON
  {
    forall k | 0 <= k < |name| ensures name[k] != COLON {
      assert "content-length"[k] != ':' && "content-length"[k] as int - 32 != 58;
    }
  }

  // ----- heads written line by line

  predicate NoFeed(line: Bytes) { forall i :: 0 <= i < |line| ==> line[i] != LF }

  /** The lines with a carriage return and a line feed between them. */
  function JoinLines(lines: seq<Bytes>): Bytes
    requires lines != []
  {
    if |lines| == 1 then lines[0] else lines[0] + [CR, LF] + JoinLines(lines[1..])
  }

  /** A request line and header lines; header lines are not empty, and no line has a line feed in it. */
  ghost predicate WellFormed(lines: seq<Bytes>) {
    && lines != [] && (forall i :: 0 <= i < |lines| ==> NoFeed(lines[i]))
    && forall i :: 1 <= i < |lines| ==> lines[i] != []
  }

  lemma {:induction false} LinesOfJoin(lines: seq<Bytes>)
    requires WellFormed(lines) && (|lines| == 1 ==> lines[0] != [])
    ensures Lines(JoinLines(lines)) == lines
    decreases |lines|
  {
    hide Lines, Find, WithoutTrailingCR;
    if |lines| == 1 {
      LineWithoutFeed(lines[0]);
    } else {
      FirstLine(lines[0], JoinLines(lines[1..]));
      LinesOfJoin(lines[1..]);
    }
  }

  lemma FirstLine(first: Bytes, rest: Bytes)
    requires NoFeed(first)
    ensures Lines(first + [CR, LF] + rest) == [first] + Lines(rest)
  {
    hide Lines;
    var s := first + [CR, LF] + rest;
    assert s[|first|] == CR && s[|first| + 1] == LF;
    LinesStep(s, |first| + 1);
    assert s[..|first| + 1] == first + [CR] && s[|first| + 2..] == rest;
    assert (first + [CR])[..|first|] == first;
  }

  lemma HeaderLinesOfJoin(lines: seq<Bytes>)
    requires WellFormed(lines)
    ensures HeaderLines(JoinLines(lines)) == lines[1..]
  {
    hide Lines, JoinLines;
    if |lines| == 1 && lines[0] == [] {
      EmptyLines();
      JoinOne(lines);
    } else {
      LinesOfJoin(lines);
    }
  }

  lemma JoinOne(lines: seq<Bytes>)
    requires |lines| == 1
    ensures JoinLines(lines) == lines[0]
  {
  }

  /** Line feeds come after a carriage return, never two of them around a single byte, and never at the end. */
  ghost predicate Separated(s: Bytes) {
    && (forall i :: 0 <= i < |s| && s[i] == LF ==> i > 0 && s[i - 1] == CR && i + 1 < |s|)
    && forall i :: 2 <= i < |s| && s[i] == LF ==> s[i - 2] != LF
  }

  lemma {:induction false} JoinIsSeparated(lines: seq<Bytes>)
    requires WellFormed(lines)
    ensures Separated(JoinLines(lines))
    ensures lines[0] != [] ==> JoinLines(lines) != [] && JoinLines(lines)[0] != LF
    ensures lines[0] != [] && |JoinLines(lines)| > 1 ==> JoinLines(lines)[1] != LF
    decreases |lines|
  {
    if |lines| > 1 {
      var s, first, rest := JoinLines(lines), lines[0], JoinLines(lines[1..]);
      JoinIsSeparated(lines[1..]);
      var n := |first| + 2;
      assert forall i :: 0 <= i < |first| ==> s[i] == first[i];
      assert forall i :: n <= i < |s| ==> s[i] == rest[i - n];
      assert s[n - 2] == CR && s[n - 1] == LF;
      assert rest != [] && rest[0] != LF;
      forall i | 0 <= i < |s| && s[i] == LF
        ensures i > 0 && s[i - 1] == CR && i + 1 < |s| && (i >= 2 ==> s[i - 2] != LF)
      {
        if i >= n {
          assert rest[i - n] == LF && i - n >= 2;
        } else {
          assert i == n - 1;
        }
      }
    }
  }

  /** The blank line after such a head is the first, and no bare one comes before it. */
  lemma BlankLineIsFirst(s: Bytes, head: Bytes, tail: Bytes)
    requires Separated(head) && s == head + BLANK_LINE + tail
    ensures Find(s, BLANK_LINE) == Some(|head|) && !BareBlankLineFirst(s)
  {
    var d := |head|;
    assert forall i :: 0 <= i < d ==> s[i] == head[i];
    assert s[d] == CR && s[d + 1] == LF && s[d + 2] == CR && s[d + 3] == LF && s[d..d + 4] == BLANK_LINE;
    assert OccursAt(s, BLANK_LINE, d);
    forall i: nat | i < d ensures !OccursAt(s, BLANK_LINE, i) {
      if OccursAt(s, BLANK_LINE, i) {
        BlankLineBytes(s, i);
      }
    }
    forall i: nat | i <= d ensures !OccursAt(s, BARE_BLANK_LINE, i) {
      if OccursAt(s, BARE_BLANK_LINE, i) {
        BareBlankLineBytes(s, i);
      }
    }
  }

  lemma BlankLineBytes(s: Bytes, i: nat)
    requires OccursAt(s, BLANK_LINE, i)
    ensures i + 4 <= |s| && s[i] == CR && s[i + 1] == LF && s[i + 2] == CR && s[i + 3] == LF
  {
    var t := s[i..i + 4];
    assert t[0] == CR && t[1] == LF && t[2] == CR && t[3] == LF;
  }

  // ----- requests

  /** The header lines declare a body of `n` bytes: one of them, in any letter case, or none for an empty body. */
  ghost predicate Declares(headers: seq<Bytes>, n: nat) {
    || (n == 0 && forall k :: 0 <= k < |headers| ==> Plain(headers[k]))
    || exists c: nat, name, left, right :: DeclaresAt(headers, n, c, name, left, right)
  }

  ghost predicate DeclaresAt(headers: seq<Bytes>, n: nat, c: nat, name: Bytes, left: Bytes, right: Bytes) {
    && c < |headers| && IsLengthLine(headers[c], name, left, n, right)
    && forall k :: 0 <= k < |headers| && k != c ==> Plain(headers[k])
  }

  predicate HasBodyLength(head: Bytes, n: nat) {
    match DeclaredLength(head)
    case Err(_) => false
    case Ok(length) => n == if length.Some? then length.value else 0
  }

  /** The declared length is read as the number it stands for. */
  lemma LengthIsRead(head: Bytes, headers: seq<Bytes>, n: nat)
    requires ValidUtf8(head) && HeaderLines(head) == headers && Declares(headers, n)
    ensures n > USIZE_MAX ==> DeclaredLength(head) == Err(InvalidInput)
    ensures n <= USIZE_MAX ==> HasBodyLength(head, n)
  {
    hide HeaderLines, IsLengthLine, HasName, ValueOf, Numeral, Acceptable, ValidUtf8, DeclaredLength, IsNumeral;
    AcceptedHeads(head);
    OverlongHeads(head);
    if c: nat, name, left, right :| DeclaresAt(headers, n, c, name, left, right) {
      LengthLineIsRead(headers[c], name, left, n, right);
      if n > USIZE_MAX {
        assert Overlong(headers, c);
      } else {
        forall k | 0 <= k < |headers| ensures Acceptable(headers[k]) { assert k == c || Plain(headers[k]); }
        assert AtMostOneLength(headers);
        assert HasName(HeaderLines(head)[c], CONTENT_LENGTH);
      }
    } else {
      assert AtMostOneLength(headers);
    }
  }

  /** The one answer to a request with such a head, whatever comes after it. */
  function Expected(head: Bytes, n: nat, tail: Bytes): Result<Bytes, ErrorKind> {
    if |head| + 4 + n > BUFFER_SIZE then Err(InvalidInput)
    else if n <= |tail| then Ok(head + BLANK_LINE + tail[..n])
    else Err(UnexpectedEof)
  }

  /**
   A request line and header lines that declare `n` bytes, a blank line, and whatever follows: however the
   bytes are split, the answer is the head with exactly the `n` bytes after it, an error if they end before,
   or an error if they do not fit the buffer.
   */
  lemma RequestsAreAnswered(lines: seq<Bytes>, n: nat, tail: Bytes, portions: nat -> nat)
    requires WellFormed(lines) && Declares(lines[1..], n) && ValidUtf8(JoinLines(lines))
    requires |JoinLines(lines)| + 4 <= BUFFER_SIZE
    ensures
      var head := JoinLines(lines);
      Answer(head + BLANK_LINE + tail, portions, 0) == Expected(head, n, tail)
  {
    hide JoinLines, Declares, ValidUtf8, HeaderLines, OneShot, BareBlankLineFirst, Answer, Separated;
    var head := JoinLines(lines);
    var data := head + BLANK_LINE + tail;
    JoinIsSeparated(lines);
    HeaderLinesOfJoin(lines);
    WindowOfRequest(head, tail);
    LengthIsRead(head, lines[1..], n);
    OneShotAnswer(head, n, tail);
    SplitsDoNotMatterExactly(data);
  }

  /** The buffer shows the head and its blank line, and so the right end. */
  lemma WindowOfRequest(head: Bytes, tail: Bytes)
    requires Separated(head) && |head| + 4 <= BUFFER_SIZE
    ensures
      var w := Window(head + BLANK_LINE + tail);
      FindDelimiter(w) == Some(Delimiter(|head|, 4)) && !BareBlankLineFirst(w)
  {
    hide Separated, Find, BareBlankLineFirst;
    var data := head + BLANK_LINE + tail;
    var rest := if |data| <= BUFFER_SIZE then tail else tail[..BUFFER_SIZE - |head| - 4];
    assert Window(data) == head + BLANK_LINE + rest;
    BlankLineIsFirst(Window(data), head, rest);
  }

  lemma OneShotAnswer(head: Bytes, n: nat, tail: Bytes)
    requires FindDelimiter(Window(head + BLANK_LINE + tail)) == Some(Delimiter(|head|, 4)) && |head| + 4 <= BUFFER_SIZE
    requires n > USIZE_MAX ==> DeclaredLength(head) == Err(InvalidInput)
    requires n <= USIZE_MAX ==> HasBodyLength(head, n)
    ensures OneShot(head + BLANK_LINE + tail) == Expected(head, n, tail)
  {
    hide DeclaredLength, FindDelimiter, Window;
    var data := head + BLANK_LINE + tail;
    assert data[..|head|] == head;
    if |head| + 4 + n <= |data| {
      assert data[..|head| + 4 + n] == head + BLANK_LINE + tail[..n];
    }
  }

  /**
   A stream that shows no blank line of either kind: however it is split, no request if it is empty, an
   invalid one if it fills the buffer, and an incomplete one otherwise.
   */
  lemma StreamsWithoutHead(data: Bytes, portions: nat -> nat)
    requires
      forall i: nat :: !OccursAt(Window(data), BLANK_LINE, i) && !OccursAt(Window(data), BARE_BLANK_LINE, i)
    ensures
      Answer(data, portions, 0) ==
      if |data| >= 65536 then Err(InvalidInput) else if data == [] then Ok([]) else Err(UnexpectedEof)
  {
    hide Answer, OccursAt;
    NeitherIsFound(Window(data));
    SplitsDoNotMatterExactly(data);
  }

  lemma NeitherIsFound(s: Bytes)
    requires forall i: nat :: !OccursAt(s, BLANK_LINE, i) && !OccursAt(s, BARE_BLANK_LINE, i)
    ensures FindDelimiter(s).None? && !BareBlankLineFirst(s)
  {
    hide OccursAt;
  }
}
