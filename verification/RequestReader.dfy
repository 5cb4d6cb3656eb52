/**
 Reading one HTTP request from a connection that delivers its bytes in arbitrary portions.  The
 incremental reader returns what one read of the whole stream would have returned.
 */
module RequestReader {
  import opened Prelude
  import opened HttpHead

  const BUFFER_SIZE: nat := 65536

  /** What the buffer can show of a stream. */
  function Window(data: Bytes): Bytes { if |data| <= BUFFER_SIZE then data else data[..BUFFER_SIZE] }

  /** The total length of the request whose head ends at `d`. */
  function RequestLength(data: Bytes, d: Delimiter): (r: Result<nat, ErrorKind>)
    requires d.position + d.length <= |data| && d.position + d.length <= BUFFER_SIZE
    ensures r.Ok? ==> r.value <= BUFFER_SIZE
  {
    match DeclaredLength(data[..d.position])
    case Err(e) => Err(e)
    case Ok(length) =>
      var body, n := d.position + d.length, if length.Some? then length.value else 0;
      if n > BUFFER_SIZE - body then Err(InvalidInput) else Ok(body + n)
  }

  /** The answer once the head is taken to end at `d`, if the whole stream is there and then ends. */
  function AnswerAt(data: Bytes, d: Delimiter): Result<Bytes, ErrorKind>
    requires d.position + d.length <= |data| && d.position + d.length <= BUFFER_SIZE
  {
    Completed(data, RequestLength(data, d))
  }

  function Completed(data: Bytes, length: Result<nat, ErrorKind>): Result<Bytes, ErrorKind> {
    match length
    case Err(e) => Err(e)
    case Ok(total) => if total <= |data| then Ok(data[..total]) else Err(UnexpectedEof)
  }

  /** The answer to a stream that is completely there and then ends. */
  function OneShot(data: Bytes): Result<Bytes, ErrorKind> {
    match FindDelimiter(Window(data))
    case None =>
      if data == [] then Ok([]) else if |data| < BUFFER_SIZE then Err(UnexpectedEof) else Err(InvalidInput)
    case Some(d) => AnswerAt(data, d)
  }

  /** How many bytes read number `read` delivers into a buffer with some room; none exactly at the end. */
  function Delivered(data: Bytes, portions: nat -> nat, read: nat, position: nat, room: nat): (n: nat)
    requires position <= |data|
    ensures n <= room && position + n <= |data| && (n == 0 <==> room == 0 || position == |data|)
  {
    Min(Min(room, |data| - position), portions(read) + 1)
  }

  /** A connection: its bytes up to the end of the stream, and how many of them each read may deliver. */
  class Connection {
    const data: Bytes
    const portions: nat -> nat
    var position: nat
    var served: nat

    ghost predicate Valid()
      reads this
    {
      position <= |data|
    }

    constructor (data: Bytes, portions: nat -> nat)
      ensures Valid() && this.data == data && this.portions == portions && position == 0 && served == 0
    {
      this.data, this.portions, position, served := data, portions, 0, 0;
    }

    /** Read into `buf[start..end]`; no byte is delivered exactly at the end of the stream. */
    method Read(buf: array<byte>, start: nat, end: nat) returns (n: nat)
      requires Valid() && start < end <= buf.Length
      modifies this, buf
      ensures Valid() && position == old(position) + n && served == old(served) + 1
      ensures n == Delivered(data, portions, old(served), old(position), end - start)
      ensures buf[..start + n] == old(buf[..start]) + data[old(position)..position]
    {
      n := Delivered(data, portions, served, position, end - start);
      forall i | 0 <= i < n { buf[start + i] := data[position + i]; }
      position := position + n;
      served := served + 1;
    }
  }

  /** The end of the head that the first `k` bytes show. */
  function EndShown(data: Bytes, k: nat): (d: Option<Delimiter>)
    requires k <= |data|
    ensures d.Some? ==> d.value.position + d.value.length <= k
  {
    FindDelimiter(data[..k])
  }

  predicate ShowsEnd(data: Bytes, k: nat) { k <= |data| && k <= BUFFER_SIZE && EndShown(data, k).Some? }

  /** How much has been read once the end of the head shows for the first time, or 0 if it never does. */
  function FirstShown(data: Bytes, portions: nat -> nat, read: nat, used: nat): (known: nat)
    requires used <= |data| && used <= BUFFER_SIZE
    ensures known > 0 ==> used < known && ShowsEnd(data, known)
    decreases BUFFER_SIZE - used
  {
    var n := Delivered(data, portions, read, used, BUFFER_SIZE - used);
    if n == 0 then 0
    else if EndShown(data, used + n).Some? then used + n
    else FirstShown(data, portions, read + 1, used + n)
  }

  /** The answer to a stream that is delivered in portions, beginning with read number `read`. */
  function Answer(data: Bytes, portions: nat -> nat, read: nat): Result<Bytes, ErrorKind> {
    var known := FirstShown(data, portions, read, 0);
    if known == 0 then OneShot(data) else AnswerAt(data, EndShown(data, known).value)
  }

  /** Either no end of the head has shown in `used` bytes, or the first one to show gives the total length. */
  ghost predicate Progress(data: Bytes, portions: nat -> nat, first: nat, read: nat, used: nat, total: Option<nat>)
    requires used <= |data| && used <= BUFFER_SIZE
  {
    var known := FirstShown(data, portions, first, 0);
    match total
    case None => EndShown(data, used).None? && FirstShown(data, portions, read, used) == known
    case Some(t) =>
      && 0 < known <= used && RequestLength(data, EndShown(data, known).value) == Ok(t) && t <= BUFFER_SIZE
      && used <= if t > known then t else known
  }

  lemma PrefixOfWindow(data: Bytes, used: nat)
    requires used <= |data| && used <= BUFFER_SIZE
    ensures used <= |Window(data)| && Window(data)[..used] == data[..used]
  {
  }

  lemma WindowIsShown(data: Bytes, used: nat)
    requires used <= |data| && (used == BUFFER_SIZE || used == |data| <= BUFFER_SIZE)
    ensures Window(data) == data[..used]
  {
  }

  /** Where the head seems to end as long as the proper blank line after a bare one has not arrived. */
  function EarlyEnd(data: Bytes): (d: Delimiter)
    requires BareBlankLineFirst(Window(data))
    ensures d.position + d.length <= |Window(data)|
  {
    Delimiter(Find(Window(data), BARE_BLANK_LINE).value, 2)
  }

  /** There are at most two ends of the head that a portion of the stream can show, and each can be shown. */
  lemma EndsThatCanBeShown(data: Bytes, k: nat)
    requires k <= |data| && k <= BUFFER_SIZE
    ensures
      EndShown(data, k).Some? ==>
        EndShown(data, k) == FindDelimiter(Window(data)) ||
        (BareBlankLineFirst(Window(data)) && EndShown(data, k) == Some(EarlyEnd(data)))
    ensures
      BareBlankLineFirst(Window(data)) ==>
        EndShown(data, EarlyEnd(data).position + 2) == Some(EarlyEnd(data))
  {
    hide Find;
    var w := Window(data);
    PrefixOfWindow(data, k);
    if BareBlankLineFirst(w) {
      var early := EarlyEnd(data).position + 2;
      PrefixOfWindow(data, early);
      FindInPrefix(w, BLANK_LINE, k);
      FindInPrefix(w, BARE_BLANK_LINE, k);
      FindInPrefix(w, BLANK_LINE, early);
      FindInPrefix(w, BARE_BLANK_LINE, early);
    } else {
      StablePrefix(w, k);
    }
  }

  /** Without an early end, every portion that shows the end of the head leads to the same answer. */
  lemma AnswerIsIndependent(data: Bytes, k: nat)
    requires k <= |data| && k <= BUFFER_SIZE && !BareBlankLineFirst(Window(data)) && EndShown(data, k).Some?
    ensures AnswerAt(data, EndShown(data, k).value) == OneShot(data)
  {
    hide FindDelimiter, BareBlankLineFirst, RequestLength;
    EndsThatCanBeShown(data, k);
  }

  /** A stream with a bare blank line before the first proper one is refused when it is seen at once. */
  lemma EarlyEndIsRefusedAtOnce(data: Bytes)
    requires BareBlankLineFirst(Window(data))
    ensures OneShot(data).Err?
  {
    hide DeclaredLength, Find;
    var w := Window(data);
    var i, j := Find(w, BARE_BLANK_LINE).value, Find(w, BLANK_LINE).value;
    EarlyAndProper(data);
    assert w[..j][i..i + 2] == w[i..i + 2];
    BareBlankLineIsRefused(data[..j], i);
  }

  /**
   The bytes before the bare blank line are a head that the header rules accept, and the body it
   declares is there and fits the buffer.
   */
  ghost predicate AcceptableEarly(data: Bytes)
    requires BareBlankLineFirst(Window(data))
  {
    var d := EarlyEnd(data);
    AcceptableHead(data[..d.position]) &&
    var lines := HeaderLines(data[..d.position]);
    forall i :: 0 <= i < |lines| && HasName(lines[i], CONTENT_LENGTH) ==>
      Numeral(ValueOf(lines[i])) <= |Window(data)| - d.position - 2
  }

  /** The early end is an acceptable one exactly if the header rules and the room left say so. */
  lemma EarlyAnswer(data: Bytes)
    requires BareBlankLineFirst(Window(data))
    ensures AnswerAt(data, EarlyEnd(data)).Ok? <==> AcceptableEarly(data)
  {
    hide AcceptableHead, HeaderLines, HasName, ValueOf, Numeral, DeclaredLength, BareBlankLineFirst, Find;
    var d := EarlyEnd(data);
    var head := data[..d.position];
    AcceptedHeads(head);
    if AcceptableHead(head) && DeclaredLength(head).value.Some? {
      var i :| 0 <= i < |HeaderLines(head)| && HasName(HeaderLines(head)[i], CONTENT_LENGTH);
      assert DeclaredLength(head).value.value == Numeral(ValueOf(HeaderLines(head)[i]));
    }
  }

  /**
   Whether a request is accepted does not depend on how much of it arrives with the end of its head,
   exactly if the bytes before a bare blank line that comes first are not an acceptable head with its body.
   */
  lemma AcceptanceIsIndependentExactly(data: Bytes)
    ensures
      (forall k :: ShowsEnd(data, k) ==> AnswerAt(data, EndShown(data, k).value).Ok? == OneShot(data).Ok?) <==>
      !(BareBlankLineFirst(Window(data)) && AcceptableEarly(data))
  {
    hide FindDelimiter, BareBlankLineFirst, RequestLength, Find, Window, OneShot, AnswerAt, AcceptableEarly;
    if BareBlankLineFirst(Window(data)) {
      EarlyEndIsRefusedAtOnce(data);
      EarlyAnswer(data);
      EarlyEndIsShown(data);
      if AnswerAt(data, EarlyEnd(data)).Err? {
        forall k | ShowsEnd(data, k) ensures AnswerAt(data, EndShown(data, k).value).Err? {
          EndsThatCanBeShown(data, k);
          AnswerAtOnce(data);
        }
      }
    } else {
      forall k | ShowsEnd(data, k) ensures AnswerAt(data, EndShown(data, k).value) == OneShot(data) {
        AnswerIsIndependent(data, k);
      }
    }
  }

  lemma EarlyEndIsShown(data: Bytes)
    requires BareBlankLineFirst(Window(data))
    ensures ShowsEnd(data, EarlyEnd(data).position + 2)
    ensures EndShown(data, EarlyEnd(data).position + 2) == Some(EarlyEnd(data))
  {
    WindowFits(data);
    EndsThatCanBeShown(data, EarlyEnd(data).position + 2);
  }

  /**
   The bytes before the bare blank line are not an acceptable head; and if that is because a declared
   length does not fit a machine word, the bytes before the proper blank line are text.
   */
  ghost predicate RefusedAlike(data: Bytes)
    requires BareBlankLineFirst(Window(data))
  {
    var head := data[..EarlyEnd(data).position];
    && !AcceptableHead(head)
    && (ValidUtf8(head) && (exists k: nat :: Overlong(HeaderLines(head), k)) ==>
          ValidUtf8(Window(data)[..Find(Window(data), BLANK_LINE).value]))
  }

  lemma EarlyAnswerAlike(data: Bytes)
    requires BareBlankLineFirst(Window(data))
    ensures AnswerAt(data, EarlyEnd(data)) == OneShot(data) <==> RefusedAlike(data)
  {
    var w := Window(data);
    var i, j := Find(w, BARE_BLANK_LINE).value, Find(w, BLANK_LINE).value;
    EarlyAndProper(data);
    HeaderErrors(HeaderLines(data[..i]));
    AcceptedHeads(data[..i]);
    OverlongHeads(data[..i]);
    hide Find, ValidUtf8, ParseLines, HeaderLines, AcceptableHead, Overlong;
    FirstBareBlankLine(w);
    assert w[..j][i..i + 2] == w[i..i + 2] && w[..j][..i] == data[..i];
    assert i > 0 ==> w[..j][i - 1] == w[i - 1];
    BareBlankLineDecides(w[..j], i);
  }

  /** The bare blank line lies wholly before the proper one, which ends the head when all is seen at once. */
  lemma EarlyAndProper(data: Bytes)
    requires BareBlankLineFirst(Window(data))
    ensures
      var w := Window(data);
      var i, j := Find(w, BARE_BLANK_LINE).value, Find(w, BLANK_LINE).value;
      && i + 2 <= j <= |w| && data[..j] == w[..j] && OccursAt(w, BARE_BLANK_LINE, i)
      && FindDelimiter(w) == Some(Delimiter(j, 4))
  {
    hide Find;
    var w := Window(data);
    var i, j := Find(w, BARE_BLANK_LINE).value, Find(w, BLANK_LINE).value;
    FindBounds(w, BARE_BLANK_LINE);
    FindBounds(w, BLANK_LINE);
    BareBlankLineBytes(w, i);
    assert w[j..j + 4][0] == CR && w[j] == CR;
  }

  /**
   The answer itself, bytes or error, does not depend on how much arrives with the end of the head,
   exactly if any head before a first bare blank line is refused alike with and without what follows.
   */
  lemma AnswerIsIndependentExactly(data: Bytes)
    ensures
      (forall k :: ShowsEnd(data, k) ==> AnswerAt(data, EndShown(data, k).value) == OneShot(data)) <==>
      (BareBlankLineFirst(Window(data)) ==> RefusedAlike(data))
  {
    hide FindDelimiter, BareBlankLineFirst, RequestLength, Find, Window, OneShot, AnswerAt, RefusedAlike;
    if BareBlankLineFirst(Window(data)) {
      EarlyAnswerAlike(data);
      EarlyEndIsShown(data);
      if RefusedAlike(data) {
        forall k | ShowsEnd(data, k) ensures AnswerAt(data, EndShown(data, k).value) == OneShot(data) {
          EndsThatCanBeShown(data, k);
          AnswerAtOnce(data);
        }
      }
    } else {
      forall k | ShowsEnd(data, k) ensures AnswerAt(data, EndShown(data, k).value) == OneShot(data) {
        AnswerIsIndependent(data, k);
      }
    }
  }

  /** Reading exactly the first `k` bytes at first shows the end of the head if they do. */
  lemma PortionShows(data: Bytes, k: nat)
    requires ShowsEnd(data, k)
    ensures FirstShown(data, _ => k - 1, 0, 0) == k
    ensures Answer(data, _ => k - 1, 0) == AnswerAt(data, EndShown(data, k).value)
  {
  }

  /**
   However a stream is split into reads, the answer is that to the whole stream read at once, exactly if
   any head before a first bare blank line is refused alike with and without what follows.
   */
  lemma SplitsDoNotMatterExactly(data: Bytes)
    ensures
      (forall portions: nat -> nat :: Answer(data, portions, 0) == OneShot(data)) <==>
      (BareBlankLineFirst(Window(data)) ==> RefusedAlike(data))
  {
    hide FindDelimiter, BareBlankLineFirst, RequestLength, Find, Window, OneShot, AnswerAt, RefusedAlike, FirstShown;
    AnswerIsIndependentExactly(data);
    if k :| ShowsEnd(data, k) && AnswerAt(data, EndShown(data, k).value) != OneShot(data) {
      PortionShows(data, k);
    }
  }

  /**
   However a stream is split into reads, it is accepted or not alike, exactly if no acceptable head with
   its body comes before a first bare blank line.
   */
  lemma SplitsDoNotMatterForAcceptance(data: Bytes)
    ensures
      (forall portions: nat -> nat :: Answer(data, portions, 0).Ok? == OneShot(data).Ok?) <==>
      !(BareBlankLineFirst(Window(data)) && AcceptableEarly(data))
  {
    hide FindDelimiter, BareBlankLineFirst, RequestLength, Find, Window, OneShot, AnswerAt, AcceptableEarly, FirstShown;
    AcceptanceIsIndependentExactly(data);
    if k :| ShowsEnd(data, k) && AnswerAt(data, EndShown(data, k).value).Ok? != OneShot(data).Ok? {
      PortionShows(data, k);
    }
  }

  lemma WindowFits(data: Bytes)
    ensures |Window(data)| <= |data| && |Window(data)| <= BUFFER_SIZE
  {
  }

  lemma AnswerAtOnce(data: Bytes)
    ensures FindDelimiter(Window(data)).Some? ==> OneShot(data) == AnswerAt(data, FindDelimiter(Window(data)).value)
  {
  }

  /**
   Read one request.  The answer depends on the portions only through the end of head that the first
   read to show one shows, and so, unless a bare blank line precedes the first proper one, not at all.
   Once the end of the head is known, nothing past the declared body is read.
   */
  method ReadRequest(stream: Connection) returns (r: Result<Bytes, ErrorKind>)
    requires stream.Valid() && stream.position == 0
    modifies stream
    ensures stream.Valid() && stream.position <= BUFFER_SIZE
    ensures r == Answer(stream.data, stream.portions, old(stream.served))
    ensures !BareBlankLineFirst(Window(stream.data)) ==> r == OneShot(stream.data)
    ensures
      var known := FirstShown(stream.data, stream.portions, old(stream.served), 0);
      r.Ok? ==> |r.value| <= stream.position <= if |r.value| > known then |r.value| else known
  {
    hide Progress, EndShown, FindDelimiter, RequestLength, BareBlankLineFirst, OneShot, FirstShown, Answer, Delivered;
    var buf := new byte[BUFFER_SIZE];
    var used := 0;
    var total: Option<nat> := None;
    ghost var data, portions, first := stream.data, stream.portions, stream.served;
    ProgressStarts(data, portions, first);
    KnownAnswer(data, portions, first);
    while true
      invariant stream.Valid() && stream.position == used <= BUFFER_SIZE
      invariant stream.data == data && stream.portions == portions
      invariant buf[..used] == data[..used]
      invariant Progress(data, portions, first, stream.served, used, total)
      decreases BUFFER_SIZE - used
    {
      ProgressDecides(data, portions, first, stream.served, used, total);
      if total.Some? && used >= total.value {
        assert buf[..used][..total.value] == buf[..total.value];
        assert data[..used][..total.value] == data[..total.value];
        return Ok(buf[..total.value]);
      }
      if used == buf.Length { return Err(InvalidInput); }
      var end := if total.Some? then total.value else buf.Length;
      ProgressContinues(data, portions, first, stream.served, used, total);
      var n := stream.Read(buf, used, end);
      if n == 0 {
        if used == 0 { return Ok([]); }
        return Err(UnexpectedEof);
      }
      assert data[..used + n] == data[..used] + data[used..used + n];
      used := used + n;
      if total.None? {
        SameEnd(data, used);
        var delimiter := FindDelimiter(buf[..used]);
        if delimiter.Some? {
          SameLength(data, used, delimiter.value);
          var length := TotalLength(buf[..used], delimiter.value);
          if length.Err? { return Err(length.error); }
          total := Some(length.value);
        }
      }
    }
  }

  lemma ProgressStarts(data: Bytes, portions: nat -> nat, first: nat)
    ensures Progress(data, portions, first, first, 0, None)
  {
    assert data[..0] == [];
    NothingToFind();
  }

  /** What is returned when the loop ends is the answer. */
  lemma ProgressDecides(data: Bytes, portions: nat -> nat, first: nat, read: nat, used: nat, total: Option<nat>)
    requires used <= |data| && used <= BUFFER_SIZE && Progress(data, portions, first, read, used, total)
    ensures
      var known := FirstShown(data, portions, first, 0);
      total.Some? ==> total.value <= BUFFER_SIZE && used <= if total.value > known then total.value else known
    ensures total.Some? && total.value <= used ==> Answer(data, portions, first) == Ok(data[..total.value])
    ensures total.Some? && used < total.value && used == |data| ==>
      used > 0 && Answer(data, portions, first) == Err(UnexpectedEof)
    ensures total.None? && used == BUFFER_SIZE ==> Answer(data, portions, first) == Err(InvalidInput)
    ensures total.None? && used == |data| < BUFFER_SIZE ==>
      Answer(data, portions, first) == if used == 0 then Ok([]) else Err(UnexpectedEof)
  {
    hide FindDelimiter, RequestLength, BareBlankLineFirst, Window, OneShot, FirstShown, Answer, AnswerAt;
    KnownAnswer(data, portions, first);
    if total.None? && (used == BUFFER_SIZE || used == |data|) { NoEndAtAll(data, portions, read, used); }
  }

  /** What one read leads to. */
  lemma ProgressContinues(data: Bytes, portions: nat -> nat, first: nat, read: nat, used: nat, total: Option<nat>)
    requires used <= |data| && used <= BUFFER_SIZE && Progress(data, portions, first, read, used, total)
    requires used < if total.Some? then total.value else BUFFER_SIZE
    ensures
      var n := Delivered(data, portions, read, used, (if total.Some? then total.value else BUFFER_SIZE) - used);
      n > 0 ==>
        if total.Some? || EndShown(data, used + n).None? then
          Progress(data, portions, first, read + 1, used + n, total)
        else
          && Answer(data, portions, first) == Completed(data, RequestLength(data, EndShown(data, used + n).value))
          && (RequestLength(data, EndShown(data, used + n).value).Ok? ==>
                Progress(data, portions, first, read + 1, used + n,
                         Some(RequestLength(data, EndShown(data, used + n).value).value)))
  {
    hide FindDelimiter, RequestLength, BareBlankLineFirst, Window, OneShot, FirstShown, Answer, AnswerAt, Delivered;
    KnownAnswer(data, portions, first);
    if total.None? && used < |data| { NextShown(data, portions, read, used); }
  }

  /** The answer that follows from the first end of the head to show. */
  lemma KnownAnswer(data: Bytes, portions: nat -> nat, first: nat)
    ensures
      var known := FirstShown(data, portions, first, 0);
      if known == 0 then Answer(data, portions, first) == OneShot(data)
      else
        && Answer(data, portions, first) == Completed(data, RequestLength(data, EndShown(data, known).value))
        && (!BareBlankLineFirst(Window(data)) ==> Answer(data, portions, first) == OneShot(data))
  {
    hide RequestLength, Completed, OneShot, BareBlankLineFirst, FindDelimiter;
    var known := FirstShown(data, portions, first, 0);
    if known > 0 && !BareBlankLineFirst(Window(data)) {
      AnswerIsIndependent(data, known);
    }
  }

  /** One read: it shows the end of the head, or the next ones do or do not. */
  lemma NextShown(data: Bytes, portions: nat -> nat, read: nat, used: nat)
    requires used < |data| && used < BUFFER_SIZE
    ensures
      var n := Delivered(data, portions, read, used, BUFFER_SIZE - used);
      FirstShown(data, portions, read, used) ==
      if EndShown(data, used + n).Some? then used + n else FirstShown(data, portions, read + 1, used + n)
  {
  }

  /** With the whole window read and no end of the head in it, the answer is decided. */
  lemma NoEndAtAll(data: Bytes, portions: nat -> nat, read: nat, used: nat)
    requires used <= |data| && (used == BUFFER_SIZE || used == |data| <= BUFFER_SIZE) && EndShown(data, used).None?
    ensures FirstShown(data, portions, read, used) == 0 && FindDelimiter(Window(data)).None?
    ensures
      OneShot(data) ==
      if used == BUFFER_SIZE then Err(InvalidInput) else if used == 0 then Ok([]) else Err(UnexpectedEof)
  {
    hide FindDelimiter;
    WindowIsShown(data, used);
  }

  /** Some read shows the end of the head, exactly if there is one in what the buffer can hold. */
  lemma {:induction false} EndIsShownIfThere(data: Bytes, portions: nat -> nat, read: nat, used: nat)
    requires used <= |data| && used <= BUFFER_SIZE && EndShown(data, used).None?
    ensures FirstShown(data, portions, read, used) == 0 <==> FindDelimiter(Window(data)).None?
    decreases BUFFER_SIZE - used
  {
    hide FindDelimiter, Window;
    var n := Delivered(data, portions, read, used, BUFFER_SIZE - used);
    if n == 0 {
      NoEndAtAll(data, portions, read, used);
    } else if EndShown(data, used + n).Some? {
      EndsThatCanBeShown(data, used + n);
      EarlyIsNotOnly(data);
    } else {
      EndIsShownIfThere(data, portions, read + 1, used + n);
    }
  }

  lemma EarlyIsNotOnly(data: Bytes)
    ensures BareBlankLineFirst(Window(data)) ==> FindDelimiter(Window(data)).Some?
  {
  }

  lemma SameEnd(data: Bytes, used: nat)
    requires used <= |data|
    ensures EndShown(data, used) == FindDelimiter(data[..used])
  {
  }

  lemma SameLength(data: Bytes, used: nat, d: Delimiter)
    requires d.position + d.length <= used <= |data| && used <= BUFFER_SIZE
    ensures RequestLength(data[..used], d) == RequestLength(data, d)
  {
    assert data[..used][..d.position] == data[..d.position];
  }

  /** The length of the request that starts with `shown`, whose head ends at `d`. */
  method TotalLength(shown: Bytes, d: Delimiter) returns (r: Result<nat, ErrorKind>)
    requires d.position + d.length <= |shown| <= BUFFER_SIZE
    ensures r == RequestLength(shown, d)
  {
    var length := ParseHead(shown[..d.position]);
    if length.Err? { return Err(length.error); }
    var body := d.position + d.length;
    var bodyLength := if length.value.Some? then length.value.value else 0;
    if bodyLength > BUFFER_SIZE - body { return Err(InvalidInput); }
    return Ok(body + bodyLength);
  }

  lemma NothingToFind()
    ensures FindDelimiter([]) == None
  {
  }

  /** Check the text and go through the header lines after the request line. */
  method ParseHead(head: Bytes) returns (r: Result<Option<nat>, ErrorKind>)
    ensures r == DeclaredLength(head)
  {
    if !ValidUtf8(head) { return Err(InvalidData); }
    var lines := HeaderLines(head);
    var contentLength: Option<nat> := None;
    for i := 0 to |lines|
      invariant ParseLines(lines[..i]) == Ok(contentLength)
    {
      assert lines[..i + 1][..i] == lines[..i];
      var parsed := ParseLine(lines[i], contentLength);
      if parsed.Err? {
        ErrorsStay(lines, i + 1);
        return Err(parsed.error);
      }
      contentLength := parsed.value;
    }
    assert lines[..|lines|] == lines;
    return Ok(contentLength);
  }

  const FIRST_PART: Bytes := [71, LF, LF]
  const WHOLE: Bytes := FIRST_PART + [CR, LF, CR, LF]

  /**
   A stream on which the split matters.  If its first three bytes arrive alone they are a complete
   request; if everything arrives at once it is an invalid one.
   */
  lemma BareBlankLineSplits()
    ensures BareBlankLineFirst(Window(WHOLE)) && EndShown(WHOLE, 3) == Some(EarlyEnd(WHOLE))
    ensures AnswerAt(WHOLE, EarlyEnd(WHOLE)) == Ok(FIRST_PART)
    ensures OneShot(WHOLE) == Err(InvalidData)
  {
    SplitDelimiters();
    assert FIRST_PART[..1] == [71] && WHOLE[..3] == FIRST_PART && WHOLE[..1] == [71];
    assert Window(WHOLE) == WHOLE && Find(WHOLE, BARE_BLANK_LINE) == Some(1);
    EndsThatCanBeShown(WHOLE, 3);
    RequestLineAlone();
    RequestLineAndBlankLine();
  }

  /** The two answers to that stream. */
  method ReadInTwoWays() returns (apart: Result<Bytes, ErrorKind>, together: Result<Bytes, ErrorKind>)
    ensures apart == Ok(FIRST_PART) && together == Err(InvalidData)
  {
    hide AnswerAt, OneShot;
    BareBlankLineSplits();
    SplitDelimiters();
    AnswerAtOnce(WHOLE);
    assert WHOLE[..3] == FIRST_PART && WHOLE[..7] == WHOLE == Window(WHOLE);
    var inParts := new Connection(WHOLE, _ => 2);
    apart := ReadRequest(inParts);
    var atOnce := new Connection(WHOLE, _ => 6);
    together := ReadRequest(atOnce);
  }

  lemma SplitDelimiters()
    ensures BareBlankLineFirst(WHOLE)
    ensures FindDelimiter(FIRST_PART) == Some(Delimiter(1, 2)) && FindDelimiter(WHOLE) == Some(Delimiter(3, 4))
    ensures Find(WHOLE, BARE_BLANK_LINE) == Some(1)
  {
    assert FIRST_PART[1..3] == BARE_BLANK_LINE && FIRST_PART[0..2][0] == 71;
    assert FindFrom(FIRST_PART, BARE_BLANK_LINE, 1) == Some(1);
    assert WHOLE[1..3] == BARE_BLANK_LINE && WHOLE[0..2][0] == 71;
    assert FindFrom(WHOLE, BARE_BLANK_LINE, 1) == Some(1);
    assert WHOLE[0..4][0] == 71 && WHOLE[1..5][0] == LF && WHOLE[2..6][0] == LF && WHOLE[3..7] == BLANK_LINE;
    assert FindFrom(WHOLE, BLANK_LINE, 3) == Some(3);
    assert FindFrom(WHOLE, BLANK_LINE, 2) == Some(3);
    assert FindFrom(WHOLE, BLANK_LINE, 1) == Some(3);
  }

  lemma RequestLineAlone()
    ensures DeclaredLength([71]) == Ok(None)
  {
    var head: Bytes := [71];
    assert head[1..] == [] && head[0..1][0] == 71;
    assert ValidUtf8(head[1..]) && Utf8Length(head) == 1;
    assert FindFrom(head, [LF], 1) == None;
    assert Lines(head) == [head];
  }

  lemma RequestLineAndBlankLine()
    ensures DeclaredLength(FIRST_PART) == Err(InvalidData)
  {
    var rest, last: Bytes := [LF, LF], [LF];
    assert FIRST_PART[1..] == rest && rest[1..] == last && last[1..] == [];
    assert ValidUtf8(last) && ValidUtf8(rest) && ValidUtf8(FIRST_PART);
    assert FIRST_PART[0..1][0] == 71 && FIRST_PART[1..2] == [LF] && FIRST_PART[2..] == last && last[0..1] == [LF];
    assert FindFrom(FIRST_PART, [LF], 1) == Some(1);
    assert Find(FIRST_PART, [LF]) == Some(1) && Find(last, [LF]) == Some(0);
    assert Lines(last) == [[]] + Lines([]) by { assert last[..0] == []; }
    assert HeaderLines(FIRST_PART) == [[]];
    assert Find([], [COLON]) == None;
    assert HeaderLines(FIRST_PART)[..0] == [] && ParseLines([]) == Ok(None);
  }
}
