/** NV12 frames on their way to the mobile user interface: the packer on the native side and the parser in the page. */
module Nv12Frames {
  import opened Prelude
  import opened SerialNumbers

  const HEADER_SIZE: nat := 16
  const TWO_64: nat := 0x1_0000_0000_0000_0000

  datatype Frame = Frame(width: nat, height: nat, yStride: nat, uvStride: nat, yPlane: Bytes, uvPlane: Bytes) {
    ghost predicate Valid() { width < TWO_32 && height < TWO_32 }

    function UvHeight(): nat { (height + 1) / 2 }
  }

  // ----- little-endian numbers

  /** `n` in `count` bytes, least significant first. */
  function LittleEndian(n: nat, count: nat): (b: Bytes)
    ensures |b| == count
  {
    if count == 0 then [] else [(n % 256) as byte] + LittleEndian(n / 256, count - 1)
  }

  function FromLittleEndian(b: Bytes): nat {
    if b == [] then 0 else b[0] as int + 256 * FromLittleEndian(b[1..])
  }

  function Power256(count: nat): nat { if count == 0 then 1 else 256 * Power256(count - 1) }

  lemma {:induction false} LittleEndianRoundTrip(n: nat, count: nat)
    requires n < Power256(count)
    ensures FromLittleEndian(LittleEndian(n, count)) == n
  {
    if count > 0 {
      LittleEndianRoundTrip(n / 256, count - 1);
      assert LittleEndian(n, count)[1..] == LittleEndian(n / 256, count - 1);
    }
  }

  /** Byte `i` has weight 256 to the power of `i`. */
  lemma {:induction false} LittleEndianByte(n: nat, count: nat, i: nat)
    requires i < count
    ensures Power256(i) > 0 && LittleEndian(n, count)[i] as int == n / Power256(i) % 256
  {
    if i > 0 {
      LittleEndianByte(n / 256, count - 1, i - 1);
      DivideTwice(n, Power256(i - 1));
    }
  }

  lemma DivideTwice(n: nat, p: nat)
    requires p > 0
    ensures n / 256 / p == n / (256 * p)
  {
    var q, r := n / (256 * p), n % (256 * p);
    assert n == 256 * p * q + r;
    assert n / 256 == p * q + r / 256 by {
      assert n == 256 * (p * q) + r;
    }
    assert r / 256 < p;
    DivideExactly(p * q + r / 256, p, q, r / 256);
  }

  lemma DivideExactly(m: nat, p: nat, q: nat, r: nat)
    requires p > 0 && m == p * q + r && r < p
    ensures m / p == q
  {
    var d := m / p;
    assert m == d * p + m % p && p * q == q * p;
    assert (d + 1) * p == d * p + p && (q + 1) * p == q * p + p;
    if d < q {
      MultiplyMonotone(d + 1, q, p);
    } else if q < d {
      MultiplyMonotone(q + 1, d, p);
    }
  }

  lemma Powers()
    ensures Power256(4) == TWO_32 && Power256(8) == TWO_64
  {
    assert Power256(2) == 65536 && Power256(3) == 16777216 && Power256(4) == TWO_32;
    assert Power256(5) == 256 * TWO_32 && Power256(6) == 65536 * TWO_32 && Power256(7) == 16777216 * TWO_32;
  }

  /** A number in eight bytes is its high half times 2^32 plus its low half. */
  lemma {:induction false} LittleEndianHalves(a: Bytes, b: Bytes)
    ensures FromLittleEndian(a + b) == FromLittleEndian(a) + Power256(|a|) * FromLittleEndian(b)
    decreases |a|
  {
    if a == [] {
      assert a + b == b;
    } else {
      assert (a + b)[1..] == a[1..] + b;
      LittleEndianHalves(a[1..], b);
      assert 256 * (Power256(|a| - 1) * FromLittleEndian(b)) == Power256(|a|) * FromLittleEndian(b);
    }
  }

  // ----- planes

  /** The byte of a plane in row `r` and column `c`; bytes the plane does not have are 0. */
  function PlaneByte(plane: Bytes, stride: nat, r: nat, c: nat): byte {
    if r * stride + c < |plane| then plane[r * stride + c] else 0
  }

  function Row(plane: Bytes, start: nat, width: nat): (row: Bytes)
    ensures |row| == width
    ensures forall c :: 0 <= c < width ==> row[c] == if start + c < |plane| then plane[start + c] else 0
  {
    seq(width, c requires 0 <= c => if start + c < |plane| then plane[start + c] else 0)
  }

  /** The first `rows` rows of a plane, without the padding that the stride leaves between them. */
  function Rows(plane: Bytes, stride: nat, width: nat, rows: nat): (b: Bytes)
    ensures |b| == rows * width
  {
    if rows == 0 then []
    else
      assert (rows - 1) * width + width == rows * width;
      Rows(plane, stride, width, rows - 1) + Row(plane, (rows - 1) * stride, width)
  }

  lemma Cell(r: nat, c: nat, width: nat, rows: nat)
    requires r < rows && c < width
    ensures r * width + c < rows * width
  {
    assert (r + 1) * width <= rows * width by { MultiplyMonotone(r + 1, rows, width); }
    assert (r + 1) * width == r * width + width;
  }

  /** Row `r`, column `c` of the packed plane is row `r`, column `c` of the original, or 0 beyond its end. */
  lemma {:induction false} PackedCell(plane: Bytes, stride: nat, width: nat, rows: nat, r: nat, c: nat)
    requires r < rows && c < width
    ensures r * width + c < rows * width
    ensures Rows(plane, stride, width, rows)[r * width + c] == PlaneByte(plane, stride, r, c)
  {
    Cell(r, c, width, rows);
    if r < rows - 1 {
      Cell(r, c, width, rows - 1);
      PackedCell(plane, stride, width, rows - 1, r, c);
    }
  }

  /** With no padding, the packed plane is the plane itself, cut off or filled up with zeros. */
  lemma {:induction false} UnpaddedRows(plane: Bytes, width: nat, rows: nat)
    ensures Rows(plane, width, width, rows) == Row(plane, 0, rows * width)
  {
    if rows > 0 {
      UnpaddedRows(plane, width, rows - 1);
      JoinRows(plane, (rows - 1) * width, width);
      assert (rows - 1) * width + width == rows * width;
    }
  }

  lemma JoinRows(plane: Bytes, n: nat, width: nat)
    ensures Row(plane, 0, n) + Row(plane, n, width) == Row(plane, 0, n + width)
  {
  }

  /** The packed form: width, height and sequence number, then the two planes. */
  function Packed(f: Frame, sequence: nat): Bytes {
    LittleEndian(f.width, 4) + LittleEndian(f.height, 4) + LittleEndian(sequence, 8) +
    Rows(f.yPlane, f.yStride, f.width, f.height) + Rows(f.uvPlane, f.uvStride, f.width, f.UvHeight())
  }

  // ----- the packer

  function Zeros(n: nat): Bytes { Repeat(0 as byte, n) }

  lemma SplitZeros(m: nat, n: nat)
    ensures Zeros(m + n) == Zeros(m) + Zeros(n)
  {
  }

  lemma NoRows(plane: Bytes, stride: nat, width: nat)
    ensures Rows(plane, stride, width, 0) == []
  {
  }

  lemma OneMoreRow(plane: Bytes, stride: nat, width: nat, rows: nat)
    ensures Rows(plane, stride, width, rows + 1) == Rows(plane, stride, width, rows) + Row(plane, rows * stride, width)
  {
  }

  lemma OneLessRow(width: nat, left: nat, post: Bytes, before: Bytes)
    requires left > 0
    ensures before + Zeros(left * width) + post == before + Zeros(width) + (Zeros((left - 1) * width) + post)
  {
    assert left * width == width + (left - 1) * width;
    SplitZeros(width, (left - 1) * width);
  }

  lemma Regroup(a: Bytes, b: Bytes, c: Bytes, d: Bytes, e: Bytes)
    ensures (a + b) + c + (d + e) == (a + (b + c)) + d + e
  {
  }

  /** Copy `n` bytes of a plane from `start` on into a zeroed stretch, as far as the plane reaches. */
  method CopyBytes(buf: array<byte>, plane: Bytes, start: nat, n: nat, ghost pre: Bytes, ghost post: Bytes, at: nat)
    requires buf[..] == pre + Zeros(n) + post && |pre| == at
    modifies buf
    ensures buf[..] == pre + Row(plane, start, n) + post
  {
    assert |buf[..]| == at + n + |post|;
    var end := Min(start + n, |plane|);
    if start < |plane| {
      forall k | 0 <= k < end - start { buf[at + k] := plane[start + k]; }
    }
    ghost var goal := pre + Row(plane, start, n) + post;
    forall i | 0 <= i < |goal| ensures buf[i] == goal[i] {
      assert old(buf[..])[i] == (pre + Zeros(n) + post)[i];
    }
  }

  /** Copy a plane into the zeroed part of the buffer between `pre` and `post`. */
  method CopyPlane(buf: array<byte>, base: nat, width: nat, rows: nat, stride: nat, plane: Bytes,
                   ghost pre: Bytes, ghost post: Bytes)
    requires buf[..] == pre + Zeros(rows * width) + post && |pre| == base
    modifies buf
    ensures buf[..] == pre + Rows(plane, stride, width, rows) + post
  {
    hide Rows, Zeros;
    if stride == width {
      UnpaddedRows(plane, width, rows);
      CopyBytes(buf, plane, 0, rows * width, pre, post, base);
    } else {
      NoRows(plane, stride, width);
      assert pre + [] == pre && rows * width == (rows - 0) * width;
      for row := 0 to rows
        invariant buf[..] == (pre + Rows(plane, stride, width, row)) + Zeros((rows - row) * width) + post
      {
        ghost var before, left := pre + Rows(plane, stride, width, row), (rows - row - 1) * width;
        OneLessRow(width, rows - row, post, before);
        CopyBytes(buf, plane, row * stride, width, before, Zeros(left) + post, base + row * width);
        OneMoreRow(plane, stride, width, row);
        Regroup(pre, Rows(plane, stride, width, row), Row(plane, row * stride, width), Zeros(left), post);
      }
      NoZeros(width);
      assert (pre + Rows(plane, stride, width, rows)) + [] == pre + Rows(plane, stride, width, rows);
    }
  }

  lemma NoZeros(width: nat)
    ensures Zeros(0 * width) == []
  {
  }

  lemma BlankFrame(b: Bytes, header: Bytes, ySize: nat, uvSize: nat)
    requires |b| == |header| + ySize + uvSize && forall i :: 0 <= i < |header| ==> b[i] == header[i]
    requires forall i :: |header| <= i < |b| ==> b[i] == 0
    ensures b == header + Zeros(ySize) + Zeros(uvSize)
  {
  }

  method RepackNv12Frame(f: Frame, sequence: nat) returns (buf: array<byte>)
    requires f.Valid() && sequence < TWO_64
    ensures fresh(buf) && buf[..] == Packed(f, sequence)
  {
    hide Rows, LittleEndian, Frame.UvHeight, Zeros;
    var ySize, uvSize := f.height * f.width, f.UvHeight() * f.width;
    var header := LittleEndian(f.width, 4) + LittleEndian(f.height, 4) + LittleEndian(sequence, 8);
    buf := new byte[HEADER_SIZE + ySize + uvSize](_ => 0);
    forall i | 0 <= i < HEADER_SIZE { buf[i] := header[i]; }
    BlankFrame(buf[..], header, ySize, uvSize);
    CopyPlane(buf, HEADER_SIZE, f.width, f.height, f.yStride, f.yPlane, header, Zeros(uvSize));
    ghost var done := header + Rows(f.yPlane, f.yStride, f.width, f.height);
    assert buf[..] == done + Zeros(uvSize) + [];
    CopyPlane(buf, HEADER_SIZE + ySize, f.width, f.UvHeight(), f.uvStride, f.uvPlane, done, []);
    assert buf[..] == done + Rows(f.uvPlane, f.uvStride, f.width, f.UvHeight());
  }

  // ----- the parser

  /** What the page is given: a view of a buffer, or something that is neither a buffer nor a view. */
  datatype Input = View(buffer: Bytes, byteOffset: nat, byteLength: nat) | Other

  datatype ParseError = InvalidPayload | ShorterThanHeader | ZeroDimensions | Truncated

  datatype Parsed = Parsed(width: nat, height: nat, sequence: nat,
                           yOffset: nat, yLength: nat, uvOffset: nat, uvLength: nat,
                           yData: Bytes, uvData: Bytes)

  /** The sequence number, read in one piece or, where that is not available, in two halves. */
  function ReadSequence(b: Bytes, inOnePiece: bool): nat
    requires |b| == 8
  {
    if inOnePiece then FromLittleEndian(b) else FromLittleEndian(b[4..]) * TWO_32 + FromLittleEndian(b[..4])
  }

  function ParseNv12Frame(input: Input, inOnePiece: bool): Result<Parsed, ParseError>
    requires input.View? ==> input.byteOffset + input.byteLength <= |input.buffer|
  {
    if input.Other? then Err(InvalidPayload)
    else if input.byteLength < HEADER_SIZE then Err(ShorterThanHeader)
    else
      var view := input.buffer[input.byteOffset..input.byteOffset + input.byteLength];
      var width, height := FromLittleEndian(view[0..4]), FromLittleEndian(view[4..8]);
      var sequence := ReadSequence(view[8..16], inOnePiece);
      if width == 0 || height == 0 then Err(ZeroDimensions)
      else
        var yLength := height * width;
        var uvLength := (height + 1) / 2 * width;
        if input.byteLength < HEADER_SIZE + yLength + uvLength then Err(Truncated)
        else
          Ok(Parsed(width, height, sequence, HEADER_SIZE, yLength, HEADER_SIZE + yLength, uvLength,
                    view[HEADER_SIZE..HEADER_SIZE + yLength],
                    view[HEADER_SIZE + yLength..HEADER_SIZE + yLength + uvLength]))
  }

  // ----- round trip

  lemma HeaderOfPacked(f: Frame, sequence: nat, view: Bytes)
    requires f.Valid() && sequence < TWO_64 && Packed(f, sequence) <= view
    ensures |view| >= HEADER_SIZE + f.height * f.width + f.UvHeight() * f.width
    ensures FromLittleEndian(view[0..4]) == f.width && FromLittleEndian(view[4..8]) == f.height
    ensures view[8..16] == LittleEndian(sequence, 8)
  {
    hide LittleEndian, FromLittleEndian, Rows;
    var w, h, s := LittleEndian(f.width, 4), LittleEndian(f.height, 4), LittleEndian(sequence, 8);
    var rest := Rows(f.yPlane, f.yStride, f.width, f.height) + Rows(f.uvPlane, f.uvStride, f.width, f.UvHeight());
    assert Packed(f, sequence) == w + (h + (s + rest));
    assert view[0..4] == w && view[4..8] == h && view[8..16] == s;
    Powers();
    LittleEndianRoundTrip(f.width, 4);
    LittleEndianRoundTrip(f.height, 4);
  }

  lemma PlanesOfPacked(f: Frame, sequence: nat, view: Bytes)
    requires f.Valid() && Packed(f, sequence) <= view
    ensures
      var uvStart, end := HEADER_SIZE + f.height * f.width, HEADER_SIZE + f.height * f.width + f.UvHeight() * f.width;
      && end <= |view|
      && view[HEADER_SIZE..uvStart] == Rows(f.yPlane, f.yStride, f.width, f.height)
      && view[uvStart..end] == Rows(f.uvPlane, f.uvStride, f.width, f.UvHeight())
  {
    hide LittleEndian, Rows;
    var header := LittleEndian(f.width, 4) + LittleEndian(f.height, 4) + LittleEndian(sequence, 8);
    var y, uv := Rows(f.yPlane, f.yStride, f.width, f.height), Rows(f.uvPlane, f.uvStride, f.width, f.UvHeight());
    var packed := Packed(f, sequence);
    assert packed == header + y + uv;
    assert view[HEADER_SIZE..HEADER_SIZE + |y|] == y;
    assert view[HEADER_SIZE + |y|..HEADER_SIZE + |y| + |uv|] == uv;
  }

  lemma SequenceRoundTrip(sequence: nat, inOnePiece: bool)
    requires sequence < TWO_64
    ensures ReadSequence(LittleEndian(sequence, 8), inOnePiece) == sequence
  {
    hide LittleEndian, FromLittleEndian;
    var b := LittleEndian(sequence, 8);
    Powers();
    LittleEndianRoundTrip(sequence, 8);
    LittleEndianHalves(b[..4], b[4..]);
    assert b[..4] + b[4..] == b;
  }

  /** What the parser makes of a view that is long enough for its header. */
  lemma ParseOfView(input: Input, view: Bytes, width: nat, height: nat, ySize: nat, uvSize: nat, inOnePiece: bool)
    requires input.View? && input.byteLength == |view| && input.byteOffset + |view| <= |input.buffer|
    requires input.buffer[input.byteOffset..input.byteOffset + |view|] == view
    requires ySize == height * width && uvSize == (height + 1) / 2 * width && HEADER_SIZE + ySize + uvSize <= |view|
    requires FromLittleEndian(view[0..4]) == width > 0 && FromLittleEndian(view[4..8]) == height > 0
    ensures
      ParseNv12Frame(input, inOnePiece) ==
      Ok(Parsed(width, height, ReadSequence(view[8..16], inOnePiece), HEADER_SIZE, ySize, HEADER_SIZE + ySize, uvSize,
                view[HEADER_SIZE..HEADER_SIZE + ySize], view[HEADER_SIZE + ySize..HEADER_SIZE + ySize + uvSize]))
  {
    hide FromLittleEndian, ReadSequence;
  }

  /**
   Round trip: for every frame with positive dimensions, any strides and any view that starts with
   the packed frame, the page recovers the dimensions, the 64-bit sequence number and both planes.
   */
  lemma FrameRoundTrip(f: Frame, sequence: nat, before: Bytes, after: Bytes, inOnePiece: bool)
    requires f.Valid() && f.width > 0 && f.height > 0 && sequence < TWO_64
    ensures
      var packed := Packed(f, sequence);
      var ySize, uvSize := f.height * f.width, f.UvHeight() * f.width;
      ParseNv12Frame(View(before + packed + after, |before|, |packed + after|), inOnePiece) ==
      Ok(Parsed(f.width, f.height, sequence, HEADER_SIZE, ySize, HEADER_SIZE + ySize, uvSize,
                Rows(f.yPlane, f.yStride, f.width, f.height), Rows(f.uvPlane, f.uvStride, f.width, f.UvHeight())))
  {
    hide LittleEndian, FromLittleEndian, Rows, Packed, ReadSequence, ParseNv12Frame;
    var packed := Packed(f, sequence);
    var view := packed + after;
    assert (before + packed + after)[|before|..|before| + |view|] == view;
    HeaderOfPacked(f, sequence, view);
    PlanesOfPacked(f, sequence, view);
    SequenceRoundTrip(sequence, inOnePiece);
    ParseOfView(View(before + packed + after, |before|, |packed + after|), view, f.width, f.height,
                f.height * f.width, f.UvHeight() * f.width, inOnePiece);
  }

  // ----- what is refused

  /** Chroma rows are half as many as luma rows, rounded up. */
  lemma UvHeightRoundsUp(f: Frame)
    ensures f.height <= 2 * f.UvHeight() <= f.height + 1
  {
  }

  lemma HeaderIsFirst(f: Frame, sequence: nat)
    requires f.Valid() && sequence < TWO_64
    ensures |Packed(f, sequence)| == HEADER_SIZE + f.height * f.width + f.UvHeight() * f.width
    ensures
      var packed := Packed(f, sequence);
      FromLittleEndian(packed[0..4]) == f.width && FromLittleEndian(packed[4..8]) == f.height
  {
    hide LittleEndian, FromLittleEndian, Rows;
    HeaderOfPacked(f, sequence, Packed(f, sequence));
  }

  /**
   A packed frame is refused if it has no pixels, and so is every frame that has been cut short: within the
   header for being shorter than it, after it for being truncated.
   */
  lemma PartialFramesAreRefused(f: Frame, sequence: nat, k: nat, inOnePiece: bool)
    requires f.Valid() && sequence < TWO_64 && k <= |Packed(f, sequence)|
    ensures
      var r := ParseNv12Frame(View(Packed(f, sequence)[..k], 0, k), inOnePiece);
      && (k < 16 ==> r == Err(ShorterThanHeader))
      && (k >= 16 && (f.width == 0 || f.height == 0) ==> r == Err(ZeroDimensions))
      && (16 <= k < |Packed(f, sequence)| && f.width > 0 && f.height > 0 ==> r == Err(Truncated))
    ensures ParseNv12Frame(Other, inOnePiece) == Err(InvalidPayload)
  {
    hide LittleEndian, FromLittleEndian, Rows, Packed, ReadSequence, ParseNv12Frame;
    var packed := Packed(f, sequence);
    HeaderIsFirst(f, sequence);
    var view := packed[..k];
    assert view[0..k] == view;
    if k >= HEADER_SIZE {
      assert view[0..4] == packed[0..4] && view[4..8] == packed[4..8];
    }
    ParseRefusals(View(view, 0, k), view, f.width, f.height, f.UvHeight() * f.width, inOnePiece);
  }

  lemma ParseRefusals(input: Input, view: Bytes, width: nat, height: nat, uvSize: nat, inOnePiece: bool)
    requires input.View? && input.byteLength == |view| && input.byteOffset + |view| <= |input.buffer|
    requires input.buffer[input.byteOffset..input.byteOffset + |view|] == view && uvSize == (height + 1) / 2 * width
    requires |view| >= HEADER_SIZE ==> FromLittleEndian(view[0..4]) == width && FromLittleEndian(view[4..8]) == height
    ensures
      var r := ParseNv12Frame(input, inOnePiece);
      && (|view| < HEADER_SIZE ==> r == Err(ShorterThanHeader))
      && (|view| >= HEADER_SIZE && (width == 0 || height == 0) ==> r == Err(ZeroDimensions))
      && (HEADER_SIZE <= |view| < HEADER_SIZE + height * width + uvSize && width > 0 && height > 0 ==>
            r == Err(Truncated))
    ensures ParseNv12Frame(Other, inOnePiece) == Err(InvalidPayload)
  {
    hide FromLittleEndian, ReadSequence;
  }
}
