/** Clipboard images cross the connection in chunks: the sender, the host's assembly and the client's assembly. */
module ClipboardImage {
  import opened Prelude

  const LIMIT: nat := 8 * 1024 * 1024
  const MAX_CHUNK: nat := 65536
  const MAX_USED: nat := 65536
  const SIGNATURE: Bytes := [0x89, 0x50, 0x4E, 0x47, 13, 10, 0x1A, 10]
  /** Clock values are nanoseconds. */
  const HOST_TIMEOUT: nat := 5_000_000_000
  const CLIENT_TIMEOUT: nat := 10_000_000_000
  const U32_MAX: nat := 0xFFFF_FFFF

  datatype Chunk = Chunk(transferId: nat, totalBytes: nat, offset: nat, png: Bytes)

  type Outcome = Result<Option<Bytes>, ()>

  // ----- the sender

  /** The chunks of an image from `offset` on, each of `size` bytes but the last. */
  function ChunksFrom(png: Bytes, id: nat, size: nat, offset: nat): seq<Chunk>
    requires size > 0
    decreases |png| - offset
  {
    if offset >= |png| then []
    else [Chunk(id, |png|, offset, png[offset..Min(offset + size, |png|)])] + ChunksFrom(png, id, size, offset + size)
  }

  datatype SendError = Unsupported | PermissionDenied | InvalidImage | SendFailed

  /**
   What the session decides about an image: whether the capability was negotiated, the answer of each
   check of the clipboard permission, and which sends succeed.
   */
  datatype Link = Link(negotiated: bool, allowed: nat -> bool, accepts: nat -> bool) {
    /** Does chunk `k` go out?  The first permission check comes before any chunk. */
    predicate Takes(k: nat) { allowed(k + 1) && accepts(k) }
  }

  /** Why an image is refused before it gets an id, if it is. */
  function Refusal(link: Link, png: Bytes, lastId: nat): Option<SendError> {
    if !link.negotiated then Some(Unsupported)
    else if !link.allowed(0) then Some(PermissionDenied)
    else if |png| > LIMIT || !(SIGNATURE <= png) then Some(InvalidImage)
    else if lastId >= U32_MAX then Some(Unsupported)
    else None
  }

  /** The reasons in order: capability, permission, form and size of the image, ids. */
  lemma RefusalsInOrder(link: Link, png: Bytes, lastId: nat)
    ensures !link.negotiated ==> Refusal(link, png, lastId) == Some(Unsupported)
    ensures link.negotiated && !link.allowed(0) ==> Refusal(link, png, lastId) == Some(PermissionDenied)
    ensures
      link.negotiated && link.allowed(0) && !(SIGNATURE <= png && |png| <= 8 * 1024 * 1024) ==>
        Refusal(link, png, lastId) == Some(InvalidImage)
    ensures
      link.negotiated && link.allowed(0) && SIGNATURE <= png && |png| <= 8 * 1024 * 1024 ==>
        Refusal(link, png, lastId) == if lastId < 0xFFFF_FFFF then None else Some(Unsupported)
  {
  }

  class Sender {
    var imageSequence: nat

    ghost predicate Valid()
      reads this
    {
      imageSequence <= U32_MAX
    }

    constructor ()
      ensures Valid() && imageSequence == 0
    {
      imageSequence := 0;
    }

    /**
     The chunks sent for an image under a fresh id: all of them, or those before the first that does not
     go out.  A refused image sends nothing and spends no id.
     */
    method SendClipboardImage(png: Bytes, link: Link) returns (r: Result<(), SendError>, sent: seq<Chunk>)
      requires Valid()
      modifies this
      ensures Valid()
      ensures imageSequence == old(imageSequence) + if Refusal(link, png, old(imageSequence)).None? then 1 else 0
      ensures
        var refusal := Refusal(link, png, old(imageSequence));
        refusal.Some? ==> sent == [] && r == Err(refusal.value)
      ensures
        Refusal(link, png, old(imageSequence)).None? ==>
          var all := ChunksFrom(png, imageSequence, MAX_CHUNK, 0);
          && sent <= all && (forall k :: 0 <= k < |sent| ==> link.Takes(k))
          && (|sent| < |all| ==> !link.Takes(|sent|))
          && r == (if sent == all then Ok(())
                   else Err(if link.allowed(|sent| + 1) then SendFailed else PermissionDenied))
    {
      sent := [];
      if !link.negotiated { return Err(Unsupported), []; }
      if !link.allowed(0) { return Err(PermissionDenied), []; }
      if |png| > LIMIT || !(SIGNATURE <= png) { return Err(InvalidImage), []; }
      if imageSequence == U32_MAX { return Err(Unsupported), []; }
      imageSequence := imageSequence + 1;
      var offset := 0;
      while offset < |png|
        invariant sent + ChunksFrom(png, imageSequence, MAX_CHUNK, offset) ==
                  ChunksFrom(png, imageSequence, MAX_CHUNK, 0)
        invariant imageSequence == old(imageSequence) + 1
        invariant forall k :: 0 <= k < |sent| ==> link.Takes(k)
        decreases |png| - offset
      {
        if !link.allowed(|sent| + 1) { return Err(PermissionDenied), sent; }
        if !link.accepts(|sent|) { return Err(SendFailed), sent; }
        NextChunkSent(sent, png, imageSequence, offset);
        sent := sent + [Chunk(imageSequence, |png|, offset, png[offset..Min(offset + MAX_CHUNK, |png|)])];
        offset := offset + MAX_CHUNK;
      }
      assert sent + [] == sent;
      return Ok(()), sent;
    }
  }

  lemma NextChunkSent(sent: seq<Chunk>, png: Bytes, id: nat, offset: nat)
    requires offset < |png|
    ensures
      var chunk := Chunk(id, |png|, offset, png[offset..Min(offset + MAX_CHUNK, |png|)]);
      sent + ChunksFrom(png, id, MAX_CHUNK, offset) ==
      (sent + [chunk]) + ChunksFrom(png, id, MAX_CHUNK, offset + MAX_CHUNK)
  {
    hide ChunksFrom;
    var chunk := Chunk(id, |png|, offset, png[offset..Min(offset + MAX_CHUNK, |png|)]);
    ChunksStep(png, id, MAX_CHUNK, offset);
    assert sent + ([chunk] + ChunksFrom(png, id, MAX_CHUNK, offset + MAX_CHUNK)) ==
           (sent + [chunk]) + ChunksFrom(png, id, MAX_CHUNK, offset + MAX_CHUNK);
  }

  lemma ChunksStep(png: Bytes, id: nat, size: nat, offset: nat)
    requires size > 0
    ensures
      ChunksFrom(png, id, size, offset) ==
      if offset >= |png| then []
      else
        [Chunk(id, |png|, offset, png[offset..Min(offset + size, |png|)])] + ChunksFrom(png, id, size, offset + size)
  {
  }

  // ----- the host

  datatype Transfer = Transfer(id: nat, expected: nat, started: nat, bytes: Bytes)

  datatype Host = Host(active: Option<Transfer>, used: set<nat>)

  datatype HostStep = HostStep(host: Host, outcome: Outcome)

  predicate Overdue(started: nat, now: nat, timeout: nat) { SaturatingSub(now, started) >= timeout }

  function Expire(h: Host, now: nat): Host {
    if h.active.Some? && Overdue(h.active.value.started, now, HOST_TIMEOUT) then h.(active := None) else h
  }

  predicate WellFormed(c: Chunk) { 8 <= c.totalBytes <= LIMIT && 0 < |c.png| <= MAX_CHUNK }

  /** May the chunk at offset 0 open a transfer? */
  predicate Opens(h: Host, c: Chunk) { |h.used| < MAX_USED && c.transferId !in h.used && SIGNATURE <= c.png }

  function Open(h: Host, c: Chunk, now: nat): Host {
    Host(Some(Transfer(c.transferId, c.totalBytes, now, [])), h.used + {c.transferId})
  }

  /** The ids after a chunk at offset 0 was turned away: its id is spent unless the ids have run out. */
  function Spend(h: Host, c: Chunk): set<nat> { if |h.used| < MAX_USED then h.used + {c.transferId} else h.used }

  predicate Continues(t: Transfer, c: Chunk) {
    t.id == c.transferId && t.expected == c.totalBytes && |t.bytes| == c.offset && |t.bytes| + |c.png| <= c.totalBytes
  }

  /** Append a chunk to the active transfer, if it continues it. */
  function Append(h: Host, c: Chunk, decodes: Bytes -> bool): HostStep {
    if h.active.None? then HostStep(h, Err(()))
    else if !Continues(h.active.value, c) then HostStep(h.(active := None), Err(()))
    else
      var bytes := h.active.value.bytes + c.png;
      if |bytes| != c.totalBytes then HostStep(h.(active := Some(h.active.value.(bytes := bytes))), Ok(None))
      else if |bytes| <= LIMIT && SIGNATURE <= bytes && decodes(bytes) then
        HostStep(h.(active := None), Ok(Some(bytes)))
      else HostStep(h.(active := None), Err(()))
  }

  /** One chunk at the host; `decodes` says whether bytes are a PNG that decodes within the limits. */
  function AfterPush(h: Host, c: Chunk, now: nat, decodes: Bytes -> bool): HostStep {
    var live := Expire(h, now);
    if !WellFormed(c) then HostStep(live.(active := None), Err(()))
    else if c.offset > 0 then Append(live, c, decodes)
    else if Opens(live, c) then Append(Open(live, c, now), c, decodes)
    else HostStep(Host(None, Spend(live, c)), Err(()))
  }

  class Assembly {
    var active: Option<Transfer>
    var used: set<nat>

    function Abs(): Host
      reads this
    {
      Host(active, used)
    }

    constructor ()
      ensures Abs() == Host(None, {})
    {
      active, used := None, {};
    }

    method Cancel()
      modifies this`active
      ensures active == None
    {
      active := None;
    }

    method ExpireNow(now: nat)
      modifies this`active
      ensures Abs() == Expire(old(Abs()), now)
    {
      if active.Some? && SaturatingSub(now, active.value.started) >= HOST_TIMEOUT { Cancel(); }
    }

    method Push(chunk: Chunk, now: nat, decodes: Bytes -> bool) returns (r: Outcome)
      modifies this
      ensures HostStep(Abs(), r) == AfterPush(old(Abs()), chunk, now, decodes)
    {
      ExpireNow(now);
      var total := chunk.totalBytes;
      if !(8 <= total <= LIMIT) || chunk.png == [] || |chunk.png| > MAX_CHUNK {
        Cancel();
        return Err(());
      }
      if chunk.offset == 0 {
        var full := |used| >= MAX_USED;
        var fresh' := chunk.transferId !in used;
        if !full { used := used + {chunk.transferId}; }
        if full || !fresh' || !(SIGNATURE <= chunk.png) {
          Cancel();
          return Err(());
        }
        active := Some(Transfer(chunk.transferId, total, now, []));
      }
      if active.None? { return Err(()); }
      var t := active.value;
      if t.id != chunk.transferId || t.expected != total || |t.bytes| != chunk.offset
         || |t.bytes| + |chunk.png| > total {
        Cancel();
        return Err(());
      }
      var bytes := t.bytes + chunk.png;
      active := Some(t.(bytes := bytes));
      if |bytes| != total { return Ok(None); }
      Cancel();
      if |bytes| > LIMIT || !(SIGNATURE <= bytes) || !decodes(bytes) { return Err(()); }
      return Ok(Some(bytes));
    }
  }

  // ----- runs of the host

  /** A chunk arrives, the session looks for an overdue transfer, or it gives the transfer up. */
  datatype Event = Arrived(chunk: Chunk, now: nat) | Expired(now: nat) | Cancelled

  function Next(h: Host, e: Event, decodes: Bytes -> bool): HostStep {
    match e
    case Arrived(c, now) => AfterPush(h, c, now, decodes)
    case Expired(now) => HostStep(Expire(h, now), Ok(None))
    case Cancelled => HostStep(h.(active := None), Ok(None))
  }

  function Feed(h: Host, es: seq<Event>, decodes: Bytes -> bool): Host {
    if es == [] then h else Next(Feed(h, es[..|es| - 1], decodes), es[|es| - 1], decodes).host
  }

  /** What the k-th event is answered with; only chunks are answered with more than nothing. */
  function Answer(h: Host, es: seq<Event>, k: nat, decodes: Bytes -> bool): Outcome
    requires k < |es|
  {
    Next(Feed(h, es[..k], decodes), es[k], decodes).outcome
  }

  predicate IsImage(outcome: Outcome) { outcome.Ok? && outcome.value.Some? }

  /** The chunks among the events. */
  function Arrivals(es: seq<Event>): (r: seq<Event>)
    ensures |r| <= |es| && forall i :: 0 <= i < |r| ==> r[i].Arrived?
  {
    if es == [] then []
    else Arrivals(es[..|es| - 1]) + if es[|es| - 1].Arrived? then [es[|es| - 1]] else []
  }

  lemma ArrivalsSnoc(es: seq<Event>, e: Event)
    ensures Arrivals([]) == [] && Arrivals(es + [e]) == Arrivals(es) + if e.Arrived? then [e] else []
  {
    assert (es + [e])[..|es|] == es;
  }

  lemma FeedSnoc(h: Host, es: seq<Event>, k: nat, decodes: Bytes -> bool)
    requires 0 < k <= |es|
    ensures Feed(h, es[..k], decodes) == Next(Feed(h, es[..k - 1], decodes), es[k - 1], decodes).host
    ensures k == 1 ==> Feed(h, es[..k - 1], decodes) == h
  {
    assert es[..k][..k - 1] == es[..k - 1];
  }

  // ----- round trip

  lemma {:induction false} ChunkAt(png: Bytes, id: nat, size: nat, offset: nat, k: nat)
    requires size > 0 && k < |ChunksFrom(png, id, size, offset)|
    ensures
      var at := offset + k * size;
      && at < |png|
      && ChunksFrom(png, id, size, offset)[k] == Chunk(id, |png|, at, png[at..Min(at + size, |png|)])
      && (k + 1 == |ChunksFrom(png, id, size, offset)| <==> at + size >= |png|)
    decreases k
  {
    hide ChunksFrom;
    ChunksStep(png, id, size, offset);
    if k > 0 {
      ChunkAt(png, id, size, offset + size, k - 1);
      NextOffset(k - 1, size);
      assert offset + size + (k - 1) * size == offset + k * size;
    } else {
      ChunksStep(png, id, size, offset + size);
      assert 0 * size == 0;
    }
  }

  /**
   The chunks of an image arrive in order, the session never gives the transfer up, and everything
   after the first chunk happens within the host's time limit of it.
   */
  ghost predicate Carries(es: seq<Event>, png: Bytes, id: nat, size: nat)
    requires size > 0
  {
    var arrivals := Arrivals(es);
    && |arrivals| == |ChunksFrom(png, id, size, 0)|
    && (forall k :: 0 <= k < |arrivals| ==> arrivals[k].chunk == ChunksFrom(png, id, size, 0)[k])
    && (forall k :: 0 <= k < |es| && Arrivals(es[..k]) != [] ==>
          !es[k].Cancelled? && SaturatingSub(es[k].now, Arrivals(es[..k])[0].now) < HOST_TIMEOUT)
  }

  ghost predicate Sendable(png: Bytes, decodes: Bytes -> bool) {
    8 <= |png| <= LIMIT && SIGNATURE <= png && decodes(png)
  }

  /** What the host `h` has become once the first `arrived` chunks of an image are in. */
  ghost predicate Holds(h: Host, arrived: seq<Event>, png: Bytes, id: nat, size: nat, g: Host)
    requires size > 0 && forall i :: 0 <= i < |arrived| ==> arrived[i].Arrived?
  {
    if arrived == [] then g.used == h.used
    else if |arrived| < |ChunksFrom(png, id, size, 0)| then
      |arrived| * size < |png| &&
      g == Host(Some(Transfer(id, |png|, arrived[0].now, png[..|arrived| * size])), h.used + {id})
    else g == Host(None, h.used + {id})
  }

  /** Checking for an overdue transfer, or giving up one not yet begun, changes nothing. */
  lemma IdleStep(h: Host, arrived: seq<Event>, png: Bytes, id: nat, size: nat, g: Host, e: Event,
                 decodes: Bytes -> bool)
    requires size > 0 && forall i :: 0 <= i < |arrived| ==> arrived[i].Arrived?
    requires Holds(h, arrived, png, id, size, g) && !e.Arrived?
    requires arrived != [] ==> !e.Cancelled? && SaturatingSub(e.now, arrived[0].now) < HOST_TIMEOUT
    ensures Holds(h, arrived, png, id, size, Next(g, e, decodes).host) && Next(g, e, decodes).outcome == Ok(None)
  {
  }

  /** The next chunk extends what is held; the last one is answered with the image. */
  lemma ChunkStep(h: Host, arrived: seq<Event>, png: Bytes, id: nat, size: nat, g: Host, e: Event,
                  decodes: Bytes -> bool)
    requires Sendable(png, decodes) && 8 <= size <= MAX_CHUNK && id !in h.used && |h.used| < MAX_USED
    requires forall i :: 0 <= i < |arrived| ==> arrived[i].Arrived?
    requires Holds(h, arrived, png, id, size, g) && |arrived| < |ChunksFrom(png, id, size, 0)|
    requires e.Arrived? && e.chunk == ChunksFrom(png, id, size, 0)[|arrived|]
    requires arrived != [] ==> SaturatingSub(e.now, arrived[0].now) < HOST_TIMEOUT
    ensures Holds(h, arrived + [e], png, id, size, Next(g, e, decodes).host)
    ensures
      Next(g, e, decodes).outcome == Ok(if |arrived| + 1 == |ChunksFrom(png, id, size, 0)| then Some(png) else None)
  {
    hide AfterPush, ChunksFrom;
    var k, n := |arrived|, |ChunksFrom(png, id, size, 0)|;
    ChunkAt(png, id, size, 0, k);
    NextOffset(k, size);
    if k == 0 {
      assert 0 * size == 0;
      if n == 1 {
        OnlyChunk(g, e.chunk, e.now, png, id, decodes);
      } else {
        FirstChunk(g, e.chunk, e.now, png, id, size, decodes);
      }
    } else if k + 1 < n {
      NextChunk(g, e.chunk, e.now, png, k * size, size, decodes);
    } else {
      LastChunk(g, e.chunk, e.now, png, k * size, decodes);
    }
  }

  lemma NextOffset(k: nat, size: nat)
    ensures (k + 1) * size == k * size + size
    ensures k > 0 && size > 0 ==> k * size > 0
  {
  }

  /** After any part of the run the host holds exactly the bytes of the chunks that have arrived. */
  lemma {:induction false} TransferProgress(h: Host, es: seq<Event>, png: Bytes, id: nat, size: nat,
                                            decodes: Bytes -> bool, k: nat)
    requires Sendable(png, decodes) && 8 <= size <= MAX_CHUNK && Carries(es, png, id, size)
    requires id !in h.used && |h.used| < MAX_USED && k <= |es|
    ensures Holds(h, Arrivals(es[..k]), png, id, size, Feed(h, es[..k], decodes))
    ensures
      k > 0 ==>
        Answer(h, es, k - 1, decodes) ==
        Ok(if es[k - 1].Arrived? && |Arrivals(es[..k])| == |ChunksFrom(png, id, size, 0)| then Some(png) else None)
  {
    if k > 0 {
      hide Feed, Next, ChunksFrom, Holds, Sendable, Arrivals, Carries;
      TransferProgress(h, es, png, id, size, decodes, k - 1);
      var e, arrived := es[k - 1], Arrivals(es[..k - 1]);
      FeedSnoc(h, es, k, decodes);
      CarriesNext(es, png, id, size, k);
      if e.Arrived? {
        ChunkStep(h, arrived, png, id, size, Feed(h, es[..k - 1], decodes), e, decodes);
      } else {
        IdleStep(h, arrived, png, id, size, Feed(h, es[..k - 1], decodes), e, decodes);
        assert arrived + [] == arrived;
      }
    } else {
      assert es[..0] == [];
    }
  }

  /** The event number k - 1 of the run is idle or brings the next chunk, in time. */
  lemma CarriesNext(es: seq<Event>, png: Bytes, id: nat, size: nat, k: nat)
    requires size > 0 && 0 < k <= |es| && Carries(es, png, id, size)
    ensures
      var e, arrived := es[k - 1], Arrivals(es[..k - 1]);
      && Arrivals(es[..k]) == arrived + (if e.Arrived? then [e] else [])
      && (e.Arrived? ==>
            |arrived| < |ChunksFrom(png, id, size, 0)| && e.chunk == ChunksFrom(png, id, size, 0)[|arrived|])
      && (arrived != [] ==> !e.Cancelled? && SaturatingSub(e.now, arrived[0].now) < HOST_TIMEOUT)
  {
    hide ChunksFrom, Arrivals;
    assert es[..k] == es[..k - 1] + [es[k - 1]];
    ArrivalsSnoc(es[..k - 1], es[k - 1]);
    ArrivalsInOrder(es, k);
    if es[k - 1].Arrived? {
      assert Arrivals(es)[|Arrivals(es[..k - 1])|] == Arrivals(es[..k])[|Arrivals(es[..k - 1])|] == es[k - 1];
    }
  }

  lemma {:induction false} ArrivalsInOrder(es: seq<Event>, k: nat)
    requires k <= |es|
    ensures Arrivals(es[..k]) <= Arrivals(es)
    decreases |es| - k
  {
    if k == |es| {
      assert es[..k] == es;
    } else {
      ArrivalsInOrder(es, k + 1);
      assert es[..k + 1] == es[..k] + [es[k]];
      ArrivalsSnoc(es[..k], es[k]);
    }
  }

  /** The first of several chunks opens the transfer. */
  lemma FirstChunk(h: Host, c: Chunk, now: nat, png: Bytes, id: nat, size: nat, decodes: Bytes -> bool)
    requires Sendable(png, decodes) && 8 <= size <= MAX_CHUNK && size < |png|
    requires c == Chunk(id, |png|, 0, png[0..size]) && id !in h.used && |h.used| < MAX_USED
    ensures
      AfterPush(h, c, now, decodes) ==
      HostStep(Host(Some(Transfer(id, |png|, now, png[..size])), h.used + {id}), Ok(None))
  {
    assert c.png == png[..size] && SIGNATURE <= c.png;
    assert [] + c.png == png[..size];
  }

  /** A chunk in the middle extends it. */
  lemma NextChunk(h: Host, c: Chunk, now: nat, png: Bytes, offset: nat, size: nat, decodes: Bytes -> bool)
    requires Sendable(png, decodes) && 0 < size <= MAX_CHUNK && 0 < offset && offset + size < |png|
    requires h.active.Some? && h.active.value.bytes == png[..offset] && h.active.value.expected == |png|
    requires c == Chunk(h.active.value.id, |png|, offset, png[offset..offset + size])
    requires SaturatingSub(now, h.active.value.started) < HOST_TIMEOUT
    ensures
      AfterPush(h, c, now, decodes) ==
      HostStep(h.(active := Some(h.active.value.(bytes := png[..offset + size]))), Ok(None))
  {
    assert png[..offset] + png[offset..offset + size] == png[..offset + size];
  }

  /** The k-th event brings the last chunk. */
  predicate BringsLast(es: seq<Event>, k: nat)
    requires k < |es|
  {
    es[k].Arrived? && Arrivals(es[..k + 1]) == Arrivals(es)
  }

  /**
   Round trip: the chunks of any decodable PNG, under a fresh id and in time, with any checks for
   overdue transfers in between, make the host answer nothing until the last of them, and then exactly
   the original image.
   */
  lemma ImageRoundTrip(h: Host, es: seq<Event>, png: Bytes, id: nat, size: nat, decodes: Bytes -> bool, k: nat)
    requires Sendable(png, decodes) && 8 <= size <= MAX_CHUNK && Carries(es, png, id, size)
    requires id !in h.used && |h.used| < MAX_USED && k < |es|
    ensures Answer(h, es, k, decodes) == Ok(if BringsLast(es, k) then Some(png) else None)
    ensures Feed(h, es, decodes) == Host(None, h.used + {id})
  {
    hide Feed, AfterPush, Answer;
    TransferProgress(h, es, png, id, size, decodes, k + 1);
    TransferProgress(h, es, png, id, size, decodes, |es|);
    ArrivalsInOrder(es, k + 1);
    assert es[..|es|] == es;
    assert ChunksFrom(png, id, size, 0) != [];
  }

  lemma OnlyChunk(h: Host, c: Chunk, now: nat, png: Bytes, id: nat, decodes: Bytes -> bool)
    requires Sendable(png, decodes) && |png| <= MAX_CHUNK
    requires c == Chunk(id, |png|, 0, png[0..|png|]) && id !in h.used && |h.used| < MAX_USED
    ensures AfterPush(h, c, now, decodes) == HostStep(Host(None, h.used + {id}), Ok(Some(png)))
  {
    assert c.png == png && [] + png == png;
  }

  lemma LastChunk(h: Host, c: Chunk, now: nat, png: Bytes, offset: nat, decodes: Bytes -> bool)
    requires Sendable(png, decodes) && 0 < offset < |png| && |png| - offset <= MAX_CHUNK
    requires h.active.Some? && h.active.value.bytes == png[..offset] && h.active.value.expected == |png|
    requires c == Chunk(h.active.value.id, |png|, offset, png[offset..|png|])
    requires SaturatingSub(now, h.active.value.started) < HOST_TIMEOUT
    ensures AfterPush(h, c, now, decodes) == HostStep(h.(active := None), Ok(Some(png)))
  {
    assert png[..offset] + png[offset..|png|] == png;
  }

  /** The host after several images, each with all its chunks. */
  function HostAfter(batches: seq<seq<Event>>, decodes: Bytes -> bool): Host {
    if batches == [] then Host(None, {})
    else Feed(HostAfter(batches[..|batches| - 1], decodes), batches[|batches| - 1], decodes)
  }

  function IdsUpTo(n: nat): (ids: set<nat>)
    ensures |ids| == n && forall i: nat :: i in ids <==> 1 <= i <= n
  {
    if n == 0 then {} else IdsUpTo(n - 1) + {n}
  }

  /** The images of a session, under the ids a fresh sender gives them: 1, 2 and so on. */
  ghost predicate Transfers(batches: seq<seq<Event>>, pngs: seq<Bytes>, size: nat, decodes: Bytes -> bool)
    requires size > 0
  {
    && |batches| == |pngs|
    && forall i :: 0 <= i < |pngs| ==> Sendable(pngs[i], decodes) && Carries(batches[i], pngs[i], i + 1, size)
  }

  /** Every event of the batch is answered with nothing, but the one that brings the last chunk with the image. */
  ghost predicate ImageArrives(h: Host, es: seq<Event>, png: Bytes, decodes: Bytes -> bool) {
    forall k :: 0 <= k < |es| ==> Answer(h, es, k, decodes) == Ok(if BringsLast(es, k) then Some(png) else None)
  }

  /** What the images of a session leave behind: no transfer, and their ids spent. */
  lemma {:induction false} SessionHost(batches: seq<seq<Event>>, pngs: seq<Bytes>, size: nat, decodes: Bytes -> bool)
    requires 8 <= size <= MAX_CHUNK && |pngs| <= MAX_USED && Transfers(batches, pngs, size, decodes)
    ensures HostAfter(batches, decodes) == Host(None, IdsUpTo(|batches|))
  {
    hide Transfers, ImageArrives, Feed, IdsUpTo, Carries, Sendable;
    if batches != [] {
      var n := |batches| - 1;
      TransfersAt(batches, pngs, size, decodes, n);
      SessionHost(batches[..n], pngs[..n], size, decodes);
      BatchArrives(HostAfter(batches[..n], decodes), batches[n], pngs[n], n + 1, size, decodes);
      IdsSnoc(n);
    } else {
      assert IdsUpTo(0) == {};
    }
  }

  lemma TransfersAt(batches: seq<seq<Event>>, pngs: seq<Bytes>, size: nat, decodes: Bytes -> bool, i: nat)
    requires size > 0 && Transfers(batches, pngs, size, decodes) && i < |batches|
    ensures |pngs| == |batches| && Transfers(batches[..i], pngs[..i], size, decodes)
    ensures Sendable(pngs[i], decodes) && Carries(batches[i], pngs[i], i + 1, size)
  {
    hide Carries, Sendable;
  }

  lemma IdsSnoc(n: nat)
    ensures IdsUpTo(n + 1) == IdsUpTo(n) + {n + 1}
  {
  }

  /**
   A whole session: each of up to 65536 images, sent one after the other in time, makes the host answer
   exactly that image with its last chunk and nothing before.
   */
  lemma SessionRoundTrip(batches: seq<seq<Event>>, pngs: seq<Bytes>, size: nat, decodes: Bytes -> bool, i: nat)
    requires 8 <= size <= MAX_CHUNK && |pngs| <= MAX_USED && Transfers(batches, pngs, size, decodes)
    requires i < |batches|
    ensures ImageArrives(HostAfter(batches[..i], decodes), batches[i], pngs[i], decodes)
  {
    hide Transfers, ImageArrives, Feed, HostAfter, Carries, Sendable;
    TransfersAt(batches, pngs, size, decodes, i);
    SessionHost(batches[..i], pngs[..i], size, decodes);
    BatchArrives(HostAfter(batches[..i], decodes), batches[i], pngs[i], i + 1, size, decodes);
  }

  lemma BatchArrives(h: Host, es: seq<Event>, png: Bytes, id: nat, size: nat, decodes: Bytes -> bool)
    requires Sendable(png, decodes) && 8 <= size <= MAX_CHUNK && Carries(es, png, id, size)
    requires id !in h.used && |h.used| < MAX_USED
    ensures ImageArrives(h, es, png, decodes) && Feed(h, es, decodes) == Host(None, h.used + {id})
  {
    hide Feed, Answer, Carries, Sendable, Arrivals, BringsLast;
    SomeEvent(es, png, id, size, decodes);
    ImageRoundTrip(h, es, png, id, size, decodes, 0);
    forall k | 0 <= k < |es| ensures Answer(h, es, k, decodes) == Ok(if BringsLast(es, k) then Some(png) else None) {
      ImageRoundTrip(h, es, png, id, size, decodes, k);
    }
  }

  lemma SomeEvent(es: seq<Event>, png: Bytes, id: nat, size: nat, decodes: Bytes -> bool)
    requires size > 0 && Sendable(png, decodes) && Carries(es, png, id, size)
    ensures es != []
  {
  }

  // ----- arbitrary runs of the host

  function Concat(arrivals: seq<Event>): Bytes
    requires forall i :: 0 <= i < |arrivals| ==> arrivals[i].Arrived?
  {
    if arrivals == [] then [] else Concat(arrivals[..|arrivals| - 1]) + arrivals[|arrivals| - 1].chunk.png
  }

  /** Consecutive arrivals of one transfer, from offset 0, without gaps, all within the time limit of the first. */
  ghost predicate GapFree(arrivals: seq<Event>, id: nat, total: nat)
    requires forall i :: 0 <= i < |arrivals| ==> arrivals[i].Arrived?
  {
    && arrivals != []
    && forall k :: 0 <= k < |arrivals| ==>
         && arrivals[k].chunk.transferId == id && arrivals[k].chunk.totalBytes == total
         && arrivals[k].chunk.offset == |Concat(arrivals[..k])|
         && (k > 0 ==> SaturatingSub(arrivals[k].now, arrivals[0].now) < HOST_TIMEOUT)
  }

  lemma ConcatSnoc(arrivals: seq<Event>, a: Event)
    requires a.Arrived? && forall i :: 0 <= i < |arrivals| ==> arrivals[i].Arrived?
    ensures Concat(arrivals + [a]) == Concat(arrivals) + a.chunk.png
  {
    assert (arrivals + [a])[..|arrivals|] == arrivals;
  }

  lemma GapFreeSnoc(arrivals: seq<Event>, a: Event, id: nat, total: nat)
    requires a.Arrived? && forall i :: 0 <= i < |arrivals| ==> arrivals[i].Arrived?
    requires GapFree(arrivals, id, total)
    requires a.chunk.transferId == id && a.chunk.totalBytes == total && a.chunk.offset == |Concat(arrivals)|
    requires SaturatingSub(a.now, arrivals[0].now) < HOST_TIMEOUT
    ensures GapFree(arrivals + [a], id, total)
  {
    hide Concat;
    var all := arrivals + [a];
    forall k | 0 <= k < |all| ensures all[k].chunk.offset == |Concat(all[..k])| {
      assert all[..k] == if k < |arrivals| then arrivals[..k] else arrivals;
    }
  }

  lemma GapFreeOne(a: Event)
    requires a.Arrived? && a.chunk.offset == 0
    ensures GapFree([a], a.chunk.transferId, a.chunk.totalBytes) && Concat([a]) == a.chunk.png
  {
    assert [a][..0] == [];
    assert [] + a.chunk.png == a.chunk.png;
  }

  ghost predicate NoneCancelled(es: seq<Event>) { forall i :: 0 <= i < |es| ==> !es[i].Cancelled? }

  /** The events from number `from` on bring a gap-free transfer, and none of them gives it up. */
  ghost predicate Brings(es: seq<Event>, from: nat, id: nat, total: nat)
    requires from <= |es|
  {
    NoneCancelled(es[from..]) && GapFree(Arrivals(es[from..]), id, total)
  }

  /** The active transfer consists of the chunks among the events from number `from` on. */
  ghost predicate BuiltFrom(t: Transfer, es: seq<Event>, from: nat) {
    && from <= |es| && Brings(es, from, t.id, t.expected)
    && t.bytes == Concat(Arrivals(es[from..])) && t.started == Arrivals(es[from..])[0].now
  }

  /** What one chunk does to the active transfer, and what it may hand out. */
  lemma OneArrival(h: Host, es: seq<Event>, a: Event, from: nat, decodes: Bytes -> bool) returns (from': nat)
    requires a.Arrived? && (h.active.Some? ==> BuiltFrom(h.active.value, es, from))
    ensures
      var step, all := Next(h, a, decodes), es + [a];
      && (step.host.active.Some? ==> BuiltFrom(step.host.active.value, all, from'))
      && (IsImage(step.outcome) ==>
            && from' < |all| && Brings(all, from', a.chunk.transferId, a.chunk.totalBytes)
            && step.outcome.value.value == Concat(Arrivals(all[from'..]))
            && |step.outcome.value.value| == a.chunk.totalBytes && Sendable(step.outcome.value.value, decodes))
  {
    hide GapFree, Concat, Arrivals, Brings, BuiltFrom, WellFormed;
    if a.chunk.offset == 0 {
      from' := |es|;
      OpeningBuilds(es, a);
      assert [] + a.chunk.png == a.chunk.png;
    } else {
      from' := from;
      var live := Expire(h, a.now);
      if live.active.Some? && Continues(live.active.value, a.chunk) {
        AppendingBuilds(live.active.value, es, a, from);
      }
    }
  }

  lemma OpeningBuilds(es: seq<Event>, a: Event)
    requires a.Arrived? && a.chunk.offset == 0
    ensures Brings(es + [a], |es|, a.chunk.transferId, a.chunk.totalBytes)
    ensures Arrivals((es + [a])[|es|..]) == [a] && Concat([a]) == a.chunk.png
    ensures BuiltFrom(Transfer(a.chunk.transferId, a.chunk.totalBytes, a.now, a.chunk.png), es + [a], |es|)
  {
    hide GapFree, Concat, Arrivals;
    assert (es + [a])[|es|..] == [a] && [] + [a] == [a];
    ArrivalsSnoc([], a);
    GapFreeOne(a);
  }

  lemma AppendingBuilds(t: Transfer, es: seq<Event>, a: Event, from: nat)
    requires a.Arrived? && BuiltFrom(t, es, from) && Continues(t, a.chunk)
    requires SaturatingSub(a.now, t.started) < HOST_TIMEOUT
    ensures Brings(es + [a], from, a.chunk.transferId, a.chunk.totalBytes) && from < |es + [a]|
    ensures Concat(Arrivals((es + [a])[from..])) == t.bytes + a.chunk.png
    ensures BuiltFrom(t.(bytes := t.bytes + a.chunk.png), es + [a], from)
  {
    hide Concat, Arrivals;
    var arrived := Arrivals(es[from..]);
    assert (es + [a])[from..] == es[from..] + [a];
    ArrivalsSnoc(es[from..], a);
    GapFreeSnoc(arrived, a, a.chunk.transferId, a.chunk.totalBytes);
    ConcatSnoc(arrived, a);
  }

  /** A check for overdue transfers keeps the active transfer or drops it; giving up drops it. */
  lemma OneOther(h: Host, es: seq<Event>, e: Event, from: nat, decodes: Bytes -> bool)
    requires !e.Arrived? && (h.active.Some? ==> BuiltFrom(h.active.value, es, from))
    ensures
      var step := Next(h, e, decodes);
      !IsImage(step.outcome) && (step.host.active.Some? ==> BuiltFrom(step.host.active.value, es + [e], from))
  {
    hide GapFree, Concat, Arrivals;
    if e.Expired? && h.active.Some? {
      assert (es + [e])[from..] == es[from..] + [e];
      ArrivalsSnoc(es[from..], e);
      assert Arrivals(es[from..]) + [] == Arrivals(es[from..]);
    }
  }

  lemma {:induction false} ActiveIsBuilt(es: seq<Event>, decodes: Bytes -> bool) returns (from: nat)
    ensures
      var h := Feed(Host(None, {}), es, decodes);
      h.active.Some? ==> BuiltFrom(h.active.value, es, from)
  {
    if es == [] {
      from := 0;
    } else {
      hide Next, BuiltFrom;
      var front, e := es[..|es| - 1], es[|es| - 1];
      assert front + [e] == es;
      from := ActiveIsBuilt(front, decodes);
      if e.Arrived? {
        from := OneArrival(Feed(Host(None, {}), front, decodes), front, e, from, decodes);
      } else {
        OneOther(Feed(Host(None, {}), front, decodes), front, e, from, decodes);
      }
    }
  }

  /**
   Whatever happens, the host hands out only images that decode and that are the gap-free concatenation,
   from offset 0, of the latest chunks, all of one transfer that was never given up.
   */
  lemma OutputIsGapFree(es: seq<Event>, k: nat, decodes: Bytes -> bool) returns (from: nat)
    requires k < |es| && IsImage(Answer(Host(None, {}), es, k, decodes))
    ensures from <= k && es[k].Arrived?
    ensures
      var image, run := Answer(Host(None, {}), es, k, decodes).value.value, es[..k + 1];
      && Brings(run, from, es[k].chunk.transferId, es[k].chunk.totalBytes)
      && image == Concat(Arrivals(run[from..])) && |image| == es[k].chunk.totalBytes && Sendable(image, decodes)
  {
    hide AfterPush, BuiltFrom, GapFree, Concat, Arrivals;
    var before := ActiveIsBuilt(es[..k], decodes);
    assert es[..k] + [es[k]] == es[..k + 1];
    assert es[k].Arrived?;
    from := OneArrival(Feed(Host(None, {}), es[..k], decodes), es[..k], es[k], before, decodes);
  }

  // ----- at most once, at the host

  ghost predicate ActiveIsUsed(h: Host) { h.active.Some? ==> h.active.value.id in h.used }

  lemma EventsUseIds(h: Host, e: Event, decodes: Bytes -> bool)
    requires ActiveIsUsed(h)
    ensures
      var step := Next(h, e, decodes);
      && ActiveIsUsed(step.host) && h.used <= step.host.used
      && (IsImage(step.outcome) ==> e.Arrived? && step.host.active.None? && e.chunk.transferId in step.host.used)
      && (step.host.active.Some? && h.active.Some? && step.host.active.value.id != h.active.value.id ==>
            step.host.active.value.id !in h.used)
      && (step.host.active.Some? && h.active.None? ==> step.host.active.value.id !in h.used)
      && (IsImage(step.outcome) && e.chunk.transferId in h.used ==>
            h.active.Some? && h.active.value.id == e.chunk.transferId)
  {
    hide WellFormed, Overdue;
  }

  /** An id that is used but not active stays that way, and completes nothing any more. */
  lemma {:induction false} SpentIdStaysSpent(es: seq<Event>, i: nat, j: nat, id: nat, decodes: Bytes -> bool)
    requires i <= j <= |es|
    requires
      var h := Feed(Host(None, {}), es[..i], decodes);
      id in h.used && (h.active.Some? ==> h.active.value.id != id)
    ensures
      var h := Feed(Host(None, {}), es[..j], decodes);
      id in h.used && (h.active.Some? ==> h.active.value.id != id)
    decreases j
  {
    if i < j {
      hide Next, Feed;
      SpentIdStaysSpent(es, i, j - 1, id, decodes);
      FeedSnoc(Host(None, {}), es, j, decodes);
      FedActiveIsUsed(es[..j - 1], decodes);
      EventsUseIds(Feed(Host(None, {}), es[..j - 1], decodes), es[j - 1], decodes);
    }
  }

  lemma {:induction false} FedActiveIsUsed(es: seq<Event>, decodes: Bytes -> bool)
    ensures ActiveIsUsed(Feed(Host(None, {}), es, decodes))
  {
    if es != [] {
      hide Next;
      FedActiveIsUsed(es[..|es| - 1], decodes);
      EventsUseIds(Feed(Host(None, {}), es[..|es| - 1], decodes), es[|es| - 1], decodes);
    }
  }

  /** In no run does a transfer id complete twice at the host. */
  lemma HostCompletesAtMostOnce(es: seq<Event>, i: nat, j: nat, decodes: Bytes -> bool)
    requires i < j < |es|
    requires IsImage(Answer(Host(None, {}), es, i, decodes)) && IsImage(Answer(Host(None, {}), es, j, decodes))
    ensures es[i].Arrived? && es[j].Arrived? && es[i].chunk.transferId != es[j].chunk.transferId
  {
    hide Next, Feed;
    FedActiveIsUsed(es[..i], decodes);
    FedActiveIsUsed(es[..j], decodes);
    EventsUseIds(Feed(Host(None, {}), es[..i], decodes), es[i], decodes);
    EventsUseIds(Feed(Host(None, {}), es[..j], decodes), es[j], decodes);
    FeedSnoc(Host(None, {}), es, i + 1, decodes);
    SpentIdStaysSpent(es, i + 1, j, es[i].chunk.transferId, decodes);
  }

  // ----- bounds, and ids that are spent, at the host

  /** What a host ever holds: at most 65536 ids, and one unfinished image of at most 8 MiB. */
  ghost predicate Bounded(h: Host) {
    && |h.used| <= 65536
    && (h.active.Some? ==> |h.active.value.bytes| < h.active.value.expected <= 8 * 1024 * 1024)
  }

  lemma {:induction false} HostIsBounded(es: seq<Event>, decodes: Bytes -> bool)
    ensures Bounded(Feed(Host(None, {}), es, decodes))
  {
    if es != [] {
      hide Next, Bounded;
      HostIsBounded(es[..|es| - 1], decodes);
      EventKeepsBounds(Feed(Host(None, {}), es[..|es| - 1], decodes), es[|es| - 1], decodes);
    } else {
      assert Bounded(Host(None, {}));
    }
  }

  lemma EventKeepsBounds(h: Host, e: Event, decodes: Bytes -> bool)
    requires Bounded(h)
    ensures Bounded(Next(h, e, decodes).host)
  {
    hide Overdue;
  }

  /** Nothing of `id` is held and it can no longer be opened. */
  ghost predicate Closed(h: Host, id: nat) {
    && (id in h.used || |h.used| >= MAX_USED)
    && (h.active.Some? ==> h.active.value.id != id)
  }

  lemma ClosedStays(h: Host, e: Event, id: nat, decodes: Bytes -> bool)
    requires Closed(h, id)
    ensures
      var step := Next(h, e, decodes);
      Closed(step.host, id) && (IsImage(step.outcome) ==> e.Arrived? && e.chunk.transferId != id)
  {
    hide WellFormed, Overdue;
    UsedGrows(h, e, decodes);
  }

  lemma UsedGrows(h: Host, e: Event, decodes: Bytes -> bool)
    ensures h.used <= Next(h, e, decodes).host.used && |h.used| <= |Next(h, e, decodes).host.used|
  {
    hide WellFormed, Overdue;
    var used' := Next(h, e, decodes).host.used;
    assert h.used <= used' && used' == h.used + (used' - h.used);
  }

  lemma {:induction false} StaysClosed(es: seq<Event>, i: nat, j: nat, id: nat, decodes: Bytes -> bool)
    requires i <= j <= |es| && Closed(Feed(Host(None, {}), es[..i], decodes), id)
    ensures Closed(Feed(Host(None, {}), es[..j], decodes), id)
    decreases j
  {
    if i < j {
      hide Next, Feed, Closed;
      StaysClosed(es, i, j - 1, id, decodes);
      FeedSnoc(Host(None, {}), es, j, decodes);
      ClosedStays(Feed(Host(None, {}), es[..j - 1], decodes), es[j - 1], id, decodes);
    }
  }

  /** A well-formed opening chunk that is refused spends its id: it never completes any more. */
  lemma RefusedIdNeverCompletes(es: seq<Event>, i: nat, j: nat, decodes: Bytes -> bool)
    requires i < j < |es| && es[i].Arrived? && es[i].chunk.offset == 0
    requires 8 <= es[i].chunk.totalBytes <= 8 * 1024 * 1024 && 0 < |es[i].chunk.png| <= 65536
    requires Answer(Host(None, {}), es, i, decodes).Err? && IsImage(Answer(Host(None, {}), es, j, decodes))
    ensures es[j].Arrived? && es[j].chunk.transferId != es[i].chunk.transferId
  {
    hide Next, Feed, Closed;
    var h := Feed(Host(None, {}), es[..i], decodes);
    RefusedOpeningCloses(h, es[i], decodes);
    FeedSnoc(Host(None, {}), es, i + 1, decodes);
    StaysClosed(es, i + 1, j, es[i].chunk.transferId, decodes);
    ClosedStays(Feed(Host(None, {}), es[..j], decodes), es[j], es[i].chunk.transferId, decodes);
  }

  lemma RefusedOpeningCloses(h: Host, e: Event, decodes: Bytes -> bool)
    requires e.Arrived? && e.chunk.offset == 0 && WellFormed(e.chunk) && Next(h, e, decodes).outcome.Err?
    ensures Closed(Next(h, e, decodes).host, e.chunk.transferId)
  {
  }

  // ----- the client

  datatype Client = Client(latestId: Option<nat>, pending: Option<Transfer>)

  datatype ClientStep = ClientStep(client: Client, outcome: Outcome)

  function ClientExpire(s: Client, now: nat): Client {
    if s.pending.Some? && Overdue(s.pending.value.started, now, CLIENT_TIMEOUT) then s.(pending := None) else s
  }

  function ClientAppend(s: Client, c: Chunk, decodes: Bytes -> bool): ClientStep {
    if s.pending.None? then ClientStep(s, Err(()))
    else
      var t := s.pending.value;
      if t.id != c.transferId || t.expected != c.totalBytes || |t.bytes| != c.offset then
        ClientStep(s.(pending := None), Err(()))
      else if |t.bytes + c.png| != t.expected then
        ClientStep(s.(pending := Some(t.(bytes := t.bytes + c.png))), Ok(None))
      else if decodes(t.bytes + c.png) then ClientStep(s.(pending := None), Ok(Some(t.bytes + c.png)))
      else ClientStep(s.(pending := None), Err(()))
  }

  /** The protocol's own check of a chunk. */
  predicate Encodes(c: Chunk) {
    && |SIGNATURE| <= c.totalBytes <= LIMIT && 0 < |c.png| <= MAX_CHUNK && c.offset + |c.png| <= c.totalBytes
    && (c.offset == 0 ==> SIGNATURE <= c.png)
  }

  /** One chunk at the client. */
  function ClientAfterPush(s: Client, c: Chunk, now: nat, decodes: Bytes -> bool): ClientStep {
    var live := ClientExpire(s, now);
    if !Encodes(c) then ClientStep(s, Err(()))
    else if c.offset > 0 then ClientAppend(live, c, decodes)
    else if live.latestId.Some? && c.transferId <= live.latestId.value then ClientStep(live, Err(()))
    else ClientAppend(Client(Some(c.transferId), Some(Transfer(c.transferId, c.totalBytes, now, []))), c, decodes)
  }

  class ImageAssembly {
    var latestId: Option<nat>
    var pending: Option<Transfer>

    function Abs(): Client
      reads this
    {
      Client(latestId, pending)
    }

    constructor ()
      ensures Abs() == Client(None, None)
    {
      latestId, pending := None, None;
    }

    method Discard()
      modifies this`pending
      ensures pending == None
    {
      pending := None;
    }

    method Push(chunk: Chunk, now: nat, decodes: Bytes -> bool) returns (r: Outcome)
      modifies this
      ensures ClientStep(Abs(), r) == ClientAfterPush(old(Abs()), chunk, now, decodes)
    {
      if !Encodes(chunk) { return Err(()); }
      if pending.Some? && SaturatingSub(now, pending.value.started) >= CLIENT_TIMEOUT { Discard(); }
      if chunk.offset == 0 {
        if latestId.Some? && chunk.transferId <= latestId.value { return Err(()); }
        latestId := Some(chunk.transferId);
        pending := Some(Transfer(chunk.transferId, chunk.totalBytes, now, []));
      }
      if pending.None? { return Err(()); }
      var t := pending.value;
      if t.id != chunk.transferId || t.expected != chunk.totalBytes || |t.bytes| != chunk.offset {
        Discard();
        return Err(());
      }
      var data := t.bytes + chunk.png;
      pending := Some(t.(bytes := data));
      if |data| == t.expected {
        Discard();
        if !decodes(data) { return Err(()); }
        return Ok(Some(data));
      }
      return Ok(None);
    }
  }

  // ----- runs of the client

  /** A chunk arrives, or the session gives the transfer up. */
  datatype ClientEvent = Received(chunk: Chunk, now: nat) | Discarded

  function ClientNext(s: Client, e: ClientEvent, decodes: Bytes -> bool): ClientStep {
    match e
    case Received(c, now) => ClientAfterPush(s, c, now, decodes)
    case Discarded => ClientStep(s.(pending := None), Ok(None))
  }

  function ClientFeed(s: Client, es: seq<ClientEvent>, decodes: Bytes -> bool): Client {
    if es == [] then s
    else ClientNext(ClientFeed(s, es[..|es| - 1], decodes), es[|es| - 1], decodes).client
  }

  function ClientAnswer(s: Client, es: seq<ClientEvent>, k: nat, decodes: Bytes -> bool): Outcome
    requires k < |es|
  {
    ClientNext(ClientFeed(s, es[..k], decodes), es[k], decodes).outcome
  }

  lemma ClientFeedSnoc(s: Client, es: seq<ClientEvent>, k: nat, decodes: Bytes -> bool)
    requires 0 < k <= |es|
    ensures
      ClientFeed(s, es[..k], decodes) == ClientNext(ClientFeed(s, es[..k - 1], decodes), es[k - 1], decodes).client
    ensures k == 1 ==> ClientFeed(s, es[..k - 1], decodes) == s
  {
    assert es[..k][..k - 1] == es[..k - 1];
  }

  /** The pending transfer is always that of the latest id, and ids only grow. */
  ghost predicate PendingIsLatest(s: Client) { s.pending.Some? ==> s.latestId == Some(s.pending.value.id) }

  lemma EventsGrowIds(s: Client, e: ClientEvent, decodes: Bytes -> bool)
    requires PendingIsLatest(s)
    ensures
      var step := ClientNext(s, e, decodes);
      && PendingIsLatest(step.client)
      && (IsImage(step.outcome) ==>
            e.Received? && step.client.pending.None? && step.client.latestId == Some(e.chunk.transferId))
  {
    hide Encodes;
  }

  /** After a completion of `id`, anything pending is newer. */
  ghost predicate PastId(s: Client, id: nat) {
    PendingIsLatest(s) && s.latestId.Some? && id <= s.latestId.value && (s.pending.Some? ==> id < s.latestId.value)
  }

  lemma EventsStayPast(s: Client, e: ClientEvent, id: nat, decodes: Bytes -> bool)
    requires PastId(s, id)
    ensures
      var step := ClientNext(s, e, decodes);
      && PastId(step.client, id)
      && (IsImage(step.outcome) ==> e.Received? && id < e.chunk.transferId)
  {
    hide Encodes;
  }

  lemma {:induction false} FedPendingIsLatest(es: seq<ClientEvent>, decodes: Bytes -> bool)
    ensures PendingIsLatest(ClientFeed(Client(None, None), es, decodes))
  {
    if es != [] {
      hide ClientNext;
      FedPendingIsLatest(es[..|es| - 1], decodes);
      EventsGrowIds(ClientFeed(Client(None, None), es[..|es| - 1], decodes), es[|es| - 1], decodes);
    }
  }

  lemma {:induction false} StaysPast(es: seq<ClientEvent>, i: nat, j: nat, id: nat, decodes: Bytes -> bool)
    requires i <= j <= |es| && PastId(ClientFeed(Client(None, None), es[..i], decodes), id)
    ensures PastId(ClientFeed(Client(None, None), es[..j], decodes), id)
    decreases j
  {
    if i < j {
      hide ClientNext, ClientFeed;
      StaysPast(es, i, j - 1, id, decodes);
      ClientFeedSnoc(Client(None, None), es, j, decodes);
      EventsStayPast(ClientFeed(Client(None, None), es[..j - 1], decodes), es[j - 1], id, decodes);
    }
  }

  /** In every run the ids that complete at the client strictly increase; so none completes twice. */
  lemma ClientCompletesInOrder(es: seq<ClientEvent>, i: nat, j: nat, decodes: Bytes -> bool)
    requires i < j < |es|
    requires IsImage(ClientAnswer(Client(None, None), es, i, decodes))
    requires IsImage(ClientAnswer(Client(None, None), es, j, decodes))
    ensures es[i].Received? && es[j].Received? && es[i].chunk.transferId < es[j].chunk.transferId
  {
    hide ClientNext, ClientFeed;
    var fresh' := Client(None, None);
    FedPendingIsLatest(es[..i], decodes);
    EventsGrowIds(ClientFeed(fresh', es[..i], decodes), es[i], decodes);
    ClientFeedSnoc(fresh', es, i + 1, decodes);
    StaysPast(es, i + 1, j, es[i].chunk.transferId, decodes);
    EventsStayPast(ClientFeed(fresh', es[..j], decodes), es[j], es[i].chunk.transferId, decodes);
  }

  // ----- arbitrary runs of the client

  /** A chunk outside the protocol's limits changes nothing at the client. */
  lemma MalformedChunksAreIgnored(s: Client, c: Chunk, now: nat, decodes: Bytes -> bool)
    requires
      || !(8 <= c.totalBytes <= 8 * 1024 * 1024 && 0 < |c.png| <= 65536)
      || c.offset + |c.png| > c.totalBytes || (c.offset == 0 && !(SIGNATURE <= c.png))
    ensures ClientAfterPush(s, c, now, decodes) == ClientStep(s, Err(()))
  {
  }

  /** The bytes of the chunks that the events numbered `ks` bring. */
  ghost function Joined(es: seq<ClientEvent>, ks: seq<nat>): Bytes
    requires forall i :: 0 <= i < |ks| ==> ks[i] < |es| && es[ks[i]].Received?
  {
    if ks == [] then [] else Joined(es, ks[..|ks| - 1]) + es[ks[|ks| - 1]].chunk.png
  }

  /** Some of the events, in order; all of them bring chunks. */
  ghost predicate Chosen(es: seq<ClientEvent>, ks: seq<nat>) {
    && ks != [] && (forall i :: 0 <= i < |ks| ==> ks[i] < |es| && es[ks[i]].Received?)
    && forall i, j :: 0 <= i < j < |ks| ==> ks[i] < ks[j]
  }

  /** Their chunks belong to one transfer and come in time after the first. */
  ghost predicate OfOne(es: seq<ClientEvent>, ks: seq<nat>, id: nat, total: nat)
    requires Chosen(es, ks)
  {
    forall i :: 0 <= i < |ks| ==>
      && es[ks[i]].chunk.transferId == id && es[ks[i]].chunk.totalBytes == total
      && (i > 0 ==> SaturatingSub(es[ks[i]].now, es[ks[0]].now) < CLIENT_TIMEOUT)
  }

  /** Each chunk begins where the ones before it end. */
  ghost predicate WithoutGaps(es: seq<ClientEvent>, ks: seq<nat>)
    requires Chosen(es, ks)
  {
    forall i :: 0 <= i < |ks| ==> es[ks[i]].chunk.offset == |Joined(es, ks[..i])|
  }

  /** The events numbered `ks` bring one transfer from offset 0 without gaps, in time, and it is not given up. */
  ghost predicate BringsOne(es: seq<ClientEvent>, ks: seq<nat>, id: nat, total: nat) {
    && Chosen(es, ks) && OfOne(es, ks, id, total) && WithoutGaps(es, ks)
    && (forall k :: ks[0] <= k < |es| ==> !es[k].Discarded?)
    && SIGNATURE <= es[ks[0]].chunk.png && 8 <= total <= LIMIT
  }

  predicate Continuing(e: ClientEvent) { e.Received? && e.chunk.offset > 0 && Encodes(e.chunk) }

  /** From the first of these events on, every well-formed chunk that continues a transfer is among them. */
  ghost predicate LeavesNoneOut(es: seq<ClientEvent>, ks: seq<nat>) {
    ks != [] && forall k :: ks[0] <= k < |es| && Continuing(es[k]) ==> k in ks
  }

  lemma NoneLeftOut(es: seq<ClientEvent>, e: ClientEvent, ks: seq<nat>)
    requires LeavesNoneOut(es, ks)
    ensures !Continuing(e) ==> LeavesNoneOut(es + [e], ks)
    ensures LeavesNoneOut(es + [e], ks + [|es|])
  {
    hide Continuing;
    assert forall k :: 0 <= k < |es| ==> (es + [e])[k] == es[k];
    assert forall k :: k in ks ==> k in ks + [|es|];
    assert (ks + [|es|])[|ks|] == |es|;
  }

  ghost predicate PendingFrom(t: Transfer, es: seq<ClientEvent>, ks: seq<nat>) {
    && LeavesNoneOut(es, ks) && BringsOne(es, ks, t.id, t.expected)
    && t.bytes == Joined(es, ks) && t.started == es[ks[0]].now
  }

  lemma {:induction false} JoinedLater(es: seq<ClientEvent>, e: ClientEvent, ks: seq<nat>)
    requires forall i :: 0 <= i < |ks| ==> ks[i] < |es| && es[ks[i]].Received?
    ensures forall i :: 0 <= i < |ks| ==> (es + [e])[ks[i]] == es[ks[i]]
    ensures Joined(es + [e], ks) == Joined(es, ks)
  {
    if ks != [] {
      JoinedLater(es, e, ks[..|ks| - 1]);
    }
  }

  lemma StillBrings(es: seq<ClientEvent>, e: ClientEvent, ks: seq<nat>, id: nat, total: nat)
    requires BringsOne(es, ks, id, total) && !e.Discarded?
    ensures BringsOne(es + [e], ks, id, total) && Joined(es + [e], ks) == Joined(es, ks)
  {
    hide Joined, SaturatingSub;
    JoinedLater(es, e, ks);
    StillWithoutGaps(es, e, ks);
  }

  lemma StillWithoutGaps(es: seq<ClientEvent>, e: ClientEvent, ks: seq<nat>)
    requires Chosen(es, ks) && WithoutGaps(es, ks)
    ensures Chosen(es + [e], ks) && WithoutGaps(es + [e], ks)
  {
    hide Joined;
    forall i | 0 <= i < |ks| ensures Joined(es + [e], ks[..i]) == Joined(es, ks[..i]) {
      JoinedLater(es, e, ks[..i]);
    }
  }

  lemma JoinedMore(es: seq<ClientEvent>, ks: seq<nat>, k: nat)
    requires k < |es| && es[k].Received? && (ks != [] ==> Chosen(es, ks))
    ensures Joined(es, ks + [k]) == Joined(es, ks) + es[k].chunk.png
  {
    assert (ks + [k])[..|ks|] == ks;
  }

  lemma MoreChosen(es: seq<ClientEvent>, ks: seq<nat>, k: nat, id: nat, total: nat)
    requires Chosen(es, ks) && OfOne(es, ks, id, total) && ks[|ks| - 1] < k < |es| && es[k].Received?
    requires es[k].chunk.transferId == id && es[k].chunk.totalBytes == total
    requires SaturatingSub(es[k].now, es[ks[0]].now) < CLIENT_TIMEOUT
    ensures Chosen(es, ks + [k]) && OfOne(es, ks + [k], id, total)
  {
    hide SaturatingSub;
  }

  lemma MoreWithoutGaps(es: seq<ClientEvent>, ks: seq<nat>, k: nat)
    requires Chosen(es, ks) && WithoutGaps(es, ks) && Chosen(es, ks + [k]) && k < |es| && es[k].Received?
    requires es[k].chunk.offset == |Joined(es, ks)|
    ensures WithoutGaps(es, ks + [k])
  {
    hide Joined;
    var more := ks + [k];
    forall i | 0 <= i < |more| ensures es[more[i]].chunk.offset == |Joined(es, more[..i])| {
      assert more[..i] == if i < |ks| then ks[..i] else ks;
    }
  }

  lemma BringsMore(es: seq<ClientEvent>, ks: seq<nat>, k: nat, id: nat, total: nat)
    requires BringsOne(es, ks, id, total) && ks[|ks| - 1] < k < |es| && es[k].Received?
    requires es[k].chunk.transferId == id && es[k].chunk.totalBytes == total
    requires es[k].chunk.offset == |Joined(es, ks)| && SaturatingSub(es[k].now, es[ks[0]].now) < CLIENT_TIMEOUT
    ensures BringsOne(es, ks + [k], id, total) && Joined(es, ks + [k]) == Joined(es, ks) + es[k].chunk.png
  {
    hide Joined, SaturatingSub, WithoutGaps, OfOne;
    MoreChosen(es, ks, k, id, total);
    MoreWithoutGaps(es, ks, k);
    JoinedMore(es, ks, k);
  }

  lemma BringsFirst(es: seq<ClientEvent>, k: nat)
    requires k + 1 == |es| && es[k].Received? && es[k].chunk.offset == 0 && Encodes(es[k].chunk)
    ensures BringsOne(es, [k], es[k].chunk.transferId, es[k].chunk.totalBytes)
    ensures Joined(es, [k]) == es[k].chunk.png
  {
    hide Joined, WithoutGaps, SaturatingSub;
    JoinedMore(es, [], k);
    NothingJoined(es);
    assert [] + [k] == [k] && [] + es[k].chunk.png == es[k].chunk.png;
    OneWithoutGaps(es, k);
  }

  lemma OneWithoutGaps(es: seq<ClientEvent>, k: nat)
    requires k < |es| && es[k].Received? && es[k].chunk.offset == 0
    ensures WithoutGaps(es, [k])
  {
    hide Joined;
    NothingJoined(es);
    assert [k][..0] == [];
  }

  lemma NothingJoined(es: seq<ClientEvent>)
    ensures Joined(es, []) == []
  {
  }

  /** What one event does to the pending transfer, and what it may hand out. */
  lemma OneReceived(s: Client, es: seq<ClientEvent>, e: ClientEvent, ks: seq<nat>, decodes: Bytes -> bool)
    returns (ks': seq<nat>)
    requires s.pending.Some? ==> PendingFrom(s.pending.value, es, ks)
    ensures
      var step, all := ClientNext(s, e, decodes), es + [e];
      && (step.client.pending.Some? ==> PendingFrom(step.client.pending.value, all, ks'))
      && (IsImage(step.outcome) ==> HandedOut(all, ks', step.outcome.value.value, decodes))
  {
    hide BringsOne, Joined, SaturatingSub, LeavesNoneOut;
    var all := es + [e];
    ks' := ks;
    if e.Received? && s.pending.Some? {
      NoneLeftOut(es, e, ks);
      StillBrings(es, e, ks, s.pending.value.id, s.pending.value.expected);
      FirstStays(es, e, ks, s.pending.value.id, s.pending.value.expected);
    }
    if e.Received? && Encodes(e.chunk) {
      var live := ClientExpire(s, e.now);
      if e.chunk.offset == 0 {
        if !(live.latestId.Some? && e.chunk.transferId <= live.latestId.value) {
          ks' := [|es|];
          BringsFirst(all, |es|);
          OnlyTheLast(all, |es|);
          assert [] + e.chunk.png == e.chunk.png;
        }
      } else if live.pending.Some? {
        var t := live.pending.value;
        if t.id == e.chunk.transferId && t.expected == e.chunk.totalBytes && |t.bytes| == e.chunk.offset {
          ks' := ks + [|es|];
          LastIsBefore(es, ks, t.id, t.expected);
          BringsMore(all, ks, |es|, t.id, t.expected);
        }
      }
    }
  }

  lemma OnlyTheLast(es: seq<ClientEvent>, k: nat)
    requires k + 1 == |es|
    ensures LeavesNoneOut(es, [k])
  {
  }

  lemma FirstStays(es: seq<ClientEvent>, e: ClientEvent, ks: seq<nat>, id: nat, total: nat)
    requires BringsOne(es, ks, id, total)
    ensures ks != [] && ks[0] < |es| && (es + [e])[ks[0]] == es[ks[0]] && es[ks[0]].Received?
  {
  }

  lemma LastIsBefore(es: seq<ClientEvent>, ks: seq<nat>, id: nat, total: nat)
    requires BringsOne(es, ks, id, total)
    ensures ks != [] && ks[|ks| - 1] < |es|
  {
  }

  /**
   An image that decodes, of the declared size, consists of the chunks that the events numbered `ks` bring;
   they end with the last event of all and leave no continuing chunk out.
   */
  ghost predicate HandedOut(es: seq<ClientEvent>, ks: seq<nat>, image: Bytes, decodes: Bytes -> bool) {
    && es != [] && ks != [] && ks[|ks| - 1] == |es| - 1 && es[|es| - 1].Received? && LeavesNoneOut(es, ks)
    && BringsOne(es, ks, es[|es| - 1].chunk.transferId, es[|es| - 1].chunk.totalBytes)
    && image == Joined(es, ks) && |image| == es[|es| - 1].chunk.totalBytes && decodes(image)
  }

  lemma {:induction false} PendingIsBuilt(es: seq<ClientEvent>, decodes: Bytes -> bool) returns (ks: seq<nat>)
    ensures
      var s := ClientFeed(Client(None, None), es, decodes);
      s.pending.Some? ==> PendingFrom(s.pending.value, es, ks)
  {
    if es == [] {
      ks := [];
    } else {
      hide ClientNext, PendingFrom;
      var front, e := es[..|es| - 1], es[|es| - 1];
      assert front + [e] == es;
      ks := PendingIsBuilt(front, decodes);
      ks := OneReceived(ClientFeed(Client(None, None), front, decodes), front, e, ks, decodes);
    }
  }

  /**
   Whatever happens, the client hands out only images that decode and have the declared size, and that are
   the gap-free concatenation, from offset 0, of chunks of one transfer, in time and never discarded.
   */
  lemma ClientOutputIsGapFree(es: seq<ClientEvent>, k: nat, decodes: Bytes -> bool) returns (ks: seq<nat>)
    requires k < |es| && IsImage(ClientAnswer(Client(None, None), es, k, decodes))
    ensures HandedOut(es[..k + 1], ks, ClientAnswer(Client(None, None), es, k, decodes).value.value, decodes)
  {
    hide ClientNext, PendingFrom, HandedOut;
    var before := PendingIsBuilt(es[..k], decodes);
    assert es[..k] + [es[k]] == es[..k + 1];
    ks := OneReceived(ClientFeed(Client(None, None), es[..k], decodes), es[..k], es[k], before, decodes);
  }

  // ----- round trip at the client

  /** Every chunk of an image arrives, in order, and is within the client's time limit of the first. */
  ghost predicate ClientCarries(es: seq<ClientEvent>, png: Bytes, id: nat, size: nat)
    requires size > 0
  {
    && |es| == |ChunksFrom(png, id, size, 0)|
    && (forall k :: 0 <= k < |es| ==> es[k].Received? && es[k].chunk == ChunksFrom(png, id, size, 0)[k])
    && (forall k :: 0 <= k < |es| ==> SaturatingSub(es[k].now, es[0].now) < CLIENT_TIMEOUT)
  }

  ghost predicate FreshAt(s: Client, id: nat) { s.latestId.Some? ==> s.latestId.value < id }

  /** What the client holds after the first `end` bytes of an image, and what it answers then. */
  function ClientHolding(png: Bytes, id: nat, started: nat, end: nat): ClientStep
    requires end <= |png|
  {
    if end == |png| then ClientStep(Client(Some(id), None), Ok(Some(png)))
    else ClientStep(Client(Some(id), Some(Transfer(id, |png|, started, png[..end]))), Ok(None))
  }

  /** The sender's chunks pass the protocol's check. */
  lemma ChunksEncode(png: Bytes, id: nat, at: nat, end: nat)
    requires 8 <= |png| <= LIMIT && SIGNATURE <= png && at < end <= |png| && end - at <= MAX_CHUNK
    requires at == 0 ==> end >= 8
    ensures Encodes(Chunk(id, |png|, at, png[at..end]))
  {
  }

  lemma ClientFirst(s: Client, c: Chunk, now: nat, png: Bytes, id: nat, end: nat, decodes: Bytes -> bool)
    requires FreshAt(s, id) && decodes(png) && 0 < end <= |png| && c == Chunk(id, |png|, 0, png[0..end]) && Encodes(c)
    ensures ClientAfterPush(s, c, now, decodes) == ClientHolding(png, id, now, end)
  {
    hide Encodes;
    assert [] + png[0..end] == png[..end] && png[..|png|] == png;
  }

  lemma ClientMore(s: Client, c: Chunk, now: nat, png: Bytes, id: nat, started: nat, at: nat, end: nat,
                   decodes: Bytes -> bool)
    requires decodes(png) && 0 < at < end <= |png| && s == ClientHolding(png, id, started, at).client
    requires c == Chunk(id, |png|, at, png[at..end]) && Encodes(c) && SaturatingSub(now, started) < CLIENT_TIMEOUT
    ensures ClientAfterPush(s, c, now, decodes) == ClientHolding(png, id, started, end)
  {
    hide Encodes;
    assert png[..at] + png[at..end] == png[..end] && png[..|png|] == png;
  }

  /**
   Round trip at the client: the chunks of any decodable image, under a new id and in time, are answered
   with nothing until the last of them, and then with exactly the original image.
   */
  lemma {:induction false} ClientRoundTrip(s: Client, es: seq<ClientEvent>, png: Bytes, id: nat, size: nat,
                                           decodes: Bytes -> bool, k: nat)
    requires Sendable(png, decodes) && 8 <= size <= MAX_CHUNK && FreshAt(s, id) && ClientCarries(es, png, id, size)
    requires k < |es|
    ensures k * size < |png|
    ensures
      var end := Min(k * size + size, |png|);
      && (end == |png| <==> k + 1 == |es|)
      && ClientNext(ClientFeed(s, es[..k], decodes), es[k], decodes) == ClientHolding(png, id, es[0].now, end)
  {
    hide ClientFeed, ClientAfterPush, ChunksFrom, ClientHolding, FreshAt, Encodes;
    ChunkAt(png, id, size, 0, k);
    var end := Min(k * size + size, |png|);
    if k == 0 {
      assert 0 * size == 0;
      ClientFeedSnoc(s, es, 1, decodes);
      ChunksEncode(png, id, 0, end);
      ClientFirst(s, es[0].chunk, es[0].now, png, id, end, decodes);
    } else {
      ClientRoundTrip(s, es, png, id, size, decodes, k - 1);
      NextOffset(k - 1, size);
      NextOffset(k, size);
      ClientFeedSnoc(s, es, k, decodes);
      ChunksEncode(png, id, k * size, end);
      ClientMore(ClientFeed(s, es[..k], decodes), es[k].chunk, es[k].now, png, id, es[0].now, k * size, end, decodes);
    }
  }
}
