/**
 Reassembly of video frames from one header and numbered chunks that arrive in any order.  Chunks
 that overtake their header wait as orphans.  Every collection is bounded: by size, by count and by
 age, and a keyframe header prunes the older incomplete frames.
 */
module FrameAssembler {
  import opened Prelude
  import opened SerialNumbers

  const MAX_ORPHAN_FRAMES: nat := 16
  const MAX_INCOMPLETE_FRAMES: nat := 16
  /** Clock values are nanoseconds. */
  const ASSEMBLY_TIMEOUT: nat := 1_000_000_000

  /** The per-frame limits of the protocol. */
  datatype Limits = Limits(maxChunks: nat, maxBytes: nat)

  /** The limits the protocol sets; what is proved holds for any. */
  const PROTOCOL: Limits := Limits(8192, 32 * 1024 * 1024)

  /** `rest` stands for the fields that are only carried: width and height. */
  datatype Header = Header(frameId: u32, totalChunks: nat, totalSize: nat, isKeyFrame: bool, rest: int)

  datatype Chunk = Chunk(frameId: u32, index: nat, data: Bytes)

  datatype Assembly = Assembly(header: Header, chunks: map<nat, Bytes>, started: nat, timestampMs: nat,
                               payloadBytes: nat)

  datatype Orphan = Orphan(chunks: map<nat, Bytes>, started: nat)

  datatype Assembled = Assembled(header: Header, data: Bytes, timestampMs: nat)

  datatype AssemblyError = InvalidHeader | InvalidChunkIndex | SizeMismatch

  type Outcome = Result<Option<Assembled>, AssemblyError>

  datatype State = State(frames: map<u32, Assembly>, orphans: map<u32, Orphan>,
                         completedFrames: nat, completedStartedAt: Option<nat>)

  const INITIAL: State := State(map[], map[], 0, None)

  /** A state together with what the operation that led to it returned. */
  datatype Step = Step(state: State, outcome: Outcome)

  // ----- pieces of the operations

  /** Is `a` at or after `b` on the ring of frame ids? */
  predicate SerialNotBefore(a: u32, b: u32) { WrappingSub(a, b) < TWO_31 }

  predicate ValidHeader(h: Header, limits: Limits) {
    0 < h.totalChunks <= limits.maxChunks && 0 < h.totalSize <= limits.maxBytes
  }

  predicate Live(started: nat, now: nat) { SaturatingSub(now, started) < ASSEMBLY_TIMEOUT }

  predicate Complete(a: Assembly) { |a.chunks| == a.header.totalChunks }

  function LiveFrames(frames: map<u32, Assembly>, now: nat): map<u32, Assembly> {
    map id | id in frames && Live(frames[id].started, now) :: frames[id]
  }

  function LiveOrphans(orphans: map<u32, Orphan>, now: nat): map<u32, Orphan> {
    map id | id in orphans && Live(orphans[id].started, now) :: orphans[id]
  }

  /** Forget the previous completion and everything older than the timeout. */
  function Expire(s: State, now: nat): State {
    s.(frames := LiveFrames(s.frames, now), orphans := LiveOrphans(s.orphans, now), completedStartedAt := None)
  }

  /** The frames a keyframe header leaves: those not before it in serial order, and complete ones. */
  function KeptByKeyframe(frames: map<u32, Assembly>, keyId: u32): map<u32, Assembly> {
    map id | id in frames && (SerialNotBefore(id, keyId) || Complete(frames[id])) :: frames[id]
  }

  function Prune(s: State, h: Header): State {
    if h.isKeyFrame then s.(frames := KeptByKeyframe(s.frames, h.frameId)) else s
  }

  /** Chunks collected so far and the sum of their lengths. */
  datatype Collected = Collected(chunks: map<nat, Bytes>, bytes: nat)

  /** Take the incoming chunk `i` unless it is known already or exceeds the declared size. */
  function AdmitOne(c: Collected, incoming: map<nat, Bytes>, h: Header, i: nat): Collected {
    if i in incoming && i !in c.chunks && c.bytes + |incoming[i]| <= h.totalSize then
      Collected(c.chunks[i := incoming[i]], c.bytes + |incoming[i]|)
    else
      c
  }

  /** Admit, in index order, the incoming chunks with index below `n`. */
  function Admit(c: Collected, incoming: map<nat, Bytes>, h: Header, n: nat): Collected {
    if n == 0 then c else AdmitOne(Admit(c, incoming, h, n - 1), incoming, h, n - 1)
  }

  predicate Conflicts(s: State, h: Header) { h.frameId in s.frames && s.frames[h.frameId].header != h }

  function WithoutOrphan(s: State, id: u32): State { s.(orphans := s.orphans - {id}) }

  /** The orphan a header finds: its chunks and start time, or nothing, starting now. */
  function OrphanOf(s: State, id: u32, now: nat): Orphan {
    if id in s.orphans then s.orphans[id] else Orphan(map[], now)
  }

  function WithHeader(s: State, h: Header, timestampMs: nat, now: nat): Assembly {
    var orphan := OrphanOf(s, h.frameId, now);
    if h.frameId in s.frames then
      var a := s.frames[h.frameId];
      var c := Admit(Collected(a.chunks, a.payloadBytes), orphan.chunks, a.header, a.header.totalChunks);
      Assembly(a.header, c.chunks, Min(a.started, orphan.started), timestampMs, c.bytes)
    else
      var c := Admit(Collected(map[], 0), orphan.chunks, h, h.totalChunks);
      Assembly(h, c.chunks, orphan.started, timestampMs, c.bytes)
  }

  function PutFrame(s: State, a: Assembly): State { s.(frames := s.frames[a.header.frameId := a]) }

  /** Chunks 0 to n-1 in order, if all are there. */
  function Join(chunks: map<nat, Bytes>, n: nat): Option<Bytes> {
    if n == 0 then Some([])
    else if n - 1 !in chunks then None
    else
      match Join(chunks, n - 1)
      case None => None
      case Some(data) => Some(data + chunks[n - 1])
  }

  /** Hand out the frame if all its chunks are there; it leaves the table even if its size is wrong. */
  function Finish(s: State, id: u32): Step {
    if id !in s.frames || !Complete(s.frames[id]) then Step(s, Ok(None))
    else
      var a := s.frames[id];
      var t := s.(frames := s.frames - {id});
      match Join(a.chunks, a.header.totalChunks)
      case None => Step(t, Err(SizeMismatch))
      case Some(data) =>
        if |data| != a.header.totalSize then Step(t, Err(SizeMismatch))
        else
          Step(t.(completedFrames := t.completedFrames + 1, completedStartedAt := Some(a.started)),
               Ok(Some(Assembled(a.header, data, a.timestampMs))))
  }

  predicate NotAfter(frames: map<u32, Assembly>, a: u32, b: u32)
    requires a in frames && b in frames
  {
    frames[a].started < frames[b].started || (frames[a].started == frames[b].started && a <= b)
  }

  /** The frame that started first; among those that started together, the one with the least id. */
  ghost predicate IsOldest(frames: map<u32, Assembly>, id: u32) {
    id in frames && forall other :: other in frames ==> NotAfter(frames, id, other)
  }

  lemma {:induction false} OldestExists(frames: map<u32, Assembly>)
    requires frames != map[]
    ensures exists id :: IsOldest(frames, id)
    decreases |frames|
  {
    var some :| some in frames;
    var others := frames - {some};
    assert forall id :: id in frames <==> id in others || id == some;
    if others == map[] {
      assert IsOldest(frames, some);
    } else {
      OldestExists(others);
      var id :| IsOldest(others, id);
      assert IsOldest(frames, if NotAfter(frames, some, id) then some else id);
    }
  }

  ghost function Oldest(frames: map<u32, Assembly>): (id: u32)
    requires frames != map[]
    ensures IsOldest(frames, id)
  {
    OldestExists(frames);
    var id :| IsOldest(frames, id);
    id
  }

  ghost function Trim(s: State): State {
    if |s.frames| > MAX_INCOMPLETE_FRAMES then s.(frames := s.frames - {Oldest(s.frames)}) else s
  }

  // ----- the two operations as functions of the state

  ghost function AfterHeader(s: State, limits: Limits, h: Header, timestampMs: nat, now: nat): Step {
    if !ValidHeader(h, limits) then Step(s.(completedStartedAt := None), Err(InvalidHeader))
    else
      var pruned := Prune(Expire(s, now), h);
      if Conflicts(pruned, h) then Step(WithoutOrphan(pruned, h.frameId), Ok(None))
      else
        var put := PutFrame(WithoutOrphan(pruned, h.frameId), WithHeader(pruned, h, timestampMs, now));
        var done := Finish(put, h.frameId);
        if done.outcome.Err? then done else Step(Trim(done.state), done.outcome)
  }

  /** A chunk for a frame whose header is known. */
  function AddChunk(s: State, c: Chunk): Step
    requires c.frameId in s.frames
  {
    var a := s.frames[c.frameId];
    if c.index >= a.header.totalChunks then Step(s, Err(InvalidChunkIndex))
    else if c.index in a.chunks then Finish(s, c.frameId)
    else if a.payloadBytes + |c.data| > a.header.totalSize then Step(s, Ok(None))
    else
      Finish(s.(frames := s.frames[c.frameId :=
                  a.(chunks := a.chunks[c.index := c.data], payloadBytes := a.payloadBytes + |c.data|)]),
             c.frameId)
  }

  /** A chunk that overtook its header. */
  function AddOrphan(s: State, limits: Limits, c: Chunk, now: nat): State {
    if |s.orphans| >= MAX_ORPHAN_FRAMES && c.frameId !in s.orphans then s
    else if c.index >= limits.maxChunks then s
    else
      var orphan := OrphanOf(s, c.frameId, now);
      if |orphan.chunks| >= limits.maxChunks then WithoutOrphan(s, c.frameId)
      else if c.index in orphan.chunks then s
      else s.(orphans := s.orphans[c.frameId := orphan.(chunks := orphan.chunks[c.index := c.data])])
  }

  function AfterChunk(s: State, limits: Limits, c: Chunk, now: nat): Step {
    var live := Expire(s, now);
    if c.frameId in live.frames then AddChunk(live, c)
    else Step(AddOrphan(live, limits, c, now), Ok(None))
  }

  // ----- the implementation

  class FrameAssembler {
    const limits: Limits
    var frames: map<u32, Assembly>
    var orphans: map<u32, Orphan>
    var completedFrames: nat
    var completedStartedAt: Option<nat>

    function Abs(): State
      reads this
    {
      State(frames, orphans, completedFrames, completedStartedAt)
    }

    constructor (limits: Limits)
      ensures Abs() == INITIAL && this.limits == limits
    {
      this.limits := limits;
      frames, orphans, completedFrames, completedStartedAt := map[], map[], 0, None;
    }

    method PushHeader(header: Header, timestampMs: nat, now: nat) returns (r: Outcome)
      modifies this
      ensures Step(Abs(), r) == AfterHeader(old(Abs()), limits, header, timestampMs, now)
    {
      hide Join, Complete, Live, SerialNotBefore, Oldest, Admit, Finish, WithHeader, Trim, Conflicts;
      completedStartedAt := None;
      if header.totalChunks == 0 || header.totalChunks > limits.maxChunks
         || header.totalSize == 0 || header.totalSize > limits.maxBytes {
        return Err(InvalidHeader);
      }
      ExpireNow(now);
      if header.isKeyFrame {
        frames := map id | id in frames && (SerialNotBefore(id, header.frameId) || Complete(frames[id])) :: frames[id];
      }
      ghost var pruned := Abs();
      assert pruned == Prune(Expire(old(Abs()), now), header);
      var id := header.frameId;
      var chunks, started := map[], now;
      if id in orphans {
        chunks, started := orphans[id].chunks, orphans[id].started;
      }
      orphans := orphans - {id};
      assert Abs() == WithoutOrphan(pruned, id) && Orphan(chunks, started) == OrphanOf(pruned, id, now);
      WithHeaderCases(pruned, header, timestampMs, now);
      // What has been collected under the same header stays.
      if id in frames {
        var existing := frames[id];
        if existing.header != header { return Ok(None); }
        var c := AdmitChunks(Collected(existing.chunks, existing.payloadBytes), chunks, existing.header);
        frames := frames[id := Assembly(header, c.chunks, Min(existing.started, started), timestampMs, c.bytes)];
      } else {
        var c := AdmitChunks(Collected(map[], 0), chunks, header);
        frames := frames[id := Assembly(header, c.chunks, started, timestampMs, c.bytes)];
      }
      assert Abs() == PutFrame(WithoutOrphan(pruned, id), WithHeader(pruned, header, timestampMs, now));
      r := FinishIfComplete(id);
      TrimCases(Abs());
      if r.Ok? && |frames| > MAX_INCOMPLETE_FRAMES {
        var oldest := FindOldest(frames);
        frames := frames - {oldest};
      }
    }

    method PushChunk(chunk: Chunk, now: nat) returns (r: Outcome)
      modifies this
      ensures Step(Abs(), r) == AfterChunk(old(Abs()), limits, chunk, now)
    {
      hide Join, Complete, Live, LiveFrames, LiveOrphans;
      completedStartedAt := None;
      ExpireNow(now);
      if chunk.frameId in frames {
        var assembly := frames[chunk.frameId];
        if chunk.index >= assembly.header.totalChunks { return Err(InvalidChunkIndex); }
        if chunk.index !in assembly.chunks && assembly.payloadBytes + |chunk.data| > assembly.header.totalSize {
          return Ok(None);
        }
        if chunk.index !in assembly.chunks {
          frames := frames[chunk.frameId :=
            assembly.(chunks := assembly.chunks[chunk.index := chunk.data],
                      payloadBytes := assembly.payloadBytes + |chunk.data|)];
        }
        r := FinishIfComplete(chunk.frameId);
        return;
      }
      if |orphans| >= MAX_ORPHAN_FRAMES && chunk.frameId !in orphans { return Ok(None); }
      if chunk.index >= limits.maxChunks { return Ok(None); }
      var orphan := if chunk.frameId in orphans then orphans[chunk.frameId] else Orphan(map[], now);
      if |orphan.chunks| >= limits.maxChunks {
        orphans := orphans - {chunk.frameId};
        return Ok(None);
      }
      if chunk.index !in orphan.chunks {
        orphans := orphans[chunk.frameId := orphan.(chunks := orphan.chunks[chunk.index := chunk.data])];
      }
      return Ok(None);
    }

    method ExpireNow(now: nat)
      modifies this`frames, this`orphans
      ensures State(frames, orphans, completedFrames, None) == Expire(old(Abs()), now)
    {
      frames := map id | id in frames && Live(frames[id].started, now) :: frames[id];
      orphans := map id | id in orphans && Live(orphans[id].started, now) :: orphans[id];
    }

    method FinishIfComplete(id: u32) returns (r: Outcome)
      modifies this
      ensures Step(Abs(), r) == Finish(old(Abs()), id)
    {
      if id !in frames || !Complete(frames[id]) { return Ok(None); }
      var assembly := frames[id];
      frames := frames - {id};
      var data := [];
      for index := 0 to assembly.header.totalChunks
        invariant Join(assembly.chunks, index) == Some(data)
      {
        if index !in assembly.chunks {
          JoinStops(assembly.chunks, index, assembly.header.totalChunks);
          return Err(SizeMismatch);
        }
        data := data + assembly.chunks[index];
      }
      if |data| != assembly.header.totalSize { return Err(SizeMismatch); }
      completedFrames := completedFrames + 1;
      completedStartedAt := Some(assembly.started);
      return Ok(Some(Assembled(assembly.header, data, assembly.timestampMs)));
    }
  }

  lemma WithHeaderCases(s: State, h: Header, timestampMs: nat, now: nat)
    ensures Conflicts(s, h) <==> h.frameId in s.frames && s.frames[h.frameId].header != h
    ensures
      var orphan := OrphanOf(s, h.frameId, now);
      if h.frameId in s.frames then
        var a := s.frames[h.frameId];
        var c := Admit(Collected(a.chunks, a.payloadBytes), orphan.chunks, a.header, a.header.totalChunks);
        WithHeader(s, h, timestampMs, now) ==
        Assembly(a.header, c.chunks, Min(a.started, orphan.started), timestampMs, c.bytes)
      else
        var c := Admit(Collected(map[], 0), orphan.chunks, h, h.totalChunks);
        WithHeader(s, h, timestampMs, now) == Assembly(h, c.chunks, orphan.started, timestampMs, c.bytes)
  {
  }

  lemma TrimCases(s: State)
    ensures
      Trim(s) ==
      if |s.frames| > MAX_INCOMPLETE_FRAMES then s.(frames := s.frames - {Oldest(s.frames)}) else s
  {
  }

  /** Chunks outside the declared frame or past its declared size are not admitted. */
  method AdmitChunks(c: Collected, incoming: map<nat, Bytes>, h: Header) returns (r: Collected)
    ensures r == Admit(c, incoming, h, h.totalChunks)
  {
    r := c;
    for index := 0 to h.totalChunks
      invariant r == Admit(c, incoming, h, index)
    {
      if index in incoming && r.bytes + |incoming[index]| <= h.totalSize {
        if index !in r.chunks {
          r := Collected(r.chunks[index := incoming[index]], r.bytes + |incoming[index]|);
        }
      }
    }
  }

  method FindOldest(frames: map<u32, Assembly>) returns (id: u32)
    requires frames != map[]
    ensures id == Oldest(frames)
  {
    id :| id in frames;
    var rest := frames.Keys - {id};
    while rest != {}
      invariant id in frames && rest <= frames.Keys
      invariant forall other :: other in frames && other !in rest ==> NotAfter(frames, id, other)
      decreases |rest|
    {
      var next :| next in rest;
      if !NotAfter(frames, id, next) {
        id := next;
      }
      rest := rest - {next};
    }
    OldestIsUnique(frames, id);
  }

  lemma OldestIsUnique(frames: map<u32, Assembly>, id: u32)
    requires IsOldest(frames, id)
    ensures frames != map[] && id == Oldest(frames)
  {
    assert frames != map[];
    assert NotAfter(frames, id, Oldest(frames)) && NotAfter(frames, Oldest(frames), id);
  }

  lemma {:induction false} JoinStops(chunks: map<nat, Bytes>, i: nat, n: nat)
    requires i !in chunks && i < n
    ensures Join(chunks, n) == None
  {
    if i < n - 1 {
      JoinStops(chunks, i, n - 1);
    }
  }
}
