/**
 Reassembly does not depend on order: whatever the order and repetition in which the header and the
 chunks of one frame arrive, and whatever other frames do in between, the frame is handed out exactly
 when its last distinct piece arrives, with exactly the original payload.
 */
module PieceOrder {
  import opened Prelude
  import opened SerialNumbers
  import opened FrameAssembler
  import opened FrameReassembly

  /** One frame in transit: its header, its payload cut into pieces, and the time its transfer starts. */
  datatype Target = Target(header: Header, pieces: seq<Bytes>, start: nat) {
    function Id(): u32 { header.frameId }

    ghost predicate WellCut(limits: Limits) {
      ValidHeader(header, limits) && |pieces| == header.totalChunks && |Flatten(pieces)| == header.totalSize
    }
  }

  function Flatten(pieces: seq<Bytes>): Bytes {
    if pieces == [] then [] else Flatten(pieces[..|pieces| - 1]) + pieces[|pieces| - 1]
  }

  /** The distinct pieces seen so far: the time stamp of the latest header, and the chunk indices. */
  datatype Seen = Seen(header: Option<nat>, chunks: set<nat>)

  function See(seen: Seen, id: u32, e: Event): Seen {
    match e
    case HeaderIn(h, timestampMs, _) => if h.frameId == id then seen.(header := Some(timestampMs)) else seen
    case ChunkIn(c, _) => if c.frameId == id then seen.(chunks := seen.chunks + {c.index}) else seen
  }

  function SeenIn(es: seq<Event>, id: u32): Seen {
    if es == [] then Seen(None, {}) else See(SeenIn(es[..|es| - 1], id), id, es[|es| - 1])
  }

  /**
   The pieces of those seen that are still held.  A chunk that comes while the protocol's maximum of
   chunks waits for the header makes the assembler discard all of them.
   */
  function Keep(kept: Seen, limits: Limits, id: u32, e: Event): Seen {
    match e
    case HeaderIn(h, timestampMs, _) => if h.frameId == id then kept.(header := Some(timestampMs)) else kept
    case ChunkIn(c, _) =>
      if c.frameId != id then kept
      else if kept.header.None? && |kept.chunks| >= limits.maxChunks then kept.(chunks := {})
      else kept.(chunks := kept.chunks + {c.index})
  }

  function KeptIn(es: seq<Event>, limits: Limits, id: u32): Seen {
    if es == [] then Seen(None, {}) else Keep(KeptIn(es[..|es| - 1], limits, id), limits, id, es[|es| - 1])
  }

  ghost predicate AllSeen(t: Target, seen: Seen) {
    seen.header.Some? && forall i :: 0 <= i < |t.pieces| ==> i in seen.chunks
  }

  /** An event of the target's frame carries its header or one of its pieces. */
  ghost predicate Genuine(t: Target, e: Event) {
    if e.HeaderIn? then e.header == t.header
    else e.chunk.index < |t.pieces| && e.chunk.data == t.pieces[e.chunk.index]
  }

  /**
   An event that leaves the target's transfer in peace: it comes within a second of the start, there
   are fewer than 16 other frames (and other orphans) to share the tables with, and a foreign keyframe
   header is not after the target.
   */
  ghost predicate Quiet(s: State, t: Target, kept: Seen, e: Event) {
    && t.start <= e.now < t.start + ASSEMBLY_TIMEOUT
    && (Concerns(e, t.Id()) ==> Genuine(t, e))
    && (e.HeaderIn? ==>
          && |Expire(s, e.now).frames.Keys + {e.header.frameId} - {t.Id()}| < MAX_INCOMPLETE_FRAMES
          && (e.header.isKeyFrame ==> !Behind(t.Id(), e.header.frameId)))
    && (e.ChunkIn? && Concerns(e, t.Id()) && kept.header.None? ==>
          |Expire(s, e.now).orphans.Keys - {t.Id()}| < MAX_ORPHAN_FRAMES)
  }

  ghost predicate QuietRun(s: State, limits: Limits, t: Target, es: seq<Event>) {
    es == [] || (
      var front := es[..|es| - 1];
      QuietRun(s, limits, t, front) &&
      Quiet(Run(s, limits, front), t, KeptIn(front, limits, t.Id()), es[|es| - 1]))
  }

  /** The chunks collected once the indices `seen` have come in. */
  function Restrict(pieces: seq<Bytes>, seen: set<nat>): map<nat, Bytes> {
    map i | i in seen && i < |pieces| :: pieces[i]
  }

  /** What the tables hold of one frame. */
  datatype Part = Part(frame: Option<Assembly>, orphan: Option<Orphan>)

  function PartOf(s: State, id: u32): Part {
    Part(if id in s.frames then Some(s.frames[id]) else None, if id in s.orphans then Some(s.orphans[id]) else None)
  }

  /** The tables hold exactly the pieces seen: in an orphan before the header, in the frame after it. */
  ghost predicate Holds(p: Part, t: Target, seen: Seen) {
    && Below(seen.chunks, |t.pieces|)
    && match seen.header
       case None =>
         && p.frame == None
         && (seen.chunks == {} ==> p.orphan == None)
         && (seen.chunks != {} ==>
               p.orphan.Some? && p.orphan.value.started >= t.start &&
               p.orphan.value.chunks == Restrict(t.pieces, seen.chunks))
       case Some(timestampMs) =>
         && p.orphan == None
         && p.frame.Some?
         && p.frame.value.started >= t.start
         && HoldsFrame(p.frame.value, t, seen.chunks, timestampMs)
  }

  ghost predicate HoldsFrame(a: Assembly, t: Target, chunks: set<nat>, timestampMs: nat) {
    && a.header == t.header && a.chunks == Restrict(t.pieces, chunks) && a.timestampMs == timestampMs
    && a.payloadBytes == Sum(a.chunks, |t.pieces|)
  }

  // ----- collected pieces

  lemma RestrictInsert(pieces: seq<Bytes>, seen: set<nat>, i: nat)
    requires i < |pieces|
    ensures Restrict(pieces, seen + {i}) == Restrict(pieces, seen)[i := pieces[i]]
    ensures i in seen ==> Restrict(pieces, seen + {i}) == Restrict(pieces, seen)
  {
  }

  lemma RestrictCount(pieces: seq<Bytes>, seen: set<nat>)
    requires Below(seen, |pieces|)
    ensures |Restrict(pieces, seen)| == |seen|
    ensures |seen| == |pieces| <==> forall i :: 0 <= i < |pieces| ==> i in seen
  {
    var m := Restrict(pieces, seen);
    assert m.Keys == seen;
    assert |m| == |m.Keys|;
    CountMeansAll(seen, |pieces|);
    if forall i :: 0 <= i < |pieces| ==> i in seen {
      assert IndicesBelow(|pieces|) == seen;
    }
  }

  function IndicesBelow(n: nat): (indices: set<nat>)
    ensures |indices| == n && forall i: nat :: i in indices <==> i < n
  {
    if n == 0 then {} else IndicesBelow(n - 1) + {n - 1}
  }

  /** What has been collected never exceeds the payload. */
  lemma {:induction false} SumOfSomePieces(pieces: seq<Bytes>, seen: set<nat>, n: nat)
    requires n <= |pieces|
    ensures Sum(Restrict(pieces, seen), n) <= |Flatten(pieces[..n])|
  {
    if n > 0 {
      SumOfSomePieces(pieces, seen, n - 1);
      assert pieces[..n][..n - 1] == pieces[..n - 1];
    }
  }

  lemma {:induction false} JoinOfAllPieces(pieces: seq<Bytes>, seen: set<nat>, n: nat)
    requires n <= |pieces| && forall i :: 0 <= i < |pieces| ==> i in seen
    ensures Join(Restrict(pieces, seen), n) == Some(Flatten(pieces[..n]))
    ensures Sum(Restrict(pieces, seen), n) == |Flatten(pieces[..n])|
  {
    if n > 0 {
      JoinOfAllPieces(pieces, seen, n - 1);
      assert pieces[..n][..n - 1] == pieces[..n - 1];
    }
  }

  lemma {:induction false} SumBeyond(chunks: map<nat, Bytes>, m: nat, n: nat)
    requires m <= n && Below(chunks.Keys, m)
    ensures Sum(chunks, n) == Sum(chunks, m)
    decreases n
  {
    if m < n {
      SumBeyond(chunks, m, n - 1);
    }
  }

  function UpTo(seen: set<nat>, n: nat): set<nat> { set i | i in seen && i < n }

  /** The pieces kept among the first `n`, with their total length. */
  function KeptAmong(pieces: seq<Bytes>, seen: set<nat>, n: nat): Collected {
    var kept := Restrict(pieces, UpTo(seen, n));
    Collected(kept, Sum(kept, |pieces|))
  }

  lemma KeptAmongNone(pieces: seq<Bytes>, seen: set<nat>)
    ensures KeptAmong(pieces, seen, 0) == Collected(map[], 0)
  {
    assert Restrict(pieces, UpTo(seen, 0)) == map[];
    SumOfNothing(|pieces|);
  }

  lemma OneMoreKept(t: Target, limits: Limits, seen: set<nat>, n: nat)
    requires t.WellCut(limits) && n < |t.pieces|
    ensures
      AdmitOne(KeptAmong(t.pieces, seen, n), Restrict(t.pieces, seen), t.header, n) == KeptAmong(t.pieces, seen, n + 1)
  {
    hide Sum, Flatten;
    var kept := Restrict(t.pieces, UpTo(seen, n));
    if n in seen {
      assert UpTo(seen, n + 1) == UpTo(seen, n) + {n};
      RestrictInsert(t.pieces, UpTo(seen, n), n);
      SumInsert(kept, |t.pieces|, n, t.pieces[n]);
      SumOfSomePieces(t.pieces, UpTo(seen, n + 1), |t.pieces|);
      assert t.pieces[..|t.pieces|] == t.pieces;
    } else {
      assert UpTo(seen, n + 1) == UpTo(seen, n);
    }
  }

  /** The orphans of a well-cut frame are all admitted: their budget never runs out. */
  lemma {:induction false} AllAdmitted(t: Target, limits: Limits, seen: set<nat>, n: nat)
    requires t.WellCut(limits) && n <= |t.pieces|
    ensures Admit(Collected(map[], 0), Restrict(t.pieces, seen), t.header, n) == KeptAmong(t.pieces, seen, n)
  {
    hide KeptAmong, Restrict;
    if n == 0 {
      KeptAmongNone(t.pieces, seen);
    } else {
      AllAdmitted(t, limits, seen, n - 1);
      OneMoreKept(t, limits, seen, n - 1);
    }
  }

  lemma {:induction false} NothingAdmitted(c: Collected, h: Header, n: nat)
    ensures Admit(c, map[], h, n) == c
  {
    if n > 0 {
      NothingAdmitted(c, h, n - 1);
    }
  }

  // ----- one step

  /** The answer to the event that completes the target, and to any other event of the target. */
  ghost predicate Answers(t: Target, seen: Seen, outcome: Outcome) {
    outcome ==
    if AllSeen(t, seen) then Ok(Some(Assembled(t.header, Flatten(t.pieces), seen.header.value))) else Ok(None)
  }

  /** Finishing a frame that holds the pieces `chunks`: handed out if they are all there, else untouched. */
  lemma FinishTarget(s: State, limits: Limits, t: Target, seen: Seen)
    requires t.WellCut(limits) && Below(seen.chunks, |t.pieces|) && seen.header.Some?
    requires t.Id() in s.frames && HoldsFrame(s.frames[t.Id()], t, seen.chunks, seen.header.value)
    ensures Answers(t, seen, Finish(s, t.Id()).outcome)
    ensures !AllSeen(t, seen) ==> Finish(s, t.Id()).state == s
    ensures Finish(s, t.Id()).state.frames.Keys <= s.frames.Keys
  {
    hide Sum, Flatten, Join, Restrict;
    var a := s.frames[t.Id()];
    RestrictCount(t.pieces, seen.chunks);
    if AllSeen(t, seen) {
      JoinOfAllPieces(t.pieces, seen.chunks, |t.pieces|);
      assert t.pieces[..|t.pieces|] == t.pieces;
    }
  }

  lemma ExpireKeepsPart(s: State, t: Target, seen: Seen, now: nat)
    requires Holds(PartOf(s, t.Id()), t, seen) && t.start <= now < t.start + ASSEMBLY_TIMEOUT
    ensures PartOf(Expire(s, now), t.Id()) == PartOf(s, t.Id())
  {
    hide HoldsFrame, Restrict;
  }

  lemma PruneKeepsPart(s: State, h: Header, id: u32)
    requires h.isKeyFrame ==> !Behind(id, h.frameId)
    ensures PartOf(Prune(s, h), id) == PartOf(s, id)
    ensures Prune(s, h).frames.Keys <= s.frames.Keys
  {
    hide Behind;
    BehindExactly(id, h.frameId);
  }

  /** With fewer than 16 other frames nothing is evicted. */
  lemma NothingEvicted(s: State, others: set<u32>, id: u32)
    requires s.frames.Keys <= others && |others - {id}| < MAX_INCOMPLETE_FRAMES
    ensures Trim(s) == s
  {
    SubsetIsSmaller(s.frames.Keys - {id}, others - {id});
    SubsetIsSmaller(s.frames.Keys, (s.frames.Keys - {id}) + {id});
    assert |s.frames| == |s.frames.Keys|;
  }

  lemma OwnHeader(s: State, limits: Limits, t: Target, seen: Seen, timestampMs: nat, now: nat)
    requires t.WellCut(limits) && Holds(PartOf(s, t.Id()), t, seen)
    requires Quiet(s, t, seen, HeaderIn(t.header, timestampMs, now))
    ensures
      var step, seen' := AfterHeader(s, limits, t.header, timestampMs, now), seen.(header := Some(timestampMs));
      && Answers(t, seen', step.outcome)
      && (!AllSeen(t, seen') ==> Holds(PartOf(step.state, t.Id()), t, seen'))
  {
    hide Sum, Flatten, Restrict, Expire, Prune, HoldsFrame, AllSeen, AfterHeader, Concluded, Holds, Answers, Conflicts;
    var id, h := t.Id(), t.header;
    ExpireKeepsPart(s, t, seen, now);
    var live := Expire(s, now);
    PruneKeepsPart(live, h, id);
    var pruned := Prune(live, h);
    PartAgrees(pruned, t, seen);
    HeaderConcludes(s, limits, h, timestampMs, now);
    OwnHeaderConcludes(pruned, limits, t, seen, timestampMs, now, live.frames.Keys + {id});
  }

  lemma OwnHeaderConcludes(s: State, limits: Limits, t: Target, seen: Seen, timestampMs: nat, now: nat,
                           others: set<u32>)
    requires t.WellCut(limits) && Holds(PartOf(s, t.Id()), t, seen) && !Conflicts(s, t.header) && t.start <= now
    requires s.frames.Keys + {t.Id()} <= others && |others - {t.Id()}| < MAX_INCOMPLETE_FRAMES
    ensures
      var step, seen' := Concluded(s, t.header, timestampMs, now), seen.(header := Some(timestampMs));
      && Answers(t, seen', step.outcome)
      && (!AllSeen(t, seen') ==> Holds(PartOf(step.state, t.Id()), t, seen'))
  {
    hide Sum, Flatten, Restrict, Finish, Trim, WithHeader, HoldsFrame, AllSeen, Entered, Conflicts;
    var id, seen' := t.Id(), seen.(header := Some(timestampMs));
    HeaderCollects(s, limits, t, seen, timestampMs, now);
    EnteredFrames(s, t.header, timestampMs, now);
    var entered := Entered(s, t.header, timestampMs, now);
    FinishTarget(entered, limits, t, seen');
    NothingEvicted(Finish(entered, id).state, others, id);
  }

  lemma PartAgrees(s: State, t: Target, seen: Seen)
    requires Holds(PartOf(s, t.Id()), t, seen)
    ensures !Conflicts(s, t.header)
  {
  }

  /** The header picks up every chunk that came before it. */
  lemma HeaderCollects(s: State, limits: Limits, t: Target, seen: Seen, timestampMs: nat, now: nat)
    requires t.WellCut(limits) && Holds(PartOf(s, t.Id()), t, seen) && t.start <= now
    ensures
      var a := WithHeader(s, t.header, timestampMs, now);
      HoldsFrame(a, t, seen.chunks, timestampMs) && a.started >= t.start
  {
    hide Sum, Flatten, Admit;
    var orphan := OrphanOf(s, t.Id(), now);
    if t.Id() in s.frames {
      var a := s.frames[t.Id()];
      NothingAdmitted(Collected(a.chunks, a.payloadBytes), a.header, a.header.totalChunks);
    } else {
      assert orphan.chunks == Restrict(t.pieces, seen.chunks);
      AllAdmitted(t, limits, seen.chunks, |t.pieces|);
      assert UpTo(seen.chunks, |t.pieces|) == seen.chunks;
    }
  }

  lemma OwnChunk(s: State, limits: Limits, t: Target, seen: Seen, c: Chunk, now: nat)
    requires t.WellCut(limits) && Holds(PartOf(s, t.Id()), t, seen) && c.frameId == t.Id()
    requires Quiet(s, t, seen, ChunkIn(c, now)) && !AllSeen(t, seen)
    ensures
      var step, seen' := AfterChunk(s, limits, c, now), Keep(seen, limits, t.Id(), ChunkIn(c, now));
      && Answers(t, seen', step.outcome)
      && (!AllSeen(t, seen') ==> Holds(PartOf(step.state, t.Id()), t, seen'))
  {
    hide Expire, AddChunk, AddOrphan, HoldsFrame, Restrict;
    ExpireKeepsPart(s, t, seen, now);
    var live := Expire(s, now);
    if seen.header.Some? {
      OwnChunkAfterHeader(live, limits, t, seen, c);
    } else {
      OwnChunkBeforeHeader(live, limits, t, seen, c, now);
    }
  }

  lemma OwnChunkAfterHeader(s: State, limits: Limits, t: Target, seen: Seen, c: Chunk)
    requires t.WellCut(limits) && Holds(PartOf(s, t.Id()), t, seen) && c.frameId == t.Id()
    requires c.index < |t.pieces| && c.data == t.pieces[c.index] && seen.header.Some?
    requires !AllSeen(t, seen)
    ensures
      var step, seen' := AddChunk(s, c), seen.(chunks := seen.chunks + {c.index});
      && Answers(t, seen', step.outcome)
      && (!AllSeen(t, seen') ==> Holds(PartOf(step.state, t.Id()), t, seen'))
  {
    hide Sum, Flatten, Restrict, Finish, AllSeen, Answers;
    var id, a := t.Id(), s.frames[t.Id()];
    var seen' := seen.(chunks := seen.chunks + {c.index});
    RestrictInsert(t.pieces, seen.chunks, c.index);
    RestrictKeys(t.pieces, seen.chunks);
    if c.index in a.chunks {
      assert seen' == seen;
      FinishTarget(s, limits, t, seen);
    } else {
      SumInsert(a.chunks, |t.pieces|, c.index, c.data);
      SumOfSomePieces(t.pieces, seen'.chunks, |t.pieces|);
      assert t.pieces[..|t.pieces|] == t.pieces;
      var a' := a.(chunks := a.chunks[c.index := c.data], payloadBytes := a.payloadBytes + |c.data|);
      var put := s.(frames := s.frames[id := a']);
      assert HoldsFrame(a', t, seen'.chunks, seen.header.value);
      FinishTarget(put, limits, t, seen');
      assert PartOf(put, id) == Part(Some(a'), None);
    }
  }

  lemma RestrictKeys(pieces: seq<Bytes>, seen: set<nat>)
    requires Below(seen, |pieces|)
    ensures Restrict(pieces, seen).Keys == seen
  {
  }

  lemma OwnChunkBeforeHeader(s: State, limits: Limits, t: Target, seen: Seen, c: Chunk, now: nat)
    requires t.WellCut(limits) && Holds(PartOf(s, t.Id()), t, seen) && c.frameId == t.Id()
    requires c.index < |t.pieces| && c.data == t.pieces[c.index] && seen.header.None?
    requires t.start <= now && |s.orphans.Keys - {t.Id()}| < MAX_ORPHAN_FRAMES
    ensures t.Id() !in s.frames
    ensures Holds(PartOf(AddOrphan(s, limits, c, now), t.Id()), t, Keep(seen, limits, t.Id(), ChunkIn(c, now)))
  {
    hide Restrict, AddOrphan, Holds, Below, Flatten;
    var id := t.Id();
    WaitingPart(PartOf(s, id), t, seen);
    RestrictNothing(t.pieces);
    RoomForOrphan(s.orphans, id);
    AddOrphanPart(s, limits, c, now);
    RestrictCount(t.pieces, seen.chunks);
    OrphanGrows(limits, t, seen, OrphanOf(s, id, now), PartOf(s, id).orphan, c, now);
  }

  /** The orphan after one more piece holds the pieces kept. */
  lemma OrphanGrows(limits: Limits, t: Target, seen: Seen, orphan: Orphan, stored: Option<Orphan>, c: Chunk, now: nat)
    requires c.frameId == t.Id() && c.index < |t.pieces| && c.data == t.pieces[c.index] && seen.header.None?
    requires Below(seen.chunks, |t.pieces|) && orphan.started >= t.start
    requires orphan.chunks == Restrict(t.pieces, seen.chunks) && |orphan.chunks| == |seen.chunks|
    requires Holds(Part(None, stored), t, seen)
    ensures
      Holds(Part(None,
                 if |orphan.chunks| >= limits.maxChunks then None
                 else if c.index in orphan.chunks then stored
                 else Some(orphan.(chunks := orphan.chunks[c.index := c.data]))),
            t, Keep(seen, limits, t.Id(), ChunkIn(c, now)))
  {
    hide Restrict, Holds, Below;
    NothingHeld(t);
    RestrictInsert(t.pieces, seen.chunks, c.index);
    RestrictKeys(t.pieces, seen.chunks);
    if c.index in seen.chunks {
      assert seen.chunks + {c.index} == seen.chunks;
    } else {
      WaitingHolds(orphan.(chunks := Restrict(t.pieces, seen.chunks + {c.index})), t, seen.chunks, c.index);
    }
  }

  /** What it means to hold the pieces of a frame whose header has not come. */
  lemma WaitingPart(p: Part, t: Target, seen: Seen)
    requires Holds(p, t, seen) && seen.header.None?
    ensures p.frame == None && Below(seen.chunks, |t.pieces|) && (seen.chunks == {} ==> p.orphan == None)
    ensures
      seen.chunks != {} ==>
        p.orphan.Some? && p.orphan.value.started >= t.start &&
        p.orphan.value.chunks == Restrict(t.pieces, seen.chunks)
  {
    hide Restrict;
  }

  lemma WaitingHolds(orphan: Orphan, t: Target, chunks: set<nat>, i: nat)
    requires Below(chunks, |t.pieces|) && i < |t.pieces| && orphan.started >= t.start
    requires orphan.chunks == Restrict(t.pieces, chunks + {i})
    ensures Holds(Part(None, Some(orphan)), t, Seen(None, chunks + {i}))
  {
    hide Restrict;
    assert i in chunks + {i};
  }

  lemma RoomForOrphan(orphans: map<u32, Orphan>, id: u32)
    requires |orphans.Keys - {id}| < MAX_ORPHAN_FRAMES
    ensures id in orphans || |orphans| < MAX_ORPHAN_FRAMES
  {
    if id !in orphans {
      assert orphans.Keys - {id} == orphans.Keys;
      assert |orphans.Keys| == |orphans|;
    }
  }

  /** What a chunk within bounds does to the orphan of its frame. */
  lemma AddOrphanPart(s: State, limits: Limits, c: Chunk, now: nat)
    requires c.index < limits.maxChunks && (c.frameId in s.orphans || |s.orphans| < MAX_ORPHAN_FRAMES)
    ensures
      var orphan, id := OrphanOf(s, c.frameId, now), c.frameId;
      var p, p' := PartOf(s, id), PartOf(AddOrphan(s, limits, c, now), id);
      && p'.frame == p.frame
      && p'.orphan ==
         if |orphan.chunks| >= limits.maxChunks then None
         else if c.index in orphan.chunks then p.orphan
         else Some(orphan.(chunks := orphan.chunks[c.index := c.data]))
  {
  }

  lemma RestrictNothing(pieces: seq<Bytes>)
    ensures Restrict(pieces, {}) == map[]
  {
  }

  predicate HandsOut(outcome: Outcome, id: u32) {
    outcome.Ok? && outcome.value.Some? && outcome.value.value.header.frameId == id
  }

  /** Events of other frames leave the target's pieces alone and never hand out its frame. */
  lemma ForeignEvent(s: State, limits: Limits, t: Target, seen: Seen, e: Event)
    requires Valid(s, limits) && Holds(PartOf(s, t.Id()), t, seen)
    requires Quiet(s, t, seen, e) && !Concerns(e, t.Id())
    ensures
      var step := Apply(s, limits, e);
      PartOf(step.state, t.Id()) == PartOf(s, t.Id()) && !HandsOut(step.outcome, t.Id())
  {
    hide Expire, Prune, WithHeader, HoldsFrame, Restrict, Sum, Valid, ValidHeader;
    ExpireKeepsPart(s, t, seen, e.now);
    ExpireKeepsValid(s, limits, e.now);
    var live := Expire(s, e.now);
    if e.ChunkIn? {
      ForeignChunk(live, limits, e.chunk, e.now, t.Id());
    } else if ValidHeader(e.header, limits) {
      PruneKeepsPart(live, e.header, t.Id());
      PruneKeepsValid(live, limits, e.header);
      ForeignHeader(Prune(live, e.header), limits, e.header, e.timestampMs, e.now, t.Id(),
                    live.frames.Keys + {e.header.frameId});
    }
  }

  lemma FinishForeign(s: State, other: u32, id: u32)
    requires other != id
    ensures
      var done := Finish(s, other);
      && PartOf(done.state, id) == PartOf(s, id) && done.state.frames.Keys <= s.frames.Keys
      && (done.outcome.Ok? && done.outcome.value.Some? ==>
            other in s.frames && done.outcome.value.value.header == s.frames[other].header)
  {
    hide Complete, Join;
  }

  lemma ForeignChunk(s: State, limits: Limits, c: Chunk, now: nat, id: u32)
    requires Valid(s, limits) && c.frameId != id
    ensures PartOf(AddOrphan(s, limits, c, now), id) == PartOf(s, id)
    ensures
      c.frameId in s.frames ==>
        var step := AddChunk(s, c);
        PartOf(step.state, id) == PartOf(s, id) && !HandsOut(step.outcome, id)
  {
    hide Sound, NoneComplete, SoundOrphans, AddChunk;
    ForeignOrphan(s, limits, c, now, id);
    if c.frameId in s.frames {
      SoundId(s.frames[c.frameId], c.frameId, limits);
      ForeignFrameChunk(s, c, id);
    }
  }

  lemma ForeignOrphan(s: State, limits: Limits, c: Chunk, now: nat, id: u32)
    requires c.frameId != id
    ensures PartOf(AddOrphan(s, limits, c, now), id) == PartOf(s, id)
  {
  }

  lemma ForeignFrameChunk(s: State, c: Chunk, id: u32)
    requires c.frameId in s.frames && s.frames[c.frameId].header.frameId == c.frameId != id
    ensures
      var step := AddChunk(s, c);
      PartOf(step.state, id) == PartOf(s, id) && !HandsOut(step.outcome, id)
  {
    hide Finish;
    var a := s.frames[c.frameId];
    var put := s.(frames := s.frames[c.frameId :=
                    a.(chunks := a.chunks[c.index := c.data], payloadBytes := a.payloadBytes + |c.data|)]);
    FinishForeign(s, c.frameId, id);
    FinishForeign(put, c.frameId, id);
    assert PartOf(put, id) == PartOf(s, id);
  }

  lemma PutForeign(s: State, a: Assembly, other: u32, id: u32)
    requires a.header.frameId == other != id
    ensures PartOf(WithoutOrphan(s, other), id) == PartOf(s, id)
    ensures
      var put := PutFrame(WithoutOrphan(s, other), a);
      && PartOf(put, id) == PartOf(s, id)
      && put.frames.Keys == s.frames.Keys + {other} && put.frames[other] == a
  {
  }

  lemma ForeignHeader(s: State, limits: Limits, h: Header, timestampMs: nat, now: nat, id: u32, others: set<u32>)
    requires Valid(s, limits) && h.frameId != id && ValidHeader(h, limits)
    requires s.frames.Keys + {h.frameId} <= others && |others - {id}| < MAX_INCOMPLETE_FRAMES
    ensures PartOf(WithoutOrphan(s, h.frameId), id) == PartOf(s, id)
    ensures
      !Conflicts(s, h) ==>
        var done := Finish(PutFrame(WithoutOrphan(s, h.frameId), WithHeader(s, h, timestampMs, now)), h.frameId);
        && Trim(done.state) == done.state && PartOf(done.state, id) == PartOf(s, id)
        && !HandsOut(done.outcome, id)
  {
    hide Finish, WithHeader, Trim, ValidHeader, Sound, NoneComplete, SoundOrphans, PutFrame;
    if !Conflicts(s, h) {
      var a := WithHeader(s, h, timestampMs, now);
      WithHeaderSound(s, limits, h, timestampMs, now);
      SoundId(a, h.frameId, limits);
      PutForeign(s, a, h.frameId, id);
      var put := PutFrame(WithoutOrphan(s, h.frameId), a);
      FinishForeign(put, h.frameId, id);
      NothingEvicted(Finish(put, h.frameId).state, others, id);
    }
  }

  // ----- whole transfers

  lemma {:induction false} TransferHolds(s: State, limits: Limits, t: Target, es: seq<Event>)
    requires Valid(s, limits) && t.WellCut(limits) && PartOf(s, t.Id()) == Part(None, None)
    requires QuietRun(s, limits, t, es)
    requires forall k :: 0 <= k <= |es| ==> !AllSeen(t, KeptIn(es[..k], limits, t.Id()))
    ensures Valid(Run(s, limits, es), limits)
    ensures Holds(PartOf(Run(s, limits, es), t.Id()), t, KeptIn(es, limits, t.Id()))
  {
    hide Valid, Quiet, Apply, AllSeen, Holds;
    if es == [] {
      NothingHeld(t);
    } else {
      var front, e := es[..|es| - 1], es[|es| - 1];
      assert forall k :: 0 <= k <= |front| ==> front[..k] == es[..k];
      assert es[..|es|] == es;
      TransferHolds(s, limits, t, front);
      OneStep(Run(s, limits, front), limits, t, KeptIn(front, limits, t.Id()), e);
    }
  }

  lemma NothingHeld(t: Target)
    ensures Holds(Part(None, None), t, Seen(None, {}))
  {
  }

  lemma OneStep(s: State, limits: Limits, t: Target, kept: Seen, e: Event)
    requires Valid(s, limits) && t.WellCut(limits) && Holds(PartOf(s, t.Id()), t, kept)
    requires Quiet(s, t, kept, e) && !AllSeen(t, kept)
    ensures Valid(Apply(s, limits, e).state, limits)
    ensures
      var step, kept' := Apply(s, limits, e), Keep(kept, limits, t.Id(), e);
      && (!AllSeen(t, kept') ==> Holds(PartOf(step.state, t.Id()), t, kept'))
      && (Concerns(e, t.Id()) ==> Answers(t, kept', step.outcome))
      && (!Concerns(e, t.Id()) ==> !HandsOut(step.outcome, t.Id()))
  {
    hide Valid, Holds, AfterHeader, AfterChunk, AllSeen, Answers;
    ApplyKeepsValid(s, limits, e);
    if !Concerns(e, t.Id()) {
      ForeignEvent(s, limits, t, kept, e);
    } else if e.HeaderIn? {
      OwnHeader(s, limits, t, kept, e.timestampMs, e.now);
    } else {
      OwnChunk(s, limits, t, kept, e.chunk, e.now);
    }
  }

  /**
   Exact reassembly.  Take any run in which the target's header and pieces arrive in any order and any
   number of times, undisturbed.  The first event after which all of them are held hands the frame out,
   with the original payload, and no event before it does.
   */
  lemma ReassemblyIsExact(s: State, limits: Limits, t: Target, es: seq<Event>)
    requires Valid(s, limits) && t.WellCut(limits) && PartOf(s, t.Id()) == Part(None, None)
    requires es != [] && QuietRun(s, limits, t, es)
    requires forall k :: 0 <= k < |es| ==> !AllSeen(t, KeptIn(es[..k], limits, t.Id()))
    ensures
      var outcome := Apply(Run(s, limits, es[..|es| - 1]), limits, es[|es| - 1]).outcome;
      var kept := KeptIn(es, limits, t.Id());
      && (HandsOut(outcome, t.Id()) <==> AllSeen(t, kept))
      && (Concerns(es[|es| - 1], t.Id()) ==> Answers(t, kept, outcome))
  {
    hide Valid, Quiet, Apply, AllSeen, Holds, Run;
    var front, e := es[..|es| - 1], es[|es| - 1];
    assert forall k :: 0 <= k <= |front| ==> front[..k] == es[..k];
    TransferHolds(s, limits, t, front);
    OneStep(Run(s, limits, front), limits, t, KeptIn(front, limits, t.Id()), e);
    if !Concerns(e, t.Id()) {
      assert Keep(KeptIn(front, limits, t.Id()), limits, t.Id(), e) == KeptIn(front, limits, t.Id());
      assert front[..|front|] == front == es[..|front|];
    }
  }

  /** Only pieces seen are held. */
  lemma {:induction false} KeptWasSeen(es: seq<Event>, limits: Limits, id: u32)
    ensures KeptIn(es, limits, id).header == SeenIn(es, id).header
    ensures KeptIn(es, limits, id).chunks <= SeenIn(es, id).chunks
  {
    if es != [] {
      KeptWasSeen(es[..|es| - 1], limits, id);
    }
  }

  /** The event comes when as many chunks as the protocol allows wait for the header, and is one more. */
  predicate Overflows(seen: Seen, limits: Limits, id: u32, e: Event) {
    e.ChunkIn? && e.chunk.frameId == id && seen.header.None? && |seen.chunks| >= limits.maxChunks
  }

  ghost predicate NothingDiscarded(es: seq<Event>, limits: Limits, id: u32) {
    forall k :: 0 <= k < |es| ==> !Overflows(SeenIn(es[..k], id), limits, id, es[k])
  }

  lemma {:induction false} KeptIsSeen(es: seq<Event>, limits: Limits, id: u32)
    requires NothingDiscarded(es, limits, id)
    ensures KeptIn(es, limits, id) == SeenIn(es, id)
  {
    if es != [] {
      var front := es[..|es| - 1];
      assert forall k :: 0 <= k < |front| ==> front[..k] == es[..k] && front[k] == es[k];
      KeptIsSeen(front, limits, id);
    }
  }

  /**
   Order independence: if no chunk comes on top of the protocol's maximum waiting for the header, the
   frame is handed out exactly by the event that brings its last distinct piece.
   */
  lemma ReassemblyIsOrderIndependent(s: State, limits: Limits, t: Target, es: seq<Event>)
    requires Valid(s, limits) && t.WellCut(limits) && PartOf(s, t.Id()) == Part(None, None)
    requires es != [] && QuietRun(s, limits, t, es) && NothingDiscarded(es, limits, t.Id())
    requires forall k :: 0 <= k < |es| ==> !AllSeen(t, SeenIn(es[..k], t.Id()))
    ensures
      var outcome := Apply(Run(s, limits, es[..|es| - 1]), limits, es[|es| - 1]).outcome;
      var seen := SeenIn(es, t.Id());
      && (HandsOut(outcome, t.Id()) <==> AllSeen(t, seen))
      && (AllSeen(t, seen) ==> outcome == Ok(Some(Assembled(t.header, Flatten(t.pieces), seen.header.value))))
  {
    hide Valid, Quiet, Apply, AllSeen, Run, QuietRun, NothingDiscarded;
    KeptIsSeen(es, limits, t.Id());
    forall k | 0 <= k < |es| ensures !AllSeen(t, KeptIn(es[..k], limits, t.Id())) {
      KeptWasSeen(es[..k], limits, t.Id());
      FewerSeen(t, KeptIn(es[..k], limits, t.Id()), SeenIn(es[..k], t.Id()));
    }
    ReassemblyIsExact(s, limits, t, es);
  }

  lemma FewerSeen(t: Target, kept: Seen, seen: Seen)
    requires kept.header == seen.header && kept.chunks <= seen.chunks && !AllSeen(t, seen)
    ensures !AllSeen(t, kept)
  {
  }

  // ----- an undisturbed transfer

  /** Every event carries the target's header or one of its pieces, within a second of the start. */
  ghost predicate OnlyOwn(t: Target, es: seq<Event>) {
    forall i :: 0 <= i < |es| ==>
      Concerns(es[i], t.Id()) && Genuine(t, es[i]) && t.start <= es[i].now < t.start + ASSEMBLY_TIMEOUT
  }

  ghost predicate NoNewKeys(s: State, s': State, id: u32) {
    s'.frames.Keys <= s.frames.Keys + {id} && s'.orphans.Keys <= s.orphans.Keys + {id}
  }

  lemma OwnEventAddsNoKeys(s: State, limits: Limits, t: Target, e: Event)
    requires Concerns(e, t.Id()) && Genuine(t, e)
    ensures NoNewKeys(s, Apply(s, limits, e).state, t.Id())
  {
    hide AfterHeader, AfterChunk;
    if e.HeaderIn? {
      HeaderAddsNoKeys(s, limits, e.header, e.timestampMs, e.now);
    } else {
      ChunkAddsNoKeys(s, limits, e.chunk, e.now);
    }
  }

  lemma HeaderAddsNoKeys(s: State, limits: Limits, h: Header, timestampMs: nat, now: nat)
    ensures NoNewKeys(s, AfterHeader(s, limits, h, timestampMs, now).state, h.frameId)
  {
    hide Expire, Prune, ValidHeader, Concluded, AfterHeader, Conflicts;
    var live := Expire(s, now);
    if ValidHeader(h, limits) {
      HeaderConcludes(s, limits, h, timestampMs, now);
      ExpireLeavesLive(s, now);
      PruneSubset(live, h);
      ConcludingAddsNoKeys(Prune(live, h), h, timestampMs, now);
    } else {
      InvalidHeaderKeepsTables(s, limits, h, timestampMs, now);
    }
  }

  lemma ConcludingAddsNoKeys(s: State, h: Header, timestampMs: nat, now: nat)
    ensures !Conflicts(s, h) ==> NoNewKeys(s, Concluded(s, h, timestampMs, now).state, h.frameId)
  {
    hide Entered, Concluded, Conflicts, WithHeader;
    if !Conflicts(s, h) {
      EnteredFrames(s, h, timestampMs, now);
      ConcludedFrames(s, h, timestampMs, now);
    }
  }

  lemma ChunkAddsNoKeys(s: State, limits: Limits, c: Chunk, now: nat)
    ensures NoNewKeys(s, AfterChunk(s, limits, c, now).state, c.frameId)
  {
    hide AddChunk, Expire;
    ExpireLeavesLive(s, now);
    ChunkFrames(Expire(s, now), c);
  }

  lemma SelfIsNotBehind(id: u32)
    ensures !Behind(id, id)
  {
    hide Behind;
    BehindExactly(id, id);
  }

  lemma {:induction false} SeenIsBelow(t: Target, es: seq<Event>)
    requires OnlyOwn(t, es)
    ensures Below(SeenIn(es, t.Id()).chunks, |t.pieces|)
  {
    if es != [] {
      SeenIsBelow(t, es[..|es| - 1]);
    }
  }

  /** Room for one more frame and one more orphan. */
  ghost predicate HasRoom(s: State) {
    |s.frames.Keys| < MAX_INCOMPLETE_FRAMES && |s.orphans.Keys| < MAX_ORPHAN_FRAMES
  }

  /** A transfer that shares the tables with fewer than 16 frames and 16 orphans already there is left in peace. */
  lemma {:induction false} LoneTransferIsQuiet(s: State, limits: Limits, t: Target, es: seq<Event>)
    requires OnlyOwn(t, es) && HasRoom(s)
    ensures QuietRun(s, limits, t, es) && NoNewKeys(s, Run(s, limits, es), t.Id())
  {
    if es != [] {
      hide Apply, KeptIn, Genuine, Quiet, Concerns;
      var front, e := es[..|es| - 1], es[|es| - 1];
      LoneTransferIsQuiet(s, limits, t, front);
      LoneEventIsQuiet(s, Run(s, limits, front), t, KeptIn(front, limits, t.Id()), e);
      OwnEventAddsNoKeys(Run(s, limits, front), limits, t, e);
    }
  }

  lemma LoneEventIsQuiet(s: State, later: State, t: Target, kept: Seen, e: Event)
    requires Concerns(e, t.Id()) && Genuine(t, e) && t.start <= e.now < t.start + ASSEMBLY_TIMEOUT
    requires NoNewKeys(s, later, t.Id()) && HasRoom(s)
    ensures Quiet(later, t, kept, e)
  {
    hide Expire, Genuine, Behind;
    SelfIsNotBehind(t.Id());
    ExpireLeavesLive(later, e.now);
    SubsetIsSmaller(Expire(later, e.now).frames.Keys + {t.Id()} - {t.Id()}, s.frames.Keys);
    SubsetIsSmaller(Expire(later, e.now).orphans.Keys - {t.Id()}, s.orphans.Keys);
  }

  /** The target's own events up to one that may bring its last distinct piece. */
  ghost predicate IsTransfer(t: Target, es: seq<Event>) {
    es != [] && OnlyOwn(t, es) && forall k :: 0 <= k < |es| ==> !AllSeen(t, SeenIn(es[..k], t.Id()))
  }

  /** The last event is answered with the frame exactly if `pieces` are all of its pieces. */
  ghost predicate AnsweredBy(s: State, limits: Limits, t: Target, es: seq<Event>, pieces: Seen)
    requires es != []
  {
    Answers(t, pieces, Apply(Run(s, limits, es[..|es| - 1]), limits, es[|es| - 1]).outcome)
  }

  /** Every transfer on its own is answered exactly when all of its pieces are held. */
  lemma LoneTransferIsExact(s: State, limits: Limits, t: Target, es: seq<Event>)
    requires Valid(s, limits) && t.WellCut(limits) && PartOf(s, t.Id()) == Part(None, None) && HasRoom(s)
    requires IsTransfer(t, es)
    ensures AnsweredBy(s, limits, t, es, KeptIn(es, limits, t.Id()))
  {
    hide Valid, Quiet, Apply, AllSeen, Run, QuietRun, Genuine, Answers;
    forall k | 0 <= k < |es| ensures !AllSeen(t, KeptIn(es[..k], limits, t.Id())) {
      KeptWasSeen(es[..k], limits, t.Id());
      FewerSeen(t, KeptIn(es[..k], limits, t.Id()), SeenIn(es[..k], t.Id()));
    }
    LoneTransferIsQuiet(s, limits, t, es);
    ReassemblyIsExact(s, limits, t, es);
  }

  /** A frame with fewer chunks than the protocol allows never has any discarded. */
  lemma SmallFramesAreKept(t: Target, limits: Limits, es: seq<Event>)
    requires OnlyOwn(t, es) && |t.pieces| < limits.maxChunks
    ensures KeptIn(es, limits, t.Id()) == SeenIn(es, t.Id())
  {
    hide SeenIn, Genuine, Below;
    forall k | 0 <= k < |es| ensures !Overflows(SeenIn(es[..k], t.Id()), limits, t.Id(), es[k]) {
      SeenIsBelow(t, es[..k]);
      CountMeansAll(SeenIn(es[..k], t.Id()).chunks, |t.pieces|);
    }
    KeptIsSeen(es, limits, t.Id());
  }

  // ----- the one gap in the guarantee

  lemma {:induction false} HeaderStaysKept(es: seq<Event>, limits: Limits, id: u32, k: nat)
    requires k <= |es| && KeptIn(es, limits, id).header.None?
    ensures KeptIn(es[..k], limits, id).header.None?
    decreases |es|
  {
    if k == |es| {
      assert es[..k] == es;
    } else {
      assert es[..|es| - 1][..k] == es[..k];
      HeaderStaysKept(es[..|es| - 1], limits, id, k);
    }
  }

  /**
   Before its header has come, one more chunk of a frame leaves nothing of it in the tables, exactly if
   the protocol's maximum of chunks was waiting.
   */
  lemma ChunkAtTheCapDiscardsOrphan(s: State, limits: Limits, t: Target, es: seq<Event>, c: Chunk, now: nat)
    requires Valid(s, limits) && t.WellCut(limits) && PartOf(s, t.Id()) == Part(None, None)
    requires QuietRun(s, limits, t, es + [ChunkIn(c, now)]) && c.frameId == t.Id()
    requires KeptIn(es, limits, t.Id()).header.None?
    ensures
      PartOf(Run(s, limits, es + [ChunkIn(c, now)]), t.Id()) == Part(None, None) <==>
      |KeptIn(es, limits, t.Id()).chunks| >= limits.maxChunks
    ensures AfterChunk(Run(s, limits, es), limits, c, now).outcome == Ok(None)
  {
    hide Valid, Quiet, Holds, AfterChunk, Run, KeptIn;
    var e, kept := ChunkIn(c, now), KeptIn(es, limits, t.Id());
    assert (es + [e])[..|es|] == es;
    forall k | 0 <= k <= |es| ensures !AllSeen(t, KeptIn(es[..k], limits, t.Id())) {
      HeaderStaysKept(es, limits, t.Id(), k);
    }
    TransferHolds(s, limits, t, es);
    OneStep(Run(s, limits, es), limits, t, kept, e);
    RunOneMore(s, limits, es, e);
    WaitingPart(PartOf(Run(s, limits, es + [e]), t.Id()), t, Keep(kept, limits, t.Id(), e));
  }

  lemma RunOneMore(s: State, limits: Limits, es: seq<Event>, e: Event)
    ensures Run(s, limits, es + [e]) == Apply(Run(s, limits, es), limits, e).state
  {
    assert (es + [e])[..|es|] == es;
  }

  /** The pieces with index below `n`, in order. */
  function Round(t: Target, n: nat): (es: seq<Event>)
    requires n <= |t.pieces|
    ensures |es| == n
  {
    if n == 0 then [] else Round(t, n - 1) + [ChunkIn(Chunk(t.Id(), n - 1, t.pieces[n - 1]), t.start)]
  }

  /** All pieces, the first of them again, and then the header. */
  function RepeatedRun(t: Target): seq<Event>
    requires t.pieces != []
  {
    Round(t, |t.pieces|) + [ChunkIn(Chunk(t.Id(), 0, t.pieces[0]), t.start)] + [HeaderIn(t.header, 0, t.start)]
  }

  lemma {:induction false} RoundIsOwn(t: Target, n: nat)
    requires n <= |t.pieces|
    ensures OnlyOwn(t, Round(t, n))
    ensures forall i :: 0 <= i < n ==> Round(t, n)[i].ChunkIn?
  {
    if n > 0 {
      RoundIsOwn(t, n - 1);
    }
  }

  lemma {:induction false} NoHeaderSeen(es: seq<Event>, id: u32)
    requires forall i :: 0 <= i < |es| ==> es[i].ChunkIn?
    ensures SeenIn(es, id).header.None?
  {
    if es != [] {
      NoHeaderSeen(es[..|es| - 1], id);
    }
  }

  lemma {:induction false} RoundIsSeen(t: Target, limits: Limits, n: nat)
    requires n <= |t.pieces| <= limits.maxChunks
    ensures SeenIn(Round(t, n), t.Id()) == KeptIn(Round(t, n), limits, t.Id()) == Seen(None, IndicesBelow(n))
  {
    if n > 0 {
      RoundIsSeen(t, limits, n - 1);
      assert Round(t, n)[..n - 1] == Round(t, n - 1);
    }
  }

  /**
   At the protocol's maximum the guarantee fails, for every such frame: after all pieces, one of them
   again and the header, every piece has been seen and nothing is handed out.
   */
  lemma RepeatAtTheCapLosesFrame(s: State, limits: Limits, t: Target)
    requires Valid(s, limits) && t.WellCut(limits) && PartOf(s, t.Id()) == Part(None, None) && HasRoom(s)
    requires |t.pieces| == limits.maxChunks
    ensures
      var es := RepeatedRun(t);
      && IsTransfer(t, es) && AllSeen(t, SeenIn(es, t.Id()))
      && Apply(Run(s, limits, es[..|es| - 1]), limits, es[|es| - 1]).outcome == Ok(None)
  {
    hide Valid, Run, Apply, SeenIn, KeptIn, OnlyOwn;
    RepeatedRunIsTransfer(t);
    RepeatedRunIsSeen(t, limits);
    LoneTransferIsExact(s, limits, t, RepeatedRun(t));
    assert 0 !in Seen(Some(0), {}).chunks;
  }

  lemma RepeatedRunIsTransfer(t: Target)
    requires t.pieces != []
    ensures IsTransfer(t, RepeatedRun(t))
  {
    hide SeenIn;
    var es, n := RepeatedRun(t), |t.pieces|;
    RoundIsOwn(t, n);
    assert forall i :: 0 <= i < n ==> es[i] == Round(t, n)[i];
    forall k | 0 <= k < |es| ensures !AllSeen(t, SeenIn(es[..k], t.Id())) {
      NoHeaderSeen(es[..k], t.Id());
    }
  }

  lemma RepeatedRunIsSeen(t: Target, limits: Limits)
    requires t.pieces != [] && |t.pieces| == limits.maxChunks
    ensures AllSeen(t, SeenIn(RepeatedRun(t), t.Id()))
    ensures KeptIn(RepeatedRun(t), limits, t.Id()) == Seen(Some(0), {})
  {
    hide Round;
    var es, n := RepeatedRun(t), |t.pieces|;
    RoundIsSeen(t, limits, n);
    assert es[..n + 1][..n] == Round(t, n) && es[..|es| - 1] == es[..n + 1];
  }

  /**
   The exact guarantee: from every valid state with room, all transfers of a frame, in any order and
   with any repetition, are answered with the frame exactly at its last distinct piece, if and only if
   the frame has fewer chunks than the protocol allows.
   */
  lemma LoneTransferReassemblesExactly(s: State, limits: Limits, t: Target)
    requires Valid(s, limits) && t.WellCut(limits) && PartOf(s, t.Id()) == Part(None, None) && HasRoom(s)
    ensures
      (forall es :: IsTransfer(t, es) ==> AnsweredBy(s, limits, t, es, SeenIn(es, t.Id()))) <==>
      |t.pieces| < limits.maxChunks
  {
    hide Valid, Run, Apply, SeenIn, KeptIn, HasRoom;
    if |t.pieces| < limits.maxChunks {
      forall es | IsTransfer(t, es) ensures AnsweredBy(s, limits, t, es, SeenIn(es, t.Id())) {
        LoneTransferIsExact(s, limits, t, es);
        SmallFramesAreKept(t, limits, es);
      }
    } else {
      RepeatAtTheCapLosesFrame(s, limits, t);
      assert !AnsweredBy(s, limits, t, RepeatedRun(t), SeenIn(RepeatedRun(t), t.Id()));
    }
  }

  /** A frame at the maximum that the protocol really has: one byte in each of 8192 chunks. */
  lemma LargestFrameIsWellCut(id: u32)
    ensures
      var t := Target(Header(id, PROTOCOL.maxChunks, PROTOCOL.maxChunks, true, 0), Repeat([0], PROTOCOL.maxChunks), 0);
      t.WellCut(PROTOCOL) && |t.pieces| == PROTOCOL.maxChunks
  {
    FlattenRepeat(PROTOCOL.maxChunks);
  }

  lemma {:induction false} FlattenRepeat(n: nat)
    ensures |Flatten(Repeat([0 as byte], n))| == n
  {
    if n > 0 {
      assert Repeat([0 as byte], n)[..n - 1] == Repeat([0 as byte], n - 1);
      FlattenRepeat(n - 1);
    }
  }
}
