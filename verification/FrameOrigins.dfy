/**
 What a frame that is handed out consists of, in any run, disturbed or not: a header that came, and for
 every index the bytes of a chunk that came for it, all within the last second and after the frame id
 was last concluded.
 */
module FrameOrigins {
  import opened Prelude
  import opened SerialNumbers
  import opened FrameAssembler
  import opened FrameReassembly
  import opened PieceOrder

  ghost predicate ClockRunsForward(es: seq<Event>) { forall i, j :: 0 <= i < j < |es| ==> es[i].now <= es[j].now }

  ghost predicate HeaderCame(es: seq<Event>, from: nat, h: Header, timestampMs: nat) {
    exists k :: 0 <= k < |es| && es[k] == HeaderIn(h, timestampMs, es[k].now) && from <= es[k].now
  }

  ghost predicate ChunkCame(es: seq<Event>, from: nat, c: Chunk) {
    exists k :: 0 <= k < |es| && es[k] == ChunkIn(c, es[k].now) && from <= es[k].now
  }

  ghost predicate ChunksCame(es: seq<Event>, from: nat, id: u32, chunks: map<nat, Bytes>) {
    forall i :: i in chunks ==> ChunkCame(es, from, Chunk(id, i, chunks[i]))
  }

  /** From when on everything collected since `started` has come; unknown if the clock is no clock. */
  ghost function Since(es: seq<Event>, started: nat): nat { if ClockRunsForward(es) then started else 0 }

  // ----- where what the tables hold comes from

  ghost predicate FrameCame(a: Assembly, es: seq<Event>, id: u32) {
    && a.header.frameId == id
    && HeaderCame(es, Since(es, a.started), a.header, a.timestampMs)
    && ChunksCame(es, Since(es, a.started), id, a.chunks)
  }

  ghost predicate OrphanCame(o: Orphan, es: seq<Event>, id: u32) {
    && (exists k :: 0 <= k < |es| && Since(es, o.started) <= es[k].now)
    && ChunksCame(es, Since(es, o.started), id, o.chunks)
  }

  ghost predicate Came(p: Part, es: seq<Event>, id: u32) {
    (p.frame.Some? ==> FrameCame(p.frame.value, es, id)) && (p.orphan.Some? ==> OrphanCame(p.orphan.value, es, id))
  }

  /** Some of it is gone, the rest is unchanged. */
  predicate Within(p: Part, q: Part) {
    (p.frame == None || p.frame == q.frame) && (p.orphan == None || p.orphan == q.orphan)
  }

  lemma SinceEarlier(es: seq<Event>, e: Event, started: nat)
    ensures Since(es + [e], started) <= Since(es, started)
    ensures forall k :: 0 <= k < |es| && Since(es, started) <= es[k].now ==> Since(es + [e], started) <= e.now
  {
    var more := es + [e];
    if ClockRunsForward(more) {
      assert forall i :: 0 <= i < |es| ==> more[i] == es[i] && es[i].now <= more[|es|].now;
    }
  }

  lemma MoreChunksCame(es: seq<Event>, e: Event, from: nat, less: nat, id: u32, chunks: map<nat, Bytes>)
    requires ChunksCame(es, from, id, chunks) && less <= from
    ensures ChunksCame(es + [e], less, id, chunks)
  {
    forall i | i in chunks ensures ChunkCame(es + [e], less, Chunk(id, i, chunks[i])) {
      ChunkStillCame(es, e, from, less, Chunk(id, i, chunks[i]));
    }
  }

  lemma ChunkStillCame(es: seq<Event>, e: Event, from: nat, less: nat, c: Chunk)
    requires ChunkCame(es, from, c) && less <= from
    ensures ChunkCame(es + [e], less, c)
  {
    var k :| 0 <= k < |es| && es[k] == ChunkIn(c, es[k].now) && from <= es[k].now;
    assert (es + [e])[k] == es[k];
  }

  lemma FrameStillCame(a: Assembly, es: seq<Event>, e: Event, id: u32)
    requires FrameCame(a, es, id)
    ensures FrameCame(a, es + [e], id) && Since(es + [e], a.started) <= e.now
  {
    hide ChunksCame, Since;
    SinceEarlier(es, e, a.started);
    MoreChunksCame(es, e, Since(es, a.started), Since(es + [e], a.started), id, a.chunks);
    var k :| 0 <= k < |es| && es[k] == HeaderIn(a.header, a.timestampMs, es[k].now)
             && Since(es, a.started) <= es[k].now;
    assert (es + [e])[k] == es[k];
  }

  lemma OrphanStillCame(o: Orphan, es: seq<Event>, e: Event, id: u32)
    requires OrphanCame(o, es, id)
    ensures OrphanCame(o, es + [e], id) && Since(es + [e], o.started) <= e.now
  {
    hide ChunksCame, Since;
    SinceEarlier(es, e, o.started);
    MoreChunksCame(es, e, Since(es, o.started), Since(es + [e], o.started), id, o.chunks);
    assert (es + [e])[|es|] == e;
  }

  lemma StillCame(p: Part, q: Part, es: seq<Event>, e: Event, id: u32)
    requires Came(q, es, id) && Within(p, q)
    ensures Came(p, es + [e], id)
  {
    hide FrameCame, OrphanCame;
    if p.frame.Some? { FrameStillCame(p.frame.value, es, e, id); }
    if p.orphan.Some? { OrphanStillCame(p.orphan.value, es, e, id); }
  }

  // ----- events of other frames

  lemma ExpiredPart(s: State, now: nat, id: u32)
    ensures Within(PartOf(Expire(s, now), id), PartOf(s, id))
    ensures id in Expire(s, now).frames ==> Live(Expire(s, now).frames[id].started, now)
    ensures id in Expire(s, now).orphans ==> Live(Expire(s, now).orphans[id].started, now)
  {
    hide Live;
  }

  lemma PrunedPart(s: State, h: Header, id: u32)
    ensures Within(PartOf(Prune(s, h), id), PartOf(s, id))
  {
    hide SerialNotBefore, Complete;
  }

  lemma ForeignPart(s: State, limits: Limits, e: Event, id: u32)
    requires Valid(s, limits) && !Concerns(e, id)
    ensures Within(PartOf(Apply(s, limits, e).state, id), PartOf(s, id))
  {
    hide Expire, Prune, AddChunk, AddOrphan, AfterHeader, ValidHeader, Valid;
    ExpiredPart(s, e.now, id);
    ExpireKeepsValid(s, limits, e.now);
    var live := Expire(s, e.now);
    if e.ChunkIn? {
      ForeignChunk(live, limits, e.chunk, e.now, id);
    } else if ValidHeader(e.header, limits) {
      PrunedPart(live, e.header, id);
      HeaderConcludes(s, limits, e.header, e.timestampMs, e.now);
      ForeignConcluded(Prune(live, e.header), e.header, e.timestampMs, e.now, id);
    } else {
      InvalidHeaderKeepsTables(s, limits, e.header, e.timestampMs, e.now);
    }
  }

  lemma ForeignConcluded(s: State, h: Header, timestampMs: nat, now: nat, id: u32)
    requires h.frameId != id
    ensures PartOf(WithoutOrphan(s, h.frameId), id) == PartOf(s, id)
    ensures !Conflicts(s, h) ==> Within(PartOf(Concluded(s, h, timestampMs, now).state, id), PartOf(s, id))
  {
    hide Entered, Concluded, Conflicts, WithHeader;
    if !Conflicts(s, h) {
      EnteredFrames(s, h, timestampMs, now);
      ConcludedFrames(s, h, timestampMs, now);
    }
  }

  // ----- the frame's own events

  lemma {:induction false} AdmittedFromEither(c: Collected, incoming: map<nat, Bytes>, h: Header, n: nat)
    ensures
      forall i :: i in Admit(c, incoming, h, n).chunks ==>
        (i in c.chunks && Admit(c, incoming, h, n).chunks[i] == c.chunks[i]) ||
        (i in incoming && Admit(c, incoming, h, n).chunks[i] == incoming[i])
  {
    if n > 0 {
      AdmittedFromEither(c, incoming, h, n - 1);
    }
  }

  lemma AdmittedCame(c: Collected, incoming: map<nat, Bytes>, h: Header, n: nat, es: seq<Event>, from: nat,
                     first: nat, second: nat, id: u32)
    requires ChunksCame(es, first, id, c.chunks) && ChunksCame(es, second, id, incoming)
    requires from <= first && from <= second
    ensures ChunksCame(es, from, id, Admit(c, incoming, h, n).chunks)
  {
    hide Admit;
    AdmittedFromEither(c, incoming, h, n);
    assert forall chunk :: ChunkCame(es, first, chunk) || ChunkCame(es, second, chunk) ==> ChunkCame(es, from, chunk);
  }

  /** The frame a header makes consists of what has come. */
  lemma WithHeaderCame(s: State, es: seq<Event>, h: Header, timestampMs: nat, now: nat)
    requires Came(PartOf(s, h.frameId), es, h.frameId) && !Conflicts(s, h)
    ensures FrameCame(WithHeader(s, h, timestampMs, now), es + [HeaderIn(h, timestampMs, now)], h.frameId)
  {
    hide FrameCame, OrphanCame, ChunksCame, Admit, Since;
    var e, id := HeaderIn(h, timestampMs, now), h.frameId;
    var more, orphan := es + [e], OrphanOf(s, id, now);
    var result := WithHeader(s, h, timestampMs, now);
    OrphanOfCame(s, es, e, id);
    SinceBound(more, orphan.started, result.started);
    if id in s.frames {
      var a := s.frames[id];
      FrameStillCame(a, es, e, id);
      FrameChunks(a, more, id);
      SinceBound(more, a.started, result.started);
      AdmittedCame(Collected(a.chunks, a.payloadBytes), orphan.chunks, a.header, a.header.totalChunks, more,
                   Since(more, result.started), Since(more, a.started), Since(more, orphan.started), id);
    } else {
      NothingCame(more, Since(more, orphan.started), id);
      AdmittedCame(Collected(map[], 0), orphan.chunks, h, h.totalChunks, more,
                   Since(more, result.started), Since(more, orphan.started), Since(more, orphan.started), id);
    }
    assert more[|es|] == e;
    NewFrameCame(result, more, e);
  }

  lemma NewFrameCame(a: Assembly, es: seq<Event>, e: Event)
    requires e.HeaderIn? && e.header == a.header && e.timestampMs == a.timestampMs
    requires es != [] && es[|es| - 1] == e && Since(es, a.started) <= e.now
    requires ChunksCame(es, Since(es, a.started), a.header.frameId, a.chunks)
    ensures FrameCame(a, es, a.header.frameId)
  {
    hide ChunksCame, Since;
    assert HeaderCame(es, Since(es, a.started), a.header, a.timestampMs);
  }

  lemma FrameChunks(a: Assembly, es: seq<Event>, id: u32)
    requires FrameCame(a, es, id)
    ensures ChunksCame(es, Since(es, a.started), id, a.chunks)
  {
  }

  lemma NothingCame(es: seq<Event>, from: nat, id: u32)
    ensures ChunksCame(es, from, id, map[])
  {
  }

  lemma SinceBound(es: seq<Event>, a: nat, b: nat)
    ensures b <= a ==> Since(es, b) <= Since(es, a)
    ensures Since(es, a) <= a
  {
  }

  lemma OrphanOfCame(s: State, es: seq<Event>, e: Event, id: u32)
    requires Came(PartOf(s, id), es, id)
    ensures
      var orphan := OrphanOf(s, id, e.now);
      && ChunksCame(es + [e], Since(es + [e], orphan.started), id, orphan.chunks)
      && Since(es + [e], orphan.started) <= e.now
  {
    hide FrameCame;
    if id in s.orphans { OrphanStillCame(s.orphans[id], es, e, id); }
  }

  /** One more chunk in a frame. */
  lemma OneMoreFrameChunk(a: Assembly, es: seq<Event>, c: Chunk, now: nat, bytes: nat)
    requires FrameCame(a, es, c.frameId)
    ensures
      FrameCame(a.(chunks := a.chunks[c.index := c.data], payloadBytes := bytes), es + [ChunkIn(c, now)], c.frameId)
  {
    hide Since, ChunksCame;
    FrameStillCame(a, es, ChunkIn(c, now), c.frameId);
    OneMoreChunk(a.chunks, es, c, now, Since(es + [ChunkIn(c, now)], a.started));
  }

  lemma OneMoreChunk(chunks: map<nat, Bytes>, es: seq<Event>, c: Chunk, now: nat, from: nat)
    requires ChunksCame(es + [ChunkIn(c, now)], from, c.frameId, chunks) && from <= now
    ensures ChunksCame(es + [ChunkIn(c, now)], from, c.frameId, chunks[c.index := c.data])
  {
    hide ChunkCame;
    ThisChunkCame(es, c, now, from);
  }

  lemma ThisChunkCame(es: seq<Event>, c: Chunk, now: nat, from: nat)
    requires from <= now
    ensures ChunkCame(es + [ChunkIn(c, now)], from, Chunk(c.frameId, c.index, c.data))
  {
    assert (es + [ChunkIn(c, now)])[|es|] == ChunkIn(c, now);
  }

  lemma OneMoreOrphan(s: State, limits: Limits, es: seq<Event>, c: Chunk, now: nat)
    requires Came(PartOf(s, c.frameId), es, c.frameId)
    ensures Came(PartOf(AddOrphan(s, limits, c, now), c.frameId), es + [ChunkIn(c, now)], c.frameId)
  {
    hide FrameCame, OrphanCame, Since, ChunksCame;
    var id, e, t := c.frameId, ChunkIn(c, now), AddOrphan(s, limits, c, now);
    if Within(PartOf(t, id), PartOf(s, id)) {
      StillCame(PartOf(t, id), PartOf(s, id), es, e, id);
    } else {
      OrphanOfCame(s, es, e, id);
      var orphan := OrphanOf(s, id, now);
      OneMoreChunk(orphan.chunks, es, c, now, Since(es + [e], orphan.started));
      NewOrphanCame(orphan.(chunks := orphan.chunks[c.index := c.data]), es + [e], e, id);
      StillCame(Part(PartOf(s, id).frame, None), PartOf(s, id), es, e, id);
    }
  }

  lemma NewOrphanCame(o: Orphan, es: seq<Event>, e: Event, id: u32)
    requires es != [] && es[|es| - 1] == e && Since(es, o.started) <= e.now
    requires ChunksCame(es, Since(es, o.started), id, o.chunks)
    ensures OrphanCame(o, es, id)
  {
    hide Since, ChunksCame;
  }

  // ----- what is handed out

  /** The chunks 0 to n-1 in order. */
  function PiecesOf(chunks: map<nat, Bytes>, n: nat): (pieces: seq<Bytes>)
    requires forall i: nat :: i < n ==> i in chunks
    ensures |pieces| == n && forall i :: 0 <= i < n ==> pieces[i] == chunks[i]
  {
    if n == 0 then [] else PiecesOf(chunks, n - 1) + [chunks[n - 1]]
  }

  lemma {:induction false} JoinIsFlatten(chunks: map<nat, Bytes>, pieces: seq<Bytes>)
    requires forall i :: 0 <= i < |pieces| ==> i in chunks && chunks[i] == pieces[i]
    ensures Join(chunks, |pieces|) == Some(Flatten(pieces)) && Sum(chunks, |pieces|) == |Flatten(pieces)|
  {
    if pieces != [] {
      JoinIsFlatten(chunks, pieces[..|pieces| - 1]);
    }
  }

  /** A header and, for every index, a chunk that came for it, at or after `from`. */
  ghost predicate Gathered(es: seq<Event>, from: nat, h: Header, timestampMs: nat, pieces: seq<Bytes>) {
    && HeaderCame(es, from, h, timestampMs) && |pieces| == h.totalChunks
    && forall i :: 0 <= i < |pieces| ==> ChunkCame(es, from, Chunk(h.frameId, i, pieces[i]))
  }

  /** All pieces of a frame are there: it is handed out, or they do not make up the size declared. */
  function Verdict(h: Header, timestampMs: nat, pieces: seq<Bytes>): Outcome {
    if |Flatten(pieces)| == h.totalSize then Ok(Some(Assembled(h, Flatten(pieces), timestampMs))) else Err(SizeMismatch)
  }

  /**
   The outcome is the verdict on a header and pieces that came among the events `es`.  They are never
   more than declared; and if the clock runs forward, none of them came a second or more before `now`, nor
   before the start time that is kept of a frame handed out.
   */
  ghost predicate ComesFrom(es: seq<Event>, id: u32, now: nat, step: Step) {
    exists from: nat, h, timestampMs: nat, pieces ::
      && Gathered(es, from, h, timestampMs, pieces) && h.frameId == id
      && |Flatten(pieces)| <= h.totalSize && step.outcome == Verdict(h, timestampMs, pieces)
      && (step.outcome.Ok? ==>
            step.state.completedStartedAt.Some? && from == Since(es, step.state.completedStartedAt.value))
      && (ClockRunsForward(es) ==> now < from + ASSEMBLY_TIMEOUT)
  }

  /** The frame has been handed out or refused for its size. */
  predicate IsVerdict(outcome: Outcome) { outcome == Err(SizeMismatch) || (outcome.Ok? && outcome.value.Some?) }

  lemma FinishedCame(s: State, limits: Limits, id: u32, es: seq<Event>, now: nat)
    requires id in s.frames ==>
      Sound(s.frames[id], id, limits) && FrameCame(s.frames[id], es, id) && Live(s.frames[id].started, now)
    ensures IsVerdict(Finish(s, id).outcome) ==> ComesFrom(es, id, now, Finish(s, id))
  {
    hide Sum, Join, HeaderCame, ChunkCame, Flatten;
    if id in s.frames && Complete(s.frames[id]) {
      var a := s.frames[id];
      FinishOutcome(s, limits, id);
      var n := a.header.totalChunks;
      var pieces := PiecesOf(a.chunks, n);
      JoinIsFlatten(a.chunks, pieces);
      assert Gathered(es, Since(es, a.started), a.header, a.timestampMs, pieces);
      assert Finish(s, id).outcome == Verdict(a.header, a.timestampMs, pieces);
    }
  }

  lemma FinishedPart(s: State, id: u32)
    ensures Within(PartOf(Finish(s, id).state, id), PartOf(s, id))
    ensures IsVerdict(Finish(s, id).outcome) ==>
      id in s.frames && Complete(s.frames[id]) && PartOf(Finish(s, id).state, id) == Part(None, PartOf(s, id).orphan)
  {
    hide Join, Complete;
  }

  /** What one event does to the frame it concerns. */
  ghost predicate StepCame(step: Step, es: seq<Event>, id: u32, now: nat) {
    && Came(PartOf(step.state, id), es, id)
    && (IsVerdict(step.outcome) ==> ComesFrom(es, id, now, step) && PartOf(step.state, id) == Part(None, None))
  }

  lemma FinishCame(s: State, limits: Limits, id: u32, es: seq<Event>, e: Event)
    requires id in s.frames ==>
      && Sound(s.frames[id], id, limits) && FrameCame(s.frames[id], es + [e], id) && Live(s.frames[id].started, e.now)
    requires id !in s.orphans
    ensures StepCame(Finish(s, id), es + [e], id, e.now)
  {
    hide Finish, FrameCame, Sound, Live, ComesFrom;
    FinishedPart(s, id);
    FinishedCame(s, limits, id, es + [e], e.now);
  }

  lemma OwnChunkCame(s: State, limits: Limits, es: seq<Event>, c: Chunk, now: nat)
    requires Valid(s, limits) && Came(PartOf(s, c.frameId), es, c.frameId)
    ensures StepCame(AfterChunk(s, limits, c, now), es + [ChunkIn(c, now)], c.frameId, now)
  {
    hide Expire, AddChunk, AddOrphan, FrameCame, OrphanCame, ComesFrom, Valid, Came;
    var id, e, live := c.frameId, ChunkIn(c, now), Expire(s, now);
    ExpiredPart(s, now, id);
    ExpireKeepsValid(s, limits, now);
    WithinCame(PartOf(live, id), PartOf(s, id), es, id);
    if id in live.frames {
      FrameChunkCame(live, limits, es, c, now);
    } else {
      OneMoreOrphan(live, limits, es, c, now);
    }
  }

  lemma WithinCame(p: Part, q: Part, es: seq<Event>, id: u32)
    requires Came(q, es, id) && Within(p, q)
    ensures Came(p, es, id)
  {
    hide FrameCame, OrphanCame;
  }

  /** A chunk of a known frame is refused, or repeats a chunk, or makes the frame grow. */
  lemma AddChunkCases(s: State, c: Chunk)
    requires c.frameId in s.frames
    ensures
      var a := s.frames[c.frameId];
      if c.index >= a.header.totalChunks
         || (c.index !in a.chunks && a.payloadBytes + |c.data| > a.header.totalSize) then
        AddChunk(s, c).state == s && !IsVerdict(AddChunk(s, c).outcome)
      else if c.index in a.chunks then AddChunk(s, c) == Finish(s, c.frameId)
      else AddChunk(s, c) == Finish(s.(frames := s.frames[c.frameId := Grown(a, c)]), c.frameId)
  {
    hide Finish;
  }

  function Grown(a: Assembly, c: Chunk): Assembly {
    a.(chunks := a.chunks[c.index := c.data], payloadBytes := a.payloadBytes + |c.data|)
  }

  lemma FrameChunkCame(s: State, limits: Limits, es: seq<Event>, c: Chunk, now: nat)
    requires Valid(s, limits) && c.frameId in s.frames && Came(PartOf(s, c.frameId), es, c.frameId)
    requires Live(s.frames[c.frameId].started, now)
    ensures StepCame(AddChunk(s, c), es + [ChunkIn(c, now)], c.frameId, now)
  {
    hide FrameCame, OrphanCame, StepCame, Finish, Sound, Live, Valid, AddChunk;
    var id, e, a := c.frameId, ChunkIn(c, now), s.frames[c.frameId];
    ValidIsSound(s, limits, id);
    ValidIsDisjoint(s, limits, id);
    AddChunkCases(s, c);
    StillCame(PartOf(s, id), PartOf(s, id), es, e, id);
    if c.index >= a.header.totalChunks || (c.index !in a.chunks && a.payloadBytes + |c.data| > a.header.totalSize) {
      NoVerdict(AddChunk(s, c), es + [e], id, now);
    } else if c.index in a.chunks {
      FinishCame(s, limits, id, es, e);
    } else {
      GrownFrameCame(s, limits, es, c, now);
    }
  }

  lemma GrownFrameCame(s: State, limits: Limits, es: seq<Event>, c: Chunk, now: nat)
    requires c.frameId in s.frames && c.frameId !in s.orphans
    requires
      var a := s.frames[c.frameId];
      && Sound(a, c.frameId, limits) && FrameCame(a, es, c.frameId) && Live(a.started, now)
      && c.index < a.header.totalChunks && c.index !in a.chunks && a.payloadBytes + |c.data| <= a.header.totalSize
    ensures
      StepCame(Finish(s.(frames := s.frames[c.frameId := Grown(s.frames[c.frameId], c)]), c.frameId),
               es + [ChunkIn(c, now)], c.frameId, now)
  {
    hide FrameCame, StepCame, Finish, Sound, Live;
    var id, a := c.frameId, s.frames[c.frameId];
    OneMoreIsSound(a, id, limits, c.index, c.data);
    OneMoreFrameChunk(a, es, c, now, a.payloadBytes + |c.data|);
    FinishCame(s.(frames := s.frames[id := Grown(a, c)]), limits, id, es, ChunkIn(c, now));
  }

  lemma ValidIsDisjoint(s: State, limits: Limits, id: u32)
    requires Valid(s, limits) && id in s.frames
    ensures id !in s.orphans
  {
  }

  lemma NoVerdict(step: Step, es: seq<Event>, id: u32, now: nat)
    requires Came(PartOf(step.state, id), es, id) && !IsVerdict(step.outcome)
    ensures StepCame(step, es, id, now)
  {
  }

  lemma OwnHeaderCame(s: State, limits: Limits, es: seq<Event>, h: Header, timestampMs: nat, now: nat)
    requires Valid(s, limits) && Came(PartOf(s, h.frameId), es, h.frameId)
    ensures StepCame(AfterHeader(s, limits, h, timestampMs, now), es + [HeaderIn(h, timestampMs, now)], h.frameId, now)
  {
    hide Expire, Prune, AfterHeader, Concluded, Conflicts, FrameCame, OrphanCame, ComesFrom, Valid, Came, StepCame,
      ValidHeader;
    var id, e, live := h.frameId, HeaderIn(h, timestampMs, now), Expire(s, now);
    if ValidHeader(h, limits) {
      var pruned := Prune(live, h);
      ExpiredPart(s, now, id);
      ExpireLeavesLive(s, now);
      ExpireKeepsValid(s, limits, now);
      PrunedPart(live, h, id);
      PruneSubset(live, h);
      PruneKeepsValid(live, limits, h);
      HeaderConcludes(s, limits, h, timestampMs, now);
      WithinCame(PartOf(live, id), PartOf(s, id), es, id);
      WithinCame(PartOf(pruned, id), PartOf(live, id), es, id);
      if Conflicts(pruned, h) {
        StillCame(PartOf(WithoutOrphan(pruned, id), id), PartOf(pruned, id), es, e, id);
        NoVerdict(Step(WithoutOrphan(pruned, id), Ok(None)), es + [e], id, now);
      } else {
        LiveSubset(pruned.frames, live.frames, now);
        ConcludedCame(pruned, limits, es, h, timestampMs, now);
      }
    } else {
      InvalidHeaderKeepsTables(s, limits, h, timestampMs, now);
      StillCame(PartOf(s, id), PartOf(s, id), es, e, id);
      NoVerdict(AfterHeader(s, limits, h, timestampMs, now), es + [e], id, now);
    }
  }

  lemma ConcludedCame(s: State, limits: Limits, es: seq<Event>, h: Header, timestampMs: nat, now: nat)
    requires Valid(s, limits) && Came(PartOf(s, h.frameId), es, h.frameId) && !Conflicts(s, h) && ValidHeader(h, limits)
    requires FramesAreLive(s.frames, now) && OrphansAreLive(s.orphans, now)
    ensures StepCame(Concluded(s, h, timestampMs, now), es + [HeaderIn(h, timestampMs, now)], h.frameId, now)
  {
    hide Entered, Finish, Trim, Conflicts, FrameCame, OrphanCame, WithHeader, Sound, Live, Valid, ValidHeader,
      ComesFrom;
    var id, e, entered := h.frameId, HeaderIn(h, timestampMs, now), Entered(s, h, timestampMs, now);
    EnteredFrames(s, h, timestampMs, now);
    WithHeaderCame(s, es, h, timestampMs, now);
    ValidFrames(s, limits);
    WithHeaderSound(s, limits, h, timestampMs, now);
    WithHeaderStart(s, h, timestampMs, now);
    FinishCame(entered, limits, id, es, e);
    TrimmedPart(Finish(entered, id).state, id);
    SameAnswer(es + [e], id, now, Finish(entered, id), Concluded(s, h, timestampMs, now));
  }

  lemma SameAnswer(es: seq<Event>, id: u32, now: nat, a: Step, b: Step)
    requires b.outcome == a.outcome && b.state.completedStartedAt == a.state.completedStartedAt
    ensures ComesFrom(es, id, now, a) ==> ComesFrom(es, id, now, b)
  {
    hide Gathered, Flatten, Since;
  }

  lemma ValidFrames(s: State, limits: Limits)
    requires Valid(s, limits)
    ensures SoundFrames(s.frames, limits)
  {
  }

  lemma TrimmedPart(s: State, id: u32)
    ensures Within(PartOf(Trim(s), id), PartOf(s, id)) && Trim(s).completedStartedAt == s.completedStartedAt
  {
    TrimSubset(s);
  }

  lemma EventCame(s: State, limits: Limits, es: seq<Event>, e: Event, id: u32)
    requires Valid(s, limits) && Came(PartOf(s, id), es, id)
    ensures Came(PartOf(Apply(s, limits, e).state, id), es + [e], id)
    ensures Concerns(e, id) ==> StepCame(Apply(s, limits, e), es + [e], id, e.now)
  {
    hide Valid, Came, AfterHeader, AfterChunk, ComesFrom;
    if !Concerns(e, id) {
      ForeignPart(s, limits, e, id);
      StillCame(PartOf(Apply(s, limits, e).state, id), PartOf(s, id), es, e, id);
    } else if e.HeaderIn? {
      OwnHeaderCame(s, limits, es, e.header, e.timestampMs, e.now);
    } else {
      OwnChunkCame(s, limits, es, e.chunk, e.now);
    }
  }

  // ----- whole runs

  lemma {:induction false} RunCame(s: State, limits: Limits, es: seq<Event>, id: u32)
    requires Valid(s, limits) && PartOf(s, id) == Part(None, None)
    ensures Valid(Run(s, limits, es), limits) && Came(PartOf(Run(s, limits, es), id), es, id)
  {
    hide Valid, Apply, FrameCame, OrphanCame;
    if es != [] {
      var front, e := es[..|es| - 1], es[|es| - 1];
      RunCame(s, limits, front, id);
      ApplyKeepsValid(Run(s, limits, front), limits, e);
      EventCame(Run(s, limits, front), limits, front, e, id);
      assert front + [e] == es;
    }
  }

  /** The last event of a run, with its answer. */
  ghost function LastStep(s: State, limits: Limits, es: seq<Event>): Step
    requires es != []
  {
    Apply(Run(s, limits, es[..|es| - 1]), limits, es[|es| - 1])
  }

  /**
   From any valid state that holds nothing of a frame, and whatever happens: a frame handed out has a
   header that has come since, and its data is, index by index, that of chunks that have come since.
   It is refused for its size only if such pieces are fewer bytes than declared.
   */
  lemma FramesComeFromTheirPieces(s: State, limits: Limits, es: seq<Event>, id: u32)
    requires Valid(s, limits) && PartOf(s, id) == Part(None, None) && es != [] && Concerns(es[|es| - 1], id)
    ensures IsVerdict(LastStep(s, limits, es).outcome) ==>
      && ComesFrom(es, id, es[|es| - 1].now, LastStep(s, limits, es))
      && PartOf(Run(s, limits, es), id) == Part(None, None)
  {
    hide Valid, Apply, ComesFrom, Came;
    var front, e := es[..|es| - 1], es[|es| - 1];
    RunCame(s, limits, front, id);
    EventCame(Run(s, limits, front), limits, front, e, id);
    assert front + [e] == es;
  }

  /** In every run from the start. */
  lemma FramesComeFromReceivedPieces(limits: Limits, es: seq<Event>, id: u32)
    requires es != [] && Concerns(es[|es| - 1], id)
    ensures IsVerdict(LastStep(INITIAL, limits, es).outcome) ==>
      ComesFrom(es, id, es[|es| - 1].now, LastStep(INITIAL, limits, es))
  {
    hide ComesFrom, Apply, Run;
    InitialIsValid(limits);
    FramesComeFromTheirPieces(INITIAL, limits, es, id);
  }

  lemma InitialIsValid(limits: Limits)
    ensures Valid(INITIAL, limits)
  {
  }

  lemma {:induction false} RunAppend(s: State, limits: Limits, a: seq<Event>, b: seq<Event>)
    ensures Run(s, limits, a + b) == Run(Run(s, limits, a), limits, b)
  {
    hide Apply;
    if b == [] {
      assert a + b == a;
    } else {
      RunAppend(s, limits, a, b[..|b| - 1]);
      assert (a + b)[..|a + b| - 1] == a + b[..|b| - 1];
    }
  }

  /**
   No piece counts twice: in every run, what is handed out or refused at event `j` came after the event
   `i` at which a frame of the same id had been handed out or refused before.
   */
  lemma PiecesCountOnce(limits: Limits, es: seq<Event>, i: nat, j: nat, id: u32)
    requires i < j < |es| && Concerns(es[i], id) && Concerns(es[j], id)
    requires IsVerdict(LastStep(INITIAL, limits, es[..i + 1]).outcome)
    ensures IsVerdict(LastStep(INITIAL, limits, es[..j + 1]).outcome) ==>
      ComesFrom(es[i + 1..j + 1], id, es[j].now, LastStep(INITIAL, limits, es[..j + 1]))
  {
    hide ComesFrom, Apply, Run, Valid;
    InitialIsValid(limits);
    FramesComeFromTheirPieces(INITIAL, limits, es[..i + 1], id);
    ReachableStatesAreValid(limits, es[..i + 1]);
    var s := Run(INITIAL, limits, es[..i + 1]);
    FramesComeFromTheirPieces(s, limits, es[i + 1..j + 1], id);
    RunAppend(INITIAL, limits, es[..i + 1], es[i + 1..j]);
    assert es[..i + 1] + es[i + 1..j] == es[..j] == es[..j + 1][..j];
    assert es[i + 1..j + 1][..j - i - 1] == es[i + 1..j];
  }
}
