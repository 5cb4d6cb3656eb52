/**
 What the frame assembler guarantees: the bounds it keeps in every reachable state, and exact
 reassembly of a frame whatever the order and repetition of its pieces.
 */
module FrameReassembly {
  import opened Prelude
  import opened SerialNumbers
  import opened FrameAssembler

  datatype Event = HeaderIn(header: Header, timestampMs: nat, now: nat) | ChunkIn(chunk: Chunk, now: nat)

  predicate Concerns(e: Event, id: u32) {
    if e.HeaderIn? then e.header.frameId == id else e.chunk.frameId == id
  }

  ghost function Apply(s: State, limits: Limits, e: Event): Step {
    match e
    case HeaderIn(h, timestampMs, now) => AfterHeader(s, limits, h, timestampMs, now)
    case ChunkIn(c, now) => AfterChunk(s, limits, c, now)
  }

  ghost function Run(s: State, limits: Limits, es: seq<Event>): State {
    if es == [] then s else Apply(Run(s, limits, es[..|es| - 1]), limits, es[|es| - 1]).state
  }

  // ----- the invariant of all reachable states

  /** The sum of the lengths of the chunks with index below `n`. */
  function Sum(chunks: map<nat, Bytes>, n: nat): nat {
    if n == 0 then 0 else Sum(chunks, n - 1) + if n - 1 in chunks then |chunks[n - 1]| else 0
  }

  ghost predicate Below(indices: set<nat>, n: nat) { forall i :: i in indices ==> i < n }

  /** An assembly within the bounds its header declares. */
  ghost predicate Sound(a: Assembly, id: u32, limits: Limits) {
    && a.header.frameId == id && ValidHeader(a.header, limits)
    && Below(a.chunks.Keys, a.header.totalChunks)
    && a.payloadBytes == Sum(a.chunks, a.header.totalChunks) <= a.header.totalSize
  }

  ghost predicate SoundFrames(frames: map<u32, Assembly>, limits: Limits) {
    forall id :: id in frames ==> Sound(frames[id], id, limits)
  }

  ghost predicate NoneComplete(frames: map<u32, Assembly>) {
    forall id :: id in frames ==> !Complete(frames[id])
  }

  ghost predicate SoundOrphans(orphans: map<u32, Orphan>, limits: Limits) {
    forall id :: id in orphans ==> Below(orphans[id].chunks.Keys, limits.maxChunks)
  }

  ghost predicate Valid(s: State, limits: Limits) {
    && SoundFrames(s.frames, limits) && NoneComplete(s.frames) && SoundOrphans(s.orphans, limits)
    && s.frames.Keys !! s.orphans.Keys
    && |s.frames| <= MAX_INCOMPLETE_FRAMES && |s.orphans| <= MAX_ORPHAN_FRAMES
  }

  lemma SubsetIsSmaller<T>(a: set<T>, b: set<T>)
    requires a <= b
    ensures |a| <= |b|
  {
    assert b == a + (b - a);
  }

  lemma MapIsSmaller<K, V>(a: map<K, V>, b: map<K, V>)
    requires a.Keys <= b.Keys
    ensures |a| <= |b|
  {
    SubsetIsSmaller(a.Keys, b.Keys);
    assert |a| == |a.Keys| && |b| == |b.Keys|;
  }

  /** Counting implies that there are no gaps: `n` distinct indices below `n` are all of them. */
  lemma {:induction false} CountMeansAll(indices: set<nat>, n: nat)
    requires Below(indices, n)
    ensures |indices| <= n
    ensures |indices| == n ==> forall i: nat :: i < n ==> i in indices
    decreases n
  {
    if n == 0 {
      assert indices == {};
    } else {
      CountMeansAll(indices - {n - 1}, n - 1);
      if n - 1 in indices {
        assert indices == (indices - {n - 1}) + {n - 1};
      } else {
        assert indices == indices - {n - 1};
      }
    }
  }

  lemma {:induction false} SumInsert(chunks: map<nat, Bytes>, n: nat, i: nat, data: Bytes)
    requires i !in chunks
    ensures Sum(chunks[i := data], n) == Sum(chunks, n) + if i < n then |data| else 0
  {
    if n > 0 {
      SumInsert(chunks, n - 1, i, data);
    }
  }

  ghost predicate Fits(c: Collected, h: Header) {
    Below(c.chunks.Keys, h.totalChunks) && c.bytes == Sum(c.chunks, h.totalChunks) <= h.totalSize
  }

  lemma {:induction false} AdmitFits(c: Collected, incoming: map<nat, Bytes>, h: Header, n: nat)
    requires Fits(c, h) && n <= h.totalChunks
    ensures Fits(Admit(c, incoming, h, n), h)
  {
    if n > 0 {
      AdmitFits(c, incoming, h, n - 1);
      AdmitOneFits(Admit(c, incoming, h, n - 1), incoming, h, n - 1);
    }
  }

  lemma AdmitOneFits(c: Collected, incoming: map<nat, Bytes>, h: Header, i: nat)
    requires Fits(c, h) && i < h.totalChunks
    ensures Fits(AdmitOne(c, incoming, h, i), h)
  {
    if i in incoming && i !in c.chunks {
      SumInsert(c.chunks, h.totalChunks, i, incoming[i]);
    }
  }

  lemma {:induction false} SumOfNothing(n: nat)
    ensures Sum(map[], n) == 0
  {
    if n > 0 {
      SumOfNothing(n - 1);
    }
  }

  lemma WithHeaderSound(s: State, limits: Limits, h: Header, timestampMs: nat, now: nat)
    requires SoundFrames(s.frames, limits) && ValidHeader(h, limits) && !Conflicts(s, h)
    ensures Sound(WithHeader(s, h, timestampMs, now), h.frameId, limits)
  {
    hide Admit, Sum;
    var orphan := OrphanOf(s, h.frameId, now);
    if h.frameId in s.frames {
      var a := s.frames[h.frameId];
      AdmitFits(Collected(a.chunks, a.payloadBytes), orphan.chunks, h, h.totalChunks);
    } else {
      SumOfNothing(h.totalChunks);
      AdmitFits(Collected(map[], 0), orphan.chunks, h, h.totalChunks);
    }
  }

  lemma {:induction false} JoinAll(chunks: map<nat, Bytes>, n: nat)
    requires forall i: nat :: i < n ==> i in chunks
    ensures Join(chunks, n).Some? && |Join(chunks, n).value| == Sum(chunks, n)
  {
    if n > 0 {
      JoinAll(chunks, n - 1);
    }
  }

  /**
   A complete assembly has every chunk, and is handed out exactly if its chunks add up to the
   declared size; the only alternative is a size mismatch, and then they add up to less.
   */
  lemma FinishOutcome(s: State, limits: Limits, id: u32)
    requires id in s.frames && Sound(s.frames[id], id, limits) && Complete(s.frames[id])
    ensures
      var a := s.frames[id];
      && (forall i: nat :: i < a.header.totalChunks ==> i in a.chunks)
      && Join(a.chunks, a.header.totalChunks).Some?
      && Finish(s, id).state.frames == s.frames - {id} && Finish(s, id).state.orphans == s.orphans
      && Finish(s, id).outcome == (
           if Sum(a.chunks, a.header.totalChunks) == a.header.totalSize then
             Ok(Some(Assembled(a.header, Join(a.chunks, a.header.totalChunks).value, a.timestampMs)))
           else
             Err(SizeMismatch))
      && (Finish(s, id).outcome == Err(SizeMismatch) <==> Sum(a.chunks, a.header.totalChunks) < a.header.totalSize)
  {
    hide Sum, Join;
    var a := s.frames[id];
    CountMeansAll(a.chunks.Keys, a.header.totalChunks);
    assert |a.chunks.Keys| == |a.chunks|;
    JoinAll(a.chunks, a.header.totalChunks);
  }

  /** All but the frame `id` are incomplete; finishing it leaves none complete. */
  ghost predicate NoneCompleteBut(frames: map<u32, Assembly>, id: u32) {
    forall other :: other in frames && other != id ==> !Complete(frames[other])
  }

  lemma FinishKeepsSound(s: State, limits: Limits, id: u32)
    requires SoundFrames(s.frames, limits) && NoneCompleteBut(s.frames, id)
    ensures
      var t := Finish(s, id).state;
      && SoundFrames(t.frames, limits) && NoneComplete(t.frames)
      && t.frames.Keys <= s.frames.Keys && t.orphans == s.orphans
      && (Finish(s, id).outcome.Err? ==> t.frames.Keys == s.frames.Keys - {id} && id in s.frames)
  {
    hide Sum, Join, Sound;
  }

  lemma ExpireKeepsValid(s: State, limits: Limits, now: nat)
    requires Valid(s, limits)
    ensures Valid(Expire(s, now), limits)
  {
    hide Sound, Complete, Live, Below;
    var t := Expire(s, now);
    assert t.frames.Keys <= s.frames.Keys && t.orphans.Keys <= s.orphans.Keys;
    MapIsSmaller(t.frames, s.frames);
    MapIsSmaller(t.orphans, s.orphans);
  }

  lemma PruneKeepsValid(s: State, limits: Limits, h: Header)
    requires Valid(s, limits)
    ensures Valid(Prune(s, h), limits)
  {
    hide Sound, Complete, SerialNotBefore, Below;
    var t := Prune(s, h);
    assert t.frames.Keys <= s.frames.Keys;
    MapIsSmaller(t.frames, s.frames);
  }

  lemma WithoutOrphanKeepsValid(s: State, limits: Limits, id: u32)
    requires Valid(s, limits)
    ensures Valid(WithoutOrphan(s, id), limits)
  {
    hide Sound, Complete, Below;
    MapIsSmaller(WithoutOrphan(s, id).orphans, s.orphans);
  }

  lemma HeaderKeepsValid(s: State, limits: Limits, h: Header, timestampMs: nat, now: nat)
    requires Valid(s, limits)
    ensures Valid(AfterHeader(s, limits, h, timestampMs, now).state, limits)
  {
    hide Sound, Complete, Below, Expire, Prune, Finish, WithHeader, ValidHeader;
    if ValidHeader(h, limits) {
      ExpireKeepsValid(s, limits, now);
      PruneKeepsValid(Expire(s, now), limits, h);
      var pruned := Prune(Expire(s, now), h);
      var clean := WithoutOrphan(pruned, h.frameId);
      WithoutOrphanKeepsValid(pruned, limits, h.frameId);
      if !Conflicts(pruned, h) {
        var a := WithHeader(pruned, h, timestampMs, now);
        WithHeaderSound(pruned, limits, h, timestampMs, now);
        assert a.header.frameId == h.frameId by { SoundId(a, h.frameId, limits); }
        PutAndFinishKeepsValid(clean, limits, a, h.frameId);
      }
    }
  }

  lemma SoundId(a: Assembly, id: u32, limits: Limits)
    requires Sound(a, id, limits)
    ensures a.header.frameId == id
  {
  }

  lemma PutAndFinishKeepsValid(s: State, limits: Limits, a: Assembly, id: u32)
    requires Valid(s, limits) && id !in s.orphans
    requires Sound(a, id, limits) && a.header.frameId == id
    ensures
      var done := Finish(PutFrame(s, a), id);
      Valid(if done.outcome.Err? then done.state else Trim(done.state), limits)
  {
    hide Sound, Complete, Below, Finish;
    var put := PutFrame(s, a);
    FinishKeepsSound(put, limits, id);
    var done := Finish(put, id);
    InsertCount(s.frames, id, a);
    MapIsSmaller(done.state.frames, put.frames);
    if done.outcome.Err? {
      MapIsSmaller(done.state.frames, s.frames);
    } else {
      TrimKeepsValid(done.state, limits);
    }
  }

  lemma TrimKeepsValid(s: State, limits: Limits)
    requires SoundFrames(s.frames, limits) && NoneComplete(s.frames) && SoundOrphans(s.orphans, limits)
    requires s.frames.Keys !! s.orphans.Keys
    requires |s.frames| <= MAX_INCOMPLETE_FRAMES + 1 && |s.orphans| <= MAX_ORPHAN_FRAMES
    ensures Valid(Trim(s), limits)
  {
    hide Sound, Complete, Below, Trim, IsOldest;
    TrimSubset(s);
    if |s.frames| > MAX_INCOMPLETE_FRAMES {
      var oldest :| IsOldest(s.frames, oldest) && Trim(s).frames == s.frames - {oldest};
      assert oldest in s.frames by { OldestIsThere(s.frames, oldest); }
      RemoveCount(s.frames, oldest);
    }
  }

  lemma OldestIsThere(frames: map<u32, Assembly>, id: u32)
    requires IsOldest(frames, id)
    ensures id in frames
  {
  }

  lemma ChunkKeepsValid(s: State, limits: Limits, c: Chunk, now: nat)
    requires Valid(s, limits)
    ensures Valid(AfterChunk(s, limits, c, now).state, limits)
  {
    hide Expire, AddChunk, AddOrphan, Valid;
    ExpireKeepsValid(s, limits, now);
    var live := Expire(s, now);
    if c.frameId in live.frames {
      AddChunkKeepsValid(live, limits, c);
    } else {
      AddOrphanKeepsValid(live, limits, c, now);
    }
  }

  /** Valid, but for the frame `id` possibly being complete. */
  ghost predicate ValidBut(s: State, limits: Limits, id: u32) {
    && SoundFrames(s.frames, limits) && NoneCompleteBut(s.frames, id) && SoundOrphans(s.orphans, limits)
    && s.frames.Keys !! s.orphans.Keys
    && |s.frames| <= MAX_INCOMPLETE_FRAMES && |s.orphans| <= MAX_ORPHAN_FRAMES
  }

  lemma ReplaceKeepsValid(s: State, limits: Limits, id: u32, a: Assembly)
    requires Valid(s, limits) && id in s.frames && Sound(a, id, limits)
    ensures ValidBut(s.(frames := s.frames[id := a]), limits, id)
  {
    hide Complete, Sound, Below;
    InsertCount(s.frames, id, a);
    assert s.frames[id := a].Keys == s.frames.Keys;
  }

  lemma AddChunkKeepsValid(s: State, limits: Limits, c: Chunk)
    requires Valid(s, limits) && c.frameId in s.frames
    ensures Valid(AddChunk(s, c).state, limits)
  {
    hide Complete, Finish, Sound, Below, ValidBut, Valid;
    var id, a := c.frameId, s.frames[c.frameId];
    ValidIsSound(s, limits, id);
    var a' := a.(chunks := a.chunks[c.index := c.data], payloadBytes := a.payloadBytes + |c.data|);
    if c.index < a.header.totalChunks {
      if c.index in a.chunks {
        FinishesValid(s, limits, id);
      } else if a.payloadBytes + |c.data| <= a.header.totalSize {
        OneMoreIsSound(a, id, limits, c.index, c.data);
        ReplaceKeepsValid(s, limits, id, a');
        FinishesValid(s.(frames := s.frames[id := a']), limits, id);
      }
    }
  }

  lemma ValidIsSound(s: State, limits: Limits, id: u32)
    requires Valid(s, limits) && id in s.frames
    ensures Sound(s.frames[id], id, limits) && ValidBut(s, limits, id)
  {
    hide Sound, Complete, Below;
  }

  lemma OneMoreIsSound(a: Assembly, id: u32, limits: Limits, i: nat, data: Bytes)
    requires Sound(a, id, limits) && i < a.header.totalChunks && i !in a.chunks
    requires a.payloadBytes + |data| <= a.header.totalSize
    ensures Sound(a.(chunks := a.chunks[i := data], payloadBytes := a.payloadBytes + |data|), id, limits)
  {
    hide Sum;
    SumInsert(a.chunks, a.header.totalChunks, i, data);
  }

  lemma FinishesValid(s: State, limits: Limits, id: u32)
    requires ValidBut(s, limits, id)
    ensures Valid(Finish(s, id).state, limits)
  {
    hide Sound, Complete, Below, Finish;
    FinishKeepsSound(s, limits, id);
    MapIsSmaller(Finish(s, id).state.frames, s.frames);
  }

  lemma AddOrphanKeepsValid(s: State, limits: Limits, c: Chunk, now: nat)
    requires Valid(s, limits) && c.frameId !in s.frames
    ensures Valid(AddOrphan(s, limits, c, now), limits)
  {
    hide Sound, Complete, Below, Valid;
    var id, t := c.frameId, AddOrphan(s, limits, c, now);
    if t != s && t != WithoutOrphan(s, id) {
      var orphan := OrphanOf(s, id, now);
      OrphanIsBelow(s, limits, id, now);
      BelowInsert(orphan.chunks, c.index, c.data, limits.maxChunks);
      PutOrphanKeepsValid(s, limits, id, orphan.(chunks := orphan.chunks[c.index := c.data]));
    } else if t != s {
      WithoutOrphanKeepsValid(s, limits, id);
    }
  }

  lemma PutOrphanKeepsValid(s: State, limits: Limits, id: u32, orphan: Orphan)
    requires Valid(s, limits) && id !in s.frames && Below(orphan.chunks.Keys, limits.maxChunks)
    requires id in s.orphans || |s.orphans| < MAX_ORPHAN_FRAMES
    ensures Valid(s.(orphans := s.orphans[id := orphan]), limits)
  {
    hide Sound, Complete, Below;
    InsertCount(s.orphans, id, orphan);
  }

  lemma InsertCount<K, V>(m: map<K, V>, k: K, v: V)
    ensures |m[k := v]| == if k in m then |m| else |m| + 1
  {
    assert |m.Keys| == |m| && |m[k := v].Keys| == |m[k := v]|;
    if k in m {
      assert m[k := v].Keys == m.Keys;
    } else {
      assert m[k := v].Keys == m.Keys + {k};
    }
  }

  lemma OrphanIsBelow(s: State, limits: Limits, id: u32, now: nat)
    requires Valid(s, limits)
    ensures Below(OrphanOf(s, id, now).chunks.Keys, limits.maxChunks)
  {
  }

  lemma BelowInsert(chunks: map<nat, Bytes>, i: nat, data: Bytes, n: nat)
    requires Below(chunks.Keys, n) && i < n
    ensures Below(chunks[i := data].Keys, n)
  {
  }

  /**
   In every reachable state: at most 16 frames and 16 orphans with disjoint ids, every stored chunk
   inside its frame, byte counts exact and within the declared size, and no complete frame retained.
   */
  lemma {:induction false} ReachableStatesAreValid(limits: Limits, es: seq<Event>)
    ensures Valid(Run(INITIAL, limits, es), limits)
  {
    if es != [] {
      ReachableStatesAreValid(limits, es[..|es| - 1]);
      ApplyKeepsValid(Run(INITIAL, limits, es[..|es| - 1]), limits, es[|es| - 1]);
    }
  }

  lemma ApplyKeepsValid(s: State, limits: Limits, e: Event)
    requires Valid(s, limits)
    ensures Valid(Apply(s, limits, e).state, limits)
  {
    hide Valid, AfterHeader, AfterChunk;
    match e
    case HeaderIn(h, timestampMs, now) => HeaderKeepsValid(s, limits, h, timestampMs, now);
    case ChunkIn(c, now) => ChunkKeepsValid(s, limits, c, now);
  }

  // ----- what is refused

  /** Headers are refused exactly if they are outside the limits, chunks if they are outside a frame that is there. */
  lemma RefusalsExactly(s: State, limits: Limits, e: Event)
    ensures
      Apply(s, limits, e).outcome == Err(InvalidHeader) <==>
      e.HeaderIn? && !(1 <= e.header.totalChunks <= limits.maxChunks && 1 <= e.header.totalSize <= limits.maxBytes)
    ensures
      Apply(s, limits, e).outcome == Err(InvalidChunkIndex) <==>
      && e.ChunkIn? && e.chunk.frameId in s.frames && e.now < s.frames[e.chunk.frameId].started + ASSEMBLY_TIMEOUT
      && e.chunk.index >= s.frames[e.chunk.frameId].header.totalChunks
  {
    hide Expire, Prune, Finish, Trim, WithHeader, PutFrame, WithoutOrphan, Conflicts, AddOrphan;
    if e.ChunkIn? {
      ExpireLeavesLive(s, e.now);
      FinishNeverRefuses(Expire(s, e.now), e.chunk);
    } else {
      HeaderNeverRefuses(s, limits, e.header, e.timestampMs, e.now);
    }
  }

  lemma FinishIsVerdict(s: State, id: u32)
    ensures Finish(s, id).outcome.Ok? || Finish(s, id).outcome == Err(SizeMismatch)
  {
    hide Join, Complete;
  }

  lemma FinishNeverRefuses(s: State, c: Chunk)
    ensures
      c.frameId in s.frames ==>
        AddChunk(s, c).outcome != Err(InvalidHeader) &&
        (AddChunk(s, c).outcome == Err(InvalidChunkIndex) <==> c.index >= s.frames[c.frameId].header.totalChunks)
  {
    hide Finish;
    if c.frameId in s.frames {
      var a := s.frames[c.frameId];
      FinishIsVerdict(s, c.frameId);
      FinishIsVerdict(s.(frames := s.frames[c.frameId :=
                        a.(chunks := a.chunks[c.index := c.data], payloadBytes := a.payloadBytes + |c.data|)]),
                      c.frameId);
    }
  }

  lemma HeaderNeverRefuses(s: State, limits: Limits, h: Header, timestampMs: nat, now: nat)
    ensures AfterHeader(s, limits, h, timestampMs, now).outcome != Err(InvalidChunkIndex)
    ensures
      AfterHeader(s, limits, h, timestampMs, now).outcome == Err(InvalidHeader) <==>
      !(1 <= h.totalChunks <= limits.maxChunks && 1 <= h.totalSize <= limits.maxBytes)
  {
    hide Expire, Prune, Finish, Trim, WithHeader, PutFrame, WithoutOrphan, Conflicts;
    if ValidHeader(h, limits) {
      HeaderConcludes(s, limits, h, timestampMs, now);
      FinishIsVerdict(Entered(Prune(Expire(s, now), h), h, timestampMs, now), h.frameId);
    }
  }

  // ----- what is counted

  predicate HandsOutFrame(outcome: Outcome) { outcome.Ok? && outcome.value.Some? }

  /** How many events of the run were answered with a frame. */
  ghost function Completions(limits: Limits, es: seq<Event>): nat {
    if es == [] then 0
    else
      var front := es[..|es| - 1];
      Completions(limits, front) +
      if HandsOutFrame(Apply(Run(INITIAL, limits, front), limits, es[|es| - 1]).outcome) then 1 else 0
  }

  /**
   In every run the counter is the number of frames handed out, and a start time is there exactly if the
   last event has handed out a frame.
   */
  lemma {:induction false} CompletionsAreCounted(limits: Limits, es: seq<Event>)
    ensures Run(INITIAL, limits, es).completedFrames == Completions(limits, es)
    ensures
      Run(INITIAL, limits, es).completedStartedAt.Some? <==>
      es != [] && HandsOutFrame(Apply(Run(INITIAL, limits, es[..|es| - 1]), limits, es[|es| - 1]).outcome)
  {
    if es != [] {
      hide Apply;
      CompletionsAreCounted(limits, es[..|es| - 1]);
      EventCounts(Run(INITIAL, limits, es[..|es| - 1]), limits, es[|es| - 1]);
    }
  }

  ghost predicate Counted(s: State, step: Step) {
    && step.state.completedFrames == s.completedFrames + (if HandsOutFrame(step.outcome) then 1 else 0)
    && (step.state.completedStartedAt.Some? <==> HandsOutFrame(step.outcome))
  }

  lemma EventCounts(s: State, limits: Limits, e: Event)
    ensures Counted(s, Apply(s, limits, e))
  {
    hide AfterHeader, AfterChunk;
    if e.ChunkIn? {
      AfterChunkCounts(s, limits, e.chunk, e.now);
    } else {
      AfterHeaderCounts(s, limits, e.header, e.timestampMs, e.now);
    }
  }

  lemma AfterChunkCounts(s: State, limits: Limits, c: Chunk, now: nat)
    ensures Counted(s, AfterChunk(s, limits, c, now))
  {
    hide LiveFrames, LiveOrphans, AddChunk, AddOrphan;
    ChunkCounts(Expire(s, now), c);
    OrphanCounts(Expire(s, now), limits, c, now);
  }

  lemma AfterHeaderCounts(s: State, limits: Limits, h: Header, timestampMs: nat, now: nat)
    ensures Counted(s, AfterHeader(s, limits, h, timestampMs, now))
  {
    hide AfterHeader, LiveFrames, LiveOrphans, KeptByKeyframe, ValidHeader, Conflicts, Concluded;
    if ValidHeader(h, limits) {
      HeaderConcludes(s, limits, h, timestampMs, now);
      ConcludedCounts(Prune(Expire(s, now), h), h, timestampMs, now);
    } else {
      InvalidHeaderKeepsTables(s, limits, h, timestampMs, now);
    }
  }

  lemma ConcludedCounts(s: State, h: Header, timestampMs: nat, now: nat)
    requires s.completedStartedAt.None?
    ensures Counted(s, Concluded(s, h, timestampMs, now))
  {
    hide WithHeader, Finish;
    FinishCounts(Entered(s, h, timestampMs, now), h.frameId);
  }

  lemma FinishCounts(s: State, id: u32)
    ensures s.completedStartedAt.None? ==> Counted(s, Finish(s, id))
  {
    hide Join, Complete;
  }

  lemma ChunkCounts(s: State, c: Chunk)
    requires s.completedStartedAt.None?
    ensures
      c.frameId in s.frames ==>
        Counted(s, AddChunk(s, c))
  {
    hide Finish;
    if c.frameId in s.frames {
      var a := s.frames[c.frameId];
      FinishCounts(s, c.frameId);
      FinishCounts(s.(frames := s.frames[c.frameId :=
                     a.(chunks := a.chunks[c.index := c.data], payloadBytes := a.payloadBytes + |c.data|)]), c.frameId);
    }
  }

  lemma OrphanCounts(s: State, limits: Limits, c: Chunk, now: nat)
    ensures
      var t := AddOrphan(s, limits, c, now);
      t.completedFrames == s.completedFrames && t.completedStartedAt == s.completedStartedAt
  {
  }

  // ----- serial order

  /** Frame `a` is behind frame `b`: near each other, its position is the lower one. */
  ghost predicate Behind(a: u32, b: u32) {
    forall p, q :: Near(p, q) && Wrap(p) == a && Wrap(q) == b ==> p < q
  }

  /** The comparison of ids is that of the positions behind them, as long as these are within half a ring. */
  lemma NotBeforeMeansNotLower(p: int, q: int)
    requires Near(p, q)
    ensures SerialNotBefore(Wrap(p), Wrap(q)) <==> p >= q
  {
    hide Wrap, WrappingSub;
    if p >= q {
      WrappingSubIsDistance(p, q);
    } else {
      WrapPeriod(p);
      WrappingSubIsDistance(p + TWO_32, q);
    }
  }

  lemma BehindExactly(a: u32, b: u32)
    ensures Behind(a, b) <==> !SerialNotBefore(a, b)
  {
    hide SerialNotBefore, Wrap, Unwrap;
    forall p, q | Near(p, q) && Wrap(p) == a && Wrap(q) == b ensures p < q <==> !SerialNotBefore(a, b) {
      NotBeforeMeansNotLower(p, q);
    }
    var q := Unwrap(b, 0);
    assert Near(Unwrap(a, q), q) && Wrap(Unwrap(a, q)) == a && Wrap(q) == b;
  }

  // ----- why something is dropped

  lemma FinishSubset(s: State, id: u32)
    ensures
      var t := Finish(s, id).state;
      && t.frames == (if Finish(s, id).outcome == Ok(None) then s.frames else s.frames - {id})
      && t.orphans == s.orphans
  {
    hide Join, Complete;
  }

  lemma TrimSubset(s: State)
    ensures
      var t := Trim(s);
      && t.frames.Keys <= s.frames.Keys && (forall id :: id in t.frames ==> t.frames[id] == s.frames[id])
      && t.orphans == s.orphans
      && (|s.frames| <= MAX_INCOMPLETE_FRAMES ==> t == s)
      && (|s.frames| > MAX_INCOMPLETE_FRAMES ==>
            exists oldest :: IsOldest(s.frames, oldest) && t.frames == s.frames - {oldest})
  {
  }

  ghost predicate FramesAreLive(frames: map<u32, Assembly>, now: nat) {
    forall id :: id in frames ==> Live(frames[id].started, now)
  }

  ghost predicate OrphansAreLive(orphans: map<u32, Orphan>, now: nat) {
    forall id :: id in orphans ==> Live(orphans[id].started, now)
  }

  /** The tables once a header's frame has been entered, before it is looked at for completion. */
  function Entered(s: State, h: Header, timestampMs: nat, now: nat): State {
    PutFrame(WithoutOrphan(s, h.frameId), WithHeader(s, h, timestampMs, now))
  }

  lemma EnteredFrames(s: State, h: Header, timestampMs: nat, now: nat)
    requires !Conflicts(s, h)
    ensures
      var t := Entered(s, h, timestampMs, now);
      && t.frames.Keys == s.frames.Keys + {h.frameId}
      && (forall id :: id in s.frames && id != h.frameId ==> t.frames[id] == s.frames[id])
      && t.frames[h.frameId] == WithHeader(s, h, timestampMs, now)
      && t.orphans == s.orphans - {h.frameId}
      && |t.frames| == (if h.frameId in s.frames then |s.frames| else |s.frames| + 1)
  {
    hide WithHeader, Conflicts, PutFrame, WithoutOrphan;
    var a := WithHeader(s, h, timestampMs, now);
    WithHeaderKeepsId(s, h, timestampMs, now);
    EnteredTables(s, a, h.frameId);
    InsertCount(s.frames, h.frameId, a);
  }

  lemma EnteredTables(s: State, a: Assembly, id: u32)
    requires a.header.frameId == id
    ensures
      var t := PutFrame(WithoutOrphan(s, id), a);
      t.frames == s.frames[id := a] && t.orphans == s.orphans - {id}
  {
  }

  lemma WithHeaderKeepsId(s: State, h: Header, timestampMs: nat, now: nat)
    requires !Conflicts(s, h)
    ensures WithHeader(s, h, timestampMs, now).header == h
  {
  }

  lemma WithHeaderStart(s: State, h: Header, timestampMs: nat, now: nat)
    requires FramesAreLive(s.frames, now) && OrphansAreLive(s.orphans, now)
    ensures Live(WithHeader(s, h, timestampMs, now).started, now)
  {
    hide Admit;
  }

  /** The tables after a header that is neither invalid nor in conflict, from the ones pruned for it. */
  ghost function Concluded(s: State, h: Header, timestampMs: nat, now: nat): Step {
    var done := Finish(Entered(s, h, timestampMs, now), h.frameId);
    if done.outcome.Err? then done else Step(Trim(done.state), done.outcome)
  }

  lemma HeaderConcludes(s: State, limits: Limits, h: Header, timestampMs: nat, now: nat)
    requires ValidHeader(h, limits)
    ensures
      var pruned := Prune(Expire(s, now), h);
      AfterHeader(s, limits, h, timestampMs, now) ==
      if Conflicts(pruned, h) then Step(WithoutOrphan(pruned, h.frameId), Ok(None))
      else Concluded(pruned, h, timestampMs, now)
  {
    hide Expire, Prune, Finish, Trim, WithHeader, PutFrame, WithoutOrphan, Conflicts, ValidHeader;
  }

  /** What can happen to the frames between entering a header's frame and the answer. */
  lemma ConcludedFrames(s: State, h: Header, timestampMs: nat, now: nat)
    ensures
      var entered, t := Entered(s, h, timestampMs, now), Concluded(s, h, timestampMs, now).state;
      && t.orphans == entered.orphans && t.frames.Keys <= entered.frames.Keys
      && forall id :: id in t.frames ==> t.frames[id] == entered.frames[id]
  {
    hide Entered, Finish, Trim;
    var entered := Entered(s, h, timestampMs, now);
    FinishSubset(entered, h.frameId);
    TrimSubset(Finish(entered, h.frameId).state);
  }

  lemma PruneSubset(s: State, h: Header)
    ensures
      var t := Prune(s, h);
      && t.orphans == s.orphans && t.frames.Keys <= s.frames.Keys
      && (forall id :: id in t.frames ==> t.frames[id] == s.frames[id])
      && (forall id :: id in s.frames && (h.isKeyFrame ==> SerialNotBefore(id, h.frameId)) ==> id in t.frames)
      && (h.isKeyFrame ==> forall id :: id in t.frames ==> SerialNotBefore(id, h.frameId) || Complete(t.frames[id]))
  {
    hide SerialNotBefore, Complete;
  }

  lemma ExpireLeavesLive(s: State, now: nat)
    ensures
      var t := Expire(s, now);
      && FramesAreLive(t.frames, now) && OrphansAreLive(t.orphans, now)
      && t.frames.Keys <= s.frames.Keys && t.orphans.Keys <= s.orphans.Keys
      && (forall id :: id in t.frames ==> t.frames[id] == s.frames[id])
      && (forall id :: id in s.frames && Live(s.frames[id].started, now) ==> id in t.frames)
  {
    hide Live;
  }

  /** After any event but an invalid header, nothing is kept that started a second or more before. */
  lemma NothingStaleIsKept(s: State, limits: Limits, e: Event)
    requires e.HeaderIn? ==> ValidHeader(e.header, limits)
    ensures FramesAreLive(Apply(s, limits, e).state.frames, e.now)
    ensures OrphansAreLive(Apply(s, limits, e).state.orphans, e.now)
  {
    hide AfterHeader, AfterChunk, ValidHeader;
    if e.HeaderIn? {
      HeaderKeepsNothingStale(s, limits, e.header, e.timestampMs, e.now);
    } else {
      ChunkKeepsNothingStale(s, limits, e.chunk, e.now);
    }
  }

  lemma LiveSubset(some: map<u32, Assembly>, all: map<u32, Assembly>, now: nat)
    requires FramesAreLive(all, now) && some.Keys <= all.Keys && forall id :: id in some ==> some[id] == all[id]
    ensures FramesAreLive(some, now)
  {
  }

  /** Entering a header's frame keeps the tables live. */
  lemma EnteredIsLive(s: State, h: Header, timestampMs: nat, now: nat)
    requires FramesAreLive(s.frames, now) && OrphansAreLive(s.orphans, now) && !Conflicts(s, h)
    ensures FramesAreLive(Entered(s, h, timestampMs, now).frames, now)
    ensures OrphansAreLive(Entered(s, h, timestampMs, now).orphans, now)
  {
    hide WithHeader, Conflicts, Live, Entered;
    EnteredFrames(s, h, timestampMs, now);
    WithHeaderStart(s, h, timestampMs, now);
  }

  lemma HeaderKeepsNothingStale(s: State, limits: Limits, h: Header, timestampMs: nat, now: nat)
    requires ValidHeader(h, limits)
    ensures
      var t := AfterHeader(s, limits, h, timestampMs, now).state;
      FramesAreLive(t.frames, now) && OrphansAreLive(t.orphans, now)
  {
    hide AfterHeader, Expire, Prune, Entered, Concluded, ValidHeader, Conflicts, WithoutOrphan, FramesAreLive,
      OrphansAreLive;
    var live := Expire(s, now);
    var pruned := Prune(live, h);
    HeaderConcludes(s, limits, h, timestampMs, now);
    ExpireLeavesLive(s, now);
    PruneSubset(live, h);
    LiveSubset(pruned.frames, live.frames, now);
    if Conflicts(pruned, h) {
      WithoutOrphanIsLive(pruned, h.frameId, now);
    } else {
      EnteredIsLive(pruned, h, timestampMs, now);
      ConcludedFrames(pruned, h, timestampMs, now);
      LiveSubset(Concluded(pruned, h, timestampMs, now).state.frames, Entered(pruned, h, timestampMs, now).frames, now);
    }
  }

  lemma WithoutOrphanIsLive(s: State, id: u32, now: nat)
    requires OrphansAreLive(s.orphans, now)
    ensures WithoutOrphan(s, id).frames == s.frames && OrphansAreLive(WithoutOrphan(s, id).orphans, now)
  {
  }

  lemma ChunkKeepsNothingStale(s: State, limits: Limits, c: Chunk, now: nat)
    ensures
      var t := AfterChunk(s, limits, c, now).state;
      FramesAreLive(t.frames, now) && OrphansAreLive(t.orphans, now)
  {
    hide Finish, Expire;
    ExpireLeavesLive(s, now);
    ChunkFrames(Expire(s, now), c);
  }

  /** A chunk adds or removes at most its own frame, and leaves its start alone. */
  lemma ChunkFrames(s: State, c: Chunk)
    ensures
      c.frameId in s.frames ==>
        var t := AddChunk(s, c).state;
        && t.orphans == s.orphans && t.frames.Keys <= s.frames.Keys
        && (forall id :: id in t.frames ==> t.frames[id].started == s.frames[id].started)
        && (forall id :: id in s.frames && id !in t.frames ==> id == c.frameId && AddChunk(s, c).outcome != Ok(None))
  {
    hide Finish;
    if c.frameId in s.frames {
      var a := s.frames[c.frameId];
      FinishSubset(s, c.frameId);
      FinishSubset(s.(frames := s.frames[c.frameId :=
                     a.(chunks := a.chunks[c.index := c.data], payloadBytes := a.payloadBytes + |c.data|)]), c.frameId);
    }
  }

  lemma KeyframeKeepsNotBefore(s: State, limits: Limits, h: Header, timestampMs: nat, now: nat)
    requires Valid(s, limits) && ValidHeader(h, limits) && h.isKeyFrame
    ensures
      forall id :: id in AfterHeader(s, limits, h, timestampMs, now).state.frames ==> SerialNotBefore(id, h.frameId)
  {
    hide AfterHeader, Expire, Prune, Entered, Concluded, ValidHeader, Conflicts, Sound, Below, Complete;
    HeaderConcludes(s, limits, h, timestampMs, now);
    ExpireKeepsValid(s, limits, now);
    PruneKeepsValid(Expire(s, now), limits, h);
    PruneSubset(Expire(s, now), h);
    var pruned := Prune(Expire(s, now), h);
    if !Conflicts(pruned, h) {
      EnteredFrames(pruned, h, timestampMs, now);
      ConcludedFrames(pruned, h, timestampMs, now);
    }
  }

  /** The frame `id` was the oldest of 17 when a header brought one too many. */
  ghost predicate EvictedAsOldest(s: State, t: State, e: Event, id: u32)
    requires id in s.frames
  {
    && e.HeaderIn? && e.header.frameId != id && |t.frames| == MAX_INCOMPLETE_FRAMES
    && forall other :: other in t.frames ==>
         s.frames[id].started < t.frames[other].started ||
         (s.frames[id].started == t.frames[other].started && id < other)
  }

  /**
   A frame leaves the table only for cause: it has timed out, a later keyframe's header has come, its
   own event has completed it, or it was the oldest when there were too many.
   */
  lemma FramesLeaveForCause(s: State, limits: Limits, e: Event, id: u32)
    requires Valid(s, limits) && id in s.frames
    ensures
      || id in Apply(s, limits, e).state.frames
      || !Live(s.frames[id].started, e.now)
      || (e.HeaderIn? && e.header.isKeyFrame && Behind(id, e.header.frameId))
      || (Concerns(e, id) && Apply(s, limits, e).outcome != Ok(None))
      || EvictedAsOldest(s, Apply(s, limits, e).state, e, id)
  {
    hide AfterHeader, Expire, Prune, AddChunk, AddOrphan, Concluded, ValidHeader, Conflicts, SerialNotBefore, Live,
      Valid, Behind;
    if e.HeaderIn? { BehindExactly(id, e.header.frameId); }
    ExpireLeavesLive(s, e.now);
    ExpireKeepsValid(s, limits, e.now);
    var live := Expire(s, e.now);
    if e.ChunkIn? {
      ChunkFrames(live, e.chunk);
      AddOrphanFrames(live, limits, e.chunk, e.now);
    } else if ValidHeader(e.header, limits) {
      HeaderConcludes(s, limits, e.header, e.timestampMs, e.now);
      PruneSubset(live, e.header);
      PruneKeepsValid(live, limits, e.header);
      ValidBound(Prune(live, e.header), limits);
      if id in Prune(live, e.header).frames && !Conflicts(Prune(live, e.header), e.header) {
        HeaderEvicts(Prune(live, e.header), limits, e.header, e.timestampMs, e.now, id);
      }
    } else {
      InvalidHeaderKeepsTables(s, limits, e.header, e.timestampMs, e.now);
    }
  }

  /**
   A keyframe at position `q` prunes a frame at position `p`, within half a ring of it, exactly if `p` is
   lower: then it is gone, and otherwise it is there unless it had timed out or was the oldest of too many.
   */
  lemma KeyframePrunesOlder(s: State, limits: Limits, h: Header, timestampMs: nat, now: nat, p: int, q: int)
    requires Valid(s, limits) && ValidHeader(h, limits) && h.isKeyFrame
    requires Near(p, q) && Wrap(q) == h.frameId != Wrap(p)
    ensures
      var t := AfterHeader(s, limits, h, timestampMs, now).state;
      && (p < q ==> Wrap(p) !in t.frames)
      && (p > q && Wrap(p) in s.frames && Live(s.frames[Wrap(p)].started, now) ==>
            Wrap(p) in t.frames || EvictedAsOldest(s, t, HeaderIn(h, timestampMs, now), Wrap(p)))
  {
    hide AfterHeader, Wrap, SerialNotBefore, ValidHeader, Valid, EvictedAsOldest, Behind, Live;
    NotBeforeMeansNotLower(p, q);
    BehindExactly(Wrap(p), Wrap(q));
    KeyframeKeepsNotBefore(s, limits, h, timestampMs, now);
    if Wrap(p) in s.frames {
      FramesLeaveForCause(s, limits, HeaderIn(h, timestampMs, now), Wrap(p));
    }
  }

  lemma AddOrphanFrames(s: State, limits: Limits, c: Chunk, now: nat)
    ensures AddOrphan(s, limits, c, now).frames == s.frames
  {
  }

  lemma InvalidHeaderKeepsTables(s: State, limits: Limits, h: Header, timestampMs: nat, now: nat)
    requires !ValidHeader(h, limits)
    ensures AfterHeader(s, limits, h, timestampMs, now) == Step(s.(completedStartedAt := None), Err(InvalidHeader))
  {
  }

  lemma ValidBound(s: State, limits: Limits)
    requires Valid(s, limits)
    ensures |s.frames| <= MAX_INCOMPLETE_FRAMES
  {
  }

  lemma HeaderEvicts(s: State, limits: Limits, h: Header, timestampMs: nat, now: nat, id: u32)
    requires |s.frames| <= MAX_INCOMPLETE_FRAMES && !Conflicts(s, h) && id in s.frames
    ensures
      var concluded := Concluded(s, h, timestampMs, now);
      || id in concluded.state.frames
      || (h.frameId == id && concluded.outcome != Ok(None))
      || EvictedAsOldest(s, concluded.state, HeaderIn(h, timestampMs, now), id)
  {
    hide Finish, Trim, Entered, Concluded, Conflicts, NotAfter, EvictedAsOldest, WithHeader;
    var entered, t := Entered(s, h, timestampMs, now), Concluded(s, h, timestampMs, now).state;
    EnteredFrames(s, h, timestampMs, now);
    ConcludedOutcome(s, h, timestampMs, now);
    if t.frames != entered.frames && t.frames != entered.frames - {h.frameId} {
      var oldest :| IsOldest(entered.frames, oldest) && t.frames == entered.frames - {oldest};
      OldestEvicted(s, entered, HeaderIn(h, timestampMs, now), oldest, t);
    }
  }

  /** What becomes of up to 17 frames: all stay, the finished one goes, or the oldest goes. */
  lemma ConcludedOutcome(s: State, h: Header, timestampMs: nat, now: nat)
    requires |Entered(s, h, timestampMs, now).frames| <= MAX_INCOMPLETE_FRAMES + 1
    ensures
      var entered, concluded := Entered(s, h, timestampMs, now), Concluded(s, h, timestampMs, now);
      || concluded.state.frames == entered.frames
      || (concluded.state.frames == entered.frames - {h.frameId} && concluded.outcome != Ok(None))
      || (|entered.frames| > MAX_INCOMPLETE_FRAMES &&
          exists oldest :: IsOldest(entered.frames, oldest) && concluded.state.frames == entered.frames - {oldest})
  {
    hide Finish, Trim, Entered, IsOldest;
    var entered := Entered(s, h, timestampMs, now);
    FinishSubset(entered, h.frameId);
    var done := Finish(entered, h.frameId);
    TrimSubset(done.state);
    if done.outcome != Ok(None) && h.frameId in entered.frames {
      RemoveCount(entered.frames, h.frameId);
    }
    if h.frameId !in entered.frames {
      assert entered.frames - {h.frameId} == entered.frames;
    }
  }

  lemma OldestEvicted(s: State, entered: State, e: Event, oldest: u32, t: State)
    requires e.HeaderIn? && |s.frames| <= MAX_INCOMPLETE_FRAMES < |entered.frames|
    requires |entered.frames| == (if e.header.frameId in s.frames then |s.frames| else |s.frames| + 1)
    requires
      forall id :: id in s.frames && id != e.header.frameId ==>
        id in entered.frames && entered.frames[id] == s.frames[id]
    requires IsOldest(entered.frames, oldest) && t.frames == entered.frames - {oldest}
    ensures forall id :: id in s.frames ==> id != e.header.frameId
    ensures oldest in s.frames ==> EvictedAsOldest(s, t, e, oldest)
  {
    RemoveCount(entered.frames, oldest);
    assert forall other :: other in t.frames ==> NotAfter(entered.frames, oldest, other);
  }

  lemma RemoveCount<K, V>(m: map<K, V>, k: K)
    requires k in m
    ensures |m - {k}| == |m| - 1
  {
    assert m.Keys == (m - {k}).Keys + {k};
    assert |m.Keys| == |m| && |(m - {k}).Keys| == |m - {k}|;
  }
}
