# Verified models of the Maho client

Dafny models of the stateful parts of the remote-desktop client's receive path and of the protocols
beside it, with proofs about every input, every run or every reachable state. Code that updates state
in place is modelled by classes and loops and proved against a specification function of the old
state; what that specification guarantees is then proved over whole runs. `dafny verify
dfyconfig.toml` checks everything.

| files | component | main results |
|---|---|---|
| `NaiveLoss`, `PacketLoss`, `SequenceTraces`, `LossMeaning` | packet-loss window over wrapping sequence numbers | the windowed, merged, capped and saturating implementation refines a model with one slot per unbounded position; a verdict is "missing" exactly if the packet had not arrived before it; reads are transparent; conservation; immutable verdicts |
| `FrameAssembler`, `FrameReassembly`, `PieceOrder`, `FrameOrigins` | frame reassembly from header and chunks | bounds in every reachable state; frames leave only for cause; exact reassembly independent of order, repetition and other traffic, with the exact condition; whatever is handed out was received, in time and once |
| `FrameQueue` | bounded decoder queue with recovery | decodable chain over every run, with the exact condition for its first link; recovering exactly while the answer to a keyframe request is awaited; order through u32 wraps |
| `HeldInput`, `InputEvents`, `HeldInputSafety`, `HeldInputSessions` | input actions and the record of held remote keys and buttons | which events an action is sent as; the record covers what is held under all failures, with the exact condition for a batch and for a session |
| `HttpHead`, `Utf8Text`, `RequestReader`, `HttpRequests` | incremental HTTP request reader | a request written line by line is read back exactly; the answer does not depend on how the bytes are split into reads, with the exact conditions; text is what encodes Unicode scalar values |
| `ConnectionManager`, `ConnectionSafety` | asynchronous connection lifecycle | never two native sessions; stale completions are inert; failed cleanups are not skipped and can always be retried; a disconnect ends every session and errors are kept |
| `EndpointHistory` | remembered pairing endpoints | exactly least recently used |
| `ClipboardImage` | chunked clipboard images | round trips at host and client, over whole sessions; gap-free output at both; at most one completion; refused ids stay spent |
| `LatencyRing` | latency ring and percentiles | refines a list; percentiles have their rank, the nearest one |
| `NalUnits` | NAL unit parser and printers | parser and printer undo each other; the first defect is reported; blobs are idempotent |
| `Nv12Frames` | NV12 packer and page-side parser | round trip, both copy branches; partial frames are refused |

How the models are set up:

- Times (`Instant`) are natural numbers of nanoseconds. Properties that need a clock that does not run
  backwards say so.
- u32 ids and sequence numbers are the subset type `u32` with explicit wrapping; the unbounded
  position behind one is ghost. `u64` counters saturate explicitly.
- Anything a hash map, a network peer, the decoder or the operating system decides is a parameter:
  which sends succeed and in which order hash sets drain (`HeldInput.World`), how many bytes a read
  delivers (`RequestReader.Connection.portions`), when native calls return
  (`ConnectionManager.Event`), whether bytes are a decodable PNG (`decodes`).
- Limits are those of `clients/rust/maho-proto/src/media.rs:6-7` and
  `clients/rust/maho-proto/src/parity.rs:8-10`. What is proved about reassembly holds for any chunk and
  byte limits (`FrameAssembler.Limits`; the protocol's are `FrameAssembler.PROTOCOL`), and round trips
  of clipboard images for any chunk size the host accepts.

Findings about the code, each stated by a lemma:

- A chunk that repeats while the protocol's maximum of chunks waits for the header discards all of
  them, and the frame is lost (`PieceOrder.RepeatAtTheCapLosesFrame`). This can happen to a frame
  exactly if it has that many chunks (`PieceOrder.LoneTransferReassemblesExactly`).
- The agent server's record of held input can lose an item that an earlier request pressed, if the
  request that releases it fails together with the clean-up
  (`HeldInputSessions.ReleaseOfEarlierPressCanBeLost`; `BatchKeepsCoverageExactly` says when it can happen
  to a batch, `SessionsAreCoveredExactly` in which sessions).
- A request with a bare blank line before its first proper one may be answered differently depending on
  how its bytes are split into reads (`RequestReader.ReadInTwoWays`; `SplitsDoNotMatterExactly` and
  `SplitsDoNotMatterForAcceptance` say when). Content-Length framing is that of section 6.3 of RFC 9112.
- The first frame a fresh queue delivers need not be a keyframe: it is one in all runs exactly if the
  first frame pushed is one (`FrameQueue.RunsStartWithKeyframeExactly`).

## Model

| member | source | states |
|---|---|---|
| `PacketLoss.PacketLoss.Observe` | clients/rust/maho-app/src/receiver_stats.rs:197-263 | An arriving packet has exactly the effect, on pending flags, highest sequence and log, that the position-by-position model gives it at the one unbounded position its wrapped sequence number can stand for; gaps, evictions and late packets included. What that effect means is `LossMeaning`'s. |
| `PacketLoss.PacketLoss.Advance` | clients/rust/maho-app/src/receiver_stats.rs:220-263 | The arithmetic eviction of a gap of any size below half a ring leaves the state that opening and evicting its positions one at a time leaves. |
| `PacketLoss.PacketLoss.MarkLate` | clients/rust/maho-app/src/receiver_stats.rs:207-219 | A packet at or behind the highest one marks its position received if that is still pending and otherwise changes nothing. |
| `PacketLoss.PacketLoss.FinalizeDue` | clients/rust/maho-app/src/receiver_stats.rs:265-289 | Positions are finalized from the oldest on, each at its own deadline, for as long as the 100 ms grace of the oldest pending one is over. |
| `PacketLoss.PacketLoss.RecordFinalized` | clients/rust/maho-app/src/receiver_stats.rs:291-306 | A batch is merged into the newest entry of the same time with saturating counters, or appended with the oldest of 4096 entries dropped. |
| `PacketLoss.PacketLoss.Snapshot` | clients/rust/maho-app/src/receiver_stats.rs:308-322 | The sums returned are the numbers of finalized and of missing positions whose verdict is in the window, counted one by one over the newest 4096 verdict times, saturated once. |
| `PacketLoss.PacketLoss.constructor` | clients/rust/maho-app/src/receiver_stats.rs:188-194 | A fresh window stands for the model that has seen nothing. |
| `PacketLoss.PlaceInBulk` | clients/rust/maho-app/src/receiver_stats.rs:220-262 | Opening the positions of a jump one by one, with one eviction at a time, has the closed form that the implementation computes. |
| `PacketLoss.EvictionsAreVerdicts` | clients/rust/maho-app/src/receiver_stats.rs:241-254 | The one merged log entry for a gap equals the entries for each evicted and each never materialized position, with the missing ones counted exactly. |
| `PacketLoss.BulkRecordIsOneByOne` | clients/rust/maho-app/src/receiver_stats.rs:291-306 | Recording a batch of verdicts at one time is recording them one by one, up to saturation of the 64-bit counters. |
| `PacketLoss.LogIsNewestMerged` | clients/rust/maho-app/src/receiver_stats.rs:291-306 | The log is the history of verdicts merged by time, cut to its newest 4096 entries, each counter saturated: merging, capping and saturating commute. |
| `PacketLoss.LogCountsPositions` | clients/rust/maho-app/src/receiver_stats.rs:308-322 | Saturating sums over the merged, capped and saturated log are the saturated position counts. |
| `PacketLoss.RatioIsAtMostOne` | clients/rust/maho-app/src/receiver_stats.rs:122-128 | Missing never exceeds expected, in no log entry and in no saturating window sum, so the loss ratio lies between 0 and 1. |
| `PacketLoss.LogTimesStrictlyIncrease` | clients/rust/maho-app/src/receiver_stats.rs:265-306 | For every trace with a clock that does not run backwards the timestamps of the log strictly increase. |
| `SerialNumbers.AheadMeansHigher` | clients/rust/maho-app/src/receiver_stats.rs:165-168 | The wrapping comparison and subtraction give order and distance of any two positions within half a ring of each other. |
| `SerialNumbers.NearPositionIsUnique` | clients/rust/maho-app/src/receiver_stats.rs:165-168 | A position within half a ring of a given one is the only one there with its sequence number: the one that unwrapping finds. |
| `NaiveLoss.FinalizeDueAbsorbs` | clients/rust/maho-app/src/receiver_stats.rs:265-289 | Finalizing at one time and again at a later one is finalizing once at the later one. |
| `NaiveLoss.ReadsAreTransparent` | clients/rust/maho-app/src/receiver_stats.rs:265-322 | Deleting any set of reads from any trace with a nondecreasing clock changes no result of a remaining read. |
| `NaiveLoss.Conservation` | clients/rust/maho-app/src/receiver_stats.rs:207-263 | After every trace, positions ever finalized plus positions pending are exactly those from the first packet's to the highest one seen. |
| `NaiveLoss.VerdictsAreImmutable` | clients/rust/maho-app/src/receiver_stats.rs:185-193 | No further event of any kind revises a finalized position. |
| `NaiveLoss.VerdictsAreInTimeOrder` | clients/rust/maho-app/src/receiver_stats.rs:265-289 | With a clock that does not run backwards, deadlines and evictions finalize positions in time order. |
| `SequenceTraces.WindowFollowsPositions` | clients/rust/maho-app/src/receiver_stats.rs:197-322 | Over every trace of wrapping sequence numbers and reads, the window's states and answers are those of the position model on the trace unwrapped from the sequence numbers alone. |
| `SequenceTraces.UnwrappingIgnoresQueries` | clients/rust/maho-app/src/receiver_stats.rs:197-322 | Deleting reads changes the unwrapped position of no packet. |
| `SequenceTraces.UnwrappedCarriesSequence` | clients/rust/maho-app/src/receiver_stats.rs:197-219 | The unbounded position given to a packet wraps to the packet's sequence number. |
| `SequenceTraces.QueriesAreTransparent` | clients/rust/maho-app/src/receiver_stats.rs:265-322 | Deleting any set of reads from any trace of sequence numbers with a nondecreasing clock changes no answer of a remaining read. |
| `SequenceTraces.WindowConservesPositions` | clients/rust/maho-app/src/receiver_stats.rs:207-263 | After every trace of sequence numbers, positions ever finalized plus positions pending are exactly those from the first packet's to the highest one, through any number of wraps, and every packet's position wraps to its sequence number. |
| `LossMeaning.PendingMeansArrived` | clients/rust/maho-app/src/receiver_stats.rs:197-263 | In every trace, a position still pending counts as received if and only if a packet at it has arrived, and is dated by the first packet at or ahead of it; at most 4096 are pending. |
| `LossMeaning.VerdictsAreJust` | clients/rust/maho-app/src/receiver_stats.rs:241-289 | In every trace, a position is "missing" if and only if no packet at it arrived before the event that finalized it; the verdict's time is the deadline set by the packet that opened it, already passed, or the event's own because that packet leaves it no room. |
| `LossMeaning.VerdictHasEvent` | clients/rust/maho-app/src/receiver_stats.rs:185-193 | Every verdict was brought by one event of the trace. |
| `LossMeaning.PendingIsWithinGrace` | clients/rust/maho-app/src/receiver_stats.rs:265-289 | With a clock that does not run backwards no verdict comes late: a pending position is less than 100 ms old and among the newest 4096. |
| `LossMeaning.PlaceIsPlaced` | clients/rust/maho-app/src/receiver_stats.rs:197-263 | What one packet does to every position, known or opened, for any distance. |
| `LossMeaning.WindowMeansArrived` | clients/rust/maho-app/src/receiver_stats.rs:197-263 | The same for traces of sequence numbers: a pending position counts as received exactly if a packet unwrapped to it arrived, and, as long as the trace spans at most half a ring, exactly if its sequence number did. |
| `LossMeaning.WindowVerdictsAreJust` | clients/rust/maho-app/src/receiver_stats.rs:241-289 | Verdicts over traces of sequence numbers are just in that sense. |
| `LossMeaning.WindowVerdictsCountArrivals` | clients/rust/maho-app/src/receiver_stats.rs:241-289 | As long as the trace spans at most half a ring, a verdict is "missing" exactly if that sequence number had not arrived before the input that brought it. |
| `LossMeaning.WindowCountCounts` | clients/rust/maho-app/src/receiver_stats.rs:308-322 | The totals a reader is told are the numbers of verdicts, and of missing ones, that are at most five seconds old, among those of the newest 4096 verdict times. |
| `FrameQueue.FrameQueue.Push` | clients/rust/maho-app/src/frame_queue.rs:44-100 | A push accepts, drops or refuses the frame as the state function says and asks for a keyframe exactly if it is no keyframe, comes after a gap or without room, and the queue is not recovering; a stopped queue refuses with an error. |
| `FrameQueue.FrameQueue.Receive` | clients/rust/maho-app/src/frame_queue.rs:102-123 | The oldest queued frame is handed out and removed; a stopped or empty queue hands out nothing and keeps its state. |
| `FrameQueue.FrameQueue.DecodeFailed` | clients/rust/maho-app/src/frame_queue.rs:127-155 | Everything before the first queued keyframe is dropped, or everything if there is none; a keyframe is asked for exactly in the latter case, unless the queue is recovering or stopped. |
| `FrameQueue.FrameQueue.Stop` | clients/rust/maho-app/src/frame_queue.rs:170-179 | The queue is emptied and stays stopped. |
| `FrameQueue.DeliveriesAreDecodable` | clients/rust/maho-app/src/frame_queue.rs:43-168 | In every interleaving of push, receive, decode failure and stop, a delivered frame is a keyframe or comes from the position right after the previously delivered one; the first one after a decode failure is a keyframe; the very first is a keyframe or the first accepted frame; deliveries are a duplicate-free subsequence of what was accepted; at most four frames are queued. |
| `FrameQueue.FirstDeliveryExactly` | clients/rust/maho-app/src/frame_queue.rs:70-99 | In every run the first frame delivered is a keyframe if and only if it is not the first accepted frame or that one is a keyframe. |
| `FrameQueue.RunsStartWithKeyframeExactly` | clients/rust/maho-app/src/frame_queue.rs:70-99 | All runs that begin with the push of a frame give the decoder a keyframe first, if and only if that frame is one: a fresh queue does not ask for it. |
| `FrameQueue.StoppedIsFinal` | clients/rust/maho-app/src/frame_queue.rs:170-179 | After a stop no operation accepts, delivers or requests anything any more. |
| `FrameQueue.DeliveredPositionsIncrease` | clients/rust/maho-app/src/frame_queue.rs:58-69 | Through any number of u32 wraps, delivered frames have strictly increasing unbounded positions, each carrying its frame's id. |
| `FrameQueue.PositionsIncrease` | clients/rust/maho-app/src/frame_queue.rs:58-69 | Accepted frames have strictly increasing unbounded positions. |
| `FrameQueue.PositionCarriesId` | clients/rust/maho-app/src/frame_queue.rs:58-69 | The unbounded position of an accepted frame wraps to its id. |
| `FrameQueue.AcceptedExactlyWhenAhead` | clients/rust/maho-app/src/frame_queue.rs:59-69 | A frame within half a ring of the newest accepted one is accepted if and only if it lies ahead; a late or duplicate one leaves the state untouched. |
| `FrameQueue.RecoveryEndsWithKeyframe` | clients/rust/maho-app/src/frame_queue.rs:85-99 | Recovery ends in no way but an admitted keyframe, which is then alone in the queue. |
| `FrameQueue.RequestsAreSeparated` | clients/rust/maho-app/src/frame_queue.rs:70-99 | Between any two keyframe requests of a run a keyframe was admitted. |
| `FrameQueue.RecoveringExactly` | clients/rust/maho-app/src/frame_queue.rs:70-155 | In every run the queue is recovering if and only if some event was answered with a keyframe request and no keyframe has been accepted since; so it never drops frames without having asked. |
| `FrameQueue.AsksWhenRecoveryBegins` | clients/rust/maho-app/src/frame_queue.rs:70-155 | An event is answered with a request if and only if recovery begins with it. |
| `FrameQueue.FramesLeaveForCause` | clients/rust/maho-app/src/frame_queue.rs:71-84 | A queued frame leaves the queue only by delivery, a stop, an accepted frame after a gap or without room, or a failed decode with no keyframe queued at or before it. |
| `FrameQueue.AcceptedFrameIsQueuedIfUsable` | clients/rust/maho-app/src/frame_queue.rs:70-99 | In every reachable state an accepted frame is queued if and only if it is a keyframe, or its position is the one after the newest accepted one, there is room and the queue is not recovering; the queue is empty afterwards exactly while recovering. |
| `FrameAssembler.FrameAssembler.PushHeader` | clients/rust/maho-app/src/media.rs:94-190 | A header's effect on frames, orphans and completion, and its answer, are those of the state function: validation, expiry, keyframe pruning, conflict, orphan promotion, completion and eviction of the oldest, in that order. |
| `FrameAssembler.FrameAssembler.PushChunk` | clients/rust/maho-app/src/media.rs:192-267 | The same for a chunk: index and size checks, completion, or waiting as an orphan within the caps. |
| `FrameAssembler.FrameAssembler.FinishIfComplete` | clients/rust/maho-app/src/media.rs:299-342 | A complete frame is removed and answered with its chunks in index order, or with a size mismatch; an incomplete one is left alone. |
| `FrameAssembler.FrameAssembler.ExpireNow` | clients/rust/maho-app/src/media.rs:348-373 | Exactly the frames and orphans younger than a second survive. |
| `FrameAssembler.AdmitChunks` | clients/rust/maho-app/src/media.rs:68-88 | Incoming chunks are taken in index order unless known, out of range or over the declared size. |
| `FrameAssembler.FindOldest` | clients/rust/maho-app/src/media.rs:174-181 | The frame evicted is the one that started first, the one with the least id among equals. |
| `FrameAssembler.OldestIsUnique` | clients/rust/maho-app/src/media.rs:175-180 | There is only one such frame, so the iteration order of the hash map does not matter. |
| `FrameReassembly.ReachableStatesAreValid` | clients/rust/maho-app/src/media.rs:94-267 | In every reachable state: at most 16 frames and 16 orphans with disjoint ids, every chunk index in range, byte counts exact and within the declared size, no complete frame retained. |
| `FrameReassembly.CountMeansAll` | clients/rust/maho-app/src/media.rs:344-346 | As many distinct indices below n as n leave no gap, so counting chunks decides completeness. |
| `FrameReassembly.AdmitFits` | clients/rust/maho-app/src/media.rs:68-88 | Promoting orphans never takes an assembly past its declared chunk count or size, whatever the orphans hold. |
| `FrameReassembly.FinishOutcome` | clients/rust/maho-app/src/media.rs:310-341 | A complete assembly has every chunk; it is answered with a size mismatch if and only if its chunks add up to less than declared, and with the joined payload otherwise. |
| `FrameReassembly.NothingStaleIsKept` | clients/rust/maho-app/src/media.rs:348-373 | After any event but an invalid header, no frame and no orphan is kept that started a second or more ago. |
| `FrameReassembly.KeyframePrunesOlder` | clients/rust/maho-app/src/media.rs:116-130 | A keyframe at an unbounded position prunes a frame at a position within half a ring of it if and only if that is lower; one that is not is kept unless it had timed out or was the oldest of too many. |
| `FrameReassembly.NotBeforeMeansNotLower` | clients/rust/maho-app/src/media.rs:60-63 | The serial comparison of ids is the comparison of the positions behind them, for any two within half a ring. |
| `FrameReassembly.RefusalsExactly` | clients/rust/maho-app/src/media.rs:102-113 | A header is refused if and only if its chunk count or size is 0 or above the limits, a chunk if and only if its frame is there, not timed out, and has no such index. |
| `FrameReassembly.CompletionsAreCounted` | clients/rust/maho-app/src/media.rs:310-341 | In every run the counter is the number of frames handed out, and a start time is kept exactly while the last event handed one out. |
| `FrameReassembly.FramesLeaveForCause` | clients/rust/maho-app/src/media.rs:94-267 | An incomplete frame leaves the table only because it timed out, the header of a keyframe at a higher position came, its own event completed it, or it was the oldest, with the least id among equals, when a header brought one too many. |
| `PieceOrder.ReassemblyIsExact` | clients/rust/maho-app/src/media.rs:94-267 | For any cut of a payload, any order and repetition of header and chunks and any other traffic that leaves the transfer in peace, the frame is handed out, with the original payload, exactly by the first event after which all of its pieces are held, where a chunk on top of the protocol's maximum waiting for the header discards those. |
| `PieceOrder.ReassemblyIsOrderIndependent` | clients/rust/maho-app/src/media.rs:94-267 | With no such discarding chunk that is exactly the event that brings the last distinct piece. |
| `PieceOrder.OneStep` | clients/rust/maho-app/src/media.rs:94-267 | The tables hold exactly the pieces seen before and after every such event, and foreign events never hand the frame out. |
| `PieceOrder.LoneTransferIsQuiet` | clients/rust/maho-app/src/media.rs:94-267 | A transfer within a second, beside fewer than 16 other frames and orphans, is left in peace in that sense. |
| `PieceOrder.LoneTransferIsExact` | clients/rust/maho-app/src/media.rs:94-267 | So every transfer of header and pieces on its own is answered with the frame and its payload exactly when all pieces are held, and with nothing before. |
| `PieceOrder.SmallFramesAreKept` | clients/rust/maho-app/src/media.rs:248-265 | A frame of fewer chunks than the protocol allows never has any discarded. |
| `PieceOrder.LoneTransferReassemblesExactly` | clients/rust/maho-app/src/media.rs:94-267 | From every valid state with room, all transfers of a frame, in any order and with any repetition, are answered exactly at the last distinct piece, if and only if the frame has fewer chunks than the protocol allows. |
| `PieceOrder.AllAdmitted` | clients/rust/maho-app/src/media.rs:68-88 | The orphans of a well-cut frame are all promoted: the size budget never runs out on them. |
| `PieceOrder.ForeignEvent` | clients/rust/maho-app/src/media.rs:116-189 | Headers and chunks of other frames leave the pieces of a frame alone. |
| `PieceOrder.ChunkAtTheCapDiscardsOrphan` | clients/rust/maho-app/src/media.rs:248-265 | In every undisturbed run without the header so far, one more chunk of the frame is answered with nothing, and leaves nothing of the frame in the tables if and only if the protocol's maximum of chunks was waiting. |
| `PieceOrder.RepeatAtTheCapLosesFrame` | clients/rust/maho-app/src/media.rs:255-264 | For every frame with as many chunks as the protocol allows: after all pieces, the first one again and the header, every piece has been seen and nothing is handed out. |
| `PieceOrder.LargestFrameIsWellCut` | clients/rust/maho-proto/src/media.rs:6-7 | There are such frames under the protocol's own limits: one byte in each of 8192 chunks. |
| `FrameOrigins.FramesComeFromTheirPieces` | clients/rust/maho-app/src/media.rs:94-342 | In every run, disturbed or not, from any valid state that holds nothing of a frame: a frame handed out has a header that came since, and its data is, index by index, that of chunks of its id that came since; with a clock that runs forward, all of them less than a second before and none before the start time kept of the frame. It is refused for its size exactly if such pieces are fewer bytes than declared. Nothing of it stays in the tables. |
| `FrameOrigins.FramesComeFromReceivedPieces` | clients/rust/maho-app/src/media.rs:94-342 | The same in every run from the start. |
| `FrameOrigins.PiecesCountOnce` | clients/rust/maho-app/src/media.rs:299-342 | In every run, what is handed out or refused came after the last time a frame of that id was handed out or refused: no header and no chunk counts twice. |
| `FrameOrigins.EventCame` | clients/rust/maho-app/src/media.rs:94-267 | Every event of any frame leaves in the tables only headers and chunks that have come, each no earlier than the start of its entry. |
| `FrameOrigins.AdmittedFromEither` | clients/rust/maho-app/src/media.rs:68-88 | What promotion collects is, chunk by chunk, what the frame or the orphan held. |
| `FrameOrigins.JoinIsFlatten` | clients/rust/maho-app/src/media.rs:310-327 | The joined data is the concatenation of the chunks in index order. |
| `HeldInput.ConvertAction` | clients/rust/maho-app/src/agent_input.rs:632-943 | An action converts exactly if its event bound, coordinates and key name are accepted; its events and the change to the tracked set are those of the specification, and a refused action changes nothing. `InputEvents` says which events these are. |
| `InputEvents.StrokesExactly` | clients/rust/maho-app/src/agent_input.rs:655-940 | An action presses, in order, its button once per click, its button for a drag, its key, or the keys of the characters that have one; it releases the same, or what it is there to release. |
| `InputEvents.PressesAreReleased` | clients/rust/maho-app/src/agent_input.rs:704-940 | Every press of a click, drag, key press or text is followed by its own release, with nothing but drag steps between. |
| `InputEvents.OthersExactly` | clients/rust/maho-app/src/agent_input.rs:655-940 | Moves, drag steps, scrolls, UTF-16 units and the Reset occur as often as the action asks for, at least one step for a drag. |
| `InputEvents.TextIsTypedInOrder` | clients/rust/maho-app/src/agent_input.rs:894-934 | Text is typed character by character, in order. |
| `InputEvents.EventsAreBounded` | clients/rust/maho-app/src/agent_input.rs:639-652 | The bound computed before the conversion bounds the events of clicks, drags and text, and is at most 4096. |
| `InputEvents.LimitsExactly` | clients/rust/maho-app/src/agent_input.rs:639-652 | Exactly up to 2047 clicks, 4093 drag steps and 2048 characters are converted, if the coordinates are accepted; the other actions depend on coordinates and key names only. |
| `HeldInput.InputStateTracker.RecordDown` | clients/rust/maho-app/src/agent_input.rs:522-540 | Exactly one item is added to the tracked set. |
| `HeldInput.InputStateTracker.RecordUp` | clients/rust/maho-app/src/agent_input.rs:527-550 | Exactly one item is taken out of the tracked set. |
| `HeldInput.InputStateTracker.ReleaseAll` | clients/rust/maho-app/src/agent_input.rs:566-608 | The tracked set is emptied and answered with one up per item, buttons first, and a final Reset. |
| `HeldInput.ReleaseInputs` | clients/rust/maho-app/src/agent_server.rs:808-844 | Every up and the Reset are attempted whatever fails; the record is emptied if and only if the Reset was accepted; the number of sends that succeeded is returned, and an error exactly if some failed. |
| `HeldInput.AttemptAll` | clients/rust/maho-app/src/agent_server.rs:816-830 | All events are attempted in order; how many succeeded, whether any failed and whether the final Reset went out are reported. |
| `HeldInput.KeepRecord` | clients/rust/maho-app/src/agent_server.rs:831-842 | Exactly the items with an up among the events are recorded again. |
| `HeldInput.RunBatch` | clients/rust/maho-app/src/agent_server.rs:659-747 | A whole batch, conversion, sends, roll-back and release, changes tracker and remote machine and answers as the specification says, for every pattern of failed sends. |
| `HeldInputSafety.ReleaseKeepsCoverage` | clients/rust/maho-app/src/agent_server.rs:808-844 | For every pattern of failed sends a release keeps the record covering what is held; an accepted Reset leaves both empty; a failed one leaves the record as it was. |
| `HeldInputSafety.ReleaseIsExact` | clients/rust/maho-app/src/agent_server.rs:815-830 | After a release exactly those items are still held whose own up and whose Reset both failed. |
| `HeldInputSafety.ReleaseSendsEachOnce` | clients/rust/maho-app/src/agent_input.rs:566-608 | A release sends one up for each tracked item, buttons before keys, and one Reset. |
| `HeldInputSafety.StatusExactly` | clients/rust/maho-app/src/agent_server.rs:670-747 | A batch is answered with an internal error exactly if a send failed, else with a bad request exactly if an action does not convert, else with success. |
| `HeldInputSafety.TrackedExactly` | clients/rust/maho-app/src/agent_input.rs:655-940 | After a batch that succeeds, an item is recorded exactly if the last action that holds it down or releases it holds it down, or if none does and it was recorded before. |
| `HeldInputSafety.ActionEffect` | clients/rust/maho-app/src/agent_input.rs:655-940 | What the event sequence of an action leaves held, for any number of clicks, drag steps and characters. |
| `HeldInputSafety.ActionKeepsCoverage` | clients/rust/maho-app/src/agent_input.rs:655-940 | An action all of whose sends succeed keeps the record covering. |
| `HeldInputSafety.BatchWithoutFailureKeepsCoverage` | clients/rust/maho-app/src/agent_server.rs:670-747 | A batch without a failed send keeps coverage, also when it stops at an action that does not convert. |
| `HeldInputSafety.BatchFromNothingKeepsCoverage` | clients/rust/maho-app/src/agent_server.rs:670-747 | A batch that starts with nothing held remotely keeps coverage whichever send fails. |
| `HeldInputSafety.SafeBatchKeepsCoverage` | clients/rust/maho-app/src/agent_server.rs:670-747 | So does every batch in which nothing held since before it is at risk. |
| `HeldInputSafety.RiskIsReal` | clients/rust/maho-app/src/agent_server.rs:687-707 | For each item at risk there is a send number such that in every world that fails exactly from there on it is left held but untracked. |
| `HeldInputSafety.BatchKeepsCoverageExactly` | clients/rust/maho-app/src/agent_server.rs:670-747 | A batch keeps coverage under all failure patterns if and only if no item held since before it is at risk: first touched by an action of the batch that releases it, with every action so far convertible. |
| `HeldInputSessions.ReleaseOfEarlierPressCanBeLost` | clients/rust/maho-app/src/agent_server.rs:687-707 | The smallest loss: a session whose first request presses a button and whose second releases it, with no send succeeding from then on, ends with the button held and not recorded. |
| `HeldInputSessions.SessionIsCovered` | clients/rust/maho-app/src/agent_server.rs:659-777 | Coverage holds throughout every session of batches and releases in which no batch puts an earlier press at risk. |
| `HeldInputSessions.SessionsAreCoveredExactly` | clients/rust/maho-app/src/agent_server.rs:659-777 | After each request of a session the record covers what is held, under all failure patterns, if and only if no item that a convertible prefix of one request presses is at risk in a later request. |
| `HeldInputSessions.SessionHoldsWhatItPressed` | clients/rust/maho-app/src/agent_server.rs:659-747 | Whatever the remote machine holds, one of the session's requests pressed with every action so far convertible. |
| `HeldInputSessions.PressesExactly` | clients/rust/maho-app/src/agent_input.rs:655-940 | The events of an action press an item if and only if the action is a press, click, drag or typing of that item. |
| `HeldInputSessions.PressIsReal` | clients/rust/maho-app/src/agent_server.rs:686-707 | For each item a batch can press there is a send number such that in every world that fails exactly from there on it stays held. |
| `HeldInputSessions.SessionLoses` | clients/rust/maho-app/src/agent_server.rs:659-747 | For any press and any later request that puts it at risk there is a fair world in which the item ends held and untracked. |
| `HeldInputSessions.SessionAgrees` | clients/rust/maho-app/src/agent_server.rs:659-777 | A session depends on no send beyond those it makes. |
| `HeldInputSafety.FairWorldExists` | clients/rust/maho-app/src/agent_input.rs:566-608 | There are worlds whose hash sets drain lawfully, whatever is held. |
| `RequestReader.ReadRequest` | clients/rust/maho-app/src/agent_server.rs:317-402 | For every stream and every split into nonempty reads: the answer is the one for the end of head that the first read to show one shows, and the one-shot answer if none does or no bare blank line precedes the first proper one; nothing past the declared body is read after that; at most 65536 bytes are read and the loop terminates on the room left. |
| `HttpRequests.RequestsAreAnswered` | clients/rust/maho-app/src/agent_server.rs:317-402 | A request line, header lines of which at most one is a content length in any letter case and with any blanks, a blank line, and whatever follows: for every split the answer is the head with exactly the declared number of bytes after it, incomplete if they end before, invalid if they do not fit the buffer. |
| `HttpRequests.StreamsWithoutHead` | clients/rust/maho-app/src/agent_server.rs:332-345 | A stream without a blank line of either kind: for every split, no request if it is empty, an invalid one if it fills the buffer, an incomplete one otherwise. |
| `HttpRequests.NumeralOfDecimal` | clients/rust/maho-app/src/agent_server.rs:385 | The numeral of every number is read as that number. |
| `HttpRequests.LengthLineIsRead` | clients/rust/maho-app/src/agent_server.rs:374-388 | A line with the name in any letter case, a colon and a number in decimal between blanks is a content length of that number. |
| `HttpRequests.PlainExactly` | clients/rust/maho-app/src/agent_server.rs:370-374 | A line says nothing about the body exactly if it has a colon and its name is, in any letter case, neither "content-length" nor "transfer-encoding". |
| `HttpRequests.BlankLineIsFirst` | clients/rust/maho-app/src/agent_server.rs:350-360 | The blank line after lines joined in this way is the first one, and no bare one comes before it. |
| `HttpRequests.LinesOfJoin` | clients/rust/maho-app/src/agent_server.rs:369 | Lines joined by carriage return and line feed are split into the same lines. |
| `RequestReader.Connection.Read` | clients/rust/maho-app/src/agent_server.rs:338-340 | A read appends the next bytes of the stream to the buffer: as many as the portion, the room and the stream allow, none exactly at its end. |
| `RequestReader.TotalLength` | clients/rust/maho-app/src/agent_server.rs:365-398 | The total length of a request, or the error, from its head and the declared body length. |
| `RequestReader.ParseHead` | clients/rust/maho-app/src/agent_server.rs:366-390 | The loop over the header lines computes the declared content length or the first error. |
| `Utf8Text.TextIsScalars` | clients/rust/maho-app/src/agent_server.rs:361-362 | Bytes are accepted as text if and only if they are the UTF-8 form of a sequence of Unicode scalar values. |
| `Utf8Text.TrimExactly` | clients/rust/maho-app/src/agent_server.rs:375 | Trimming takes all Unicode white space off both ends of a text and nothing else. |
| `RequestReader.AnswerIsIndependent` | clients/rust/maho-app/src/agent_server.rs:353-363 | Without an early bare blank line every portion that shows the end of the head leads to the one-shot answer. |
| `RequestReader.EarlyEndIsRefusedAtOnce` | clients/rust/maho-app/src/agent_server.rs:353-373 | A stream with a bare blank line before the first proper one is always refused when it is seen at once. |
| `RequestReader.AnswerIsIndependentExactly` | clients/rust/maho-app/src/agent_server.rs:353-398 | All portions that show an end of head lead to the same answer, bytes or error, if and only if no bare blank line comes first, or the bytes before it are no acceptable head, and if that is because the first line refused declares a length beyond the machine word, all before the proper blank line is text. |
| `RequestReader.AcceptanceIsIndependentExactly` | clients/rust/maho-app/src/agent_server.rs:353-398 | Acceptance does not depend on the split if and only if no bare blank line comes first, or the bytes before it are not text, break a header rule, or declare more body than there is or fits. |
| `RequestReader.SplitsDoNotMatterExactly` | clients/rust/maho-app/src/agent_server.rs:317-402 | The reader answers a stream alike, bytes or error, for every split into reads, if and only if that condition holds. |
| `RequestReader.SplitsDoNotMatterForAcceptance` | clients/rust/maho-app/src/agent_server.rs:317-402 | It accepts or refuses a stream alike for every split, if and only if no bare blank line comes first, or the bytes before it are not text, break a header rule, or declare more body than there is or fits. |
| `RequestReader.EndIsShownIfThere` | clients/rust/maho-app/src/agent_server.rs:353-363 | Whatever the split, some read shows an end of head if and only if there is one in what the buffer can hold. |
| `RequestReader.EarlyAnswer` | clients/rust/maho-app/src/agent_server.rs:366-398 | The answer at the bare blank line is an acceptance exactly under those rules. |
| `RequestReader.BareBlankLineSplits` | clients/rust/maho-app/src/agent_server.rs:353-363 | A concrete stream of seven bytes whose first three show an end of head with another answer than the whole. |
| `RequestReader.ReadInTwoWays` | clients/rust/maho-app/src/agent_server.rs:317-402 | Reading that stream over two connections: the reader accepts the first three bytes if they arrive alone, and answers with invalid data if everything arrives at once. |
| `HttpHead.AcceptedHeaders` | clients/rust/maho-app/src/agent_server.rs:369-390 | Header lines are accepted if and only if each has a colon, none is a transfer encoding and at most one declares a content length, a plain numeral that fits; that numeral is the result. |
| `HttpHead.OverlongHeaders` | clients/rust/maho-app/src/agent_server.rs:374-390 | Header lines are refused as invalid input, rather than as invalid data, if and only if the first line that breaks a rule is a first content length whose numeral exceeds the machine word. |
| `HttpHead.HeadEndIsStable` | clients/rust/maho-app/src/agent_server.rs:353-363 | All prefixes that show an end of head show the same one if and only if no bare blank line precedes the first proper one. |
| `HttpHead.FindInPrefix` | clients/rust/maho-app/src/agent_server.rs:353-363 | A prefix shows the first occurrence of a delimiter exactly if it is long enough. |
| `HttpHead.BareBlankLineIsRefused` | clients/rust/maho-app/src/agent_server.rs:369-373 | A head with a bare blank line inside it is never accepted. |
| `HttpHead.BareBlankLineDecides` | clients/rust/maho-app/src/agent_server.rs:366-390 | Of a head with a bare blank line inside, the lines before it decide the error, or else the empty line itself. |
| `HttpHead.AcceptedHeads` | clients/rust/maho-app/src/agent_server.rs:366-390 | A head is accepted if and only if it is UTF-8 and its header lines follow the rules; the declared length is the result. |
| `ConnectionManager.Manager.ConnectTo` | clients/rust/ios-shell/ui/connection-state.js:544-583 | A connect request is ignored while a session, a cleanup or a failed cleanup is there; otherwise it fails validation, fails for lack of native controls, or owns a session and queues one native connect. |
| `ConnectionManager.Manager.Disconnect` | clients/rust/ios-shell/ui/connection-state.js:458-529 | A cleanup begins a new generation exactly if none is pending and something can be cleaned up, remembering the pending connect. |
| `ConnectionManager.Manager.Retry` | clients/rust/ios-shell/ui/connection-state.js:531-542 | A retry keeps an error that did not come from the cleanup itself. |
| `ConnectionManager.Manager.Dismiss` | clients/rust/ios-shell/ui/connection-state.js:687-698 | Dismissing cleans up an owned session and otherwise clears the errors. |
| `ConnectionManager.Manager.MarkFrameRendered` | clients/rust/ios-shell/ui/connection-state.js:618-625 | Only a frame of the current generation starts streaming, and only while video is awaited. |
| `ConnectionManager.Manager.StartPoll` | clients/rust/ios-shell/ui/connection-state.js:655-659 | A poll remembers the generation it was started in. |
| `ConnectionManager.Manager.FinishPoll` | clients/rust/ios-shell/ui/connection-state.js:662-683 | A terminal answer to a poll of the current generation fails the session; an older one is dropped. |
| `ConnectionManager.Manager.ContinueConnect` | clients/rust/ios-shell/ui/connection-state.js:585-606 | A connect that returns changes the state only in its own generation. |
| `ConnectionManager.Manager.FinallyConnect` | clients/rust/ios-shell/ui/connection-state.js:607-611 | The pending connect is cleared only by its own call. |
| `ConnectionManager.Manager.ContinueCleanup` | clients/rust/ios-shell/ui/connection-state.js:493-519 | After the native disconnect and the pending connect have settled, the session is given up or the cleanup has failed and the session stays owned. |
| `ConnectionManager.Manager.FinallyCleanup` | clients/rust/ios-shell/ui/connection-state.js:520-525 | The pending cleanup is cleared only by its own call. |
| `ConnectionSafety.StepKeepsInvariant` | clients/rust/ios-shell/ui/connection-state.js:458-698 | Every user action, microtask and completion keeps: at most one connect and one cleanup open, tasks in order, phase and ownership in agreement, undecided calls of the current generation only in their phase. |
| `ConnectionSafety.RunKeepsInvariant` | clients/rust/ios-shell/ui/connection-state.js:458-698 | The same in every run. |
| `ConnectionSafety.NativeSessionsAreSeparate` | clients/rust/ios-shell/ui/connection-state.js:472-498 | In every run a native connect is issued only after every earlier one has returned and a native disconnect issued after that earlier one has succeeded. |
| `ConnectionSafety.StaleCompletionsAreInert` | clients/rust/ios-shell/ui/connection-state.js:585-606 | A completion of an older generation changes neither phase nor generation. |
| `ConnectionSafety.StreamingNeedsVideo` | clients/rust/ios-shell/ui/connection-state.js:618-625 | Streaming is entered only from waiting for video, by a frame of the same generation. |
| `ConnectionSafety.WaitingNeedsConnection` | clients/rust/ios-shell/ui/connection-state.js:585-593 | Waiting for video is entered only when the native connect of the current generation has succeeded. |
| `ConnectionSafety.LiveHasConnection` | clients/rust/ios-shell/ui/connection-state.js:582-593 | In every run that has come to wait for or show video, an earlier step continued a successful native connect of that very generation. |
| `ConnectionSafety.FailedCleanupNeedsSuccess` | clients/rust/ios-shell/ui/connection-state.js:499-519 | From a failed cleanup on, as long as no cleanup succeeds, the session stays owned and the phase stays failed or a retry's. |
| `ConnectionSafety.FailedCleanupCanBeRetried` | clients/rust/ios-shell/ui/connection-state.js:531-542 | From every reachable failed cleanup, a retry issues one native disconnect whose success gives the session up; an error other than the cleanup's own is kept, and with none the phase is idle. |
| `ConnectionSafety.ConnectLeadsToStreaming` | clients/rust/ios-shell/ui/connection-state.js:544-625 | From every reachable state without session, cleanup or pending connect, a valid connect that succeeds and a rendered frame lead to streaming, without an error. |
| `ConnectionSafety.DisconnectBeginsCleanup` | clients/rust/ios-shell/ui/connection-state.js:458-498 | In every run, a user's disconnect while a session is set up or there begins a cleanup of a new generation that forgets the error and waits for the pending connect. |
| `ConnectionSafety.DisconnectEndsSession` | clients/rust/ios-shell/ui/connection-state.js:458-529 | From every reachable session, set up or not, a disconnect leads to idle if the native side disconnects and to a failed cleanup with the native error if not, whatever the pending connect comes back with. |
| `ConnectionSafety.FailedConnectIsReported` | clients/rust/ios-shell/ui/connection-state.js:594-611 | In every run, a connect of the current generation that comes back with an error leads to a failure with that error after the cleanup, and to no pending connect. |
| `ConnectionSafety.TerminalPollEndsSession` | clients/rust/ios-shell/ui/connection-state.js:662-683 | In every run, a terminal answer to a current poll leads to a failure with that error after the cleanup. |
| `ConnectionSafety.PollsOfLiveSessions` | clients/rust/ios-shell/ui/connection-state.js:655-683 | In every run, polls are taken exactly while a session is there; other answers and stale ones only end the poll. |
| `ConnectionSafety.RefusedConnects` | clients/rust/ios-shell/ui/connection-state.js:544-580 | A connect during a session, cleanup or pending connect changes nothing, an invalid one only the error, one without native controls fails with its own message. |
| `ConnectionSafety.FailureCanBeCleared` | clients/rust/ios-shell/ui/connection-state.js:687-698 | In every run, dismissing or disconnecting a failure without a session leads to idle. |
| `EndpointHistory.PairingRecord.UpdateEndpoint` | clients/rust/maho-app/src/pairing.rs:777-789 | One update: the endpoint becomes the last one, leaves the aliases, the previous one joins them, and the newest 16 stay. |
| `EndpointHistory.PairingRecord.RetainOthers` | clients/rust/maho-app/src/pairing.rs:778 | Every occurrence of the endpoint leaves the aliases, the others stay in order. |
| `EndpointHistory.PairingRecord.DropOldest` | clients/rust/maho-app/src/pairing.rs:785-787 | The newest 16 aliases stay. |
| `EndpointHistory.PairingStore.RememberEndpoint` | clients/rust/maho-app/src/pairing.rs:590-602 | The first record with the id is updated exactly if its key matches; nothing else changes; true exactly then. |
| `EndpointHistory.HistoryIsLeastRecentlyUsed` | clients/rust/maho-app/src/pairing.rs:774-789 | After every history of updates, aliases followed by the last endpoint are the last 17 elements of the history with only the latest occurrence of each kept. |
| `EndpointHistory.RememberOnRecent` | clients/rust/maho-app/src/pairing.rs:774-789 | Truncating at every step loses nothing that truncating once at the end would keep. |
| `EndpointHistory.StoreRemembersRecentEndpoints` | clients/rust/maho-app/src/pairing.rs:590-602 | The same for each record of a store under every sequence of calls with any ids and keys. |
| `EndpointHistory.ShadowedRecordsStay` | clients/rust/maho-app/src/pairing.rs:590-602 | A record behind another one with the same id is never touched by any sequence of calls. |
| `ClipboardImage.Sender.SendClipboardImage` | clients/rust/maho-app/src/session.rs:481-519 | An image is refused for a missing capability, permission, form or id, in that order, without sending anything or spending an id; otherwise its consecutive chunks under an id used never before go out up to the first that lacks permission or fails, and the result says which, or that all went out. |
| `ClipboardImage.RefusalsInOrder` | clients/rust/maho-app/src/session.rs:481-500 | The reasons for refusing an image, in the order in which they are looked for. |
| `ClipboardImage.Assembly.Push` | clients/rust/maho-host/src/clipboard_image.rs:30-78 | One chunk at the host: expiry, size checks, spending the id, opening, appending, completing and every refusal. |
| `ClipboardImage.Assembly.ExpireNow` | clients/rust/maho-host/src/clipboard_image.rs:22-28 | A transfer is dropped at the age of five seconds. |
| `ClipboardImage.ImageAssembly.Push` | clients/rust/maho-app/src/session_parity.rs:104-159 | One chunk at the client, likewise, with the protocol's own check of a chunk and increasing ids in place of the set of used ones. |
| `ClipboardImage.ImageRoundTrip` | clients/rust/maho-host/src/clipboard_image.rs:22-78 | The chunks of any decodable PNG, under a fresh id and in time, with any checks for overdue transfers in between, are answered with nothing until the last and then with exactly the original bytes, for every chunk size from 8 to 65536. |
| `ClipboardImage.TransferProgress` | clients/rust/maho-host/src/clipboard_image.rs:22-73 | After any part of such a run the host holds exactly the bytes of the chunks that have arrived. |
| `ClipboardImage.SessionRoundTrip` | clients/rust/maho-host/src/clipboard_image.rs:22-78 | Up to 65536 images sent one after the other under the sender's ids 1, 2 and so on all arrive, each with its last chunk. |
| `ClipboardImage.OutputIsGapFree` | clients/rust/maho-host/src/clipboard_image.rs:17-78 | In every run of chunks, expiry checks and cancellations, an image handed out is the gap-free concatenation from offset 0 of the latest chunks, all of one transfer, in time and never cancelled, of the declared size, and decodes. |
| `ClipboardImage.HostCompletesAtMostOnce` | clients/rust/maho-host/src/clipboard_image.rs:17-78 | In no run of chunks, expiry checks and cancellations does a transfer id complete twice at the host. |
| `ClipboardImage.HostIsBounded` | clients/rust/maho-host/src/clipboard_image.rs:17-78 | In every run the host holds at most 65536 ids and one unfinished image of at most 8 MiB. |
| `ClipboardImage.RefusedIdNeverCompletes` | clients/rust/maho-host/src/clipboard_image.rs:49-58 | In every run, the id of a well-formed opening chunk that was refused never completes afterwards. |
| `ClipboardImage.ClientOutputIsGapFree` | clients/rust/maho-app/src/session_parity.rs:99-159 | In every run of chunks and discards, an image the client hands out decodes, has the declared size and is the gap-free concatenation from offset 0 of chunks of one transfer, in time and never discarded, no continuing chunk in between left out. |
| `ClipboardImage.MalformedChunksAreIgnored` | clients/rust/maho-app/src/session_parity.rs:104-112 | A chunk outside the protocol's limits changes nothing at the client. |
| `ClipboardImage.ClientCompletesInOrder` | clients/rust/maho-app/src/session_parity.rs:99-159 | In every run of chunks and discards the ids that complete at the client strictly increase. |
| `ClipboardImage.ClientRoundTrip` | clients/rust/maho-app/src/session_parity.rs:104-159 | The chunks of any decodable image, under an id newer than any before and in time, are answered with nothing until the last and then with exactly the original bytes. |
| `LatencyRing.LatencyRecorder.PushSample` | clients/rust/maho-app/src/latency.rs:71-79 | A write appends to what is retained and drops the oldest sample only when the ring is full; the lifetime count saturates. |
| `LatencyRing.LatencyRecorder.RecordInterval` | clients/rust/maho-app/src/latency.rs:100-106 | A reversed interval is refused and changes nothing; any other is recorded in whole microseconds. |
| `LatencyRing.LatencyRecorder.StatsAt` | clients/rust/maho-app/src/latency.rs:113-124 | Nothing if no retained sample is in the window; otherwise their count, p50, p95 and p99 of the nearest rank among them, their maximum, all in order. |
| `LatencyRing.StatsFromSamples` | clients/rust/maho-app/src/latency.rs:143-169 | The four figures of a list in any order; zeros for an empty one. |
| `LatencyRing.RingKeepsNewest` | clients/rust/maho-app/src/latency.rs:71-79 | After any number of writes the ring retains exactly the newest ones, in the order written. |
| `LatencyRing.PercentileHasRank` | clients/rust/maho-app/src/latency.rs:178-188 | The element picked after sorting has the wanted rank among the samples as they came. |
| `LatencyRing.RankOrdersValues` | clients/rust/maho-app/src/latency.rs:157-160 | A rank has one value, and higher ranks have values at least as high. |
| `LatencyRing.SelectRotated` | clients/rust/maho-app/src/latency.rs:113-124 | The summary does not depend on where in the ring the oldest sample lies. |
| `LatencyRing.SelectExactly` | clients/rust/maho-app/src/latency.rs:113-124 | Each latency is summarized as often as there are retained samples with it that are no older than the window. |
| `LatencyRing.RankIsNearest` | clients/rust/maho-app/src/latency.rs:185-187 | The rank is the integer nearest to that fraction of the last index, the upper one of two. |
| `NalUnits.ParseLengthPrefixedNalus` | clients/rust/maho-decode/src/lib.rs:47-83 | The units of an access unit, or the error and offset of the first defect. |
| `NalUnits.PrepareAnnexB` | clients/rust/maho-decode/src/lib.rs:90-99 | The Annex B form of the parsed units, exactly as long as the input; the parser's error otherwise. |
| `NalUnits.RewritePacket` | clients/rust/maho-decode/src/lib.rs:301-310 | The in-place rewrite fills a buffer of the input's size exactly, without leaving it, and with the same Annex B form. |
| `NalUnits.ParameterSetBlob` | clients/rust/maho-decode/src/lib.rs:102-145 | The print of the last parameter set of each type in order, or the missing sets or the parser's error, for both codecs. |
| `NalUnits.CollectSets` | clients/rust/maho-decode/src/lib.rs:103-111 | For each type the last unit of that type, in one pass. |
| `NalUnits.DetectCodec` | clients/rust/maho-decode/src/lib.rs:159-175 | The codec of the first parameter-set unit. |
| `NalUnits.ParseUndoesPrint` | clients/rust/maho-decode/src/lib.rs:47-83 | Parsing the print of any nonempty list of units of 2 to 2^32-1 bytes gives the list back. |
| `NalUnits.PrintUndoesParse` | clients/rust/maho-decode/src/lib.rs:47-83 | Printing what has been parsed gives the input back, so nothing but prints parses. |
| `NalUnits.AnnexBKeepsLength` | clients/rust/maho-decode/src/lib.rs:92-97 | Start codes in place of lengths keep the size. |
| `NalUnits.BlobIsIdempotent` | clients/rust/maho-decode/src/lib.rs:102-145 | The parameter sets of a parameter-set blob are that blob. |
| `NalUnits.BlobTellsCodec` | clients/rust/maho-decode/src/lib.rs:159-175 | A blob made for a codec is recognized as that codec's. |
| `NalUnits.SetsAreUnits` | clients/rust/maho-decode/src/lib.rs:103-114 | The sets of a blob are units of the access unit, one of each type, in order. |
| `NalUnits.LastOfTypeIsOne` | clients/rust/maho-decode/src/lib.rs:105-110 | The unit chosen for a type is the last of that type, and none is chosen only if there is none. |
| `NalUnits.BigEndianIsUnique` | clients/rust/maho-decode/src/lib.rs:54-58 | A four-byte length is the print of the number it is read as. |
| `NalUnits.BigEndianWeights` | clients/rust/maho-decode/src/lib.rs:54-58 | The first of the four bytes weighs most. |
| `NalUnits.DefectsAreReported` | clients/rust/maho-decode/src/lib.rs:47-83 | After any proper units, bytes that break off a length or a unit are reported as truncated and a length below two as empty, at the offset where they begin; so is an empty access unit. |
| `NalUnits.FormsDifferInLengthsOnly` | clients/rust/maho-decode/src/lib.rs:90-99 | The Annex B form has start codes at exactly the places of the lengths, and the same units between them. |
| `NalUnits.BlobExactly` | clients/rust/maho-decode/src/lib.rs:102-145 | There is a blob if and only if the access unit parses and has a unit of each parameter-set type, 32 to 34 or 7 and 8; the blob has one of each, in this order; sets that are missing are the only other error. |
| `NalUnits.FirstKindIsFirst` | clients/rust/maho-decode/src/lib.rs:159-175 | The codec is that of the first unit that tells one. |
| `Nv12Frames.RepackNv12Frame` | clients/rust/ios-shell/src/frame.rs:5-53 | The buffer is header and both planes without their padding, whichever copy branch is taken. |
| `Nv12Frames.CopyPlane` | clients/rust/ios-shell/src/frame.rs:18-33 | The branch that copies at once and the one that copies row by row fill the same bytes and touch no others. |
| `Nv12Frames.PackedCell` | clients/rust/ios-shell/src/frame.rs:23-32 | Row r, column c of a packed plane is plane byte r*stride+c, or 0 where the plane has none. |
| `Nv12Frames.UnpaddedRows` | clients/rust/ios-shell/src/frame.rs:19-21 | With a stride equal to the width, copying at once is copying row by row. |
| `Nv12Frames.FrameRoundTrip` | clients/rust/ios-shell/ui/frame-parser.js:25-81 | Parsing any view that starts with a packed frame recovers width, height, 64-bit sequence and both planes exactly, for odd heights too. |
| `Nv12Frames.SequenceRoundTrip` | clients/rust/ios-shell/ui/frame-parser.js:39-46 | The sequence number is the same read in one piece or in two halves. |
| `Nv12Frames.LittleEndianByte` | clients/rust/ios-shell/src/frame.rs:14-16 | Byte i of a header number has weight 256 to the power of i. |
| `Nv12Frames.UvHeightRoundsUp` | clients/rust/ios-shell/src/frame.rs:8 | Chroma rows are half as many as luma rows, rounded up. |
| `Nv12Frames.PartialFramesAreRefused` | clients/rust/ios-shell/ui/frame-parser.js:25-60 | Every packed frame cut short is refused, as shorter than its header or truncated, and so is one without pixels. |

## Left out

- Receiver trace records: they are only written, never read back.
- The rest of `ReceiverStats` (datagram and byte counters, throughput, host timestamps): independent counters beside the packet-loss window.
- The packet-loss ratio as a floating-point quotient: only its two integer sums are modelled.
- The loss ledger, `loss_ratio`, `clear` and the taking of the start time of `FrameAssembler`: separate from reassembly.
- Mutexes and condition variables: each operation of `FrameQueue` is one atomic step; a receive that finds the queue empty and not stopped stands for a timeout, and the other receive is only enabled otherwise.
- Coordinates, modifiers, the activity clock and the watchdog of held input: they do not change what is held; parsing of coordinates and key names enters as its outcome. `Hotkey` produces the same two events as `KeyPress` and is that action here.
- Input sends that fail after having taken effect: a failed send is assumed to have none.
- Timeouts of `read_request` and errors of the underlying stream.
- Failures of a clipboard send after the chunk has gone out: a failed send is taken to have sent nothing. Lock poisoning in `send_clipboard_image`.
- The file and keychain backends of the pairing store, JSON, locks and migrations: only the in-memory store is modelled.
- Discovery, pairings, touch and mute settings, statistics values and the host name in `connection-state.js`; listeners that call back into the manager while it notifies them.
- `validateConnectRequest`: its verdict is an input. Empty error messages: every error message counts as present.
- Percentiles in floating point: ranks are exact rationals, rounded half up.
- `record_sample`, `record_us` and the lifetime `stats` of the latency recorder: thin wrappers around the members modelled.
- In-place sorting: the library sort is the function `LatencyRing.Sort`, proved to give an ordered permutation.
- JavaScript numbers: sizes are exact integers, which the original guarantees below 2^53 only.
- Overflow of `usize` and `Instant` arithmetic.
- FFmpeg, VideoToolbox, TLS, sockets, the session's worker threads and the user interface: foreign calls and plumbing.
