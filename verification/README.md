# Verified model of the media core of the live streaming server

A Dafny 4.11 model of the parts of the server where bytes, clocks and caches must agree across many functions, with
proofs of what they keep. `dafny verify dfyconfig.toml` checks the whole project.

Four cores are modelled, each in the form its source has: objects that update fields are classes whose methods are
proved against functions of the old state, loops are methods with invariants, packet buffers filled in place are
arrays, and expressions are functions. The main results are lemmas about those functions.

* **Frame ring and readers.** `RingView`, `FrameRing`, `RingHistory`: the GOP ring as a view of the append-only log of
  published frames. `Gops`: which frames start a GOP. `Dispatch`, `DispatchRuns`, `LiveRuns`, `LiveEviction`,
  `Landings`, `Holes`: a reader whose hub calls each see a view, later calls later views (`Script`), so that
  publishing and eviction may fall between any two of them, and whose flags the caller may take between any two
  receives.
* **RTMP.** `ChunkStream`, `ChunkCuts`, `ChunkDelivery`: the incremental chunk parser against the encoder, under any
  interleaving of chunk streams and any cutting into reads. `ChunkStandard`: parser and encoder against a receiver
  written byte by byte from section 5.3.1 of Adobe RTMP 1.0. `Utf8`, `Amf0`, `Amf0RoundTrip`: the value codec (AMF0,
  sections 2.2 to 2.11) with its lossy reading of text.
* **Framing.** `H264Util`, `NalTypes`, `FlvVideo`, `VideoTags`: Annex B, AVCC and FLV video tags. `Rtp`,
  `RtpStandard`, `RtspPacketizer`, `RtpH264`, `RtpReassembly`, `H264RtpIngest`, `IngestDelivery`, `RtpEndToEnd`,
  `RtpStreams`, `Aggregates`: H.264 over RTP (RFC 6184) from access unit to packets and back to a published frame.
  `AacRtp`: AAC over RTP (RFC 3640). `Crc32`, `TsTables`, `TsPackets`, `TsDemux`, `Pes`, `TsMuxer`, `TsRuns`,
  `TsClocks`: the transport-stream muxer against a demultiplexer written from ISO/IEC 13818-1.
* **Time and HLS.** `Timestamp`: clock conversion and the monotone FLV timeline. `HlsTiming`, `HlsSession`, `HlsRuns`,
  `HlsVideo`, `HlsAudio`, `HlsSplits`, `HlsSegments`, `HlsRequests`: segmentation on top of the muxer, over whole runs
  with lag recovery and failed writes. `M3u8`: the sliding playlist (RFC 8216).

`Bytes` and `Media` hold what they share.

## What the proofs say about the code

Where the simple claim is false the exact condition is proved instead:

* The ring's eviction loop ends if and only if the newest GOP fits both budgets, or is a single frame, or no key frame
  is held, or the newest key frame is not flagged as one (`FrameRing.EvictionEndsIff`; the smallest ring on which it
  never ends is in `FrameRing.TwoFramesNeverFit`). Front eviction looks only at the key-frame flag; on an unflagged
  IDR it empties the ring and leaves the IDR in the key list (`FrameRing.FrontEvictionKeepsGopIff`).
* A live reader whose burst ends in its IDR never delivers again (`LiveRuns.BurstThenReplayIff`,
  `LiveRuns.StuckForever`; two frames are enough, `LiveRuns.BurstEndsInIdr`). Audio behind the IDR of a burst is
  delivered twice (`LiveRuns.OthersTwiceIff`, `LiveRuns.AudioComesTwice`). Its video rises in every run over a log,
  whatever is evicted, if and only if the log has not one exact shape (`LiveEviction.LiveVideoRisesIff`): an IDR that
  the ring does not know for a key frame, with video behind it, before the first key frame, and later another IDR and
  a key frame behind it (`LiveEviction.FourFramesTrap`).
* A sequential reader behind the live edge of a hub that stands still is stuck without a flag if and only if the ring
  is empty, or it has fallen into the hole between the frames before the first key frame and the oldest GOP
  (`Holes.StalledIff`). It stays there over every run, for exactly as long as one of those first frames is kept
  (`Holes.HoleStall`, `Holes.HolePersistsIff`), which is as long as they fit beside the newest GOP
  (`Holes.HoleLastsWhilePrefixFits`). A family of rings reaches the hole at the 98th push (`Holes.HoleReachedIff`).
* A reader that subscribes at the live edge of an empty hub never delivers frame 0, whatever is published later
  (`LiveRuns.LiveReaderStart`).
* A reader that the ring has passed starts again on the last key frame of a hub that stands still
  (`Landings.JumpLandsOnKey`). When frames are published and evicted between its calls, `Landings.JumpBounds` says
  from which frames on it starts.
* A read that ends after a type 1 or 2 chunk header with a non-zero delta adds the delta twice; cuts are harmless if
  and only if no such header is pending (`ChunkCuts.CutIff`), and the encoder's output never leaves one
  (`ChunkDelivery.WireNeverPends`). `ChunkCuts.CutAddsTwice` is such a read. Messages with an empty payload are
  encoded but never returned.
* AMF0 reads Undefined back as Null, and stops at a top-level Number whose bytes start 00 09
  (`Amf0RoundTrip.AnyEncodingDecodesIff`). Bytes that are not UTF-8 are replaced (`Utf8.LossyKeepsIff`), which can
  make two keys one (`Amf0RoundTrip.KeysMerge`).
* Fragmenting a NAL loses its F bit (`RtpReassembly.RebuiltIff`). The ingest drops parameter-set NALs, and a marker on
  one publishes nothing (`RtpEndToEnd.AccessUnitDelivered`).
* The PTS field takes bits 31 to 33 of the tick count for bits 30 to 32, so it is right if and only if bits 30 to 33
  are equal; it falls back to 26 after three hours and nineteen minutes (`Pes.PtsExactIff`, `Pes.PtsFallsBack`). A
  video PES under 176 bytes is followed by 0xFF bytes in its packet, which its declared length cuts off again
  (`TsDemux.PesDemuxed`, `Pes.PesDecoded`). A frame of unknown codec goes out on the video PID under the audio counter
  (`TsRuns.UnknownRunsOnIff`), and of the codecs only H.264 and AAC travel on a PID that the PMT announces for them
  (`TsRuns.RightlyAnnouncedIff`). ADTS lengths hold up to 8184 bytes of AAC (`Pes.AdtsLengthIff`), and ADTS headers
  announce profile 0, which is AAC Main (`Pes.AdtsRead`). The clock reference counts 27 million ticks a second where
  90 thousand are due: it is right if and only if the time is a multiple of 2^32 milliseconds
  (`TsClocks.ClockRightIff`).
* A type 3 chunk that starts a message repeats the last delta in the standard, and one behind an extended time stamp
  carries it again; the parser does neither. It reads any bytes as the standard does if and only if neither kind comes
  (`ChunkStandard.StaysInStepIff`), and without the second kind its time stamps are behind by exactly the deltas
  repeated (`ChunkStandard.TimesBehind`). The encoder leaves the extended time stamp out of its own type 3 chunks
  (`ChunkStandard.EncoderConformsIff`).
* The HLS session clock follows the publisher's video, behind it by less than a millisecond a frame, through splits
  and lags (`HlsVideo.VideoKeepsPace`); AAC follows its own steps, brought into the window around it
  (`HlsAudio.AudioKeepsPace`). The tables of a segment announce audio if and only if an AAC frame had arrived before
  it was opened, so that audio which starts later travels unannounced (`HlsAudio.AudioAnnouncedIff`). A segment is
  closed exactly under the conditions of `HlsSplits.ClosesIff`; the publisher's time that counts there leaves out the
  step behind a split key frame.
* Every HLS segment keeps its video and audio on the session clock, lag or not, and is led by a key frame unless it is
  listed as discontinuous (`HlsSegments.SegmentsIndependent`). The video of a segment that a lag opened can be decoded
  alone if and only if the first video frame accepted after the lag is a key frame (`HlsSegments.ResumesIff`), and it
  need not be one (`HlsSegments.LagCanCutAGop`). The discontinuity of a lag is listed with the segment that follows
  it, but the tables that carry the transport stream's discontinuity indicator are those of the segment after that
  (`HlsRuns.FlagOneLate`).
* The publisher is asked for a key frame only before the first segment is closed and in a segment that a lag opened,
  since every other one starts on its split key frame: a long GOP in a running session asks for none
  (`HlsRequests.AskedOnlyAtStartOrLag`).
* The announced target duration never changes over a stream if and only if no segment is longer than the configured
  target, rounded up (`M3u8.TargetNeverChangesIff`).
* Without a clock rate a step of time stamps is taken for milliseconds or for 90 kHz ticks by its size alone
  (`Timestamp.MsReadIff`, `Timestamp.TicksReadIff`).
* Of several AAC access units in one RTP payload only the first is taken (`AacRtp.OnlyTheFirst`).

## Modelling choices

* Integers are unbounded where the source could only overflow after centuries; wrap-around that is reached is written
  out: 32-bit RTMP time-stamp sums, 16-bit RTP sequence numbers, 4-bit counters, 8- and 16-bit casts, and the
  saturating product of `write_pes_timestamp`. EXTINF, spans and thresholds are integer milliseconds or reals.
* AMF0 text is the bytes of a UTF-8 string, an AMF0 Number is eight bytes. A map is encoded in any order its iterator
  may yield.
* Delivered batches carry the sequence numbers of their frames, which the source does not return.
* Clocks, logging, a reader's key-frame requests, sockets and disk writes are no-ops or inputs: the time and whether a
  segment was written are part of the event.
* `FrameRing.FrameRing.Push` and `EvictIfNeeded` ask only that the eviction loop ends, as the source's caller must;
  `FrameRing.EvictionEndsIff` says when it does.
* Panics are values: `FlvVideo.FrameOf` is `Panics` where the source indexes five header bytes of a shorter message,
  and `Timestamp.FlvPlayTimeline.Map` returns `None` where it divides by an AAC clock rate of zero.

## Model

| member | source | states |
|---|---|---|
| ChunkStream.ChunkParser.ParseChunkHeader | src/server/rtmp/chunk.rs:66-217 | reads one basic and message header of any of the four types with inherited fields and extended time stamp, or nothing when bytes are missing; a header read is remembered for its chunk stream even if the chunk is not complete |
| ChunkStream.ChunkParser.ParseChunks | src/server/rtmp/chunk.rs:220-310 | one call takes whole chunks off the buffer until a message with a payload completes or bytes run out; the new state and message are the specified ones |
| ChunkStream.DrainIsRepeatedParse | src/server/rtmp/chunk.rs:220-310 | draining a buffer is calling the parser until it returns nothing |
| ChunkStream.EncodeBasicHeader | src/server/rtmp/chunk.rs:364-376 | appends the one-, two- or three-byte basic header, its id truncated to sixteen bits |
| ChunkStream.EncodeType0Header | src/server/rtmp/chunk.rs:379-410 | appends the eleven-byte type 0 header, its length truncated to 24 bits, and the extended time stamp when the time stamp needs it |
| ChunkStream.EncodeMessage | src/server/rtmp/chunk.rs:319-361 | the output is a type 0 chunk followed by type 3 chunks that cut the payload at the chunk size |
| ChunkCuts.StepPrefix | src/server/rtmp/chunk.rs:220-310 | a chunk that is taken is taken the same way whatever bytes follow |
| ChunkCuts.CutHarmless | src/server/rtmp/chunk.rs:171-183 | when no delta is pending, draining before and after more bytes arrive gives what one drain of all of them gives |
| ChunkCuts.CutIff | src/server/rtmp/chunk.rs:171-244 | a read boundary is harmless for every continuation if and only if no type 1 or 2 header with a non-zero delta is waiting for its data |
| ChunkCuts.CutAddsTwice | src/server/rtmp/chunk.rs:171-244 | a type 1 header with delta 40 and one byte to come: a read boundary in front of that byte makes the message 80 later instead of 40 |
| ChunkDelivery.ScheduleInterleaves | src/server/rtmp/chunk.rs:319-361 | in every schedule each chunk stream carries its encoded messages in order and uncut |
| ChunkDelivery.CompletedInQueueOrder | src/server/rtmp/chunk.rs:319-361 | per chunk stream the completed messages followed by those still queued are the queue |
| ChunkDelivery.HeaderRoundTrip | src/server/rtmp/chunk.rs:66-217 | any chunk header the encoder writes reads back as a description of its message |
| ChunkDelivery.BasicTruncated | src/server/rtmp/chunk.rs:364-376 | of a chunk stream id from 320 on the low sixteen bits, counted from 64, are what is read back |
| ChunkDelivery.ChunkTaken | src/server/rtmp/chunk.rs:220-310 | taking one chunk of a message keeps the parser in step with the sender, and returns the message exactly when it was the last one of a payload |
| ChunkDelivery.InterleavingDelivered | src/server/rtmp/chunk.rs:220-361 | any chunk-level interleaving over distinct chunk streams is parsed into exactly its messages, in completion order, with an empty buffer left |
| ChunkDelivery.WireNeverPends | src/server/rtmp/chunk.rs:319-361 | no prefix of what the encoder sends leaves a delta pending |
| ChunkDelivery.CutsDoNotMatter | src/server/rtmp/chunk.rs:220-361 | any cutting of an interleaving into reads gives the messages and final parser state of one read |
| ChunkDelivery.DeliveryUnderAnyReads | src/server/rtmp/chunk.rs:220-361 | both together from a fresh connection: whole delivery under any schedule and any cuts |
| ChunkStandard.FieldsAlike | src/server/rtmp/chunk.rs:103-217 | headers of type 0, 1 and 2 are read field by field as the standard receiver computes them from their bytes: time stamp or delta, length, type, stream, extended time stamp |
| ChunkStandard.HeadersAlike | src/server/rtmp/chunk.rs:66-217 | the same with the basic header in front, for any bytes and any remembered headers |
| ChunkStandard.DataAlike | src/server/rtmp/chunk.rs:220-310 | the data of a chunk is taken as the standard receiver takes it |
| ChunkStandard.StepFollows | src/server/rtmp/chunk.rs:66-310 | one chunk read by the parser and by a standard receiver: the same data, the time stamp behind by the deltas repeated |
| ChunkStandard.TimesBehind | src/server/rtmp/chunk.rs:185-217 | of any bytes without extended type 3 chunks the parser returns exactly the messages of a standard receiver, each behind by the deltas that type 3 chunks repeated on its chunk stream |
| ChunkStandard.AgreesIff | src/server/rtmp/chunk.rs:185-217 | all messages agree if and only if each is behind by a multiple of 2^32 |
| ChunkStandard.StaysInStepIff | src/server/rtmp/chunk.rs:171-310 | of any bytes the parser reads every chunk as a standard receiver does if and only if no type 3 chunk starts a message with a non-zero delta and none carries an extended time stamp |
| ChunkStandard.RepeatedDeltaLost | src/server/rtmp/chunk.rs:203-208 | a type 3 chunk behind a delta of 40: 40 later in the standard, not in the parser |
| ChunkStandard.StandardReadsEncoder | src/server/rtmp/chunk.rs:319-361 | what the encoder sends with time stamps below 0xFFFFFF, under any schedule, a standard receiver reads as the messages sent |
| ChunkStandard.EncoderConformsIff | src/server/rtmp/chunk.rs:319-361 | a standard receiver of one encoded message meets a type 3 chunk without its extended time stamp if and only if the message needs one and more than one chunk |
| FrameRing.AppendedRepresents | src/core/frame_ring.rs:72-95 | appending a frame keeps the representation of the log by slots, key lists, write position and byte count |
| FrameRing.OldestGopDropped | src/core/frame_ring.rs:159-166 | evicting the oldest of several GOPs drops it wholly, its key entries and exact bytes included, and nothing else |
| FrameRing.PrefixDropped | src/core/frame_ring.rs:168-177 | front eviction removes the frames before the first key frame and stops at a flagged one |
| FrameRing.FrontEvictionKeepsGopIff | src/core/frame_ring.rs:168-177 | with one GOP left front eviction keeps it if and only if its key frame is flagged; otherwise the ring is emptied and the key list names a lost frame |
| FrameRing.EvictionEndsIff | src/core/frame_ring.rs:147-157 | the eviction loop ends if and only if the newest GOP fits both budgets, has one frame, no key frame is held, or the newest key frame is not flagged |
| FrameRing.TwoFramesNeverFit | src/core/frame_ring.rs:147-157 | a flagged key frame and one frame behind it never settle in a ring for one frame |
| FrameRing.SettledViewHolds | src/core/frame_ring.rs:147-157 | where eviction stops both budgets hold or at most one frame is left, the newest GOP is untouched and nothing comes back |
| FrameRing.LeastEviction | src/core/frame_ring.rs:147-166 | no GOP is dropped that the budgets could have kept |
| FrameRing.PrefixGoesLast | src/core/frame_ring.rs:147-177 | the frames before the first key frame go only when they do not fit beside the newest GOP |
| FrameRing.FrameRing.Push | src/core/frame_ring.rs:72-95 | wherever the eviction loop ends: the frame is appended under the next sequence number, the ring is what the turns of the loop leave, and both budgets hold or at most one frame is left; a ring that stands for a view, whose newest GOP fits and is flagged where the frames in front of it must go, stands for the settled view of the longer log, and then the frame is noted as GOP start and key frame if and only if it is one by its flag or its bytes |
| FrameRing.FrameRing.EvictIfNeeded | src/core/frame_ring.rs:147-157 | wherever the loop ends it leaves what its turns leave, and the settled view under the same condition |
| FrameRing.FrameRing.EvictOldest | src/core/frame_ring.rs:159-166 | the in-place eviction is the specified one |
| FrameRing.FrameRing.RemoveSeqRange | src/core/frame_ring.rs:179-188 | keeps exactly the slots outside the range, with their exact byte count |
| FrameRing.FrameRing.EvictFrontUntilKeyframeOrEmpty | src/core/frame_ring.rs:168-177 | pops slots up to the first flagged key frame |
| FrameRing.FrameRing.Get | src/core/frame_ring.rs:97-99 | the frame of a kept sequence number, nothing otherwise |
| FrameRing.FrameRing.Snap | src/core/frame_ring.rs:126-131 | the live edge, or the latest kept key frame |
| FrameRing.FrameRing.FramesFrom | src/core/frame_ring.rs:133-141 | the kept frames of the range, in order |
| Media.GopStartIff | src/core/frame_ring.rs:196-224 | a frame is a GOP start if and only if it is H.264 or H.265 and flagged, or has in its bytes 00 00 01 with type 5 behind it, at the end only behind a four-byte code |
| Gops.StartsGopIff | src/core/frame_ring.rs:196-224 | a frame whose NALs stand behind four-byte codes starts a GOP if and only if it is flagged or one of them has type 5 |
| Gops.StartsGopShortIff | src/core/frame_ring.rs:196-224 | the same behind three-byte codes, unless the last NAL is a single byte |
| RingView.KeySeqsAppend | src/core/frame_ring.rs:72-95 | a published frame extends the list of key frames exactly when it is one |
| RingView.WindowWhole | src/core/frame_ring.rs:133-141 | a window in which nothing was evicted is that stretch of the log |
| RingView.WindowOrdered | src/core/frame_ring.rs:133-141 | a window holds only kept frames of its range in strictly increasing order |
| RingView.WindowComplete | src/core/frame_ring.rs:133-141 | a window leaves out no kept frame of its range |
| RingHistory.PushIsLater | src/core/frame_ring.rs:72-95 | a push appends one frame and never brings back a frame that was gone |
| RingHistory.RingScriptForward | src/core/stream_hub.rs:128-179 | however hub calls fall between pushes, they see the views of a forward script |
| Dispatch.CoalesceFlvBatch | src/core/dispatch.rs:502-529 | of a batch with several video frames, the other frames and then the last playable IDR; otherwise the batch |
| Dispatch.DispatchReader.BeginVideoCatchupAfterIdr | src/core/dispatch.rs:79-86 | the cursor stands behind the IDR with the burst end as catch-up mark |
| Dispatch.DispatchReader.FindLastPlayableIdr | src/core/dispatch.rs:490-500 | searches the hub backwards, one locked call a frame, for a playable IDR |
| Dispatch.DispatchReader.ReplayGop | src/core/dispatch.rs:307-324 | delivers the rest of a burst once, or nothing behind its end |
| Dispatch.DispatchReader.JumpToIdr | src/core/dispatch.rs:366-391 | an empty window behind the oldest frame jumps to the latest IDR and raises the resync flag |
| Dispatch.DispatchReader.DeliverBatch | src/core/dispatch.rs:396-416 | moves the cursor and coalesces per policy |
| Dispatch.DispatchReader.RecvBatch | src/core/dispatch.rs:304-417 | one receive under any interleaving of pushes and evictions between its hub calls |
| Dispatch.DispatchReader.TakeMuxerResync | src/core/dispatch.rs:294-297 | the resync flag, lowered by asking |
| Dispatch.DispatchReader.TakeLiveSnap | src/core/dispatch.rs:299-302 | the live-snap flag, lowered by asking |
| DispatchRuns.OrderedRecv | src/core/dispatch.rs:326-416 | every policy but live coalescing: a batch of at most 96 frames, increasing, inside the span the cursor moved over, with every frame of it that was kept when the window was read unless this receive raised a flag |
| Landings.StartsAt | src/core/dispatch.rs:56-77 | where a reader starts on any hub: behind the newest frame, or on the last kept key frame, or on the newest frame without one |
| Landings.JumpBounds | src/core/dispatch.rs:366-391 | whatever is published and evicted meanwhile, a reader that the ring has passed raises the resync flag alone and starts again not before the oldest frame kept nor before any key frame kept a call later; its batch is the window from there |
| Landings.JumpLandsOnKey | src/core/dispatch.rs:366-391 | over a hub that stands still such a reader receives the log from its last key frame on, at most 96 frames |
| Landings.WebRtcRecv | src/core/dispatch.rs:326-365 | a WebRTC reader more than 45 frames behind skips to the live edge and says so; a closer one receives the one frame at its cursor |
| Landings.CatchesUp | src/core/dispatch.rs:307-324 | whatever is published and evicted, a live reader that catches up goes on to the newest frame or the end of its burst, and is through with it if and only if it has reached that end |
| DispatchRuns.FlagsStay | src/core/dispatch.rs:304-416 | a pending flag changes nothing in what a receive does, and stays pending |
| DispatchRuns.SequentialIntact | src/core/dispatch.rs:326-416 | with nothing past the cursor evicted a batch is the next stretch of the log |
| DispatchRuns.OrderedRun | src/core/dispatch.rs:304-416 | over any run of such a reader, with flags taken at will, delivered frames strictly increase and are the published ones |
| DispatchRuns.RunAt | src/core/dispatch.rs:304-416 | receive i of a run is one receive of the reader it finds, its batch between those before and those after |
| DispatchRuns.PassedOverOnlyEvicted | src/core/dispatch.rs:326-416 | in any run, a receive that moves over a frame still kept when its window was read delivers it, or leaves a flag up that it raised itself; a sequential reader is never snapped to the live edge |
| DispatchRuns.SequentialRunIntact | src/core/dispatch.rs:304-416 | with nothing past the current cursor ever evicted the batches of a run of any length concatenate to the log, and no flag is raised |
| Holes.HoleStall | src/core/dispatch.rs:366-394 | while frames from before the first key frame are kept and the next 96 behind it are gone, a sequential reader receives nothing and raises no flag, over every run |
| Holes.StalledIff | src/core/dispatch.rs:326-394 | a sequential reader behind the live edge of a hub that stands still is left where it is, silently, if and only if it is in that hole or the ring is empty |
| Holes.HolePersistsIff | src/core/frame_ring.rs:159-177 | whatever is published or evicted, the hole is there exactly as long as a frame from before the first key frame is kept |
| Holes.HoleLastsWhilePrefixFits | src/core/frame_ring.rs:147-177 | a push does not close the hole while those frames fit beside the newest GOP |
| Holes.HoleReachedIff | src/core/frame_ring.rs:72-95 | a ring for two frames, after one audio frame and key frames only: a reader behind the first frame is in the hole if and only if 98 frames or more were pushed |
| LiveRuns.BurstIdrIs | src/core/dispatch.rs:502-529 | the IDR a burst collapses to is its last playable one |
| LiveRuns.SearchFindsLastIdr | src/core/dispatch.rs:490-500 | the search through the hub finds the IDR that the collapsed batch carries |
| LiveRuns.BurstRecv | src/core/dispatch.rs:396-410 | a burst of several video frames delivers the other frames and no video, or exactly its last playable IDR |
| LiveRuns.ReplayRecv | src/core/dispatch.rs:307-324 | the next receive delivers exactly the frames between that IDR and the end of the burst |
| LiveRuns.StuckForever | src/core/dispatch.rs:79-81 | behind an IDR that ended its burst every later receive is empty |
| LiveRuns.BurstThenReplayIff | src/core/dispatch.rs:79-86 | after a burst with an IDR the next receive brings frames if and only if the IDR was not its last frame |
| LiveRuns.BurstEndsInIdr | src/core/dispatch.rs:79-86 | a burst of a frame and its IDR delivers the IDR, and the next receive nothing |
| LiveRuns.OthersTwiceIff | src/core/dispatch.rs:307-410 | a frame of a burst that is not video is delivered with the burst, and again by the next receive if and only if it lies behind the IDR |
| LiveRuns.AudioComesTwice | src/core/dispatch.rs:307-410 | video, its IDR and audio: the audio comes with the burst and again by itself |
| LiveRuns.LiveRecv | src/core/dispatch.rs:304-417 | every receive of a live reader with nothing evicted past its cursor is one of these batches |
| LiveRuns.LiveRun | src/core/dispatch.rs:304-417 | over any run with nothing past the current cursor evicted delivered video strictly increases |
| LiveEviction.RecvRises | src/core/dispatch.rs:304-417 | whatever is evicted during a receive, unless the log has the shape: its video rises above all delivered before, and what it passed over below that is gone for good |
| LiveEviction.TrapSprings | src/core/dispatch.rs:398-410 | from a log of the shape there are two receives that send older video after newer |
| LiveEviction.FourFramesTrap | src/core/dispatch.rs:490-529 | the shape with four frames |
| LiveEviction.LiveVideoRisesIff | src/core/dispatch.rs:304-417 | delivered video strictly increases in every run over a log, however it is published and evicted, if and only if the log does not have the shape |
| LiveRuns.RunFrom | src/core/dispatch.rs:304-417 | whatever the policy and whatever was evicted, a run delivers nothing from before its first cursor |
| LiveRuns.LiveReaderStart | src/core/dispatch.rs:56-77 | subscribed to an empty hub, a reader that starts at the live edge never delivers frame 0 in any run; one that starts at an IDR delivers the log from frame 0 on if nothing past its cursor is evicted |
| Amf0.Decode | src/server/rtmp/amf0.rs:58-86 | values up to the end of the data, an object end, or an error |
| Amf0.DecodeValueAt | src/server/rtmp/amf0.rs:88-132 | one value by its marker, with where it ends; text is read lossily |
| Amf0.DecodeObjectInner | src/server/rtmp/amf0.rs:160-213 | properties up to the object end, tolerating a missing one as the source does; of keys that read alike the last one counts |
| Utf8.TextIffChars | src/server/rtmp/amf0.rs:134-153 | text is exactly what lists of Unicode scalar values are written as in UTF-8 |
| Utf8.LossyKeepsIff | src/server/rtmp/amf0.rs:150 | the lossy reading always gives text, and changes exactly the bytes that were not text |
| Amf0RoundTrip.KeysMerge | src/server/rtmp/amf0.rs:196-206 | two properties whose keys are not text decode to one, the second |
| Amf0.EncodeValue | src/server/rtmp/amf0.rs:225-268 | appends some encoding of the value: its maps in some order |
| Amf0.EncodeObjectProperties | src/server/rtmp/amf0.rs:270-280 | every property once, in some order |
| Amf0.Encode | src/server/rtmp/amf0.rs:216-223 | some encoding of the list, value by value |
| Amf0RoundTrip.ValueRoundTrip | src/server/rtmp/amf0.rs:88-280 | at any depth and in any map order an encoded value decodes to itself with Undefined as Null, in front of any bytes |
| Amf0RoundTrip.FieldsRoundTrip | src/server/rtmp/amf0.rs:160-280 | properties in front of an object end decode to their map, wherever in the data they start |
| Amf0RoundTrip.NodeOfSizesOk | src/server/rtmp/amf0.rs:225-280 | non-empty keys and strings of at most 65535 bytes suffice, whatever order the map is written in |
| Amf0RoundTrip.ListRoundTrip | src/server/rtmp/amf0.rs:58-86 | a list decodes up to the first Number that looks like an object end |
| Amf0RoundTrip.AnyEncodingDecodesIff | src/server/rtmp/amf0.rs:58-280 | whatever the encoder may return for a list decodes to the list, Undefined as Null, with every byte consumed, if and only if no top-level Number starts 00 09 |
| Amf0RoundTrip.DecodeEncodeIff | src/server/rtmp/amf0.rs:58-280 | decoding an encoded list returns all of it and consumes every byte if and only if no top-level Number starts 00 09 |
| Amf0RoundTrip.WireForms | src/server/rtmp/amf0.rs:225-255 | marker and bytes of every value that is no map |
| Amf0RoundTrip.MapForms | src/server/rtmp/amf0.rs:242-266 | marker, count and end of an object and of an ECMA array, around the bytes of the properties |
| Amf0RoundTrip.Refused | src/server/rtmp/amf0.rs:88-132 | any other marker is an error behind it, and so is a value cut short |
| Amf0RoundTrip.FieldsMayEnd | src/server/rtmp/amf0.rs:160-213 | how an object may end behind its properties: at an end marker, an empty key with or without it, a key cut short, which makes it an error, or a value that cannot be read |
| Amf0RoundTrip.ListMayEnd | src/server/rtmp/amf0.rs:58-86 | how a list may end behind its values: with the data, at 00 00 09, or at anything that is no value, which is an error only without a value before it |
| H264Util.IterAnnexBNalRanges | src/server/webrtc/h264_util.rs:76-114 | the NAL ranges between four-byte start codes, with the three-byte fallback |
| H264Util.SplitJoined | src/server/webrtc/h264_util.rs:76-114 | joined NALs without an inner four-byte code split into themselves |
| H264Util.SplitJoinIff | src/server/webrtc/h264_util.rs:76-114 | an access unit splits into the NALs it was joined from if and only if none has a start code inside |
| NalTypes.ContainsIff | src/server/webrtc/h264_util.rs:140-150 | data has a NAL of a type if and only if a four-byte code has it behind, or without any such NAL the lone one in front has it |
| NalTypes.KeyframeIff | src/server/webrtc/h264_util.rs:181-183 | Annex B data is a key frame if and only if type 5 is in front or behind a four-byte code |
| NalTypes.KeyFramesIff | src/server/hls/mod.rs:31-34 | a session takes a frame for a key frame if and only if it is H.264 or H.265 and flagged or such data |
| FlvVideo.AvccToAnnexB | src/server/rtmp/puller.rs:536-550 | each length-prefixed NAL behind a start code, up to a length that does not fit |
| FlvVideo.VideoPayloadToFrame | src/server/rtmp/puller.rs:525-567 | the frame of an AVC video message, nothing for other messages, a panic for NALU messages of two to four bytes |
| FlvVideo.FrameToRtmpVideo | src/server/rtmp/session.rs:328-380 | an FLV header and the NALs between start codes, length-prefixed |
| FlvVideo.SplitJoinIffShortFree | src/server/rtmp/session.rs:343-377 | an Annex B frame splits into the NALs it was joined from if and only if none has 00 00 01 inside |
| FlvVideo.TilesOfAvcc | src/server/rtmp/puller.rs:536-550 | a well-tiled payload is cut into exactly its NALs |
| FlvVideo.AvccInjective | src/server/rtmp/puller.rs:536-550 | two lists of NALs with the same AVCC bytes are the same list |
| FlvVideo.AvccRoundTripIff | src/server/rtmp/session.rs:328-380 | AVCC to Annex B and back is the identity if and only if no NAL has 00 00 01 inside, NALs that end in zeros included |
| VideoTags.TagHeader | src/server/rtmp/session.rs:328-342 | the five bytes in front of a sent frame, 17 for key frames and 27 for others |
| VideoTags.TagRoundTripIff | src/server/rtmp/puller.rs:525-567 | a frame sent as RTMP video and received again has its time stamp, its key-frame mark by flag or bytes, and its NALs if and only if none has 00 00 01 inside |
| Rtp.BuildThenInfo | src/server/rtsp/common.rs:217-233 | a built RTP packet reads back field by field if it has a payload, the marker also set by a payload type of more than seven bits |
| RtpStandard.BuiltAs | src/server/rtsp/common.rs:217-233 | a built packet field by field in the fixed header of RFC 3550 |
| RtpStandard.ReadAs | src/server/webrtc/h264_rtp_ingest.rs:233-267 | any packet is read by those fields, its payload past contributing sources and extension; without a payload it is none |
| RtspPacketizer.PacketizeH264Nal | src/server/rtsp/common.rs:956-1003 | one packet, or FU-A fragments of at most 1200 bytes, with consecutive sequence numbers |
| RtspPacketizer.PacketizeFragments | src/server/rtsp/common.rs:974-1002 | the fragment loop |
| RtspPacketizer.PacketizeH264AccessUnit | src/server/rtsp/common.rs:1006-1028 | the packets of all NALs, the marker on the last one |
| RtpReassembly.PacketFields | src/server/rtsp/common.rs:956-1028 | packet k carries sequence number s + k modulo 2^16, the common time stamp, and the marker exactly on the last, or on all if the payload type has more than seven bits |
| RtpReassembly.FragmentsConform | src/server/rtsp/common.rs:974-1002 | every fragment has the NAL type and importance bits of its NAL, start and end bits exactly on the first and last, at most 1200 bytes |
| RtpReassembly.LongNalSplits | src/server/rtsp/common.rs:974-1002 | a long NAL takes at least two fragments, so no fragment has both bits |
| RtpH264.H264RtpDepacketizer.ParseStapA | src/server/webrtc/rtp_h264.rs:103-126 | the NALs of an aggregation packet, or nothing if one overruns it |
| RtpH264.H264RtpDepacketizer.PushPayload | src/server/webrtc/rtp_h264.rs:28-45 | one payload through the depacketizer, by its type |
| RtpH264.H264RtpDepacketizer.PushFragment | src/server/webrtc/rtp_h264.rs:51-81 | one fragment started, continued, finished or refused |
| Aggregates.AggregateRead | src/server/webrtc/rtp_h264.rs:103-126 | NALs each behind a two-byte length are read in order, with one stray byte behind them |
| Aggregates.ReadAggregate | src/server/webrtc/rtp_h264.rs:103-126 | and whatever is read was so aggregated |
| Aggregates.AggregatePushed | src/server/webrtc/rtp_h264.rs:28-45 | an aggregation packet comes out as Annex B of its NALs |
| Aggregates.AggregateRefused | src/server/webrtc/rtp_h264.rs:28-45 | one that is no aggregate fails, the fragment buffer kept |
| Aggregates.PartKeyIff | src/server/webrtc/h264_rtp_ingest.rs:62-98 | a part is marked as key if and only if its payload is or aggregates or starts a NAL of type 5, or its Annex B bytes are a key frame |
| RtpReassembly.FragmentsReassemble | src/server/webrtc/rtp_h264.rs:51-81 | the fragments of a NAL reassemble to it, its F bit cleared |
| RtpReassembly.NalReassembles | src/server/webrtc/rtp_h264.rs:28-81 | one NAL through packetizer and depacketizer, whatever was left in the fragment buffer |
| RtpReassembly.AccessUnitReassembles | src/server/rtsp/common.rs:1006-1028 | a whole access unit comes out NAL by NAL, in order, nothing rejected |
| RtpReassembly.RebuiltIff | src/server/webrtc/rtp_h264.rs:51-81 | the rebuilt NAL is the NAL sent if and only if it was not fragmented or has a clear F bit |
| H264RtpIngest.Ingest.IngestRtpPacket | src/server/webrtc/h264_rtp_ingest.rs:51-60 | one packet through the sequence check and the batch |
| H264RtpIngest.Ingest.IngestRtpPayload | src/server/webrtc/h264_rtp_ingest.rs:62-98 | a payload that completes a part joins the batch; parameter sets and failures do not |
| H264RtpIngest.Ingest.Collect | src/server/webrtc/h264_rtp_ingest.rs:83-92 | a part of a new time stamp first flushes the batch |
| H264RtpIngest.Ingest.FlushAccessUnit | src/server/webrtc/h264_rtp_ingest.rs:104-186 | the batch becomes a frame if and only if it holds a coded slice |
| H264RtpIngest.Ingest.AcceptSequence | src/server/webrtc/h264_rtp_ingest.rs:188-211 | a gap discards the partial unit; the packet is refused exactly when it continues a fragment lost in it |
| IngestDelivery.GapForgets | src/server/webrtc/h264_rtp_ingest.rs:188-217 | after a gap the run publishes what a new session would: no part from before it appears |
| IngestDelivery.RunIsBySpans | src/server/webrtc/h264_rtp_ingest.rs:51-217 | any run publishes what its spans of consecutive packets publish on their own |
| IngestDelivery.GroupsArePartsInOrder | src/server/webrtc/h264_rtp_ingest.rs:62-127 | without a gap the groups and the batch are exactly the parts in arrival order, each group of one time stamp |
| RtpEndToEnd.JoinedTypes | src/server/webrtc/h264_util.rs:140-184 | type tests on a joined access unit see exactly the types of its NALs |
| RtpEndToEnd.NalIngested | src/server/webrtc/h264_rtp_ingest.rs:51-98 | the packets of one NAL leave the ingest with that NAL added, unless it is a parameter set |
| RtpEndToEnd.AccessUnitIngested | src/server/webrtc/h264_rtp_ingest.rs:51-127 | the packets of an access unit leave the work of its kept NALs |
| RtpEndToEnd.AccessUnitDelivered | src/server/webrtc/h264_rtp_ingest.rs:51-186 | packetizer to published frame: one frame with the kept NALs, time stamp and IDR flag if and only if a slice is kept and the last NAL is no parameter set; the ingest then expects the next packet, and its batch is empty if and only if no kept NAL waits |
| RtpStreams.UnitIngested | src/server/webrtc/h264_rtp_ingest.rs:51-127 | the packets of one access unit, whatever waits in the batch: what waited under another time stamp is closed first |
| RtpStreams.UnitsDelivered | src/server/webrtc/h264_rtp_ingest.rs:51-217 | packetizer to published frames for any list of access units sent one after the other, ending in parameter sets or not: what is published, what is left waiting, and an ingest ready for the next packet |
| RtpStreams.FramesInOrder | src/server/webrtc/h264_rtp_ingest.rs:83-127 | with a new time stamp for every unit, the published frames and then what waits are the own frames of the units, in order |
| RtpStreams.OneUnitLater | src/server/webrtc/h264_rtp_ingest.rs:83-127 | a unit that ends in a parameter set comes out with the next one |
| AacRtp.ReadBits | src/server/rtsp/common.rs:1160-1171 | n bits, most significant first, or nothing |
| AacRtp.ReadAacHbrAuSize | src/server/rtsp/common.rs:1158-1175 | the thirteen-bit size with its index bits present |
| AacRtp.SizeIs | src/server/rtsp/common.rs:1158-1175 | the bit reader finds the upper thirteen bits of a two-byte header |
| AacRtp.StripMpeg4GenericAac | src/server/rtsp/common.rs:1112-1155 | the checks of the header section and the first access unit or fragment |
| AacRtp.Stripped | src/server/rtsp/common.rs:1112-1155 | what comes out of a payload with headers in place: the announced bytes, or a lone fragment, or nothing |
| AacRtp.OnlyTheFirst | src/server/rtsp/common.rs:1112-1155 | of several access units in one payload exactly the first comes out |
| AacRtp.RoundTripIff | src/server/rtsp/common.rs:1080-1155 | a frame comes back unchanged if and only if it has 1 to 8191 bytes and no ADTS header with bytes behind it |
| AacRtp.WrapIs | src/server/rtsp/common.rs:1080-1095 | sixteen bits of headers, size modulo 8192 and index 0, and the frame without its ADTS header |
| AacRtp.WithoutAdtsIs | src/server/rtsp/common.rs:1097-1109 | what is taken for an ADTS header, and where the frame behind it ends |
| AacRtp.AdtsRemovedIff | src/server/rtsp/common.rs:1097-1109 | the ADTS header of the transport-stream muxer is taken off exactly up to its thirteen-bit length |
| Crc32.BuildTable | src/server/hls/ts_muxer.rs:25-43 | entry i is i shifted out of the top byte through the polynomial |
| Crc32.Crc | src/server/hls/ts_muxer.rs:45-52 | the table-driven register after the data |
| Crc32.StepsAgree | src/server/hls/ts_muxer.rs:48-49 | one byte through the table is eight bits through the bit-serial register |
| Crc32.TableCrcIsSerial | src/server/hls/ts_muxer.rs:45-52 | the table-driven CRC is bit-serial division by 0x04C11DB7, for every byte string and start |
| Crc32.ResidueZero | src/server/hls/ts_muxer.rs:113-114 | any data followed by its CRC leaves a zero register |
| TsTables.PatPayload | src/server/hls/ts_muxer.rs:98-116 | pointer field, PAT section and CRC |
| TsTables.PmtPayload | src/server/hls/ts_muxer.rs:127-174 | pointer field, PMT section for the streams present and CRC |
| TsTables.SectionResidue | src/server/hls/ts_muxer.rs:113-174 | every section followed by its CRC leaves residue 0 in the bit-serial register |
| TsTables.TablesAreGood | src/server/hls/ts_muxer.rs:98-183 | every PAT and PMT has the declared length and a CRC that checks |
| TsTables.TablesRead | src/server/hls/ts_muxer.rs:98-183 | a demultiplexer reads from the PAT the program and its PMT PID, and from the PMT the PCR PID and exactly the streams present, with type and PID |
| TsTables.TableBytes | src/server/hls/ts_muxer.rs:98-174 | the tables byte by byte |
| TsPackets.PesPacket | src/server/hls/ts_muxer.rs:354-406 | one PES packet filled in place: header, clock reference or stuffing, payload |
| TsPackets.PesToTsPackets | src/server/hls/ts_muxer.rs:349-411 | the packets of a PES and the counter after them |
| TsPackets.TablePacket | src/server/hls/ts_muxer.rs:435-480 | one table packet filled in place, two stuffing bytes at least for a discontinuity |
| TsPackets.TableToTsPackets | src/server/hls/ts_muxer.rs:424-498 | the packets of a table payload, one of zeros for an empty payload |
| TsPackets.WriteAdaptationPrefix | src/server/hls/ts_muxer.rs:320-346 | control byte, field length, flags and clock reference in their places, with and without a discontinuity or a clock |
| TsDemux.ParseEncoded | src/server/hls/ts_muxer.rs:349-498 | a demultiplexer reads PID, start, counter, discontinuity and payload of any packet as they were meant |
| TsDemux.StreamRead | src/server/hls/ts_muxer.rs:349-498 | a stream of packets is whole 188-byte packets that read back one by one |
| TsDemux.PesDemuxed | src/server/hls/ts_muxer.rs:349-411 | the payloads of a PES add up to it, with 0xFF fill if and only if it is a video PES under 176 bytes |
| TsDemux.TableDemuxed | src/server/hls/ts_muxer.rs:424-498 | a table payload comes back whole, its first packet alone flagged when a discontinuity was due |
| TsDemux.PesCounted | src/server/hls/ts_muxer.rs:408 | the counters of a PES step by one modulo 16 on one PID |
| Pes.WritePesTimestamp | src/server/hls/ts_muxer.rs:310-317 | the five time-stamp bytes of the saturated tick count |
| Pes.TimestampRead | src/server/hls/ts_muxer.rs:310-317 | a decoder reads the low 30 bits and bits 31 to 33 in place of bits 30 to 32 |
| Pes.PtsExactIff | src/server/hls/ts_muxer.rs:310-317 | the decoded PTS is the tick count modulo 2^33 if and only if bits 30 to 33 are all equal |
| Pes.PtsFallsBack | src/server/hls/ts_muxer.rs:312 | at 11930464 ms the PTS is right, one millisecond later it reads 26 |
| Pes.AdtsLengthIff | src/server/hls/ts_muxer.rs:501-519 | the ADTS header announces the frame length if and only if the AAC has at most 8184 bytes |
| Pes.AdtsRead | src/server/hls/ts_muxer.rs:501-519 | the other fields of an ADTS header: AAC Main, 44100 Hz, two channels, one block |
| Pes.WrappedIff | src/server/hls/ts_muxer.rs:501-519 | AAC gets an ADTS header unless it is empty or starts with twelve ones |
| Pes.PreparedIff | src/server/hls/ts_muxer.rs:252-270 | an access unit gets the six bytes of a delimiter unless it is empty or has one right in front |
| Pes.TicksAre | src/server/hls/ts_muxer.rs:310-312 | 90 ticks a millisecond, up to 64 bits |
| Pes.DelimiterInFront | src/server/hls/ts_muxer.rs:252-270 | an access unit gets one delimiter NAL in front unless it starts with one; its own NALs are the same |
| Pes.BuildPes | src/server/hls/ts_muxer.rs:273-308 | header, length up to 65535, flags, time stamp and elementary stream |
| Pes.PesDecoded | src/server/hls/ts_muxer.rs:273-308 | from the unit a demultiplexer collects a decoder takes the elementary stream, fill or not, with the carried time stamp |
| TsMuxer.TsMuxer.GeneratePat | src/server/hls/ts_muxer.rs:98-124 | emits the PAT packets, steps their counter and takes the discontinuity |
| TsMuxer.TsMuxer.GeneratePmt | src/server/hls/ts_muxer.rs:127-183 | emits the PMT packets and steps their counter |
| TsMuxer.TsMuxer.GeneratePatPmt | src/server/hls/ts_muxer.rs:186-190 | both, in that order |
| TsMuxer.TsMuxer.FrameToTs | src/server/hls/ts_muxer.rs:193-228 | emits the packets of a frame on the PID and counter of its codec, nothing for an empty one |
| TsMuxer.TsMuxer.MarkSegmentDiscontinuity | src/server/hls/ts_muxer.rs:83-85 | the next PAT is due a discontinuity |
| TsMuxer.TsMuxer.UpdatePcr | src/server/hls/ts_muxer.rs:235-237 | the clock of later frames |
| TsMuxer.TsMuxer.HardReset | src/server/hls/ts_muxer.rs:93-95 | counters, clock and mark as new |
| TsRuns.OpDemuxed | src/server/hls/ts_muxer.rs:98-228 | one operation adds its unit on its own PID and nothing on any other |
| TsRuns.RunDelivered | src/server/hls/ts_muxer.rs:98-498 | the bytes of any run are whole packets; every PID yields its units in order, frames decode to their content in raw bytes and the carried PTS, and with known codecs every counter steps by one modulo 16 across the run |
| TsRuns.ContentIs | src/server/hls/ts_muxer.rs:200-207 | what a frame is sent as: video behind a delimiter, AAC behind an ADTS header, anything else as it is |
| TsRuns.UnknownRunsOnIff | src/server/hls/ts_muxer.rs:194-227 | a frame of unknown codec keeps the continuity of the video PID if and only if the counters agree and the packets are a multiple of sixteen |
| TsRuns.RightlyAnnouncedIff | src/server/hls/ts_muxer.rs:164-201 | frames travel on a PID that the PMT announces with their stream type if and only if they are H.264 or AAC |
| TsClocks.FrameClock | src/server/hls/ts_muxer.rs:354-373 | a video frame carries the clock in its first packet, and nothing else does |
| TsClocks.ClockSet | src/server/hls/ts_muxer.rs:235-237 | the clock that later frames carry |
| TsClocks.ClockRightIff | src/server/hls/ts_muxer.rs:235-237 | it is the right one if and only if the time is a multiple of 2^32 milliseconds |
| Timestamp.DeltaTruncates | src/core/timestamp.rs:34-54 | a known clock loses less than a millisecond in a step and never gains |
| Timestamp.FlvPlayTimeline.Map | src/core/timestamp.rs:125-187 | one frame advances its own clock and emits the specified time stamp, masked to 32 bits; an AAC clock rate of zero panics and changes nothing |
| Timestamp.StepBounds | src/core/timestamp.rs:125-187 | no clock runs back, the emission covers both, and repeats the last one only at zero |
| Timestamp.RunBounds | src/core/timestamp.rs:125-187 | over n frames the last emission lies between the larger clock and that clock plus n |
| Timestamp.RunMonotone | src/core/timestamp.rs:125-187 | emissions never decrease and strictly increase once positive |
| Timestamp.SteadyLag | src/core/timestamp.rs:125-187 | on video or audio of one clock with steps of 1 to 1999 ms the emission follows the clock and lags under a millisecond a frame |
| Timestamp.ClockStep | src/core/timestamp.rs:125-187 | what a frame does to the clock of its kind: a step of 1 to 1999 ms by its rate or the one before moves it by that step, any other by a millisecond for video and by 1024 samples for audio, the first not at all; the other clock stands |
| Timestamp.AloneKeepsTime | src/core/timestamp.rs:125-187 | from a fresh timeline, with video alone or audio alone, the tag after n frames is within n - 1 ms of the elapsed time |
| Timestamp.StalledAudio | src/core/timestamp.rs:151-166 | audio whose time stamps stand still goes on by the length of 1024 samples a frame |
| Timestamp.MsReadIff | src/core/timestamp.rs:12-54 | without a clock rate a step is read as milliseconds if and only if it is below 900, or below 2001 and unlike a 90 kHz video step |
| Timestamp.TicksReadIff | src/core/timestamp.rs:12-54 | and as 90 kHz ticks if and only if they last ten milliseconds |
| HlsTiming.SplitIff | src/server/hls/timing.rs:45-57 | for a target not negative a split happens if and only if a key frame finds media, bytes and 85% of the threshold |
| HlsTiming.AdvanceMoves | src/server/hls/timing.rs:60-94 | the video clock never runs back, moves less than 500 ms a frame, and stands only at zero |
| HlsSession.HlsSession.OnFrame | src/server/hls/mod.rs:286-525 | a frame is dropped, muxed, or closes the segment and opens the next, and may ask the publisher for a key frame; nothing after the session ended; buffer and segment are the bytes of the muxer operations, under the name and program date of the segment |
| HlsSession.HlsSession.Close | src/server/hls/mod.rs:417-477 | the closed segment, its duration and flags, and the header of the next one |
| HlsSession.HlsSession.MuxFrame | src/server/hls/mod.rs:485-523 | the frame on its mux clock, after the clock reference |
| HlsSession.HlsSession.MuxTimestampMs | src/server/hls/mod.rs:201-269 | video advances the session clock; AAC follows its own, kept within the window |
| HlsSession.HlsSession.RecoverFromLag | src/server/hls/mod.rs:152-162 | the open segment is thrown away; clocks, counters and their marks go on |
| HlsSession.HlsSession.BeginNewSegment | src/server/hls/mod.rs:178-186 | the next segment opens at the video clock |
| HlsRuns.FrameClocks | src/server/hls/mod.rs:286-525 | a segment is closed only by a key frame, with media in it, at the session clock; its EXTINF is its span or 250 ms |
| HlsVideo.VideoStamp | src/server/hls/timing.rs:60-94 | video is stamped a step of 1 to 499 ms behind the frame before it, or 40 ms, or stays at zero |
| HlsVideo.VideoMuxed | src/server/hls/mod.rs:485-523 | an accepted video frame is muxed under that stamp, which is the session clock and its clock reference |
| HlsVideo.VideoKeepsPace | src/server/hls/mod.rs:152-525 | over any run of video of one clock with steps of 1 to 499 ms the session clock is behind the publisher by less than a millisecond a frame, through splits, audio and lags |
| HlsAudio.AudioStamp | src/server/hls/mod.rs:201-228 | AAC is stamped a step of 1 to 1999 ms behind the AAC frame before it, or with it if time stamps do not move on, brought to the nearer edge of the window around the video clock; a longer step and the first frame stand on the video clock |
| HlsAudio.AudioMuxed | src/server/hls/mod.rs:485-523 | it is muxed under that stamp, which the next one is measured from |
| HlsAudio.AudioKeepsPace | src/server/hls/mod.rs:201-228 | over any run, with anything between two AAC frames, the second is stamped its step behind the first, within the window it meets |
| HlsAudio.UnknownStamp | src/server/hls/mod.rs:260-268 | a frame of unknown codec stands at zero, and takes the clock reference there |
| HlsAudio.AudioAnnouncedIff | src/server/hls/mod.rs:322-331 | in every run a segment announces audio if and only if an AAC frame had arrived when it was opened |
| HlsSplits.ClosesIff | src/server/hls/mod.rs:340-416 | in every run a frame closes the open segment if and only if it is an accepted key frame that finds video time, more than 512 bytes, and 85% of the target, or of 0.35 s while none is listed, in session time or publisher time |
| HlsRuns.DatedFromEnd | src/server/hls/timing.rs:97-100 | program date and EXTINF of a segment end when it was closed |
| HlsRuns.RunSpans | src/server/hls/mod.rs:152-186 | closed spans plus those thrown away by lag equal the video clock at the last close or lag; without lag the closed spans alone do |
| HlsRuns.SegmentsRise | src/server/hls/mod.rs:286-525 | every video stamp of a segment is strictly above every video stamp of every earlier one, lag or not |
| HlsSegments.SegmentsHoldFrames | src/server/hls/mod.rs:286-525 | in every run the closed segments hold exactly the frames accepted since the cut in front of them, the open one those since the last cut, and a segment is listed as discontinuous if and only if that cut was a lag |
| HlsSegments.SegmentsIndependent | src/server/hls/mod.rs:201-525 | in every run every closed segment keeps its video moving forward up to its closing mark, its audio from 200 ms behind to 100 ms ahead of it, and is led by a key frame unless it is listed as discontinuous |
| HlsSegments.ResumesIff | src/server/hls/mod.rs:152-525 | in every run the video of a closed segment can be decoded alone if and only if no lag opened the segment or the first video frame accepted after that lag is a key frame |
| HlsSegments.LagCanCutAGop | src/server/hls/mod.rs:152-525 | a key frame, a lag, another picture and a key frame close a segment whose video cannot be decoded alone |
| HlsSegments.ResumedRunsIndependent | src/server/hls/mod.rs:152-525 | without lag no segment is discontinuous, and where every lag is resumed on a key frame all segments are led by one |
| HlsRequests.AskedIff | src/server/hls/mod.rs:371-382 | in every run a frame asks the publisher for a key frame if and only if it is accepted video, no key frame itself, past half the threshold and 512 bytes of a segment without a key frame off zero |
| HlsRequests.AskedOnlyAtStartOrLag | src/server/hls/mod.rs:371-382 | that happens only before the first segment is closed or in a segment that a lag opened |
| HlsRuns.FlagOneLate | src/server/hls/mod.rs:417-477 | the segment after a lag is listed as discontinuous, but the tables of the one after it carry the indicator |
| HlsSegments.NothingLost | src/server/hls/mod.rs:286-525 | without lag the frames of the closed segments and then of the open one are exactly the accepted frames, in order, on the mux clock |
| HlsSegments.SegmentsAreOneStream | src/server/hls/mod.rs:286-525 | without lag the closed segments concatenate to one transport stream that demultiplexes to every accepted frame up to those in the open segment, counters unbroken |
| HlsRuns.RunCommitted | src/server/hls/mod.rs:741-815 | whatever is written or fails, commits are numbered consecutively and leave exactly the playlist served |
| M3u8.M3u8Generator.AddSegment | src/server/hls/m3u8.rs:60-96 | the segment with its name, duration and date at the end, the excess dropped in front, media and discontinuity sequence advanced by what was dropped |
| M3u8.NameRoundTrip | src/server/hls/m3u8.rs:191-193 | the name of a segment file gives its number back |
| M3u8.NamesAre | src/server/hls/m3u8.rs:191-193 | segment_0.ts, segment_9.ts, segment_120.ts |
| M3u8.M3u8Generator.PlaylistTargetDuration | src/server/hls/m3u8.rs:98-105 | the fold over the listed durations, rounded up |
| M3u8.TargetDurationLeast | src/server/hls/m3u8.rs:98-105 | the least whole number of seconds that covers every EXTINF, the target and one |
| M3u8.TargetKeptIff | src/server/hls/m3u8.rs:60-105 | a commit leaves the announced target duration as it is if and only if the new segment does not exceed it and one second less would not do for what stays listed |
| M3u8.TargetNeverChangesIff | src/server/hls/m3u8.rs:60-105 | over all commits of a stream the target duration never changes if and only if no segment is longer than the configured target, rounded up, or one second |
| M3u8.HistoryIsWindow | src/server/hls/m3u8.rs:60-96 | after any history the playlist lists its last segments, at most the maximum and one where that is zero, numbered from the media sequence to below the next |
| M3u8.DiscontinuitiesAre | src/server/hls/m3u8.rs:60-96 | discontinuities are counted one by one |
| M3u8.NumberFromHistory | src/server/hls/m3u8.rs:60-96 | the absolute discontinuity number of a listed segment counts the discontinuities of the history up to it |
| M3u8.NumbersNeverChange | src/server/hls/m3u8.rs:60-96 | a segment that stays listed keeps content and absolute discontinuity number while the window slides |
| M3u8.PruneSparesWindowIff | src/server/hls/mod.rs:806-949 | a commit prunes exactly the files older than the playlist of three commits before, so never a listed one |

## Left out

- RtpEndToEnd.AccessUnitDelivered: for payload types of seven bits and NALs with a clear F bit; larger types set every marker bit (`RtpReassembly.PacketFields`), and F bits are lost (`RtpReassembly.RebuiltIff`).
- Dispatch.DispatchReader.RecvBatch: waiting for data is a step that is enabled, not a time-out.
- Timestamp.FlvPlayTimeline.Map: 64-bit saturation of the clocks is not modelled.
- HlsSession.HlsSession.OnFrame: the time is an input, and the wall-clock anchors, which the source writes and never reads, are not modelled.
- M3u8.M3u8Generator.AddSegment: the text of the playlist is not modelled.
- Sockets, tasks, watch channels, timeouts, HTTP, RTSP and SDP text, WebRTC connections, recording and configuration: not modelled.
- Stream hub reset, publisher acquire and release, receiver maps: one publisher epoch is modelled, in which sequence numbers only grow.
- `prime_from_idr`, `recv_coalesced`, `recv_live_edge_batch` and media-lag estimates of the dispatcher: not modelled.
- Set Chunk Size and the other protocol messages of RTMP: the chunk size is fixed during a run.
- SPS and PPS storage, and their insertion in front of key frames before muxing: not modelled.
- `ensure_annex_b`, NAL descriptions and RTP time-stamp comparisons of `h264_util`: easy members.
- Wall-clock FLV timeline and `flv_timestamp_ms`: they depend on the system clock or are single expressions.
- The second AMF0 parser and the parameter-set scanners of the RTSP and RTMP servers: only easy members would be added.
