/** An HLS session: frames in, transport-stream segments out, one video clock across them all. */
module HlsSession {
  import opened Bytes
  import opened H264Util
  import opened Media
  import opened Timestamp
  import opened HlsTiming
  import opened TsPackets
  import opened TsMuxer
  import TsDemux
  import M3u8

  // ---------------------------------------------------------------- state

  /** The open segment is the muxer state it began from and the muxer operations since; `primed`, clocks and marks are
      the session's own. */
  datatype Session = Session(
    active: bool, primed: bool, audioFrames: nat, accMs: nat, lastVideoTs: nat,
    videoMux: nat, audioMux: nat, lastRawVideo: nat, lastRawAudio: Option<nat>,
    openMux: nat, openAtSplit: nat, lastMux: nat, lastIdr: nat, pending: bool,
    base: State, ops: seq<Op>)

  const NewSession := Session(true, false, 0, 0, 0, 0, 0, 0, None, 0, 0, 0, 0, false, Fresh, [])

  /** A closed segment, as the operations that made it. */
  datatype Closed = Closed(base: State, ops: seq<Op>, openMs: nat, lastMs: nat, durationMs: nat, sequence: nat,
                           discontinuity: bool)

  /** What the split decision reads of the playlist. */
  datatype PlaylistView = PlaylistView(target: real, committed: nat, nextSequence: nat)

  predicate IsHlsKeyframe(frame: MediaFrame) {
    IsVideo(frame.codec) && (frame.isKeyframe || IsKeyframeAnnexB(frame.data))
  }

  function BufferLen(s: Session): nat {
    TS_PACKET_SIZE * |RunPackets(s.base, s.ops)|
  }

  function With(s: Session, ops: seq<Op>): Session {
    s.(ops := s.ops + ops)
  }

  // ---------------------------------------------------------------- clocks

  /** Where an AAC frame would fall on its own clock. */
  function AudioIdeal(s: Session, frame: MediaFrame): nat {
    match s.lastRawAudio
    case None => s.videoMux
    case Some(last) =>
      if frame.timestamp > last then
        var delta := DeltaMs(last, frame.timestamp, frame.clockRate);
        if 0 < delta < 2000 then s.audioMux + delta else s.videoMux
      else s.audioMux
  }

  function Clamp(x: nat, low: nat, high: nat): nat
    requires low <= high
  {
    if x < low then low else if x > high then high else x
  }

  /** AAC is kept from 200 ms behind the video clock to 100 ms ahead of it. */
  function AudioPts(s: Session, frame: MediaFrame): nat {
    Clamp(AudioIdeal(s, frame), SatSub(s.videoMux, 200), s.videoMux + 100)
  }

  function MuxTime(s: Session, frame: MediaFrame): nat {
    if frame.codec == AAC then AudioPts(s, frame)
    else if IsVideo(frame.codec) then AdvanceVideoMux(s.lastRawVideo, s.videoMux, frame.timestamp, frame.clockRate).1
    else 0
  }

  function Timed(s: Session, frame: MediaFrame): Session {
    if frame.codec == AAC then s.(audioMux := AudioPts(s, frame), lastRawAudio := Some(frame.timestamp))
    else if IsVideo(frame.codec) then s.(videoMux := MuxTime(s, frame), lastRawVideo := frame.timestamp)
    else s
  }

  /** The frame that is muxed: the same one, on the mux clock. */
  function Prepared(frame: MediaFrame, ts: nat): MediaFrame {
    MediaFrame(frame.trackId, ts, Some(MILLISECOND_CLOCK_RATE), frame.codec, frame.isKeyframe, frame.data)
  }

  // ---------------------------------------------------------------- steps of a frame

  function Counted(s: Session, frame: MediaFrame): Session {
    if frame.codec == AAC then s.(audioFrames := s.audioFrames + 1) else s
  }

  /** Opus, G711 and AAC configuration are dropped outright; everything is until the first video key frame. */
  predicate Carried(frame: MediaFrame) {
    frame.codec != Opus && frame.codec != G711 && !(frame.codec == AAC && |frame.data| < 8)
  }

  predicate Accepted(s: Session, frame: MediaFrame) {
    s.active && Carried(frame) && (s.primed || IsHlsKeyframe(frame))
  }

  /** An empty buffer is opened with PAT and PMT. */
  function Opened(s: Session, frame: MediaFrame): Session {
    if s.ops == [] then
      With(s.(openMux := s.videoMux, openAtSplit := s.videoMux),
           [Pat, Pmt(true, s.audioFrames > 0 || frame.codec == AAC)])
    else s
  }

  /** The publisher's own span, from video time stamps. */
  function Spanned(s: Session, frame: MediaFrame): Session {
    if IsVideo(frame.codec) then
      var delta := if s.lastVideoTs > 0 && frame.timestamp > s.lastVideoTs
                   then DeltaMs(s.lastVideoTs, frame.timestamp, frame.clockRate) else 0;
      s.(accMs := s.accMs + (if 0 < delta < 2000 then delta else 0), lastVideoTs := frame.timestamp)
    else s
  }

  function Evaluated(s: Session, view: PlaylistView, frame: MediaFrame): SplitEval {
    SplitEval(IsHlsKeyframe(frame), Secs(SatSub(s.lastMux, Max(s.openAtSplit, s.openMux))), Secs(s.accMs),
              SplitThreshold(view.target, view.committed), view.committed, s.lastMux > s.openAtSplit, BufferLen(s))
  }

  /** A video frame that finds half the split threshold muxed and no key frame since the segment was opened asks the
      publisher for one. */
  predicate Asks(s: Session, view: PlaylistView, frame: MediaFrame) {
    && IsVideo(frame.codec) && !IsHlsKeyframe(frame)
    && Evaluated(s, view, frame).muxSecs >= SplitThreshold(view.target, view.committed) * 0.5
    && s.lastIdr <= s.openAtSplit && BufferLen(s) > MIN_SEGMENT_BYTES
  }

  function ClosedFrom(s: Session, view: PlaylistView): Closed {
    Closed(s.base, s.ops, s.openAtSplit, s.lastMux, ClosedSegmentMs(s.lastMux, s.openAtSplit), view.nextSequence,
           s.pending)
  }

  /** The next segment, opened at the video clock of the one just closed. */
  function Reopened(s: Session): Session {
    s.(accMs := 0, lastVideoTs := 0, openMux := s.videoMux, openAtSplit := s.videoMux, lastIdr := 0, pending := false,
       base := RunState(s.base, s.ops),
       ops := (if s.pending then [Discontinuity] else []) + [Pat, Pmt(true, s.audioFrames > 0)])
  }

  /** Video marks how far the open segment goes, a key frame also that there was one. */
  function Marked(s: Session, frame: MediaFrame): Session {
    var ts := MuxTime(s, frame);
    var timed := Timed(s, frame);
    if IsHlsKeyframe(frame) then timed.(lastMux := ts, lastIdr := ts)
    else if IsVideo(frame.codec) then timed.(lastMux := ts)
    else timed
  }

  function Muxed(s: Session, frame: MediaFrame): Session {
    var ts := MuxTime(s, frame);
    With(Marked(s, frame), [Clock(ts), Frame(Prepared(frame, ts))])
  }

  /** Everything a frame does before the split decision. */
  function Received(s: Session, frame: MediaFrame): Session {
    Spanned(Opened(Counted(s, frame).(primed := true), frame), frame)
  }

  /** Either the open segment takes the frame, or it closes and the next one starts with it. */
  function Decided(s: Session, view: PlaylistView, frame: MediaFrame): (Session, Option<Closed>) {
    if ShouldSplit(Evaluated(s, view, frame)) then (Muxed(Reopened(s), frame), Some(ClosedFrom(s, view)))
    else (Muxed(s, frame), None)
  }

  /** A frame: dropped, muxed, or closing the open segment and starting the next. */
  function FrameStep(s: Session, view: PlaylistView, frame: MediaFrame): (Session, Option<Closed>) {
    if !s.active || !Carried(frame) then (s, None)
    else if !Accepted(s, frame) then (Counted(s, frame), None)
    else Decided(Received(s, frame), view, frame)
  }

  /** Whether the frame asks the publisher for a key frame on its way. */
  predicate AsksFor(s: Session, view: PlaylistView, frame: MediaFrame) {
    Accepted(s, frame) && Asks(Received(s, frame), view, frame)
  }

  /** The open segment is thrown away; clocks and counters go on. */
  function Recovered(s: Session): Session {
    s.(accMs := 0, lastVideoTs := 0, openMux := s.videoMux, openAtSplit := s.videoMux, lastMux := s.videoMux,
       lastIdr := 0, pending := true, base := RunState(s.base, s.ops), ops := [])
  }

  // ---------------------------------------------------------------- the session

  /** A completed segment, ready to be written. */
  datatype CompletedSegment = CompletedSegment(data: seq<byte>, filename: string, durationMs: nat, sequence: nat,
                                               programDateTime: int, discontinuity: bool)

  /** The bytes of a run of the muxer. */
  ghost function Encoded(base: State, ops: seq<Op>): seq<byte>
    requires Valid(base)
  {
    RunWellformed(base, ops);
    EncodeAll(RunPackets(base, ops))
  }

  ghost predicate IsSegment(done: Option<CompletedSegment>, closed: Option<Closed>, now: int) {
    match closed
    case None => done == None
    case Some(c) =>
      Valid(c.base)
      && done == Some(CompletedSegment(Encoded(c.base, c.ops), M3u8.SegmentFilename(c.sequence), c.durationMs,
                                       c.sequence, LivePdt(c.durationMs, now), c.discontinuity))
  }

  lemma NothingEncoded(base: State)
    requires Valid(base)
    ensures Encoded(base, []) == []
  {
  }

  lemma StartsHere(base: State)
    ensures RunState(base, []) == base
  {
  }

  /** Neither a mark nor a clock puts bytes in the buffer; a header does. */
  lemma FlagEmitsNothing(base: State)
    requires Valid(base)
    ensures Encoded(base, [Discontinuity]) == [] && RunState(base, [Discontinuity]) == After(base, Discontinuity)
  {
    var op := Discontinuity;
    assert [op][1..] == [];
    assert RunPackets(base, [op]) == Emitted(base, op) + RunPackets(After(base, op), []);
    assert RunState(base, [op]) == RunState(After(base, op), []);
  }

  lemma HeaderEmits(base: State, hasAudio: bool)
    requires Valid(base)
    ensures Encoded(base, [Pat, Pmt(true, hasAudio)]) != []
  {
    var ops := [Pat, Pmt(true, hasAudio)];
    RunWellformed(base, ops);
    assert Emitted(base, ops[0]) != [];
    hide Emitted, Encode;
    var ps := RunPackets(base, ops);
    assert ps == Emitted(base, ops[0]) + RunPackets(After(base, ops[0]), ops[1..]);
    TsDemux.StreamRead(ps);
  }

  lemma EncodedMore(base: State, ops: seq<Op>, more: seq<Op>)
    requires Valid(base)
    ensures Valid(RunState(base, ops)) && RunState(base, ops + more) == RunState(RunState(base, ops), more)
    ensures Encoded(base, ops + more) == Encoded(base, ops) + Encoded(RunState(base, ops), more)
  {
    RunEncoded(base, ops, more);
    hide RunPackets, RunState, AllWellformed, EncodeAll;
  }

  /** The two operations of a muxed frame, and the bytes of the second. */
  lemma FrameEncoded(base: State, ts: nat, frame: MediaFrame)
    requires Valid(base)
    ensures var clocked := After(base, Clock(ts));
      && RunState(base, [Clock(ts), Frame(frame)]) == After(clocked, Frame(frame))
      && AllWellformed(Emitted(clocked, Frame(frame)))
      && Encoded(base, [Clock(ts), Frame(frame)]) == EncodeAll(Emitted(clocked, Frame(frame)))
  {
    TwoSteps(base, Clock(ts), Frame(frame));
    hide RunPackets, RunState, AllWellformed;
    assert Emitted(base, Clock(ts)) == [];
    hide Emitted, EncodeAll;
    assert [] + Emitted(After(base, Clock(ts)), Frame(frame)) == Emitted(After(base, Clock(ts)), Frame(frame));
  }

  lemma EncodedLength(s: Session)
    requires Valid(s.base)
    ensures |Encoded(s.base, s.ops)| == BufferLen(s)
  {
    RunWellformed(s.base, s.ops);
    TsDemux.StreamRead(RunPackets(s.base, s.ops));
    hide RunPackets, EncodeAll;
  }

  lemma SplitNeedsBytes(e: SplitEval)
    ensures ShouldSplit(e) ==> e.bufferLen > MIN_SEGMENT_BYTES
  {
  }

  lemma NoSegment(now: int)
    ensures IsSegment(None, None, now)
  {
  }

  lemma OpenedAlready(frame: MediaFrame)
    ensures forall t: Session :: t.ops != [] ==> Opened(t, frame) == t
  {
  }

  class HlsSession {
    const muxer: TsMuxer
    const playlist: M3u8.M3u8Generator
    var segmentBuffer: seq<byte>
    var segmentDurationAccMs: nat
    var active: bool
    var primed: bool
    var sessionAudioFrames: nat
    var lastVideoTimestamp: nat
    var sessionVideoMuxMs: nat
    var sessionAudioMuxMs: nat
    var sessionLastRawVideo: nat
    var sessionLastRawAudio: Option<nat>
    var segmentOpenMuxMs: nat
    var segmentLastMuxMs: nat
    var segmentOpenMuxMsAtSplit: nat
    var segmentLastIdrMuxMs: nat
    var pendingDiscontinuity: bool
    ghost var base: State
    ghost var ops: seq<Op>

    ghost function Now(): Session
      reads this
    {
      Session(active, primed, sessionAudioFrames, segmentDurationAccMs, lastVideoTimestamp, sessionVideoMuxMs,
              sessionAudioMuxMs, sessionLastRawVideo, sessionLastRawAudio, segmentOpenMuxMs, segmentOpenMuxMsAtSplit,
              segmentLastMuxMs, segmentLastIdrMuxMs, pendingDiscontinuity, base, ops)
    }

    /** The buffer holds the bytes of the operations since the segment was opened. */
    ghost predicate Ready()
      reads this, muxer
    {
      && muxer.Ready() && Valid(base) && muxer.Now() == RunState(base, ops)
      && segmentBuffer == Encoded(base, ops)
      && (segmentBuffer == [] <==> ops == [])
    }

    ghost function View(): PlaylistView
      reads playlist
    {
      PlaylistView(playlist.targetDuration, |playlist.segments|, playlist.nextSequence)
    }

    constructor (m: TsMuxer, p: M3u8.M3u8Generator)
      requires m.Ready() && m.Now() == Fresh
      ensures muxer == m && playlist == p && Ready() && Now() == NewSession
    {
      muxer := m;
      playlist := p;
      segmentBuffer := [];
      segmentDurationAccMs, sessionAudioFrames, lastVideoTimestamp := 0, 0, 0;
      active, primed, pendingDiscontinuity := true, false, false;
      sessionVideoMuxMs, sessionAudioMuxMs, sessionLastRawVideo, sessionLastRawAudio := 0, 0, 0, None;
      segmentOpenMuxMs, segmentLastMuxMs, segmentOpenMuxMsAtSplit, segmentLastIdrMuxMs := 0, 0, 0, 0;
      base, ops := Fresh, [];
    }

    /** The buffer is emptied; the muxer goes on from where it is. */
    method TakeBuffer() returns (data: seq<byte>)
      requires Ready()
      modifies `segmentBuffer, `base, `ops
      ensures Ready() && data == old(segmentBuffer)
      ensures Now() == old(Now()).(base := RunState(old(base), old(ops)), ops := [])
    {
      RunWellformed(base, ops);
      NothingEncoded(RunState(base, ops));
      StartsHere(RunState(base, ops));
      hide TsMuxer.Ready, RunPackets, RunState, AllWellformed, EncodeAll, Encoded;
      data := segmentBuffer;
      segmentBuffer := [];
      base, ops := RunState(base, ops), [];
    }

    method RecoverFromLag()
      requires Ready()
      modifies this
      ensures Ready() && Now() == Recovered(old(Now()))
    {
      hide TsMuxer.Ready, RunState, Encoded;
      var _ := TakeBuffer();
      segmentDurationAccMs := 0;
      lastVideoTimestamp := 0;
      segmentOpenMuxMs := sessionVideoMuxMs;
      segmentLastMuxMs := sessionVideoMuxMs;
      segmentOpenMuxMsAtSplit := sessionVideoMuxMs;
      segmentLastIdrMuxMs := 0;
      pendingDiscontinuity := true;
    }

    method BeginNewSegment()
      requires Ready() && ops == []
      modifies this
      ensures Ready() && Now() == old(Now()).(accMs := 0, lastVideoTs := 0, openMux := old(Now()).videoMux,
                                             openAtSplit := old(Now()).videoMux, lastIdr := 0)
    {
      hide TsMuxer.Ready, RunState, Encoded;
      segmentDurationAccMs := 0;
      lastVideoTimestamp := 0;
      segmentOpenMuxMs := sessionVideoMuxMs;
      segmentOpenMuxMsAtSplit := sessionVideoMuxMs;
      segmentLastIdrMuxMs := 0;
      muxer.ResetForNewSegment();
    }

    method MarkDiscontinuity()
      requires Ready() && ops == []
      modifies muxer, `ops
      ensures muxer.Ready() && muxer.Now() == RunState(base, ops) && segmentBuffer == [] && Encoded(base, ops) == []
      ensures Now() == With(old(Now()), [Discontinuity])
    {
      FlagEmitsNothing(base);
      ops := ops + [Discontinuity];
      muxer.MarkSegmentDiscontinuity();
    }

    /** PAT and PMT, video always announced. */
    method AppendHeader(hasAudio: bool)
      requires muxer.Ready() && Valid(base) && muxer.Now() == RunState(base, ops)
      requires segmentBuffer == Encoded(base, ops)
      modifies muxer, `segmentBuffer, `ops
      ensures Ready() && Now() == With(old(Now()), [Pat, Pmt(true, hasAudio)])
    {
      hide TsMuxer.Ready, RunPackets, RunState, EncodeAll, AllWellformed;
      ghost var header := [Pat, Pmt(true, hasAudio)];
      EncodedMore(base, ops, header);
      HeaderEmits(RunState(base, ops), hasAudio);
      var patPmt := muxer.GeneratePatPmt(true, hasAudio);
      assert patPmt == Encoded(RunState(base, ops), header);
      hide Encoded;
      segmentBuffer := segmentBuffer + patPmt;
      ops := ops + header;
    }

    method MuxTimestampMs(frame: MediaFrame) returns (ts: nat)
      modifies `sessionAudioMuxMs, `sessionLastRawAudio, `sessionVideoMuxMs, `sessionLastRawVideo
      ensures ts == MuxTime(old(Now()), frame) && Now() == Timed(old(Now()), frame)
    {
      hide DeltaMs, AdvanceVideoMux;
      AdvanceMoves(sessionLastRawVideo, sessionVideoMuxMs, frame.timestamp, frame.clockRate);
      if frame.codec == AAC {
        var prevMux := sessionAudioMuxMs;
        var pts: nat;
        if sessionLastRawAudio.Some? && frame.timestamp > sessionLastRawAudio.value {
          var delta := DeltaMs(sessionLastRawAudio.value, frame.timestamp, frame.clockRate);
          if delta > 0 && delta < 2000 {
            pts := prevMux + delta;
          } else {
            pts := sessionVideoMuxMs;
          }
        } else if sessionLastRawAudio.Some? {
          pts := prevMux;
        } else {
          pts := sessionVideoMuxMs;
        }
        sessionLastRawAudio := Some(frame.timestamp);
        var minAudioMs := SatSub(sessionVideoMuxMs, 200);
        var maxAudioMs := sessionVideoMuxMs + 100;
        ts := Clamp(pts, minAudioMs, maxAudioMs);
        sessionAudioMuxMs := ts;
      } else if IsVideo(frame.codec) {
        var (lastRaw, muxMs) :=
          AdvanceVideoMux(sessionLastRawVideo, sessionVideoMuxMs, frame.timestamp, frame.clockRate);
        sessionLastRawVideo := lastRaw;
        sessionVideoMuxMs := muxMs;
        ts := sessionVideoMuxMs;
      } else {
        ts := 0;
      }
    }

    /** The frame's place on the mux clock, and the marks of the open segment. */
    method Stamp(frame: MediaFrame) returns (ts: nat)
      modifies `sessionAudioMuxMs, `sessionLastRawAudio, `sessionVideoMuxMs, `sessionLastRawVideo, `segmentLastMuxMs,
               `segmentLastIdrMuxMs
      ensures ts == MuxTime(old(Now()), frame) && Now() == Marked(old(Now()), frame)
    {
      hide MuxTime;
      ts := MuxTimestampMs(frame);
      if IsVideo(frame.codec) {
        segmentLastMuxMs := ts;
        if IsHlsKeyframe(frame) {
          segmentLastIdrMuxMs := ts;
        }
      }
    }

    /** One frame into the open segment, on the mux clock. */
    method MuxFrame(frame: MediaFrame)
      requires Ready() && ops != []
      modifies this, muxer
      ensures Ready() && Now() == Muxed(old(Now()), frame)
    {
      hide TsMuxer.Ready, RunPackets, RunState, EncodeAll, AllWellformed, Emitted, MuxTime, Encoded, After, Marked;
      var ts := Stamp(frame);
      var muxFrame := Prepared(frame, ts);
      ghost var more := [Clock(ts), Frame(muxFrame)];
      EncodedMore(base, ops, more);
      FrameEncoded(RunState(base, ops), ts, muxFrame);
      muxer.UpdatePcr(ts);
      var tsData := muxer.FrameToTs(muxFrame);
      segmentBuffer := segmentBuffer + tsData;
      ops := ops + more;
    }

    method Open(frame: MediaFrame)
      requires Ready() && ops == []
      modifies this, muxer
      ensures Ready() && ops != [] && Now() == Opened(old(Now()), frame)
    {
      hide TsMuxer.Ready, RunState, Encoded;
      segmentOpenMuxMs := sessionVideoMuxMs;
      segmentOpenMuxMsAtSplit := sessionVideoMuxMs;
      AppendHeader(sessionAudioFrames > 0 || frame.codec == AAC);
    }

    /** The publisher's span of the open segment. */
    method TrackPublisherSpan(frame: MediaFrame)
      requires Ready()
      modifies `segmentDurationAccMs, `lastVideoTimestamp
      ensures Ready() && ops == old(ops) && Now() == Spanned(old(Now()), frame)
    {
      hide DeltaMs, RunState, Encoded;
      if IsVideo(frame.codec) {
        if lastVideoTimestamp > 0 && frame.timestamp > lastVideoTimestamp {
          var deltaMs := DeltaMs(lastVideoTimestamp, frame.timestamp, frame.clockRate);
          if deltaMs > 0 && deltaMs < 2000 {
            segmentDurationAccMs := segmentDurationAccMs + deltaMs;
          }
        }
        lastVideoTimestamp := frame.timestamp;
      }
    }

    /** The buffer becomes a segment, and the next one opens with its header. */
    method Close(now: int) returns (completed: Option<CompletedSegment>)
      requires Ready() && ops != []
      modifies this, muxer
      ensures Ready() && ops != [] && Now() == Reopened(old(Now()))
      ensures IsSegment(completed, Some(ClosedFrom(old(Now()), old(View()))), now)
    {
      hide TsMuxer.Ready, ClosedSegmentMs, Encoded, RunState;
      var sequence := playlist.nextSequence;
      var filename := M3u8.SegmentFilename(sequence);
      var duration := ClosedSegmentMs(segmentLastMuxMs, segmentOpenMuxMsAtSplit);
      var discontinuity := pendingDiscontinuity;
      pendingDiscontinuity := false;
      var pdt := LivePdt(duration, now);
      var data := TakeBuffer();
      completed := Some(CompletedSegment(data, filename, duration, sequence, pdt, discontinuity));
      BeginNewSegment();
      if discontinuity {
        MarkDiscontinuity();
      }
      AppendHeader(sessionAudioFrames > 0);
    }

    /** The split decision, and the frame into the segment it falls in. */
    method SplitOrMux(frame: MediaFrame, now: int) returns (completed: Option<CompletedSegment>, asked: bool)
      requires Ready() && ops != []
      modifies this, muxer
      ensures Ready()
      ensures var (s, closed) := Decided(old(Now()), old(View()), frame);
        Now() == s && IsSegment(completed, closed, now)
      ensures asked == Asks(old(Now()), old(View()), frame)
    {
      hide TsMuxer.Ready, Muxed, Reopened, IsHlsKeyframe, ShouldSplit, RunPackets, RunState, Encoded, ClosedFrom;
      hide IsSegment, Secs, SplitThreshold;
      NoSegment(now);
      EncodedLength(Now());
      var muxSecs := Secs(SatSub(segmentLastMuxMs, Max(segmentOpenMuxMsAtSplit, segmentOpenMuxMs)));
      var threshold := SplitThreshold(playlist.targetDuration, |playlist.segments|);
      asked := IsVideo(frame.codec) && !IsHlsKeyframe(frame) && muxSecs >= threshold * 0.5
               && segmentLastIdrMuxMs <= segmentOpenMuxMsAtSplit && |segmentBuffer| > MIN_SEGMENT_BYTES;
      var eval := SplitEval(IsHlsKeyframe(frame), muxSecs, Secs(segmentDurationAccMs), threshold, |playlist.segments|,
                            segmentLastMuxMs > segmentOpenMuxMsAtSplit, |segmentBuffer|);
      completed := None;
      if ShouldSplit(eval) && |segmentBuffer| > MIN_SEGMENT_BYTES {
        completed := Close(now);
      }
      SplitNeedsBytes(eval);
      MuxFrame(frame);
    }

    /** A frame that is not dropped. */
    method Take(frame: MediaFrame, now: int) returns (completed: Option<CompletedSegment>, asked: bool)
      requires Ready()
      modifies this, muxer
      ensures Ready()
      ensures var (s, closed) := Decided(Spanned(Opened(old(Now()), frame), frame), old(View()), frame);
        Now() == s && IsSegment(completed, closed, now)
      ensures asked == Asks(Spanned(Opened(old(Now()), frame), frame), old(View()), frame)
    {
      hide TsMuxer.Ready, Opened, Spanned, Decided, Asks, RunState, Encoded, IsSegment;
      OpenedAlready(frame);
      if segmentBuffer == [] {
        Open(frame);
      }
      TrackPublisherSpan(frame);
      completed, asked := SplitOrMux(frame, now);
    }

    method OnFrame(frame: MediaFrame, now: int) returns (completed: Option<CompletedSegment>, asked: bool)
      requires Ready()
      modifies this, muxer
      ensures Ready()
      ensures var (s, closed) := FrameStep(old(Now()), old(View()), frame);
        Now() == s && IsSegment(completed, closed, now)
      ensures asked == AsksFor(old(Now()), old(View()), frame)
    {
      hide TsMuxer.Ready, Opened, Spanned, Decided, Asks, IsHlsKeyframe, RunState, Encoded, IsSegment;
      NoSegment(now);
      if !active {
        return None, false;
      }
      if frame.codec == Opus || frame.codec == G711 {
        return None, false;
      }
      if frame.codec == AAC && |frame.data| < 8 {
        return None, false;
      }
      if frame.codec == AAC {
        sessionAudioFrames := sessionAudioFrames + 1;
      }
      if !primed {
        if !IsHlsKeyframe(frame) {
          return None, false;
        }
        primed := true;
      }
      completed, asked := Take(frame, now);
    }
  }
}
