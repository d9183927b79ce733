/** What the segments of an HLS session hold: which of the frames that arrived, in which order, and what a player can
    decode of one alone. */
module HlsSegments {
  import opened Bytes
  import opened Media
  import opened HlsTiming
  import opened HlsSession
  import opened HlsRuns
  import opened TsMuxer
  import opened TsPackets
  import opened TsTables
  import M3u8
  import Timestamp
  import TsDemux
  import TsRuns

  // ---------------------------------------------------------------- which frames

  /** The frames a segment holds, in order. */
  function FramesOf(ops: seq<Op>): seq<MediaFrame> {
    if ops == [] then []
    else FramesOf(ops[..|ops| - 1]) + (if ops[|ops| - 1].Frame? then [ops[|ops| - 1].frame] else [])
  }

  /** Frames that arrived between two cuts, and whether the cut in front was a lag. */
  datatype Group = Group(frames: seq<MediaFrame>, lagged: bool)

  /** The accepted frames of a run, cut where a segment was closed, without those that a lag threw away. */
  datatype Sorting = Sorting(groups: seq<Group>, open: Group)

  const Unsorted := Sorting([], Group([], false))

  function SortedStep(w: World, e: Event, so: Sorting): Sorting {
    match e
    case Lag => so.(open := Group([], true))
    case Arrive(frame, _, _) =>
      if !Accepted(w.session, frame) then so
      else
        var p := Prepared(frame, MuxTime(w.session, frame));
        var closes := FrameStep(w.session, ViewOf(w.playlist), frame).1.Some?;
        if closes then Sorting(so.groups + [so.open], Group([p], false))
        else so.(open := so.open.(frames := so.open.frames + [p]))
  }

  function Sorted(w: World, es: seq<Event>, so: Sorting): Sorting
    decreases |es|
  {
    if es == [] then so else Sorted(Step(w, es[0]), es[1..], SortedStep(w, es[0], so))
  }

  // ---------------------------------------------------------------- what a segment promises

  /** The stamp of the last video frame, or the mark before it. */
  function Mark(frames: seq<MediaFrame>, open: nat): nat {
    if frames == [] then open
    else if IsVideo(frames[|frames| - 1].codec) then frames[|frames| - 1].timestamp
    else Mark(frames[..|frames| - 1], open)
  }

  /** A frame at its place on the clock: video forward from the mark, off zero strictly, AAC from 200 ms behind the mark
      to 100 ms ahead of it. */
  predicate InPlace(f: MediaFrame, mark: nat) {
    && (IsVideo(f.codec) ==> mark <= f.timestamp && (f.timestamp == mark ==> mark == 0))
    && (f.codec == AAC ==> SatSub(mark, 200) <= f.timestamp <= mark + 100)
  }

  /** Every frame is in its place behind those before it, from the opening mark on. */
  predicate Steady(frames: seq<MediaFrame>, open: nat) {
    frames == []
    || (var front := frames[..|frames| - 1];
        Steady(front, open) && InPlace(frames[|frames| - 1], Mark(front, open)))
  }

  /** The very first frame is a key frame. */
  predicate LedByKey(frames: seq<MediaFrame>) {
    frames != [] ==> IsHlsKeyframe(frames[0])
  }

  function FirstVideo(frames: seq<MediaFrame>): Option<MediaFrame> {
    if frames == [] then None
    else if IsVideo(frames[0].codec) then Some(frames[0])
    else FirstVideo(frames[1..])
  }

  /** Video can be decoded without an earlier segment: its first frame is a key frame. */
  predicate StartsOnKey(frames: seq<MediaFrame>) {
    FirstVideo(frames).Some? ==> IsHlsKeyframe(FirstVideo(frames).value)
  }

  /** The stamp of the last key frame, or zero. */
  function KeyMark(frames: seq<MediaFrame>): nat {
    if frames == [] then 0
    else if IsHlsKeyframe(frames[|frames| - 1]) then frames[|frames| - 1].timestamp
    else KeyMark(frames[..|frames| - 1])
  }

  lemma {:induction false} VideoBehindMark(frames: seq<MediaFrame>, open: nat)
    requires Mark(frames, open) != open
    ensures FirstVideo(frames).Some?
  {
    var n := |frames| - 1;
    if !IsVideo(frames[n].codec) {
      VideoBehindMark(frames[..n], open);
      assert frames == frames[..n] + [frames[n]];
      FirstVideoStays(frames[..n], frames[n]);
    } else {
      assert frames == frames[..n] + [frames[n]];
      FirstVideoStays(frames[..n], frames[n]);
    }
  }

  lemma {:induction false} FirstVideoStays(frames: seq<MediaFrame>, f: MediaFrame)
    ensures FirstVideo(frames + [f]) ==
      if FirstVideo(frames).Some? then FirstVideo(frames) else if IsVideo(f.codec) then Some(f) else None
  {
    if frames != [] {
      FirstVideoStays(frames[1..], f);
      assert (frames + [f])[1..] == frames[1..] + [f];
    }
  }

  lemma LedStarts(frames: seq<MediaFrame>)
    requires LedByKey(frames)
    ensures StartsOnKey(frames)
  {
  }

  // ---------------------------------------------------------------- one frame more

  lemma {:induction false} NothingHeld(ops: seq<Op>)
    requires NoFrames(ops)
    ensures FramesOf(ops) == []
  {
    if ops != [] {
      NothingHeld(ops[..|ops| - 1]);
    }
  }

  lemma OneHeldMore(start: seq<Op>, ts: nat, frame: MediaFrame)
    ensures FramesOf(start + FrameOps(ts, frame)) == FramesOf(start) + [Prepared(frame, ts)]
  {
    var ops := start + FrameOps(ts, frame);
    var mid := start + [Clock(ts)];
    assert ops[..|ops| - 1] == mid && mid[..|mid| - 1] == start;
    assert FramesOf(mid) == FramesOf(start) + [] == FramesOf(start);
  }

  lemma AudioNear(s: Session, frame: MediaFrame)
    requires frame.codec == AAC
    ensures SatSub(s.videoMux, 200) <= MuxTime(s, frame) <= s.videoMux + 100
  {
    hide AudioIdeal;
  }

  lemma VideoNear(s: Session, frame: MediaFrame)
    requires IsVideo(frame.codec)
    ensures s.videoMux <= MuxTime(s, frame) && (MuxTime(s, frame) == s.videoMux ==> s.videoMux == 0)
  {
    AdvanceMoves(s.lastRawVideo, s.videoMux, frame.timestamp, frame.clockRate);
    hide AdvanceVideoMux;
  }

  lemma SteadySnoc(frames: seq<MediaFrame>, open: nat, f: MediaFrame)
    requires Steady(frames, open) && InPlace(f, Mark(frames, open))
    ensures Steady(frames + [f], open)
    ensures Mark(frames + [f], open) == (if IsVideo(f.codec) then f.timestamp else Mark(frames, open))
    ensures KeyMark(frames + [f]) == (if IsHlsKeyframe(f) then f.timestamp else KeyMark(frames))
  {
    assert (frames + [f])[..|frames|] == frames;
    hide IsHlsKeyframe, InPlace;
  }

  lemma SteadyMore(frames: seq<MediaFrame>, open: nat, s: Session, frame: MediaFrame)
    requires Steady(frames, open) && Mark(frames, open) == s.videoMux
    ensures var ts := MuxTime(s, frame);
      var more := frames + [Prepared(frame, ts)];
      && Steady(more, open)
      && Mark(more, open) == (if IsVideo(frame.codec) then ts else s.videoMux)
      && KeyMark(more) == (if IsHlsKeyframe(frame) then ts else KeyMark(frames))
  {
    var p := Prepared(frame, MuxTime(s, frame));
    if frame.codec == AAC {
      AudioNear(s, frame);
    } else if IsVideo(frame.codec) {
      VideoNear(s, frame);
    }
    assert IsHlsKeyframe(p) == IsHlsKeyframe(frame);
    hide MuxTime, IsHlsKeyframe, Steady, Mark, KeyMark;
    SteadySnoc(frames, open, p);
  }

  // ---------------------------------------------------------------- the open segment

  /** The open segment and the frames that belong in it. */
  ghost predicate Holds(s: Session, g: Group) {
    && FramesOf(s.ops) == g.frames && s.pending == g.lagged && (s.ops == [] <==> g.frames == [])
    && Steady(g.frames, s.openAtSplit) && Mark(g.frames, s.openAtSplit) == s.videoMux && KeyMark(g.frames) == s.lastIdr
    && (!g.lagged ==> LedByKey(g.frames) && (s.ops == [] ==> !s.primed))
  }

  /** A closed segment and the frames that belong in it. */
  ghost predicate HoldsClosed(c: Closed, g: Group) {
    && FramesOf(c.ops) == g.frames && c.discontinuity == g.lagged
    && Steady(g.frames, c.openMs) && Mark(g.frames, c.openMs) == c.lastMs && c.openMs < c.lastMs
    && (!g.lagged ==> LedByKey(g.frames))
  }

  /** What is held is what was sorted, segment by segment. */
  ghost predicate AllHeld(w: World, so: Sorting) {
    && |w.closed| == |so.groups| && Holds(w.session, so.open)
    && forall i :: 0 <= i < |w.closed| ==> HoldsClosed(w.closed[i], so.groups[i])
  }

  /** An accepted frame comes to stand behind those of the open segment, or alone. */
  lemma FrameHeld(s: Session, view: PlaylistView, frame: MediaFrame)
    requires Clocks(s) && Accepted(s, frame)
    ensures var (t, c) := FrameStep(s, view, frame);
      && t.ops != []
      && FramesOf(t.ops) == (if c.None? then FramesOf(s.ops) else []) + [Prepared(frame, MuxTime(s, frame))]
  {
    FrameAppends(s, view, frame);
    var (t, c) := FrameStep(s, view, frame);
    var start := t.ops[..|t.ops| - 2];
    assert [] == FramesOf([]);
    hide FrameStep, Accepted, IsHlsKeyframe, MuxTime, FramesOf, Clocks, NoFrames, Prepared;
    OneHeldMore(start, MuxTime(s, frame), frame);
    if c.Some? || s.ops == [] {
      NothingHeld(start);
    }
  }

  lemma FrameAdded(s: Session, view: PlaylistView, frame: MediaFrame, g: Group)
    requires Clocks(s) && Holds(s, g) && Accepted(s, frame) && FrameStep(s, view, frame).1.None?
    ensures Holds(FrameStep(s, view, frame).0, g.(frames := g.frames + [Prepared(frame, MuxTime(s, frame))]))
  {
    FrameAppends(s, view, frame);
    FrameClocks(s, view, frame);
    FrameHeld(s, view, frame);
    SteadyMore(g.frames, s.openAtSplit, s, frame);
    var p := Prepared(frame, MuxTime(s, frame));
    assert IsHlsKeyframe(p) == IsHlsKeyframe(frame);
    assert s.ops == [] && !s.primed ==> IsHlsKeyframe(frame);
    hide FrameStep, Accepted, IsHlsKeyframe, MuxTime, FramesOf, Steady, Mark, KeyMark, Clocks, IsVideo, Prepared;
    hide NoFrames;
    LedMore(g.frames, p);
  }

  lemma LedMore(frames: seq<MediaFrame>, f: MediaFrame)
    ensures LedByKey(frames + [f]) <==> if frames == [] then IsHlsKeyframe(f) else LedByKey(frames)
  {
    hide IsHlsKeyframe;
  }

  lemma FrameCloses(s: Session, view: PlaylistView, frame: MediaFrame, g: Group)
    requires Clocks(s) && Holds(s, g) && Accepted(s, frame) && FrameStep(s, view, frame).1.Some?
    ensures var (t, c) := FrameStep(s, view, frame);
      Holds(t, Group([Prepared(frame, MuxTime(s, frame))], false)) && HoldsClosed(c.value, g)
  {
    FrameAppends(s, view, frame);
    FrameClocks(s, view, frame);
    FrameHeld(s, view, frame);
    SteadyMore([], s.videoMux, s, frame);
    var p := Prepared(frame, MuxTime(s, frame));
    assert IsHlsKeyframe(p) == IsHlsKeyframe(frame);
    assert [] + [p] == [p];
    hide FrameStep, Accepted, IsHlsKeyframe, MuxTime, FramesOf, Steady, Mark, KeyMark, Clocks, IsVideo, Prepared;
    hide NoFrames;
    LedMore([], p);
  }

  lemma FrameDropped(s: Session, view: PlaylistView, frame: MediaFrame, g: Group)
    requires Clocks(s) && Holds(s, g) && !Accepted(s, frame)
    ensures var (t, c) := FrameStep(s, view, frame); c.None? && Holds(t, g)
  {
    FrameAppends(s, view, frame);
    FrameClocks(s, view, frame);
    hide FrameStep, Accepted, IsHlsKeyframe, MuxTime, FramesOf, Steady, Mark, KeyMark, Clocks;
  }

  lemma StepHeld(w: World, e: Event, so: Sorting)
    requires Clocks(w.session) && AllHeld(w, so)
    ensures AllHeld(Step(w, e), SortedStep(w, e, so))
  {
    hide FrameStep, Accepted, Holds, HoldsClosed, Clocks, MuxTime, M3u8.Added;
    match e {
      case Lag =>
        LagHeld(w.session, so.open);
      case Arrive(frame, _, _) =>
        var view := ViewOf(w.playlist);
        if !Accepted(w.session, frame) {
          FrameDropped(w.session, view, frame, so.open);
        } else if FrameStep(w.session, view, frame).1.None? {
          FrameAdded(w.session, view, frame, so.open);
        } else {
          FrameCloses(w.session, view, frame, so.open);
        }
    }
  }

  lemma LagHeld(s: Session, g: Group)
    requires Holds(s, g)
    ensures Holds(Recovered(s), Group([], true))
  {
    hide RunState;
  }

  lemma {:induction false} RunHeld(w: World, es: seq<Event>, so: Sorting)
    requires Clocks(w.session) && AllHeld(w, so)
    ensures AllHeld(Run(w, es), Sorted(w, es, so))
    decreases |es|
  {
    hide Step, SortedStep, AllHeld, Clocks;
    if es != [] {
      StepClocks(w, es[0]);
      StepHeld(w, es[0], so);
      RunHeld(Step(w, es[0]), es[1..], SortedStep(w, es[0], so));
    }
  }

  // ---------------------------------------------------------------- whole runs

  function RunOf(target: real, maxSegments: nat, es: seq<Event>): World {
    Run(NewWorld(target, maxSegments), es)
  }

  function SortingOf(target: real, maxSegments: nat, es: seq<Event>): Sorting {
    Sorted(NewWorld(target, maxSegments), es, Unsorted)
  }

  lemma NewHeld(target: real, maxSegments: nat, es: seq<Event>)
    ensures AllHeld(RunOf(target, maxSegments, es), SortingOf(target, maxSegments, es))
  {
    var w := NewWorld(target, maxSegments);
    assert Clocks(w.session) && AllHeld(w, Unsorted);
    RunHeld(w, es, Unsorted);
  }

  /** In every run, lags or not: the closed segments hold exactly the frames accepted since the cut in front of them,
      the open one those accepted since the last cut, and a segment is listed as discontinuous exactly if that cut was a
      lag. */
  lemma SegmentsHoldFrames(target: real, maxSegments: nat, es: seq<Event>)
    ensures var (w, so) := (RunOf(target, maxSegments, es), SortingOf(target, maxSegments, es));
      && |w.closed| == |so.groups| && FramesOf(w.session.ops) == so.open.frames
      && forall i :: 0 <= i < |w.closed| ==>
           FramesOf(w.closed[i].ops) == so.groups[i].frames && w.closed[i].discontinuity == so.groups[i].lagged
  {
    NewHeld(target, maxSegments, es);
    hide RunOf, SortingOf, FramesOf, Steady, Mark, LedByKey, KeyMark;
  }

  /** In every run every closed segment keeps its video moving forward up to its closing mark and its audio within the
      window of the video clock, and it is led by a key frame unless it is listed as discontinuous. */
  lemma SegmentsIndependent(target: real, maxSegments: nat, es: seq<Event>, i: nat)
    requires i < |RunOf(target, maxSegments, es).closed|
    ensures var c := RunOf(target, maxSegments, es).closed[i];
      var frames := FramesOf(c.ops);
      && Steady(frames, c.openMs) && c.openMs < Mark(frames, c.openMs) == c.lastMs
      && (c.discontinuity || LedByKey(frames))
  {
    NewHeld(target, maxSegments, es);
    hide RunOf, SortingOf, FramesOf, Steady, Mark, LedByKey, Holds;
  }

  /** The exact condition of every run: the video of a closed segment, and there is some, can be decoded alone if and
      only if no lag opened the segment, or the first video frame accepted after that lag is a key frame. */
  lemma ResumesIff(target: real, maxSegments: nat, es: seq<Event>, i: nat)
    requires i < |RunOf(target, maxSegments, es).closed|
    ensures i < |SortingOf(target, maxSegments, es).groups|
    ensures var (frames, g) :=
        (FramesOf(RunOf(target, maxSegments, es).closed[i].ops), SortingOf(target, maxSegments, es).groups[i]);
      && FirstVideo(frames).Some? && FirstVideo(g.frames).Some?
      && (StartsOnKey(frames) <==> !g.lagged || IsHlsKeyframe(FirstVideo(g.frames).value))
  {
    NewHeld(target, maxSegments, es);
    hide RunOf, FramesOf, Steady, Mark, Holds, LedByKey, StartsOnKey, FirstVideo, IsHlsKeyframe;
    var c, g := RunOf(target, maxSegments, es).closed[i], SortingOf(target, maxSegments, es).groups[i];
    assert HoldsClosed(c, g);
    VideoBehindMark(g.frames, c.openMs);
    StartsIff(g.frames);
    if !g.lagged {
      LedStarts(g.frames);
    }
  }

  lemma StartsIff(frames: seq<MediaFrame>)
    requires FirstVideo(frames).Some?
    ensures StartsOnKey(frames) <==> IsHlsKeyframe(FirstVideo(frames).value)
  {
  }

  lemma OneEmits(s: State, op: Op)
    requires op.Pat? || op.Pmt? || (op.Frame? && op.frame.data != [])
    ensures Emitted(s, op) != []
  {
    hide TablePayload, PatSection, PmtSection;
  }

  lemma PacketsFirst(s: State, op: Op, rest: seq<Op>)
    ensures |RunPackets(s, [op] + rest)| == |Emitted(s, op)| + |RunPackets(After(s, op), rest)|
  {
    assert ([op] + rest)[1..] == rest;
    hide Emitted, After;
  }

  /** Tables and a frame with bytes fill a packet each, at least. */
  lemma ThreePackets(base: State, hasAudio: bool, ts: nat, f: MediaFrame)
    requires f.data != []
    ensures |RunPackets(base, [Pat, Pmt(true, hasAudio), Clock(ts), Frame(f)])| >= 3
  {
    hide Emitted, RunPackets, After;
    var s1 := After(base, Pat);
    var s2 := After(s1, Pmt(true, hasAudio));
    var s3 := After(s2, Clock(ts));
    OneEmits(base, Pat);
    OneEmits(s1, Pmt(true, hasAudio));
    OneEmits(s3, Frame(f));
    PacketsFirst(base, Pat, [Pmt(true, hasAudio), Clock(ts), Frame(f)]);
    PacketsFirst(s1, Pmt(true, hasAudio), [Clock(ts), Frame(f)]);
    PacketsFirst(s2, Clock(ts), [Frame(f)]);
    PacketsFirst(s3, Frame(f), []);
    assert [Pat] + [Pmt(true, hasAudio), Clock(ts), Frame(f)] == [Pat, Pmt(true, hasAudio), Clock(ts), Frame(f)];
    assert [Pmt(true, hasAudio)] + [Clock(ts), Frame(f)] == [Pmt(true, hasAudio), Clock(ts), Frame(f)];
    assert [Clock(ts)] + [Frame(f)] == [Clock(ts), Frame(f)] && [Frame(f)] + [] == [Frame(f)];
  }

  /** A publisher at one time stamp. */
  function At(frame: MediaFrame, ts: nat): MediaFrame {
    frame.(timestamp := ts, clockRate := Some(Timestamp.MILLISECOND_CLOCK_RATE))
  }

  /** A key frame, a lag, a picture that is no key frame, 400 ms later, and the next key frame. */
  function LagOntoPicture(key: MediaFrame, picture: MediaFrame): seq<Event> {
    [Arrive(At(key, 1000), true, 0), Lag, Arrive(At(picture, 1400), true, 0), Arrive(At(key, 1440), true, 0)]
  }

  lemma FirstKey(key: MediaFrame, view: PlaylistView)
    requires IsHlsKeyframe(key)
    ensures var (s, c) := FrameStep(NewSession, view, At(key, 1000));
      c.None? && s.videoMux == 0 && s.lastRawVideo == 1000 && s.active && s.primed && Clocks(s)
  {
    FrameClocks(NewSession, view, At(key, 1000));
  }

  lemma PictureStamp(s: Session, picture: MediaFrame)
    requires s.videoMux == 0 && s.lastRawVideo == 1000 && IsVideo(picture.codec)
    ensures MuxTime(s, At(picture, 1400)) == 400
  {
    assert Timestamp.DeltaMs(1000, 1400, Some(Timestamp.MILLISECOND_CLOCK_RATE)) == 400;
    hide Timestamp.DeltaMs;
  }

  lemma HeaderFirst(s: Session, frame: MediaFrame)
    requires s.ops == []
    ensures Received(s, frame).ops == [Pat, Pmt(true, Counted(s, frame).audioFrames > 0 || frame.codec == AAC)]
    ensures Received(s, frame).active == s.active
  {
    hide Timestamp.DeltaMs;
  }

  lemma MuxedActive(s: Session, frame: MediaFrame)
    ensures Muxed(s, frame).active == s.active
  {
    hide MuxTime, IsHlsKeyframe;
  }

  lemma PictureOpens(s: Session, view: PlaylistView, picture: MediaFrame)
    requires Clocks(s) && s.ops == [] && s.videoMux == 0 && s.lastRawVideo == 1000 && s.active && s.primed
    requires IsVideo(picture.codec)
    ensures var (t, c) := FrameStep(s, view, At(picture, 1400));
      && c.None? && Clocks(t) && t.videoMux == 400 && t.openAtSplit == 0 && t.active && t.primed
      && t.pending == s.pending
      && t.ops == [Pat, Pmt(true, s.audioFrames > 0)] + FrameOps(400, At(picture, 1400))
  {
    var f := At(picture, 1400);
    FrameClocks(s, view, f);
    PictureStamp(s, picture);
    HeaderFirst(s, f);
    ReceivedClocks(s, f);
    var r := Received(s, f);
    SameMuxTime(s, r, f);
    hide IsHlsKeyframe, RunState, Evaluated, Received, MuxTime, Muxed, ShouldSplit, NoFrames, SameClocks;
    MuxedClocks(r, f);
    MuxedActive(r, f);
    assert FrameStep(s, view, f).0 == Muxed(r, f);
  }

  lemma KeyCloses(s: Session, view: PlaylistView, key: MediaFrame)
    requires Clocks(s) && s.videoMux == 400 && s.openAtSplit == 0 && s.active && s.primed
    requires s.ops != [] && |RunPackets(s.base, s.ops)| >= 3 && view.committed == 0 && IsHlsKeyframe(key)
    ensures FrameStep(s, view, At(key, 1440)).1.Some?
  {
    hide RunState, RunPackets, Muxed, Reopened;
  }

  /** The run up to the picture: nothing closed, and the picture alone in the segment the lag opened. */
  lemma PictureAlone(target: real, maxSegments: nat, key: MediaFrame, picture: MediaFrame)
    requires IsHlsKeyframe(key) && IsVideo(picture.codec) && picture.data != []
    ensures var es := LagOntoPicture(key, picture);
      var w := Step(Step(Step(NewWorld(target, maxSegments), es[0]), es[1]), es[2]);
      var s := w.session;
      && w.closed == [] && w.playlist.segments == [] && Clocks(s) && s.videoMux == 400
      && s.openAtSplit == 0 && s.active && s.primed && s.pending && |RunPackets(s.base, s.ops)| >= 3 && s.ops != []
      && FramesOf(s.ops) == [Prepared(At(picture, 1400), 400)]
  {
    var w0 := NewWorld(target, maxSegments);
    var view := ViewOf(w0.playlist);
    FirstKey(key, view);
    hide FrameStep, Clocks, RunPackets, IsHlsKeyframe, Recovered, FramesOf, Prepared, M3u8.Added, SatSub;
    var s1 := FrameStep(NewSession, view, At(key, 1000)).0;
    LagClocks(s1);
    var s2 := Recovered(s1);
    LagLeaves(s1);
    PictureOpens(s2, view, picture);
    PictureHeld(FrameStep(s2, view, At(picture, 1400)).0, s2.audioFrames > 0, picture);
  }

  lemma LagLeaves(s: Session)
    ensures var t := Recovered(s);
      && t.pending && t.ops == [] && t.videoMux == s.videoMux && t.lastRawVideo == s.lastRawVideo
      && t.active == s.active
      && t.primed == s.primed
  {
    hide RunState;
  }

  lemma HeaderNoFrames(hasAudio: bool)
    ensures NoFrames([Pat, Pmt(true, hasAudio)])
  {
  }

  lemma PictureHeld(s: Session, hasAudio: bool, picture: MediaFrame)
    requires s.ops == [Pat, Pmt(true, hasAudio)] + FrameOps(400, At(picture, 1400)) && picture.data != []
    ensures |RunPackets(s.base, s.ops)| >= 3 && FramesOf(s.ops) == [Prepared(At(picture, 1400), 400)]
  {
    var p := Prepared(At(picture, 1400), 400);
    assert p.data != [];
    hide RunPackets, FramesOf, Prepared, At, NoFrames;
    var header := [Pat, Pmt(true, hasAudio)];
    assert NoFrames(header) by {
      HeaderNoFrames(hasAudio);
    }
    assert header + FrameOps(400, At(picture, 1400)) == [Pat, Pmt(true, hasAudio), Clock(400), Frame(p)];
    ThreePackets(s.base, hasAudio, 400, p);
    OneHeldMore(header, 400, At(picture, 1400));
    NothingHeld(header);
  }

  /** Such a session does leave a segment whose video cannot be decoded alone. */
  lemma LagCanCutAGop(target: real, maxSegments: nat, key: MediaFrame, picture: MediaFrame)
    requires IsHlsKeyframe(key) && IsVideo(picture.codec) && !IsHlsKeyframe(picture) && picture.data != []
    ensures var closed := RunOf(target, maxSegments, LagOntoPicture(key, picture)).closed;
      |closed| == 1 && closed[0].discontinuity && !StartsOnKey(FramesOf(closed[0].ops))
  {
    var w0 := NewWorld(target, maxSegments);
    var es := LagOntoPicture(key, picture);
    FourSteps(w0, es);
    PictureAlone(target, maxSegments, key, picture);
    hide Clocks, RunPackets, Run, FramesOf, StartsOnKey, Prepared, M3u8.New, Step;
    var w := Step(Step(Step(w0, es[0]), es[1]), es[2]);
    OneClosed(w, key);
    PreparedSame(At(picture, 1400), 400);
    NotOnKey(Prepared(At(picture, 1400), 400), picture);
  }

  lemma OneClosed(w: World, key: MediaFrame)
    requires var s := w.session;
      && Clocks(s) && s.videoMux == 400 && s.openAtSplit == 0 && s.active && s.primed && s.ops != [] && s.pending
      && |RunPackets(s.base, s.ops)| >= 3
    requires IsHlsKeyframe(key) && w.closed == [] && w.playlist.segments == []
    ensures var closed := Step(w, Arrive(At(key, 1440), true, 0)).closed;
      |closed| == 1 && closed[0].discontinuity && closed[0].ops == w.session.ops
  {
    var view := ViewOf(w.playlist);
    KeyCloses(w.session, view, key);
    FrameClocks(w.session, view, At(key, 1440));
    hide FrameStep, Clocks, RunPackets, M3u8.Added, IsHlsKeyframe, RunState;
    assert Step(w, Arrive(At(key, 1440), true, 0)).closed == [FrameStep(w.session, view, At(key, 1440)).1.value];
  }

  lemma PreparedSame(frame: MediaFrame, ts: nat)
    ensures var p := Prepared(frame, ts);
      p.codec == frame.codec && p.data == frame.data && p.isKeyframe == frame.isKeyframe
  {
  }

  lemma NotOnKey(p: MediaFrame, picture: MediaFrame)
    requires p.codec == picture.codec && p.data == picture.data && p.isKeyframe == picture.isKeyframe
    requires IsVideo(picture.codec) && !IsHlsKeyframe(picture)
    ensures !StartsOnKey([p])
  {
    assert FirstVideo([p]) == Some(p);
  }

  lemma FourSteps(w: World, es: seq<Event>)
    requires |es| == 4
    ensures Run(w, es) == Step(Step(Step(Step(w, es[0]), es[1]), es[2]), es[3])
  {
    hide Step;
    var r1, r2, r3 := es[1..], es[2..], es[3..];
    assert r1[1..] == r2 && r2[1..] == r3 && r3[1..] == [];
    var w1 := Step(w, es[0]);
    var w2 := Step(w1, es[1]);
    var w3 := Step(w2, es[2]);
    assert Run(w, es) == Run(w1, r1);
    assert Run(w1, r1) == Run(w2, r2);
    assert Run(w2, r2) == Run(w3, r3);
    assert Run(w3, r3) == Run(Step(w3, es[3]), []);
  }

  // ---------------------------------------------------------------- runs that resume well

  /** The first frame muxed after a lag is a key frame, as it is after a snap to an IDR. */
  predicate Resumes(w: World, e: Event) {
    e.Arrive? && w.session.ops == [] && Accepted(w.session, e.frame) ==> IsHlsKeyframe(e.frame)
  }

  predicate AlwaysResumes(w: World, es: seq<Event>)
    decreases |es|
  {
    es == [] || (Resumes(w, es[0]) && AlwaysResumes(Step(w, es[0]), es[1..]))
  }

  predicate AllLed(so: Sorting) {
    LedByKey(so.open.frames) && forall g <- so.groups :: LedByKey(g.frames)
  }

  lemma {:induction false} LedRun(w: World, es: seq<Event>, so: Sorting)
    requires Clocks(w.session) && AllHeld(w, so) && AllLed(so) && AlwaysResumes(w, es)
    ensures AllLed(Sorted(w, es, so))
    decreases |es|
  {
    if es != [] {
      StepClocks(w, es[0]);
      StepHeld(w, es[0], so);
      LedStep(w, es[0], so);
      hide Step, SortedStep, AllHeld, AllLed, Clocks, Resumes;
      LedRun(Step(w, es[0]), es[1..], SortedStep(w, es[0], so));
    }
  }

  lemma LedStep(w: World, e: Event, so: Sorting)
    requires Clocks(w.session) && AllHeld(w, so) && AllLed(so) && Resumes(w, e)
    ensures AllLed(SortedStep(w, e, so))
  {
    if e.Arrive? && Accepted(w.session, e.frame) {
      FrameClocks(w.session, ViewOf(w.playlist), e.frame);
      assert IsHlsKeyframe(Prepared(e.frame, MuxTime(w.session, e.frame))) == IsHlsKeyframe(e.frame);
      hide FrameStep, Accepted, IsHlsKeyframe, MuxTime, FramesOf, Steady, Mark, KeyMark, Clocks;
    }
  }

  /** Without lag no segment is listed as discontinuous; resumed from every lag on a key frame, discontinuous ones too
      are led by one. */
  lemma ResumedRunsIndependent(target: real, maxSegments: nat, es: seq<Event>, i: nat)
    requires LagFree(es) || AlwaysResumes(NewWorld(target, maxSegments), es)
    requires i < |RunOf(target, maxSegments, es).closed|
    ensures LedByKey(FramesOf(RunOf(target, maxSegments, es).closed[i].ops))
    ensures LagFree(es) ==> !RunOf(target, maxSegments, es).closed[i].discontinuity
  {
    var w := NewWorld(target, maxSegments);
    assert Clocks(w.session) && AllHeld(w, Unsorted) && AllLed(Unsorted);
    NewHeld(target, maxSegments, es);
    if LagFree(es) {
      NoneLagged(w, es, Unsorted);
    } else {
      LedRun(w, es, Unsorted);
    }
    hide Run, Sorted, FramesOf, Steady, Mark, Holds, LedByKey;
    assert HoldsClosed(RunOf(target, maxSegments, es).closed[i], SortingOf(target, maxSegments, es).groups[i]);
  }

  lemma {:induction false} NoneLagged(w: World, es: seq<Event>, so: Sorting)
    requires LagFree(es) && !so.open.lagged && forall g <- so.groups :: !g.lagged
    ensures !Sorted(w, es, so).open.lagged && forall g <- Sorted(w, es, so).groups :: !g.lagged
    decreases |es|
  {
    hide Step, FrameStep, Accepted, MuxTime;
    if es != [] {
      assert es[0] in es && forall e <- es[1..] :: e in es;
      NoneLagged(Step(w, es[0]), es[1..], SortedStep(w, es[0], so));
    }
  }

  // ---------------------------------------------------------------- the stream

  /** Each segment goes on from the muxer state the one before it left. */
  predicate Chained(closed: seq<Closed>, end: State) {
    if closed == [] then end == Fresh
    else
      var c := closed[|closed| - 1];
      end == RunState(c.base, c.ops) && Chained(closed[..|closed| - 1], c.base)
  }

  function AllOps(closed: seq<Closed>): seq<Op> {
    if closed == [] then [] else AllOps(closed[..|closed| - 1]) + closed[|closed| - 1].ops
  }

  /** The bytes of the closed segments, one after the other. */
  ghost function Data(closed: seq<Closed>): seq<byte>
    requires forall c <- closed :: Valid(c.base)
  {
    if closed == [] then []
    else Data(closed[..|closed| - 1]) + Encoded(closed[|closed| - 1].base, closed[|closed| - 1].ops)
  }

  lemma {:induction false} LagFreeChained(w: World, es: seq<Event>)
    requires Clocks(w.session) && Chained(w.closed, w.session.base) && LagFree(es)
    ensures Chained(Run(w, es).closed, Run(w, es).session.base)
    decreases |es|
  {
    if es != [] {
      var (t, c) := FrameStep(w.session, ViewOf(w.playlist), es[0].frame);
      FrameClocks(w.session, ViewOf(w.playlist), es[0].frame);
      StepClocks(w, es[0]);
      hide FrameStep, Clocks, RunState;
      if c.Some? {
        assert (w.closed + [c.value])[..|w.closed|] == w.closed;
      }
      LagFreeChained(Step(w, es[0]), es[1..]);
    }
  }

  /** Chained segments are one run of the muxer, cut. */
  lemma {:induction false} ChainedIsRun(closed: seq<Closed>, end: State)
    requires Chained(closed, end)
    ensures Valid(end) && (forall c <- closed :: Valid(c.base)) && end == RunState(Fresh, AllOps(closed))
    ensures Data(closed) == Encoded(Fresh, AllOps(closed))
    decreases |closed|
  {
    if closed == [] {
      NothingEncoded(Fresh);
    } else {
      var n := |closed| - 1;
      var c := closed[n];
      ChainedIsRun(closed[..n], c.base);
      RunWellformed(c.base, c.ops);
      hide RunState, Encoded, Valid, RunPackets, AllWellformed;
      forall d <- closed ensures Valid(d.base) {
        var k :| 0 <= k < |closed| && closed[k] == d;
        assert k < n ==> closed[..n][k] == d;
      }
      EncodedMore(Fresh, AllOps(closed[..n]), c.ops);
    }
  }

  /** The frames of a run that are accepted, on the mux clock. */
  function Taken(w: World, es: seq<Event>): seq<MediaFrame>
    decreases |es|
  {
    if es == [] then []
    else
      (if es[0].Arrive? && Accepted(w.session, es[0].frame)
       then [Prepared(es[0].frame, MuxTime(w.session, es[0].frame))] else [])
      + Taken(Step(w, es[0]), es[1..])
  }

  function Flat(groups: seq<Group>): seq<MediaFrame> {
    if groups == [] then [] else Flat(groups[..|groups| - 1]) + groups[|groups| - 1].frames
  }

  lemma {:induction false} LagFreeSorts(w: World, es: seq<Event>, so: Sorting)
    requires LagFree(es)
    ensures Flat(Sorted(w, es, so).groups) + Sorted(w, es, so).open.frames
         == Flat(so.groups) + so.open.frames + Taken(w, es)
    decreases |es|
  {
    hide Step, FrameStep, Accepted, MuxTime, Prepared;
    if es == [] {
      assert Taken(w, es) == [];
      assert Flat(so.groups) + so.open.frames + [] == Flat(so.groups) + so.open.frames;
    } else {
      assert es[0] in es && forall e <- es[1..] :: e in es;
      var next := SortedStep(w, es[0], so);
      LagFreeSorts(Step(w, es[0]), es[1..], next);
      assert (so.groups + [so.open])[..|so.groups|] == so.groups;
      var rest := Taken(Step(w, es[0]), es[1..]);
      var one := if Accepted(w.session, es[0].frame)
        then [Prepared(es[0].frame, MuxTime(w.session, es[0].frame))] else [];
      assert Flat(next.groups) + next.open.frames == Flat(so.groups) + so.open.frames + one;
      hide Flat, Sorted, SortedStep;
      Assoc(Flat(so.groups) + so.open.frames, one, rest);
    }
  }

  lemma {:induction false} FramesJoin(a: seq<Op>, b: seq<Op>)
    ensures FramesOf(a + b) == FramesOf(a) + FramesOf(b)
  {
    if b == [] {
      assert a + b == a;
    } else {
      FramesJoin(a, b[..|b| - 1]);
      assert (a + b)[..|a + b| - 1] == a + b[..|b| - 1];
    }
  }

  lemma {:induction false} FlatHeld(closed: seq<Closed>, groups: seq<Group>)
    requires |closed| == |groups| && forall i :: 0 <= i < |closed| ==> FramesOf(closed[i].ops) == groups[i].frames
    ensures FramesOf(AllOps(closed)) == Flat(groups)
  {
    if closed != [] {
      var n := |closed| - 1;
      FlatHeld(closed[..n], groups[..n]);
      FramesJoin(AllOps(closed[..n]), closed[n].ops);
    }
  }

  /** Without lag nothing is lost: the frames of the closed segments and then those of the open one are exactly the
      frames that were accepted, in order. */
  lemma NothingLost(target: real, maxSegments: nat, es: seq<Event>)
    requires LagFree(es)
    ensures var w := RunOf(target, maxSegments, es);
      FramesOf(AllOps(w.closed)) + FramesOf(w.session.ops) == Taken(NewWorld(target, maxSegments), es)
  {
    SegmentsHoldFrames(target, maxSegments, es);
    var so := SortingOf(target, maxSegments, es);
    FlatHeld(RunOf(target, maxSegments, es).closed, so.groups);
    LagFreeSorts(NewWorld(target, maxSegments), es, Unsorted);
    assert [] + [] + Taken(NewWorld(target, maxSegments), es) == Taken(NewWorld(target, maxSegments), es);
    hide Run, AllOps, FramesOf, Sorted, Taken;
  }

  /** Without lag the closed segments, concatenated, are one transport stream of every frame that was accepted, up to
      those still in the open segment: whole packets, the PAT, PMT and PES units of every PID in order, each frame
      decoding to its elementary stream and carried time stamp, and with known codecs unbroken continuity counters
      across the segment borders. */
  lemma SegmentsAreOneStream(target: real, maxSegments: nat, es: seq<Event>, pid: nat)
    requires LagFree(es)
    ensures var closed := RunOf(target, maxSegments, es).closed;
      FramesOf(AllOps(closed)) + FramesOf(RunOf(target, maxSegments, es).session.ops)
      == Taken(NewWorld(target, maxSegments), es)
    ensures var closed := RunOf(target, maxSegments, es).closed;
      && (forall c <- closed :: Valid(c.base))
      && var stream := TsDemux.ReadPackets(Data(closed));
      && stream.Some?
      && TsDemux.Demux([], stream.value, pid) == TsRuns.Sent(AllOps(closed), pid)
      && (pid == 0x100 || pid == 0x101
          ==> TsRuns.DecodeUnits(TsDemux.Demux([], stream.value, pid)) == Some(TsRuns.Presented(AllOps(closed), pid)))
      && (TsRuns.KnownCodecs(AllOps(closed))
          ==> TsRuns.RunsOn(Fresh, stream.value, RunState(Fresh, AllOps(closed)), pid))
  {
    NothingLost(target, maxSegments, es);
    LagFreeChained(NewWorld(target, maxSegments), es);
    var w := Run(NewWorld(target, maxSegments), es);
    ChainedIsRun(w.closed, w.session.base);
    TsRuns.RunDelivered(Fresh, AllOps(w.closed), pid);
    hide Run, FramesOf, Taken, TsDemux.ReadPackets, TsDemux.Demux, TsRuns.Sent, TsRuns.DecodeUnits, TsRuns.Presented;
    hide TsRuns.RunsOn;
    hide RunState, AllOps, Data, TsRuns.KnownCodecs, Chained, RunPackets, EncodeAll;
  }
}
