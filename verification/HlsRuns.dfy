/** Runs of an HLS session: what its segments hold, how their spans tile the clock, and how they reach the playlist. */
module HlsRuns {
  import opened Bytes
  import opened Media
  import opened HlsTiming
  import opened HlsSession
  import opened TsMuxer
  import M3u8
  import Timestamp

  // ---------------------------------------------------------------- runs

  /** A frame arrives, and a segment it closes is dated by the wall clock and written to disk or not; or the session has
      fallen behind. */
  datatype Event = Arrive(frame: MediaFrame, written: bool, now: int) | Lag

  /** The session and its playlist, with what has happened: the segments closed, those committed, the video clock at
      the last close or lag, and the spans thrown away. */
  datatype World = World(session: Session, playlist: M3u8.Playlist, closed: seq<Closed>, history: seq<M3u8.Segment>,
                         mark: nat, discarded: nat)

  function NewWorld(target: real, maxSegments: nat): World {
    World(NewSession, M3u8.New(target, maxSegments), [], [], 0, 0)
  }

  function ViewOf(p: M3u8.Playlist): PlaylistView {
    PlaylistView(p.target, |p.segments|, p.nextSequence)
  }

  function Listed(c: Closed, now: int): M3u8.Segment {
    M3u8.Segment(c.sequence, Secs(c.durationMs), M3u8.SegmentFilename(c.sequence), LivePdt(c.durationMs, now),
                 c.discontinuity)
  }

  /** The program date of a listed segment and its EXTINF end at the time it was closed. */
  lemma DatedFromEnd(c: Closed, now: int)
    ensures var s := Listed(c, now);
      s.programDateTime as real / 1000.0 + s.duration == now as real / 1000.0
  {
  }

  function Step(w: World, e: Event): World {
    match e
    case Lag =>
      w.(session := Recovered(w.session), mark := w.session.videoMux,
         discarded := w.discarded + SatSub(w.session.lastMux, w.session.openAtSplit))
    case Arrive(frame, written, now) =>
      var (s, c) := FrameStep(w.session, ViewOf(w.playlist), frame);
      if c.None? then w.(session := s)
      else
        var v := w.(session := s, closed := w.closed + [c.value], mark := w.session.videoMux);
        if written then
          v.(playlist := M3u8.Added(w.playlist, Listed(c.value, now)), history := w.history + [Listed(c.value, now)])
        else v
  }

  function Run(w: World, es: seq<Event>): World
    decreases |es|
  {
    if es == [] then w else Run(Step(w, es[0]), es[1..])
  }

  ghost predicate LagFree(es: seq<Event>) {
    forall e <- es :: e.Arrive?
  }

  // ---------------------------------------------------------------- clocks

  /** The last video stamp is the session clock, and the open segment began at or before it. */
  predicate Clocks(s: Session) {
    && s.lastMux == s.videoMux && s.openMux == s.openAtSplit <= s.videoMux
    && s.audioMux <= s.videoMux + 100
    && (s.ops == [] ==> s.openAtSplit == s.videoMux)
    && (!s.primed ==> s.ops == [] && s.videoMux == 0)
  }

  /** The marks and clocks of two sessions are the same. */
  predicate SameClocks(s: Session, t: Session) {
    s.videoMux == t.videoMux && s.audioMux == t.audioMux && s.lastRawVideo == t.lastRawVideo
    && s.lastRawAudio == t.lastRawAudio && s.lastMux == t.lastMux
  }

  /** Before the split decision only an empty buffer is opened, at the clock where it already stood. */
  lemma ReceivedClocks(s: Session, frame: MediaFrame)
    requires Clocks(s)
    ensures var r := Received(s, frame);
      && SameClocks(s, r) && r.openAtSplit == s.openAtSplit && r.openMux == s.openMux && r.base == s.base
      && r.pending == s.pending && r.lastIdr == s.lastIdr && r.primed && r.ops != [] && (s.ops != [] ==> r.ops == s.ops)
      && (s.ops == [] ==> NoFrames(r.ops) && r.ops[0] == Pat)
      && Clocks(r)
  {
    hide Timestamp.DeltaMs;
  }

  lemma MuxedClocks(s: Session, frame: MediaFrame)
    requires Clocks(s) && s.primed && s.ops != []
    ensures var t := Muxed(s, frame);
      && Clocks(t) && s.videoMux <= t.videoMux && t.openAtSplit == s.openAtSplit && t.base == s.base
      && t.pending == s.pending && t.primed && t.ops == s.ops + FrameOps(MuxTime(s, frame), frame)
      && t.lastIdr == (if IsHlsKeyframe(frame) then MuxTime(s, frame) else s.lastIdr)
      && t.videoMux == (if IsVideo(frame.codec) then MuxTime(s, frame) else s.videoMux)
  {
    AdvanceMoves(s.lastRawVideo, s.videoMux, frame.timestamp, frame.clockRate);
    hide AdvanceVideoMux, AudioIdeal;
  }

  lemma ReopenedClocks(s: Session)
    requires Clocks(s) && s.primed
    ensures var t := Reopened(s);
      && Clocks(t) && SameClocks(s, t) && t.primed && t.ops != [] && t.openAtSplit == s.videoMux
      && t.base == RunState(s.base, s.ops)
      && NoFrames(t.ops) && t.ops[0] == (if s.pending then Discontinuity else Pat) && !t.pending && t.lastIdr == 0
  {
    hide RunState;
  }

  /** A split happens only on a key frame and with media since the segment was opened. */
  lemma SplitOnKeyframe(s: Session, view: PlaylistView, frame: MediaFrame)
    ensures ShouldSplit(Evaluated(s, view, frame)) ==> IsHlsKeyframe(frame) && s.lastMux > s.openAtSplit
  {
    hide IsHlsKeyframe, Secs, SplitThreshold, BufferLen;
  }

  /** One frame: the segment is closed only by a key frame, with media in it, at the session clock; else it stays open.
      */
  lemma FrameClocks(s: Session, view: PlaylistView, frame: MediaFrame)
    requires Clocks(s)
    ensures var (t, c) := FrameStep(s, view, frame);
      && Clocks(t) && s.videoMux <= t.videoMux
      && t.openAtSplit == (if c.Some? then s.videoMux else s.openAtSplit)
      && t.base == (if c.Some? then RunState(s.base, s.ops) else s.base)
      && t.pending == (s.pending && c.None?)
      && (c.Some? ==>
            && IsHlsKeyframe(frame) && s.openAtSplit < s.videoMux
            && c.value.openMs == s.openAtSplit && c.value.lastMs == s.videoMux && c.value.ops == s.ops
            && c.value.base == s.base && c.value.sequence == view.nextSequence && c.value.discontinuity == s.pending
            && c.value.durationMs == Max(c.value.lastMs - c.value.openMs, 250))
  {
    if Accepted(s, frame) {
      var r := Received(s, frame);
      ReceivedClocks(s, frame);
      SplitOnKeyframe(r, view, frame);
      hide IsHlsKeyframe, Received, Muxed, Reopened, RunState, ShouldSplit, Evaluated, MuxTime;
      ReopenedClocks(r);
      MuxedClocks(Reopened(r), frame);
      MuxedClocks(r, frame);
    }
  }

  lemma LagClocks(s: Session)
    requires Clocks(s)
    ensures Clocks(Recovered(s))
  {
    hide RunState;
  }

  lemma StepClocks(w: World, e: Event)
    requires Clocks(w.session)
    ensures Clocks(Step(w, e).session)
  {
    hide Clocks, FrameStep, Recovered;
    match e
    case Lag => LagClocks(w.session);
    case Arrive(frame, _, _) => FrameClocks(w.session, ViewOf(w.playlist), frame);
  }

  // ---------------------------------------------------------------- spans

  function Spans(closed: seq<Closed>): nat {
    if closed == [] then 0
    else Spans(closed[..|closed| - 1]) + SatSub(closed[|closed| - 1].lastMs, closed[|closed| - 1].openMs)
  }

  lemma SpansMore(closed: seq<Closed>, c: Closed)
    ensures Spans(closed + [c]) == Spans(closed) + SatSub(c.lastMs, c.openMs)
  {
    assert (closed + [c])[..|closed|] == closed;
  }

  /** The EXTINF of a segment is its span, but at least 250 ms. */
  predicate Announced(c: Closed) {
    c.durationMs == Max(SatSub(c.lastMs, c.openMs), 250)
  }

  predicate AllAnnounced(closed: seq<Closed>) {
    forall c <- closed :: Announced(c)
  }

  predicate SpansAddUp(w: World) {
    Spans(w.closed) + w.discarded == w.mark == w.session.openAtSplit && AllAnnounced(w.closed)
  }

  lemma AnnouncedMore(closed: seq<Closed>, c: Closed)
    requires AllAnnounced(closed) && Announced(c)
    ensures AllAnnounced(closed + [c])
  {
    hide Announced;
  }

  lemma LagSpans(w: World)
    requires Clocks(w.session) && SpansAddUp(w)
    ensures SpansAddUp(Step(w, Lag))
  {
    hide Spans, AllAnnounced;
  }

  lemma FrameSpans(w: World, frame: MediaFrame, written: bool, now: int)
    requires Clocks(w.session) && SpansAddUp(w)
    ensures SpansAddUp(Step(w, Arrive(frame, written, now)))
  {
    FrameClocks(w.session, ViewOf(w.playlist), frame);
    var c := FrameStep(w.session, ViewOf(w.playlist), frame).1;
    hide FrameStep, Spans, AllAnnounced, Clocks, IsHlsKeyframe, RunState, M3u8.Added;
    if c.Some? {
      AnnouncedMore(w.closed, c.value);
      SpansMore(w.closed, c.value);
    }
  }

  lemma StepSpans(w: World, e: Event)
    requires Clocks(w.session) && SpansAddUp(w)
    ensures SpansAddUp(Step(w, e)) && (e.Arrive? ==> Step(w, e).discarded == w.discarded)
  {
    hide Clocks, SpansAddUp, FrameStep;
    match e
    case Lag => LagSpans(w);
    case Arrive(frame, written, now) => FrameSpans(w, frame, written, now);
  }

  /** Over any run the closed spans and those thrown away add up to the video clock at the last close or lag; without
      lag nothing is thrown away, so the closed segments tile the clock. */
  lemma {:induction false} RunSpans(w: World, es: seq<Event>)
    requires Clocks(w.session) && SpansAddUp(w)
    ensures var v := Run(w, es);
      && Spans(v.closed) + v.discarded == v.mark == v.session.openAtSplit <= v.session.videoMux
      && AllAnnounced(v.closed)
      && (LagFree(es) ==> v.discarded == w.discarded)
    decreases |es|
  {
    hide Step, Spans, AllAnnounced;
    if es != [] {
      StepClocks(w, es[0]);
      StepSpans(w, es[0]);
      RunSpans(Step(w, es[0]), es[1..]);
    }
  }

  // ---------------------------------------------------------------- what a segment holds

  predicate IsVideoOp(op: Op) {
    op.Frame? && IsVideo(op.frame.codec)
  }

  /** All video stamps lie above one mark, unless it is zero, and up to another. */
  ghost predicate Within(ops: seq<Op>, low: nat, high: nat) {
    forall op <- ops :: IsVideoOp(op) ==> (low < op.frame.timestamp || low == 0) && op.frame.timestamp <= high
  }

  predicate NoFrames(ops: seq<Op>) {
    forall op <- ops :: !op.Frame?
  }

  lemma HeaderOnly(ops: seq<Op>, low: nat, high: nat)
    requires NoFrames(ops)
    ensures Within(ops, low, high)
  {
  }

  function FrameOps(ts: nat, frame: MediaFrame): seq<Op> {
    [Clock(ts), Frame(Prepared(frame, ts))]
  }

  lemma OneMore(start: seq<Op>, ts: nat, frame: MediaFrame, low: nat, high: nat)
    requires Within(start, low, high) && (IsVideo(frame.codec) ==> (low < ts || low == 0) && ts <= high)
    ensures Within(start + FrameOps(ts, frame), low, high)
  {
    hide IsHlsKeyframe;
  }

  lemma WithinMore(ops: seq<Op>, low: nat, high: nat, more: nat)
    requires Within(ops, low, high) && high <= more
    ensures Within(ops, low, more)
  {
  }

  /** A muxed frame goes at the end: of the open segment, or of a header alone when one was opened for it. */
  lemma FrameAppends(s: Session, view: PlaylistView, frame: MediaFrame)
    requires Clocks(s)
    ensures var (t, c) := FrameStep(s, view, frame);
      if Accepted(s, frame) then
        && |t.ops| >= 2
        && var start, ts := t.ops[..|t.ops| - 2], MuxTime(s, frame);
        && t.ops == start + FrameOps(ts, frame)
        && (if c.None? && s.ops != [] then start == s.ops else NoFrames(start))
        && t.primed && t.videoMux == (if IsVideo(frame.codec) then ts else s.videoMux)
        && t.lastIdr == (if IsHlsKeyframe(frame) then ts else s.lastIdr)
      else
        && c.None? && t.ops == s.ops && t.videoMux == s.videoMux && t.openAtSplit == s.openAtSplit
        && t.primed == s.primed && t.lastIdr == s.lastIdr
  {
    if Accepted(s, frame) {
      var r := Received(s, frame);
      ReceivedClocks(s, frame);
      hide IsHlsKeyframe, Received, ShouldSplit, Evaluated;
      ReopenedClocks(r);
      hide Reopened;
      MuxedClocks(Reopened(r), frame);
      MuxedClocks(r, frame);
      SameMuxTime(s, r, frame);
      SameMuxTime(s, Reopened(r), frame);
      var (t, c) := FrameStep(s, view, frame);
      hide Muxed, Clocks, MuxTime, RunState, SameClocks, NoFrames;
      Tail(if c.Some? then Reopened(r).ops else r.ops, FrameOps(MuxTime(s, frame), frame));
    }
  }

  lemma Tail(start: seq<Op>, more: seq<Op>)
    ensures (start + more)[..|start + more| - |more|] == start
  {
  }

  lemma SameMuxTime(s: Session, t: Session, frame: MediaFrame)
    requires SameClocks(s, t)
    ensures MuxTime(s, frame) == MuxTime(t, frame)
  {
    hide AdvanceVideoMux, Timestamp.DeltaMs;
  }

  // ---------------------------------------------------------------- stamps across segments

  /** Closed segments one above the other: each one's stamps between its marks, its marks above those before it. */
  ghost predicate Stacked(closed: seq<Closed>, top: nat) {
    closed == []
    || (var c := closed[|closed| - 1];
        c.openMs < c.lastMs <= top && Within(c.ops, c.openMs, c.lastMs) && Stacked(closed[..|closed| - 1], c.openMs))
  }

  lemma StackedMore(closed: seq<Closed>, c: Closed)
    requires Stacked(closed, c.openMs) && c.openMs < c.lastMs && Within(c.ops, c.openMs, c.lastMs)
    ensures Stacked(closed + [c], c.lastMs)
  {
    assert (closed + [c])[..|closed|] == closed;
    hide Within;
  }

  lemma StackedHigher(closed: seq<Closed>, top: nat, higher: nat)
    requires Stacked(closed, top) && top <= higher
    ensures Stacked(closed, higher)
  {
    hide Within;
  }

  /** The open segment's stamps lie above its mark, and the closed ones are stacked below it. */
  ghost predicate InBounds(w: World) {
    Within(w.session.ops, w.session.openAtSplit, w.session.videoMux) && Stacked(w.closed, w.session.openAtSplit)
  }

  lemma FrameInBounds(s: Session, view: PlaylistView, frame: MediaFrame)
    requires Clocks(s) && Within(s.ops, s.openAtSplit, s.videoMux)
    ensures var t := FrameStep(s, view, frame).0;
      Within(t.ops, t.openAtSplit, t.videoMux)
  {
    FrameAppends(s, view, frame);
    FrameClocks(s, view, frame);
    var (t, c) := FrameStep(s, view, frame);
    var ts := MuxTime(s, frame);
    AdvanceMoves(s.lastRawVideo, s.videoMux, frame.timestamp, frame.clockRate);
    assert IsVideo(frame.codec) ==> s.videoMux <= ts && (s.videoMux > 0 ==> s.videoMux < ts);
    hide FrameStep, AdvanceVideoMux, Within, IsHlsKeyframe, MuxTime, AudioPts;
    if Accepted(s, frame) {
      var start := t.ops[..|t.ops| - 2];
      if c.None? && s.ops != [] {
        WithinMore(s.ops, s.openAtSplit, s.videoMux, t.videoMux);
      } else {
        HeaderOnly(start, t.openAtSplit, t.videoMux);
      }
      OneMore(start, ts, frame, t.openAtSplit, t.videoMux);
    }
  }

  lemma StepInBounds(w: World, e: Event)
    requires Clocks(w.session) && InBounds(w)
    ensures InBounds(Step(w, e))
  {
    var s := w.session;
    match e {
      case Lag =>
        StackedHigher(w.closed, s.openAtSplit, s.videoMux);
      case Arrive(frame, _, _) =>
        FrameClocks(s, ViewOf(w.playlist), frame);
        FrameInBounds(s, ViewOf(w.playlist), frame);
        hide FrameStep, Within, Stacked;
        var c := FrameStep(s, ViewOf(w.playlist), frame).1;
        if c.Some? {
          StackedMore(w.closed, c.value);
        }
    }
  }

  lemma {:induction false} RunInBounds(w: World, es: seq<Event>)
    requires Clocks(w.session) && InBounds(w)
    ensures InBounds(Run(w, es))
    decreases |es|
  {
    hide Step, InBounds;
    if es != [] {
      StepClocks(w, es[0]);
      StepInBounds(w, es[0]);
      RunInBounds(Step(w, es[0]), es[1..]);
    }
  }

  lemma {:induction false} StackedApart(closed: seq<Closed>, top: nat, i: nat)
    requires Stacked(closed, top) && i < |closed|
    ensures var c := closed[i];
      c.openMs < c.lastMs <= top && Within(c.ops, c.openMs, c.lastMs) && Stacked(closed[..i], c.openMs)
    decreases |closed|
  {
    hide Within;
    var n := |closed| - 1;
    if i < n {
      StackedApart(closed[..n], closed[n].openMs, i);
      assert closed[..n][..i] == closed[..i];
    }
  }

  /** In any run from a new session, every video stamp of a closed segment is strictly above every video stamp of every
      earlier one. */
  lemma SegmentsRise(target: real, maxSegments: nat, es: seq<Event>, i: nat, j: nat, a: Op, b: Op)
    requires i < j < |Run(NewWorld(target, maxSegments), es).closed|
    requires var closed := Run(NewWorld(target, maxSegments), es).closed;
      a in closed[i].ops && b in closed[j].ops && IsVideoOp(a) && IsVideoOp(b)
    ensures a.frame.timestamp < b.frame.timestamp
  {
    RunInBounds(NewWorld(target, maxSegments), es);
    var w := Run(NewWorld(target, maxSegments), es);
    hide Run, Stacked;
    StackedApart(w.closed, w.session.openAtSplit, j);
    StackedApart(w.closed[..j], w.closed[j].openMs, i);
    assert w.closed[..j][i] == w.closed[i];
  }

  // ---------------------------------------------------------------- the discontinuity of a lag

  /** The mark of a lag: the segment that opens after it carries no discontinuity in its own tables but is listed with
      one when it closes, and it is the segment after that whose tables say so. */
  lemma FlagOneLate(s: Session, view: PlaylistView, frame: MediaFrame)
    requires Clocks(s)
    ensures var (t, c) := FrameStep(Recovered(s), view, frame);
      Accepted(Recovered(s), frame) ==> c.None? && t.ops != [] && t.ops[0] == Pat && t.pending
    ensures var (t, c) := FrameStep(s, view, frame);
      c.Some? ==> c.value.discontinuity == s.pending && !t.pending && t.ops != []
                  && (t.ops[0] == Discontinuity <==> c.value.discontinuity)
                      && (t.ops[0] != Discontinuity ==> t.ops[0] == Pat)
  {
    LagClocks(s);
    AfterLag(Recovered(s), view, frame);
    if Accepted(s, frame) {
      var r := Received(s, frame);
      ReceivedClocks(s, frame);
      hide IsHlsKeyframe, Received, ShouldSplit, Evaluated, RunState, MuxTime, Recovered;
      ReopenedClocks(r);
      MuxedClocks(Reopened(r), frame);
    }
  }

  lemma AfterLag(s: Session, view: PlaylistView, frame: MediaFrame)
    requires Clocks(s) && s.ops == [] && s.pending
    ensures var (t, c) := FrameStep(s, view, frame);
      Accepted(s, frame) ==> c.None? && t.ops != [] && t.ops[0] == Pat && t.pending
  {
    if Accepted(s, frame) {
      var r := Received(s, frame);
      ReceivedClocks(s, frame);
      SplitOnKeyframe(r, view, frame);
      hide IsHlsKeyframe, Received, ShouldSplit, Evaluated, RunState, MuxTime;
      MuxedClocks(r, frame);
    }
  }

  // ---------------------------------------------------------------- the playlist

  /** The playlist is what the commits so far leave, numbered from 0. */
  ghost predicate Committed(w: World, target: real, maxSegments: nat) {
    M3u8.InOrder(w.history) && w.playlist == M3u8.Served(target, maxSegments, w.history)
  }

  lemma StepCommitted(w: World, e: Event, target: real, maxSegments: nat)
    requires Clocks(w.session) && Committed(w, target, maxSegments)
    ensures Committed(Step(w, e), target, maxSegments)
  {
    if e.Arrive? {
      FrameClocks(w.session, ViewOf(w.playlist), e.frame);
      M3u8.HistoryIsWindow(target, maxSegments, w.history);
      var c := FrameStep(w.session, ViewOf(w.playlist), e.frame).1;
      hide FrameStep, M3u8.Added, M3u8.New, M3u8.InOrder, M3u8.SegmentFilename, M3u8.Served, Clocks, IsHlsKeyframe;
      hide RunState;
      if c.Some? {
        M3u8.CommitsOn(target, maxSegments, w.history, Listed(c.value, e.now));
      }
    }
  }

  /** Whatever is written or not, in any run the commits are numbered consecutively from 0, and the playlist is the one
      they leave; so it is the window of RFC 8216 that its own module proves. */
  lemma {:induction false} RunCommitted(w: World, es: seq<Event>, target: real, maxSegments: nat)
    requires Clocks(w.session) && Committed(w, target, maxSegments)
    ensures Committed(Run(w, es), target, maxSegments)
    decreases |es|
  {
    hide Step, Committed, Clocks;
    if es != [] {
      StepClocks(w, es[0]);
      StepCommitted(w, es[0], target, maxSegments);
      RunCommitted(Step(w, es[0]), es[1..], target, maxSegments);
    }
  }
}
