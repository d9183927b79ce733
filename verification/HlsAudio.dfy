/** Where audio falls on the clock of an HLS session: on its own time steps, kept near the video clock. */
module HlsAudio {
  import opened Bytes
  import opened Media
  import Timestamp
  import opened HlsTiming
  import opened HlsSession
  import opened HlsRuns
  import opened TsMuxer

  /** An AAC frame that is muxed. */
  predicate Heard(s: Session, f: MediaFrame) {
    f.codec == AAC && |f.data| >= 8 && s.active && s.primed
  }

  /** The place x of an audio frame, brought to the nearer edge of the 200 ms behind the video clock and the 100 ms
      ahead of it. */
  predicate Placed(t: nat, x: nat, video: nat) {
    && (video <= x + 200 && x <= video + 100 ==> t == x)
    && (x + 200 < video ==> t + 200 == video)
    && (x > video + 100 ==> t == video + 100)
  }

  /** Where an AAC frame is stamped. A step of 1 to 1999 ms from the time stamp before it takes it that far from the
      audio frame before it; a time stamp that does not move on leaves it where that one was; a longer step, or the
      first frame, puts it on the video clock. From there it is brought near the video clock. */
  lemma AudioStamp(s: Session, f: MediaFrame)
    requires f.codec == AAC
    ensures var t := MuxTime(s, f);
      && (s.lastRawAudio == None ==> t == s.videoMux)
      && (s.lastRawAudio.Some? ==>
            var last := s.lastRawAudio.value;
            var delta := Timestamp.DeltaMs(last, f.timestamp, f.clockRate);
            && (f.timestamp <= last ==> Placed(t, s.audioMux, s.videoMux))
            && (f.timestamp > last && 0 < delta < 2000 ==> Placed(t, s.audioMux + delta, s.videoMux))
            && (f.timestamp > last && !(0 < delta < 2000) ==> t == s.videoMux))
  {
    hide Timestamp.DeltaMs;
  }

  /** A frame that is heard goes at the end of the open segment under that stamp, which the next one is measured from.
      */
  lemma AudioMuxed(s: Session, view: PlaylistView, f: MediaFrame)
    requires Clocks(s) && Heard(s, f)
    ensures var (t, c) := FrameStep(s, view, f);
      var stamp := MuxTime(s, f);
      && c.None? && t.audioMux == stamp && t.lastRawAudio == Some(f.timestamp) && t.videoMux == s.videoMux
      && |t.ops| >= 2 && t.ops[|t.ops| - 1] == Frame(Prepared(f, stamp)) && Prepared(f, stamp).timestamp == stamp
  {
    FrameAppends(s, view, f);
    FrameClocks(s, view, f);
    var r := Received(s, f);
    ReceivedClocks(s, f);
    SameMuxTime(s, r, f);
    hide MuxTime, Timestamp.DeltaMs, RunState, Evaluated, IsHlsKeyframe, ShouldSplit, Clocks;
  }

  /** Nothing in between that is heard. */
  predicate Unheard(w: World, es: seq<Event>)
    decreases |es|
  {
    es == []
    || ((es[0].Arrive? ==> !Heard(w.session, es[0].frame)) && Unheard(Step(w, es[0]), es[1..]))
  }

  /** Video, dropped frames and lags leave the place of the last audio frame. */
  lemma StepKeepsAudio(w: World, e: Event)
    requires Clocks(w.session) && w.session.primed && (e.Arrive? ==> !Heard(w.session, e.frame))
    ensures var t := Step(w, e).session;
      && t.audioMux == w.session.audioMux && t.lastRawAudio == w.session.lastRawAudio
      && t.primed && t.active == w.session.active && t.videoMux >= w.session.videoMux
  {
    if e.Arrive? {
      FrameClocks(w.session, ViewOf(w.playlist), e.frame);
      FrameKeepsAudio(w.session, ViewOf(w.playlist), e.frame);
      hide FrameStep, Clocks, Heard;
    }
  }

  lemma FrameKeepsAudio(s: Session, view: PlaylistView, f: MediaFrame)
    requires s.primed && !Heard(s, f)
    ensures var t := FrameStep(s, view, f).0;
      t.audioMux == s.audioMux && t.lastRawAudio == s.lastRawAudio && t.primed && t.active == s.active
  {
    hide MuxTime, Timestamp.DeltaMs, RunState, Evaluated, IsHlsKeyframe, ShouldSplit;
  }

  lemma {:induction false} RunKeepsAudio(w: World, es: seq<Event>)
    requires Clocks(w.session) && w.session.primed && Unheard(w, es)
    ensures var t := Run(w, es).session;
      && t.audioMux == w.session.audioMux && t.lastRawAudio == w.session.lastRawAudio
      && t.primed && t.active == w.session.active && Clocks(t)
    decreases |es|
  {
    if es != [] {
      StepClocks(w, es[0]);
      StepKeepsAudio(w, es[0]);
      hide Step, Clocks, Heard;
      RunKeepsAudio(Step(w, es[0]), es[1..]);
    }
  }

  /** Over any run, between two AAC frames with whatever video, dropped frames and lags in between: the second is
      stamped as far behind the first as its time stamp says, if that is a step of 1 to 1999 ms, and brought near the
      video clock it meets. */
  lemma AudioKeepsPace(w: World, first: Event, es: seq<Event>, second: MediaFrame, delta: nat)
    requires Clocks(w.session) && first.Arrive? && Heard(w.session, first.frame) && Unheard(Step(w, first), es)
    requires Heard(Run(Step(w, first), es).session, second)
    requires first.frame.timestamp < second.timestamp
    requires 0 < delta < 2000 && delta == Timestamp.DeltaMs(first.frame.timestamp, second.timestamp, second.clockRate)
    ensures var s := Run(Step(w, first), es).session;
      Placed(MuxTime(s, second), MuxTime(w.session, first.frame) + delta, s.videoMux)
  {
    AudioMuxed(w.session, ViewOf(w.playlist), first.frame);
    StepClocks(w, first);
    StillPrimed(w, first);
    var w1 := Step(w, first);
    assert w1.session.audioMux == MuxTime(w.session, first.frame);
    assert w1.session.lastRawAudio == Some(first.frame.timestamp);
    hide FrameStep, Clocks, Step, MuxTime, Timestamp.DeltaMs, Heard;
    RunKeepsAudio(w1, es);
    AacIs(Run(w1, es).session, second);
    AudioStamp(Run(w1, es).session, second);
  }

  lemma AacIs(s: Session, f: MediaFrame)
    requires Heard(s, f)
    ensures f.codec == AAC
  {
  }

  lemma StillPrimed(w: World, e: Event)
    requires e.Arrive? && Heard(w.session, e.frame)
    ensures Step(w, e).session.primed
  {
    hide MuxTime, Timestamp.DeltaMs, RunState, Evaluated, IsHlsKeyframe, ShouldSplit;
  }

  /** A frame that is neither video nor AAC, and not dropped, stands at zero, and sets the clock reference to zero. */
  lemma UnknownStamp(s: Session, view: PlaylistView, f: MediaFrame)
    requires Clocks(s) && s.active && s.primed && f.codec == Unknown
    ensures var (t, c) := FrameStep(s, view, f);
      && c.None? && t.videoMux == s.videoMux && t.audioMux == s.audioMux && |t.ops| >= 2
      && t.ops[|t.ops| - 2..] == [Clock(0), Frame(Prepared(f, 0))]
  {
    FrameAppends(s, view, f);
    FrameClocks(s, view, f);
    var r := Received(s, f);
    ReceivedClocks(s, f);
    assert MuxTime(s, f) == 0;
    hide MuxTime, Timestamp.DeltaMs, RunState, Evaluated, IsHlsKeyframe, ShouldSplit, Clocks;
  }

  // ---------------------------------------------------------------- what the tables announce

  /** An AAC frame with media in it has arrived. */
  predicate HasAac(es: seq<Event>) {
    exists e <- es :: e.Arrive? && e.frame.codec == AAC && |e.frame.data| >= 8
  }

  lemma HasAacMore(es: seq<Event>, e: Event)
    ensures HasAac(es + [e]) <==> HasAac(es) || (e.Arrive? && e.frame.codec == AAC && |e.frame.data| >= 8)
  {
    assert forall x :: x in es + [e] <==> x in es || x == e;
  }

  /** AAC frames are counted from the first on, muxed or not. */
  predicate Counts(s: Session, es: seq<Event>) {
    s.active && (s.audioFrames > 0 <==> HasAac(es))
  }

  lemma FrameCounts(s: Session, view: PlaylistView, f: MediaFrame)
    requires s.active
    ensures var t := FrameStep(s, view, f).0;
      t.active && t.audioFrames == s.audioFrames + if f.codec == AAC && |f.data| >= 8 then 1 else 0
  {
    hide MuxTime, Timed, Timestamp.DeltaMs, RunState, Evaluated, IsHlsKeyframe, ShouldSplit;
    if Accepted(s, f) {
      var r := Received(s, f);
      assert r.active && r.audioFrames == Counted(s, f).audioFrames;
      hide Received;
      assert forall x :: Muxed(x, f).audioFrames == x.audioFrames && Muxed(x, f).active == x.active by {
        TimedKeeps(f);
      }
      hide Muxed;
    }
  }

  lemma TimedKeeps(f: MediaFrame)
    ensures forall x ::
      Timed(x, f).audioFrames == x.audioFrames && Timed(x, f).active == x.active && Timed(x, f).ops == x.ops
  {
  }

  lemma {:induction false} RunCounts(w: World, seen: seq<Event>, es: seq<Event>)
    requires Counts(w.session, seen)
    ensures Counts(Run(w, es).session, seen + es)
    decreases |es|
  {
    if es == [] {
      assert seen + es == seen;
    } else {
      if es[0].Arrive? {
        FrameCounts(w.session, ViewOf(w.playlist), es[0].frame);
      }
      HasAacMore(seen, es[0]);
      hide FrameStep, HasAac;
      RunCounts(Step(w, es[0]), seen + [es[0]], es[1..]);
      assert seen + [es[0]] + es[1..] == seen + es;
    }
  }

  /** The tables that a segment opens with. */
  predicate OpensWith(ops: seq<Op>, hasAudio: bool) {
    || (|ops| >= 2 && ops[..2] == [Pat, Pmt(true, hasAudio)])
    || (|ops| >= 3 && ops[..3] == [Discontinuity, Pat, Pmt(true, hasAudio)])
  }

  lemma FrameOpens(s: Session, view: PlaylistView, f: MediaFrame)
    requires Accepted(s, f)
    ensures var (t, c) := FrameStep(s, view, f);
      c.Some? || s.ops == [] ==> OpensWith(t.ops, t.audioFrames > 0)
  {
    var r := Received(s, f);
    DecidedOpens(r, view, f);
    ReceivedOpens(s, f);
    hide Decided, Received, IsHlsKeyframe;
    var (t, c) := FrameStep(s, view, f);
    if c.None? && s.ops == [] {
      assert |r.ops| == 2;
      assert t.ops[..2] == r.ops;
    }
  }

  lemma ReceivedOpens(s: Session, f: MediaFrame)
    ensures s.ops == [] && f.codec == AAC ==> Received(s, f).ops == [Pat, Pmt(true, true)]
    ensures s.ops == [] && f.codec != AAC ==> Received(s, f).ops == [Pat, Pmt(true, s.audioFrames > 0)]
    ensures Received(s, f).audioFrames == s.audioFrames + if f.codec == AAC then 1 else 0
  {
  }

  lemma DecidedOpens(r: Session, view: PlaylistView, f: MediaFrame)
    ensures var (t, c) := Decided(r, view, f);
      && t.audioFrames == r.audioFrames
      && (c.Some? ==> OpensWith(t.ops, r.audioFrames > 0))
      && (c.None? ==> |t.ops| == |r.ops| + 2 && t.ops[..|r.ops|] == r.ops)
  {
    hide MuxTime, Timestamp.DeltaMs, RunState, Evaluated, IsHlsKeyframe, ShouldSplit;
    TimedKeeps(f);
    hide Timed;
  }

  /** In every run, a segment announces video, and audio if and only if an AAC frame had arrived by the time it was
      opened: one that was opened before carries the later audio unannounced. */
  lemma AudioAnnouncedIff(target: real, maxSegments: nat, es: seq<Event>, frame: MediaFrame)
    ensures var w := Run(NewWorld(target, maxSegments), es);
      var (t, c) := FrameStep(w.session, ViewOf(w.playlist), frame);
      Accepted(w.session, frame) && (c.Some? || w.session.ops == []) ==>
        OpensWith(t.ops, HasAac(es) || (frame.codec == AAC && |frame.data| >= 8))
  {
    var w0 := NewWorld(target, maxSegments);
    var w := Run(w0, es);
    RunCounts(w0, [], es);
    assert [] + es == es;
    FrameCounts(w.session, ViewOf(w.playlist), frame);
    hide FrameStep, Run, HasAac;
    if Accepted(w.session, frame) {
      FrameOpens(w.session, ViewOf(w.playlist), frame);
    }
    hide Accepted;
  }
}
