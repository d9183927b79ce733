/** Where video falls on the clock of an HLS session, and how far that clock is behind the publisher's. */
module HlsVideo {
  import opened Bytes
  import opened Media
  import opened HlsTiming
  import opened HlsSession
  import opened HlsRuns
  import Timestamp
  import opened TsMuxer

  /** A video frame that is muxed. */
  predicate Shown(s: Session, f: MediaFrame) {
    f.codec in {H264, H265} && Accepted(s, f)
  }

  /** Where a video frame is stamped. A step of 1 to 499 ms from a time stamp that is not zero takes it that far from
      the video frame before it. Any other frame is 40 ms from it, except that a clock at zero stays there until time
      stamps move on. */
  lemma VideoStamp(s: Session, f: MediaFrame)
    requires f.codec in {H264, H265}
    ensures var (last, delta) := (s.lastRawVideo, Timestamp.DeltaMs(s.lastRawVideo, f.timestamp, f.clockRate));
      MuxTime(s, f) ==
        if 0 < last < f.timestamp then s.videoMux + (if 0 < delta < 500 then delta else 40)
        else if s.videoMux == 0 then 0
        else s.videoMux + 40
  {
    hide Timestamp.DeltaMs;
  }

  /** Such a frame goes at the end of the open segment, or of the one it opens, with the clock reference at its stamp
      in front; the next one is measured from it. */
  lemma VideoMuxed(s: Session, view: PlaylistView, f: MediaFrame)
    requires Clocks(s) && Shown(s, f)
    ensures var t := FrameStep(s, view, f).0;
      var stamp := MuxTime(s, f);
      && t.videoMux == stamp && t.lastRawVideo == f.timestamp && |t.ops| >= 2
      && t.ops[|t.ops| - 2..] == [Clock(stamp), Frame(Prepared(f, stamp))] && Prepared(f, stamp).timestamp == stamp
  {
    FrameAppends(s, view, f);
    FrameKeepsRaw(s, view, f);
    hide MuxTime, FrameStep, Clocks, IsHlsKeyframe;
  }

  lemma FrameKeepsRaw(s: Session, view: PlaylistView, f: MediaFrame)
    ensures FrameStep(s, view, f).0.lastRawVideo == if Shown(s, f) then f.timestamp else s.lastRawVideo
  {
    hide MuxTime, AudioPts, RunState, Evaluated, IsHlsKeyframe, ShouldSplit;
    if Accepted(s, f) {
      var r := Received(s, f);
      assert r.lastRawVideo == s.lastRawVideo;
      MuxedRaw(r, f);
      MuxedRaw(Reopened(r), f);
      hide Received, Muxed;
    }
  }

  lemma MuxedRaw(r: Session, f: MediaFrame)
    ensures Muxed(r, f).lastRawVideo == if f.codec in {H264, H265} then f.timestamp else r.lastRawVideo
  {
    hide MuxTime, AudioPts, IsHlsKeyframe;
  }

  /** Audio, dropped frames and lags leave the video clock. */
  lemma StepKeepsVideo(w: World, e: Event)
    requires Clocks(w.session) && (e.Arrive? ==> !Shown(w.session, e.frame))
    ensures var t := Step(w, e).session;
      t.videoMux == w.session.videoMux && t.lastRawVideo == w.session.lastRawVideo
  {
    if e.Arrive? {
      FrameAppends(w.session, ViewOf(w.playlist), e.frame);
      FrameKeepsRaw(w.session, ViewOf(w.playlist), e.frame);
      hide FrameStep, Clocks, MuxTime, IsHlsKeyframe;
    }
  }

  // ---------------------------------------------------------------- runs

  predicate Shows(w: World, e: Event) {
    e.Arrive? && Shown(w.session, e.frame)
  }

  /** The video that is muxed is of one clock, each frame 1 to 499 whole milliseconds after the one before it. Audio,
      dropped frames and lags may come in between. */
  predicate Paced(w: World, es: seq<Event>, last: nat, rate: nat)
    decreases |es|
  {
    es == []
    || if Shows(w, es[0]) then
         && es[0].frame.clockRate == Some(rate) && es[0].frame.timestamp > last
         && rate <= (es[0].frame.timestamp - last) * 1_000 < 500 * rate
         && Paced(Step(w, es[0]), es[1..], es[0].frame.timestamp, rate)
       else Paced(Step(w, es[0]), es[1..], last, rate)
  }

  /** The time stamp of the last video frame that is muxed. */
  function LastShown(w: World, es: seq<Event>, last: nat): nat
    decreases |es|
  {
    if es == [] then last
    else LastShown(Step(w, es[0]), es[1..], if Shows(w, es[0]) then es[0].frame.timestamp else last)
  }

  /** How many are. */
  function ShownCount(w: World, es: seq<Event>): nat
    decreases |es|
  {
    if es == [] then 0 else ShownCount(Step(w, es[0]), es[1..]) + if Shows(w, es[0]) then 1 else 0
  }

  /** Over any run of such video, through splits and lags, the session clock follows the publisher's, and falls behind
      it by less than a millisecond a frame. */
  lemma {:induction false} VideoKeepsPace(w: World, es: seq<Event>, last: nat, rate: nat)
    requires Clocks(w.session) && 0 < last == w.session.lastRawVideo && rate > 0 && Paced(w, es, last, rate)
    ensures LastShown(w, es, last) >= last
    ensures Timestamp.Lags(rate, Run(w, es).session.videoMux - w.session.videoMux, LastShown(w, es, last) - last,
                           ShownCount(w, es))
    decreases |es|
  {
    hide Step, Clocks, Shown, Timestamp.Lags, Timestamp.WholeMs;
    Timestamp.NoLag(rate);
    if es != [] {
      StepClocks(w, es[0]);
      var w1 := Step(w, es[0]);
      if Shows(w, es[0]) {
        var now := es[0].frame.timestamp;
        StepShows(w, es[0], last, rate);
        VideoKeepsPace(w1, es[1..], now, rate);
        Timestamp.LagAdds(rate, w1.session.videoMux - w.session.videoMux,
                          Run(w1, es[1..]).session.videoMux - w1.session.videoMux,
                          now - last, LastShown(w1, es[1..], now) - now, ShownCount(w1, es[1..]));
      } else {
        StepKeepsVideo(w, es[0]);
        VideoKeepsPace(w1, es[1..], last, rate);
      }
    }
  }

  lemma StepShows(w: World, e: Event, last: nat, rate: nat)
    requires Clocks(w.session) && Shows(w, e) && 0 < last == w.session.lastRawVideo && rate > 0
    requires e.frame.clockRate == Some(rate) && e.frame.timestamp > last
    requires rate <= (e.frame.timestamp - last) * 1_000 < 500 * rate
    ensures var t := Step(w, e).session;
      && t.lastRawVideo == e.frame.timestamp && t.videoMux >= w.session.videoMux
      && Timestamp.WholeMs(t.videoMux - w.session.videoMux, e.frame.timestamp - last, rate)
  {
    hide FrameStep, Clocks, MuxTime, Accepted, Timestamp.DeltaMs;
    VideoMuxed(w.session, ViewOf(w.playlist), e.frame);
    VideoStamp(w.session, e.frame);
    Timestamp.DeltaTruncates(last, e.frame.timestamp, rate);
    Timestamp.DeltaBetween(last, e.frame.timestamp, rate, 500);
  }
}
