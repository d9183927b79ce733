/** When an HLS session asks its publisher for a key frame. */
module HlsRequests {
  import opened Media
  import opened HlsSession
  import opened HlsRuns
  import opened HlsSegments
  import M3u8

  /** No key frame, or none off the zero of the clock. */
  predicate KeysAtZero(frames: seq<MediaFrame>) {
    forall f <- frames :: IsHlsKeyframe(f) ==> f.timestamp == 0
  }

  lemma KeysMore(frames: seq<MediaFrame>, f: MediaFrame)
    ensures KeysAtZero(frames + [f]) <==> KeysAtZero(frames) && (IsHlsKeyframe(f) ==> f.timestamp == 0)
  {
    hide IsHlsKeyframe;
    assert forall g <- frames :: g in frames + [f];
    assert f in frames + [f];
  }

  lemma {:induction false} KeyMarkIs(frames: seq<MediaFrame>, open: nat)
    requires Steady(frames, open)
    ensures open <= Mark(frames, open) && KeyMark(frames) <= Mark(frames, open)
    ensures KeyMark(frames) == 0 <==> KeysAtZero(frames)
    ensures KeyMark(frames) > open || KeyMark(frames) == 0
    decreases |frames|
  {
    if frames != [] {
      var front, f := frames[..|frames| - 1], frames[|frames| - 1];
      KeyMarkIs(front, open);
      assert frames == front + [f];
      assert IsHlsKeyframe(f) ==> IsVideo(f.codec);
      KeysMore(front, f);
      hide KeysAtZero, IsHlsKeyframe;
    }
  }

  /** Half the split threshold is muxed, in more bytes than a header. */
  predicate Halfway(s: Session, view: PlaylistView, frame: MediaFrame) {
    && Evaluated(s, view, frame).muxSecs >= (if view.committed == 0 then 0.35 else view.target) * 0.5
    && BufferLen(s) > 512
  }

  /** In every run, exactly these frames ask for a key frame: accepted video that is no key frame itself, past half the
      threshold of a segment that holds no key frame, or only such as stand at zero. */
  lemma AskedIff(target: real, maxSegments: nat, es: seq<Event>, frame: MediaFrame)
    ensures var w := RunOf(target, maxSegments, es);
      var (s, view) := (w.session, ViewOf(w.playlist));
      AsksFor(s, view, frame)
      <==> (&& Accepted(s, frame) && IsVideo(frame.codec) && !IsHlsKeyframe(frame)
            && Halfway(Received(s, frame), view, frame) && KeysAtZero(FramesOf(s.ops)))
  {
    var w := RunOf(target, maxSegments, es);
    NewHeld(target, maxSegments, es);
    RunClocks(NewWorld(target, maxSegments), es);
    var g := SortingOf(target, maxSegments, es).open;
    KeyMarkIs(g.frames, w.session.openAtSplit);
    ReceivedClocks(w.session, frame);
    hide RunOf, SortingOf, Evaluated, Received, BufferLen, Steady, Mark, KeyMark, KeysAtZero, IsHlsKeyframe, FramesOf;
    hide LedByKey;
    hide Clocks, HoldsClosed, NoFrames;
  }

  lemma {:induction false} RunClocks(w: World, es: seq<Event>)
    requires Clocks(w.session)
    ensures Clocks(Run(w, es).session)
    decreases |es|
  {
    hide Step, Clocks;
    if es != [] {
      StepClocks(w, es[0]);
      RunClocks(Step(w, es[0]), es[1..]);
    }
  }

  // ---------------------------------------------------------------- when that can be

  /** Behind a split the open segment begins with a key frame off zero. */
  ghost predicate KeyedAfterSplit(w: World, so: Sorting) {
    !so.open.lagged && so.groups != [] ==> w.session.openAtSplit > 0 && !KeysAtZero(so.open.frames)
  }

  lemma StepKeyed(w: World, e: Event, so: Sorting)
    requires Clocks(w.session) && AllHeld(w, so) && KeyedAfterSplit(w, so)
    ensures KeyedAfterSplit(Step(w, e), SortedStep(w, e, so))
  {
    if e.Arrive? {
      var s, view, frame := w.session, ViewOf(w.playlist), e.frame;
      FrameAppends(s, view, frame);
      FrameClocks(s, view, frame);
      var p := Prepared(frame, MuxTime(s, frame));
      assert IsHlsKeyframe(p) == IsHlsKeyframe(frame);
      KeysMore(so.open.frames, p);
      KeysMore([], p);
      assert [] + [p] == [p];
      if IsVideo(frame.codec) {
        VideoNear(s, frame);
      }
      hide FrameStep, Accepted, IsHlsKeyframe, MuxTime, AllHeld, Clocks, KeysAtZero, Prepared, NoFrames, M3u8.Added;
    }
  }

  lemma {:induction false} RunKeyed(w: World, es: seq<Event>, so: Sorting)
    requires Clocks(w.session) && AllHeld(w, so) && KeyedAfterSplit(w, so)
    ensures KeyedAfterSplit(Run(w, es), Sorted(w, es, so))
    decreases |es|
  {
    hide Step, SortedStep, AllHeld, Clocks, KeyedAfterSplit;
    if es != [] {
      StepClocks(w, es[0]);
      StepHeld(w, es[0], so);
      StepKeyed(w, es[0], so);
      RunKeyed(Step(w, es[0]), es[1..], SortedStep(w, es[0], so));
    }
  }

  /** Every segment behind a split starts on its split key frame, so the publisher is asked for a key frame only while
      nothing has been closed yet, or in the segment a lag opened: a long GOP in a running session asks for none. */
  lemma AskedOnlyAtStartOrLag(target: real, maxSegments: nat, es: seq<Event>, frame: MediaFrame)
    ensures var (w, so) := (RunOf(target, maxSegments, es), SortingOf(target, maxSegments, es));
      AsksFor(w.session, ViewOf(w.playlist), frame) ==> w.closed == [] || so.open.lagged
  {
    var w := NewWorld(target, maxSegments);
    assert Clocks(w.session) && AllHeld(w, Unsorted) && KeyedAfterSplit(w, Unsorted);
    RunKeyed(w, es, Unsorted);
    NewHeld(target, maxSegments, es);
    AskedIff(target, maxSegments, es, frame);
    hide Run, Sorted, AsksFor, Holds, HoldsClosed, KeysAtZero, FramesOf, Accepted, Halfway, Received, IsHlsKeyframe;
    assert Holds(RunOf(target, maxSegments, es).session, SortingOf(target, maxSegments, es).open);
    HeldFrames(RunOf(target, maxSegments, es).session, SortingOf(target, maxSegments, es).open);
  }

  lemma HeldFrames(s: Session, g: Group)
    requires Holds(s, g)
    ensures FramesOf(s.ops) == g.frames
  {
  }
}
