/**
  * Live coalescing readers: a burst of video is collapsed to its last IDR, and the GOP behind that
  * IDR is replayed by the next receive, unless the IDR was the last frame of the burst.
  */
module LiveRuns {
  import opened Bytes
  import opened Media
  import opened RingView
  import opened Dispatch
  import opened DispatchRuns

  lemma {:induction false} LastIdrIsVideo(frames: seq<Stored>)
    ensures Videos(LastIdrOf(frames)) == LastIdrOf(frames)
    ensures forall i :: 0 <= i < |LastIdrOf(frames)| ==> LastIdrOf(frames)[i] in frames
    ensures |LastIdrOf(frames)| <= 1
    decreases |frames|
  {
    if frames != [] {
      var last := frames[|frames| - 1];
      SplitOne(last);
      LastIdrIsVideo(frames[..|frames| - 1]);
      NothingToSplit();
    }
    hide Videos;
  }

  lemma LastIdrSnoc(frames: seq<Stored>, f: Stored)
    ensures LastIdrOf(frames + [f]) == if IsPlayableIdr(f.frame) then [f] else LastIdrOf(frames)
  {
    assert (frames + [f])[..|frames|] == frames;
    hide IsPlayableIdr;
  }

  lemma VideosSnoc(frames: seq<Stored>, f: Stored)
    ensures Videos(frames + [f]) == Videos(frames) + if IsPlayableVideo(f.frame) then [f] else []
  {
    SplitAppend(frames, [f]);
    SplitOne(f);
  }

  /** The playable video frames among log entries a to b - 1. */
  ghost function VideoLog(log: Log, a: nat, b: nat): seq<Stored>
    requires b <= |log|
  {
    Videos(Section(log, a, b))
  }

  lemma VideoLogSnoc(log: Log, a: nat, b: nat)
    requires a <= b < |log|
    ensures VideoLog(log, a, a) == []
    ensures VideoLog(log, a, b + 1) == VideoLog(log, a, b) + if IsPlayableVideo(log[b]) then [Stored(b, log[b])] else []
  {
    hide IsPlayableVideo;
    assert Section(log, a, b + 1) == Section(log, a, b) + [Stored(b, log[b])];
    VideosSnoc(Section(log, a, b), Stored(b, log[b]));
    NothingToSplit();
    hide Videos;
  }

  /** The last playable IDR among log entries a to b - 1, if there is one. */
  ghost function BurstIdr(log: Log, a: nat, b: nat): seq<Stored>
    requires b <= |log|
  {
    LastIdrOf(VideoLog(log, a, b))
  }

  lemma BurstIdrSnoc(log: Log, a: nat, b: nat)
    requires a <= b < |log|
    ensures BurstIdr(log, a, a) == []
    ensures BurstIdr(log, a, b + 1) == if IsPlayableIdr(log[b]) then [Stored(b, log[b])] else BurstIdr(log, a, b)
  {
    hide VideoLog;
    VideoLogSnoc(log, a, b);
    LastIdrSnoc(VideoLog(log, a, b), Stored(b, log[b]));
    assert VideoLog(log, a, b) + [] == VideoLog(log, a, b);
    hide LastIdrOf;
  }

  /** `BurstIdr` is the last playable IDR: it lies in the range, and no later frame of the range is one. */
  lemma {:induction false} BurstIdrIs(log: Log, a: nat, b: nat)
    requires a <= b <= |log|
    ensures var idr := BurstIdr(log, a, b);
      if idr == [] then forall s :: a <= s < b ==> !IsPlayableIdr(log[s])
      else
        && a <= idr[0].seqNo < b && IsPlayableIdr(log[idr[0].seqNo])
        && idr == [Stored(idr[0].seqNo, log[idr[0].seqNo])]
        && forall s :: idr[0].seqNo < s < b ==> !IsPlayableIdr(log[s])
    decreases b
  {
    hide BurstIdr, IsPlayableIdr;
    if a < b {
      BurstIdrSnoc(log, a, b - 1);
      BurstIdrIs(log, a, b - 1);
    } else {
      BurstIdrNothing(log, a);
    }
  }

  lemma BurstIdrNothing(log: Log, a: nat)
    requires a <= |log|
    ensures BurstIdr(log, a, a) == []
  {
    NothingToSplit();
  }

  /** Every hub call of the receive finds log entries c and later as they are. */
  ghost predicate Steady(h: Script, c: nat, log: Log) {
    forall n: nat, s: nat :: c <= s < |log| ==> h(n).Get(s) == Some(Stored(s, log[s]))
  }

  lemma IntactIsSteady(h: Script, c: nat)
    requires Forward(h) && Intact(h, c)
    ensures Steady(h, c, h(0).log)
  {
    forall n: nat, s: nat | c <= s < |h(0).log| ensures h(n).Get(s) == Some(Stored(s, h(0).log[s])) {
      assert NotBefore(h(0), h(n));
      LogGrows(h(0), h(n));
    }
  }

  /** What the search through the hub finds is what the collapsed batch carries. */
  lemma {:induction false} SearchFindsLastIdr(h: Script, at: nat, from: nat, until: nat, log: Log)
    requires Steady(h, from, log)
    requires from <= until <= |log|
    ensures var idr := BurstIdr(log, from, until);
      LastPlayableIdrSeq(h, at, from, until - 1) == if idr == [] then None else Some(idr[0].seqNo)
    decreases until
  {
    hide IsPlayableIdr, BurstIdr;
    if from < until {
      BurstIdrSnoc(log, from, until - 1);
      assert h(at).Get(until - 1) == Some(Stored(until - 1, log[until - 1]));
      hide Steady, View.Get;
      SearchFindsLastIdr(h, at + 1, from, until - 1, log);
    } else {
      BurstIdrNothing(log, from);
    }
  }

  /**
    * A burst of more than one video frame delivers its other frames and then no video, or exactly its
    * last playable IDR; in the second case the reader stands just behind that IDR, with the rest of
    * the burst still to come.
    */
  lemma BurstRecv(r: Reader, h: Script)
    requires r.policy == LiveCoalesce && r.videoCatchupUntil.None?
    requires Forward(h) && Intact(h, r.cursor)
    requires r.cursor < |h(0).log|
    requires |VideoLog(h(0).log, r.cursor, |h(0).log|)| > 1
    ensures h(5).suffix <= |h(5).log|
    ensures var end := |h(0).log|;
      var others := Others(Section(h(0).log, r.cursor, end));
      var idr := BurstIdr(h(0).log, r.cursor, end);
      Recv(r, h) ==
        if idr == [] then (r.(cursor := end), others)
        else (r.(cursor := idr[0].seqNo + 1, videoCatchupUntil := Some(end - 1)), others + idr)
  {
    hide Jump, View.FramesFrom, View.OldestSeq, View.SnapLatestIdr, CatchUp, Section, Videos, Others, LastIdrOf;
    hide LastPlayableIdrSeq;
    var log := h(0).log;
    var end := |log|;
    ForwardValid(h, 5);
    LiveWindow(h, r.cursor);
    IntactIsSteady(h, r.cursor);
    SearchFindsLastIdr(h, 8, r.cursor, end, log);
    hide Forward, Intact, Steady;
    var frames := Section(log, r.cursor, end);
    assert Recv(r, h) == Deliver(r, end - 1, frames, h);
    assert Others(frames) + [] == Others(frames);
  }

  /** The window up to the latest frame of the first call is that stretch of the log. */
  lemma LiveWindow(h: Script, c: nat)
    requires Forward(h) && Intact(h, c) && c < |h(0).log|
    ensures h(3).FramesFrom(c, |h(0).log| - 1) == Section(h(0).log, c, |h(0).log|)
    ensures Section(h(0).log, c, |h(0).log|) != []
  {
    hide View.FramesFrom;
    assert NotBefore(h(0), h(3));
    LogGrows(h(0), h(3));
    hide NotBefore;
    IntactWindow(h, c, |h(0).log| - 1);
    hide Forward, Intact;
  }

  /** The receive after a burst delivers exactly the frames between its IDR and its end. */
  lemma ReplayRecv(r: Reader, h: Script, until: nat)
    requires r.policy == LiveCoalesce && r.videoCatchupUntil == Some(until)
    requires Forward(h) && Intact(h, r.cursor)
    requires r.cursor <= until < |h(0).log|
    ensures h(5).suffix <= |h(5).log| && until < |h(1).log|
    ensures Recv(r, h) ==
      (r.(cursor := until + 1, videoCatchupUntil := None), Section(h(1).log, r.cursor, until + 1))
  {
    ForwardValid(h, 5);
    assert NotBefore(h(0), h(1));
    LogGrows(h(0), h(1));
    ForwardValid(h, 1);
    forall s | r.cursor <= s <= until ensures h(1).Keeps(s) {
    }
    WindowWhole(h(1), r.cursor, until);
    hide View.FramesFrom;
  }

  /** When the IDR was the last frame of its burst, the reader never delivers anything again. */
  lemma StuckRecv(r: Reader, h: Script, until: nat)
    requires r.policy == LiveCoalesce && r.videoCatchupUntil == Some(until) && r.cursor > until
    requires Forward(h)
    ensures h(5).suffix <= |h(5).log|
    ensures Recv(r, h) == (r, [])
  {
    ForwardValid(h, 5);
    ForwardValid(h, 1);
    WindowLength(h(1), r.cursor, Min(h(0).LatestSeq(), until));
    hide View.FramesFrom;
  }

  lemma {:induction false} StuckForever(r: Reader, calls: seq<Call>, last: View, until: nat)
    requires r.policy == LiveCoalesce && r.videoCatchupUntil == Some(until) && r.cursor > until
    requires ForwardRun(calls, last)
    ensures var (r', out) := Receives(r, calls);
      out == [] && Unflagged(r') == Unflagged(r)
    decreases |calls|
  {
    if calls != [] {
      ForwardTail(calls, last);
      StuckRecv(r, calls[0].h, until);
      hide Recv, ForwardRun;
      StuckForever(Next(r, calls[0]), calls[1..], last, until);
    }
  }

  /** After a burst with an IDR, the next receive brings frames iff that IDR was not the last of the burst. */
  lemma BurstThenReplayIff(r: Reader, h: Script, h2: Script)
    requires r.policy == LiveCoalesce && r.videoCatchupUntil.None?
    requires Forward(h) && Intact(h, r.cursor)
    requires r.cursor < |h(0).log|
    requires |VideoLog(h(0).log, r.cursor, |h(0).log|)| > 1
    requires BurstIdr(h(0).log, r.cursor, |h(0).log|) != []
    requires Forward(h2) && Intact(h2, r.cursor) && |h(0).log| <= |h2(0).log|
    ensures h(5).suffix <= |h(5).log| && h2(5).suffix <= |h2(5).log|
    ensures Recv(Recv(r, h).0, h2).1 != [] <==> BurstIdr(h(0).log, r.cursor, |h(0).log|)[0].seqNo < |h(0).log| - 1
  {
    hide Recv, BurstIdr, VideoLog, Forward, Others;
    BurstRecv(r, h);
    BurstIdrIs(h(0).log, r.cursor, |h(0).log|);
    var k := BurstIdr(h(0).log, r.cursor, |h(0).log|)[0].seqNo;
    var end: nat := |h(0).log| - 1;
    var r1 := Recv(r, h).0;
    if k < end {
      assert Intact(h2, r1.cursor);
      hide Intact;
      ReplayRecv(r1, h2, end);
    } else {
      StuckRecv(r1, h2, end);
    }
  }

  /** Two frames of which the second is the only key frame: what is kept of them, and what they are as a burst. */
  lemma TwoFrames(p: MediaFrame, idr: MediaFrame)
    requires !IsVideoKeyframe(p) && IsVideoKeyframe(idr)
    ensures var v := View([p, idr], 0, 1);
      v.Valid() && FirstKey(v.log) == 1 && forall s :: 0 <= s < 2 ==> v.Keeps(s)
  {
    hide IsVideoKeyframe;
    var log := [p, idr];
    assert FirstKeyFrom(log, 1) == 1;
  }

  lemma TwoFramesBurst(p: MediaFrame, idr: MediaFrame)
    requires IsPlayableVideo(p) && IsPlayableIdr(idr)
    ensures var log := [p, idr];
      && |VideoLog(log, 0, 2)| == 2 && BurstIdr(log, 0, 2) == [Stored(1, idr)] && Others(Section(log, 0, 2)) == []
  {
    IdrIsVideo(idr);
    hide IsPlayableVideo, IsPlayableIdr;
    var log := [p, idr];
    var a, b := Stored(0, p), Stored(1, idr);
    assert Section(log, 0, 2) == [a] + [b];
    SplitAppend([a], [b]);
    SplitOne(a);
    SplitOne(b);
    BurstIdrSnoc(log, 0, 1);
    hide Others, Videos, BurstIdr, Section;
  }

  /** The smallest burst that ends in its IDR: two frames, and the reader is stuck behind them. */
  lemma BurstEndsInIdr(p: MediaFrame, idr: MediaFrame)
    requires IsPlayableVideo(p) && !IsVideoKeyframe(p) && IsPlayableIdr(idr) && IsVideoKeyframe(idr)
    ensures var v := View([p, idr], 0, 1);
      var h := (n: nat) => v;
      var r := Reader(LiveCoalesce, 0, false, false, None);
      var stuck := r.(cursor := 2, videoCatchupUntil := Some(1));
      && Forward(h) && Intact(h, 0) && h(5).suffix <= |h(5).log|
      && Recv(r, h) == (stuck, [Stored(1, idr)]) && Recv(stuck, h) == (stuck, [])
  {
    var log := [p, idr];
    var v := View(log, 0, 1);
    var h := (n: nat) => v;
    var r := Reader(LiveCoalesce, 0, false, false, None);
    TwoFramesBurst(p, idr);
    StillHub(p, idr);
    hide IsPlayableVideo, IsPlayableIdr, IsVideoKeyframe, Recv, VideoLog, BurstIdr, Others, Section, Forward, Intact;
    BurstRecv(r, h);
    assert [] + [Stored(1, idr)] == [Stored(1, idr)];
    StuckRecv(r.(cursor := 2, videoCatchupUntil := Some(1)), h, 1);
  }

  /** A hub that stands still with both frames kept. */
  lemma StillHub(p: MediaFrame, idr: MediaFrame)
    requires !IsVideoKeyframe(p) && IsVideoKeyframe(idr)
    ensures var v := View([p, idr], 0, 1);
      var h := (n: nat) => v;
      Forward(h) && Intact(h, 0)
  {
    TwoFrames(p, idr);
    hide IsVideoKeyframe, FirstKey, View.Keeps, View.Valid;
  }

  lemma IdrIsVideo(f: MediaFrame)
    requires IsPlayableIdr(f)
    ensures IsPlayableVideo(f)
  {
  }

  // ---------------------------------------------------------------- what comes twice

  lemma DeliversJoin(a: seq<Stored>, b: seq<Stored>, s: nat)
    ensures Delivers(a, s) || Delivers(b, s) ==> Delivers(a + b, s)
  {
    if Delivers(a, s) {
      var i :| 0 <= i < |a| && a[i].seqNo == s;
      assert (a + b)[i].seqNo == s;
    } else if Delivers(b, s) {
      var i :| 0 <= i < |b| && b[i].seqNo == s;
      assert (a + b)[|a| + i].seqNo == s;
    }
  }

  lemma SectionSnoc(log: Log, a: nat, b: nat)
    requires a < b <= |log|
    ensures Section(log, a, b) == Section(log, a, b - 1) + [Stored(b - 1, log[b - 1])]
  {
  }

  lemma OneDelivers(f: Stored)
    ensures Delivers([f], f.seqNo)
  {
    assert [f][0].seqNo == f.seqNo;
  }

  lemma {:induction false} OthersDeliver(log: Log, a: nat, b: nat, s: nat)
    requires a <= s < b <= |log| && !IsPlayableVideo(log[s])
    ensures Delivers(Others(Section(log, a, b)), s)
    decreases b
  {
    hide IsPlayableVideo, Section, Others, Delivers;
    var last := Stored(b - 1, log[b - 1]);
    SectionSnoc(log, a, b);
    SplitAppend(Section(log, a, b - 1), [last]);
    SplitOne(last);
    if s == b - 1 {
      OneDelivers(last);
    } else {
      OthersDeliver(log, a, b - 1, s);
    }
    DeliversJoin(Others(Section(log, a, b - 1)), Others([last]), s);
  }

  /** Of the frames of a burst that are not video, exactly those behind its IDR come twice: with the burst, and again
      with the receive after it. */
  lemma OthersTwiceIff(r: Reader, h: Script, h2: Script, s: nat)
    requires r.policy == LiveCoalesce && r.videoCatchupUntil.None?
    requires Forward(h) && Intact(h, r.cursor)
    requires r.cursor <= s < |h(0).log| && !IsPlayableVideo(h(0).log[s])
    requires |VideoLog(h(0).log, r.cursor, |h(0).log|)| > 1
    requires BurstIdr(h(0).log, r.cursor, |h(0).log|) != []
    requires Forward(h2) && Intact(h2, r.cursor) && |h(0).log| <= |h2(0).log|
    ensures h(5).suffix <= |h(5).log| && h2(5).suffix <= |h2(5).log|
    ensures var (r1, first) := Recv(r, h);
      && Delivers(first, s)
      && (Delivers(Recv(r1, h2).1, s) <==> s > BurstIdr(h(0).log, r.cursor, |h(0).log|)[0].seqNo)
  {
    hide Recv, BurstIdr, VideoLog, Forward, Others, IsPlayableVideo, Delivers;
    BurstRecv(r, h);
    BurstIdrIs(h(0).log, r.cursor, |h(0).log|);
    var idr := BurstIdr(h(0).log, r.cursor, |h(0).log|);
    var k := idr[0].seqNo;
    var end: nat := |h(0).log| - 1;
    var r1 := Recv(r, h).0;
    OthersDeliver(h(0).log, r.cursor, |h(0).log|, s);
    DeliversJoin(Others(Section(h(0).log, r.cursor, |h(0).log|)), idr, s);
    if k < end {
      assert Intact(h2, r1.cursor);
      hide Intact;
      ReplayRecv(r1, h2, end);
      SectionDelivers(h2(1).log, k + 1, end + 1, s);
    } else {
      StuckRecv(r1, h2, end);
      NothingDelivers(s);
    }
  }

  /** The smallest burst that repeats a frame: video, its IDR and audio behind it. The audio comes with the burst, in
      front of the IDR, and once more by itself. */
  lemma AudioComesTwice(p: MediaFrame, idr: MediaFrame, audio: MediaFrame)
    requires IsPlayableVideo(p) && !IsVideoKeyframe(p) && IsPlayableIdr(idr) && IsVideoKeyframe(idr)
    requires !IsPlayableVideo(audio) && !IsVideoKeyframe(audio)
    ensures var v := View([p, idr, audio], 0, 1);
      var h := (n: nat) => v;
      var r := Reader(LiveCoalesce, 0, false, false, None);
      var (r1, first) := (r.(cursor := 2, videoCatchupUntil := Some(2)), [Stored(2, audio), Stored(1, idr)]);
      && Forward(h) && Intact(h, 0) && h(5).suffix <= |h(5).log|
      && Recv(r, h) == (r1, first) && Recv(r1, h) == (r1.(cursor := 3, videoCatchupUntil := None), [Stored(2, audio)])
  {
    var log := [p, idr, audio];
    var v := View(log, 0, 1);
    var h := (n: nat) => v;
    var r := Reader(LiveCoalesce, 0, false, false, None);
    ThreeFramesBurst(p, idr, audio);
    ThreeFramesKept(p, idr, audio);
    hide IsPlayableVideo, IsPlayableIdr, IsVideoKeyframe, Recv, VideoLog, BurstIdr, Others, Forward, Intact;
    BurstRecv(r, h);
    assert [Stored(2, audio)] + [Stored(1, idr)] == [Stored(2, audio), Stored(1, idr)];
    var r1 := r.(cursor := 2, videoCatchupUntil := Some(2));
    assert Intact(h, 2) by {
      IntactLater(h, 0, 2);
    }
    ReplayRecv(r1, h, 2);
    assert Section(log, 2, 3) == [Stored(2, audio)];
  }

  lemma IntactLater(h: Script, c: nat, d: nat)
    requires Intact(h, c) && c <= d
    ensures Intact(h, d)
  {
  }

  lemma ThreeFramesBurst(p: MediaFrame, idr: MediaFrame, audio: MediaFrame)
    requires IsPlayableVideo(p) && IsPlayableIdr(idr) && !IsPlayableVideo(audio)
    ensures var log := [p, idr, audio];
      && |VideoLog(log, 0, 3)| == 2 && BurstIdr(log, 0, 3) == [Stored(1, idr)]
      && Others(Section(log, 0, 3)) == [Stored(2, audio)]
  {
    IdrIsVideo(idr);
    assert !IsPlayableIdr(audio);
    hide IsPlayableVideo, IsPlayableIdr;
    var log := [p, idr, audio];
    var a, b, c := Stored(0, p), Stored(1, idr), Stored(2, audio);
    assert Section(log, 0, 3) == ([a] + [b]) + [c];
    SplitAppend([a] + [b], [c]);
    SplitAppend([a], [b]);
    SplitOne(a);
    SplitOne(b);
    SplitOne(c);
    BurstIdrSnoc(log, 0, 1);
    BurstIdrSnoc(log, 0, 2);
    hide Others, Videos, BurstIdr, Section;
  }

  lemma ThreeFramesKept(p: MediaFrame, idr: MediaFrame, audio: MediaFrame)
    requires !IsVideoKeyframe(p) && IsVideoKeyframe(idr)
    ensures var v := View([p, idr, audio], 0, 1);
      var h := (n: nat) => v;
      Forward(h) && Intact(h, 0)
  {
    hide IsVideoKeyframe;
    var v := View([p, idr, audio], 0, 1);
    assert FirstKeyFrom(v.log, 1) == 1;
    assert v.Valid() && FirstKey(v.log) == 1 && forall s :: 0 <= s < 3 ==> v.Keeps(s);
    hide FirstKey, View.Keeps, View.Valid;
  }

  lemma SectionDelivers(log: Log, a: nat, b: nat, s: nat)
    requires b <= |log|
    ensures Delivers(Section(log, a, b), s) <==> a <= s < b
  {
    if a <= s < b {
      assert Section(log, a, b)[s - a].seqNo == s;
    }
  }

  lemma NothingDelivers(s: nat)
    ensures !Delivers([], s)
  {
  }

  // ---------------------------------------------------------------- video is never repeated

  /** One receive of a live reader: its video frames are new and in order. */
  ghost predicate LiveBatch(r: Reader, r': Reader, out: seq<Stored>) {
    && r'.policy == r.policy
    && r.cursor <= r'.cursor
    && Increasing(Videos(out)) && InSpan(Videos(out), r.cursor, r'.cursor)
  }

  lemma CoalescedVideos(frames: seq<Stored>)
    ensures Videos(Coalesced(frames)) == if |Videos(frames)| > 1 then LastIdrOf(Videos(frames)) else Videos(frames)
  {
    VideosOfSplit(frames);
    LastIdrIsVideo(Videos(frames));
    hide Videos, Others, LastIdrOf;
    var chosen := if |Videos(frames)| > 1 then LastIdrOf(Videos(frames)) else Videos(frames);
    SplitAppend(Others(frames), chosen);
    assert [] + chosen == chosen;
  }

  lemma ReplayIsLiveBatch(r: Reader, h: Script)
    requires r.policy == LiveCoalesce && r.videoCatchupUntil.Some?
    requires Forward(h)
    ensures h(5).suffix <= |h(5).log|
    ensures LiveBatch(r, Recv(r, h).0, Recv(r, h).1)
  {
    hide View.FramesFrom, View.LatestSeq, Videos, Increasing, InSpan;
    ForwardValid(h, 5);
    ForwardValid(h, 1);
    var end := Min(h(0).LatestSeq(), r.videoCatchupUntil.value);
    WindowFacts(h(1), r.cursor, end);
    NothingToSplit();
    NothingOrdered(r.cursor, r.cursor);
    VideosInSpan(h(1).FramesFrom(r.cursor, end), r.cursor, end + 1);
  }

  lemma NothingOrdered(a: nat, b: nat)
    ensures Increasing([]) && InSpan([], a, b)
  {
  }

  lemma SectionOrdered(log: Log, a: nat, b: nat)
    requires b <= |log|
    ensures Increasing(Section(log, a, b)) && InSpan(Section(log, a, b), a, b)
  {
  }

  lemma QuietIsLiveBatch(r: Reader, h: Script)
    requires r.policy == LiveCoalesce && r.videoCatchupUntil.None?
    requires Forward(h) && Intact(h, r.cursor)
    requires r.cursor < |h(0).log|
    requires |VideoLog(h(0).log, r.cursor, |h(0).log|)| <= 1
    ensures h(5).suffix <= |h(5).log|
    ensures LiveBatch(r, Recv(r, h).0, Recv(r, h).1)
  {
    hide Jump, CatchUp, View.FramesFrom, View.OldestSeq, View.SnapLatestIdr, Videos, Section, Coalesced, Increasing;
    hide InSpan;
    ForwardValid(h, 5);
    LiveWindow(h, r.cursor);
    hide Forward, Intact;
    var frames := Section(h(0).log, r.cursor, |h(0).log|);
    CoalescedVideos(frames);
    SectionOrdered(h(0).log, r.cursor, |h(0).log|);
    VideosInSpan(frames, r.cursor, |h(0).log|);
    assert Recv(r, h) == Deliver(r, |h(0).log| - 1, frames, h);
  }

  lemma BurstIsLiveBatch(r: Reader, h: Script)
    requires r.policy == LiveCoalesce && r.videoCatchupUntil.None?
    requires Forward(h) && Intact(h, r.cursor)
    requires r.cursor < |h(0).log|
    requires |VideoLog(h(0).log, r.cursor, |h(0).log|)| > 1
    ensures h(5).suffix <= |h(5).log|
    ensures LiveBatch(r, Recv(r, h).0, Recv(r, h).1)
  {
    hide Recv, Others, Videos, Forward, Intact, Section, LastIdrOf, VideoLog, BurstIdr, Increasing, InSpan;
    BurstRecv(r, h);
    BurstVideos(h(0).log, r.cursor, |h(0).log|);
  }

  /** The video in a collapsed burst: at most its last IDR. */
  lemma BurstVideos(log: Log, a: nat, b: nat)
    requires a <= b <= |log|
    ensures var idr := BurstIdr(log, a, b);
      var others := Others(Section(log, a, b));
      && Videos(others) == [] && Videos(others + idr) == idr
      && Increasing([]) && InSpan([], a, b)
      && (idr != [] ==> a <= idr[0].seqNo < b && Increasing(idr) && InSpan(idr, a, idr[0].seqNo + 1))
  {
    hide Others, Section, Videos, IsPlayableIdr, LastIdrOf;
    var idr := BurstIdr(log, a, b);
    BurstIdrIs(log, a, b);
    VideosOfSplit(Section(log, a, b));
    LastIdrIsVideo(VideoLog(log, a, b));
    SplitAppend(Others(Section(log, a, b)), idr);
    assert [] + idr == idr;
    hide VideoLog;
  }

  /** Every receive of a live reader with nothing past its cursor evicted. */
  lemma LiveRecv(r: Reader, h: Script)
    requires r.policy == LiveCoalesce
    requires Forward(h) && Intact(h, r.cursor)
    ensures h(5).suffix <= |h(5).log|
    ensures LiveBatch(r, Recv(r, h).0, Recv(r, h).1)
  {
    hide *;
    ForwardValid(h, 5);
    if r.videoCatchupUntil.Some? {
      ReplayIsLiveBatch(r, h);
    } else if r.cursor >= |h(0).log| {
      LateIsLiveBatch(r, h);
    } else if |VideoLog(h(0).log, r.cursor, |h(0).log|)| > 1 {
      BurstIsLiveBatch(r, h);
    } else {
      QuietIsLiveBatch(r, h);
    }
  }

  /** The cursor is at the live edge, or the hub was empty at the first call. */
  lemma LateIsLiveBatch(r: Reader, h: Script)
    requires r.policy == LiveCoalesce && r.videoCatchupUntil.None?
    requires Forward(h) && Intact(h, r.cursor)
    requires r.cursor >= |h(0).log|
    ensures h(5).suffix <= |h(5).log|
    ensures LiveBatch(r, Recv(r, h).0, Recv(r, h).1)
  {
    hide View.FramesFrom, View.OldestSeq, View.SnapLatestIdr, Jump, CatchUp, Videos, Coalesced, Section, Increasing;
    hide InSpan;
    ForwardValid(h, 5);
    NothingToSplit();
    NothingOrdered(r.cursor, r.cursor);
    if h(0).log == [] && r.cursor == 0 {
      EmptyOrIntact(h, 0, 0);
      if |h(3).log| > 0 {
        var frames := Section(h(3).log, 0, 1);
        SectionOrdered(h(3).log, 0, 1);
        VideosInSpan(frames, 0, 1);
        CoalescedVideos(frames);
        SpanBound(Videos(frames), 0, 1);
      }
      assert h(4).OldestSeq().Some? ==> h(4).OldestSeq().value == 0;
    }
    hide Forward, Intact;
  }

  lemma {:induction false} SpanBound(frames: seq<Stored>, a: nat, b: nat)
    requires Increasing(frames) && InSpan(frames, a, b)
    ensures |frames| <= Max(b - a, 0)
    decreases |frames|
  {
    if frames != [] {
      SpanBound(frames[1..], frames[0].seqNo + 1, b);
    }
  }

  /** Over any run with nothing past the current cursor evicted, delivered video strictly increases. */
  lemma {:induction false} LiveRun(r: Reader, calls: seq<Call>, last: View)
    requires r.policy == LiveCoalesce && ForwardRun(calls, last) && IntactRun(r, calls)
    ensures var (r', out) := Receives(r, calls);
      && r.cursor <= r'.cursor
      && Increasing(Videos(out)) && InSpan(Videos(out), r.cursor, r'.cursor)
    decreases |calls|
  {
    if calls == [] {
      NothingToSplit();
    } else {
      ForwardTail(calls, last);
      LiveRecv(r, calls[0].h);
      var r1, out := Next(r, calls[0]), Recv(r, calls[0].h).1;
      hide Recv, ForwardRun, Forward, Intact, Videos;
      LiveRun(r1, calls[1..], last);
      var (r2, more) := Receives(r1, calls[1..]);
      SplitAppend(out, more);
      IncreasingJoin(Videos(out), Videos(more), r.cursor, r1.cursor, r2.cursor);
    }
  }

  // ---------------------------------------------------------------- subscribing

  /** Nothing before c. */
  ghost predicate From(frames: seq<Stored>, c: nat) {
    forall i :: 0 <= i < |frames| ==> frames[i].seqNo >= c
  }

  lemma {:induction false} SplitFrom(frames: seq<Stored>, c: nat)
    requires From(frames, c)
    ensures From(Others(frames), c) && From(Videos(frames), c)
    decreases |frames|
  {
    hide IsPlayableVideo;
    if frames != [] {
      SplitFrom(frames[1..], c);
    }
  }

  lemma CoalescedFrom(frames: seq<Stored>, c: nat)
    requires From(frames, c)
    ensures From(Coalesced(frames), c)
  {
    SplitFrom(frames, c);
    LastIdrIsVideo(Videos(frames));
    hide Others, Videos, LastIdrOf;
  }

  lemma {:induction false} SearchInRange(h: Script, at: nat, from: nat, until: int)
    ensures var k := LastPlayableIdrSeq(h, at, from, until);
      k.Some? ==> from <= k.value <= until
    decreases until - from
  {
    hide View.Get, IsPlayableIdr;
    if until >= from {
      SearchInRange(h, at + 1, from, until - 1);
    }
  }

  lemma WindowFrom(v: View, a: nat, b: nat)
    requires v.Valid()
    ensures From(v.FramesFrom(a, b), a) && |v.FramesFrom(a, b)| <= Max(b + 1 - a, 0)
  {
    WindowFacts(v, a, b);
    hide View.FramesFrom;
  }

  /** Whatever the policy and whatever was evicted, a receive delivers nothing from before its cursor, which only moves
      forward. */
  lemma RecvFrom(r: Reader, h: Script)
    requires Forward(h)
    ensures h(5).suffix <= |h(5).log|
    ensures var (r', out) := Recv(r, h); r'.policy == r.policy && r.cursor <= r'.cursor && From(out, r.cursor)
  {
    ForwardValid(h, 5);
    if r.policy != LiveCoalesce {
      assert NotBefore(h(7), h(7));
      OrderedRecv(r, h, h(7));
      hide Recv;
    } else if r.videoCatchupUntil.Some? {
      ForwardValid(h, 1);
      WindowFrom(h(1), r.cursor, Min(h(0).LatestSeq(), r.videoCatchupUntil.value));
      hide View.FramesFrom, View.LatestSeq;
    } else {
      LiveFrom(r, h);
    }
  }

  lemma LiveFrom(r: Reader, h: Script)
    requires r.policy == LiveCoalesce && r.videoCatchupUntil.None? && Forward(h)
    ensures h(5).suffix <= |h(5).log|
    ensures var (r', out) := Recv(r, h); r'.policy == r.policy && r.cursor <= r'.cursor && From(out, r.cursor)
  {
    hide View.FramesFrom, View.OldestSeq, View.SnapLatestIdr, LastPlayableIdrSeq, Videos, Coalesced, Jump, CatchUp;
    ForwardValid(h, 3);
    ForwardValid(h, 5);
    var latest := h(0).LatestSeq();
    hide View.LatestSeq, View.Valid;
    if r.cursor <= latest {
      var frames := h(3).FramesFrom(r.cursor, latest);
      WindowFrom(h(3), r.cursor, latest);
      CoalescedFrom(frames, r.cursor);
      SearchInRange(h, 8, r.cursor, latest);
      var oldest := h(4).OldestSeq();
      if oldest.Some? && oldest.value > r.cursor {
        JumpFrom(r, oldest.value, h);
      }
    }
    hide Forward;
  }

  lemma JumpFrom(r: Reader, oldest: nat, h: Script)
    requires Forward(h) && oldest > r.cursor
    ensures h(5).suffix <= |h(5).log|
    ensures var (r', out) := Jump(r, oldest, h); r'.policy == r.policy && r.cursor <= r'.cursor && From(out, r.cursor)
  {
    assert NotBefore(h(7), h(7));
    BatchFromJump(r, oldest, h, h(7));
    hide Jump, NotBefore, Forward;
  }

  lemma {:induction false} RunFrom(r: Reader, calls: seq<Call>, last: View)
    requires ForwardRun(calls, last)
    ensures r.cursor <= Receives(r, calls).0.cursor && From(Receives(r, calls).1, r.cursor)
    decreases |calls|
  {
    if calls != [] {
      ForwardTail(calls, last);
      RecvFrom(r, calls[0].h);
      hide Recv, ForwardRun, Forward;
      RunFrom(Next(r, calls[0]), calls[1..], last);
    }
  }

  /** A reader subscribed to a hub that is still empty: whatever happens later, one that starts at the live edge never
      delivers frame 0; one that starts at the latest IDR delivers it first, as long as it keeps up with eviction. */
  lemma LiveReaderStart(v: View, policy: Policy, calls: seq<Call>, last: View)
    requires v.Valid() && v.log == [] && ForwardRun(calls, last)
    ensures var r := NewReader(v, policy);
      var (r', out) := Receives(r, calls);
      if policy != SequentialFromIdr then !Delivers(out, 0)
      else IntactRun(r, calls) ==> out == Stretch(last.log, 0, r'.cursor)
  {
    var r := NewReader(v, policy);
    RunFrom(r, calls, last);
    assert KeySeqs([], 0) == [];
    hide Receives, ForwardRun, Stretch;
    if policy == SequentialFromIdr {
      if IntactRun(r, calls) {
        SequentialRunIntact(r, calls, last);
      }
    }
  }
}
