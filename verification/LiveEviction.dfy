/**
  * Live coalescing readers when frames are evicted under them: delivered video still increases, except from logs of one
  * exact shape. There the search for the IDR that was just sent finds an older one, which the ring does not know for a
  * key frame and so still keeps in front of its first GOP, and what stands behind that one is sent after all.
  */
module LiveEviction {
  import opened Bytes
  import opened Media
  import opened RingView
  import opened Dispatch
  import opened DispatchRuns
  import opened LiveRuns

  // ---------------------------------------------------------------- the shape

  /** Before the first key frame of the log, the last playable IDR at i with video behind it at j; later a playable IDR
      at c, and a key frame at m behind that. */
  ghost predicate TrapAt(log: Log, i: nat, j: nat, c: nat, m: nat) {
    && i < j < FirstKey(log) <= c < m < |log|
    && IsPlayableIdr(log[i]) && (forall s :: i < s < FirstKey(log) ==> !IsPlayableIdr(log[s]))
    && IsPlayableVideo(log[j]) && IsPlayableIdr(log[c]) && IsVideoKeyframe(log[m])
  }

  ghost predicate Trap(log: Log) {
    exists i, j, c, m :: TrapAt(log, i, j, c, m)
  }

  lemma {:induction false} KeyStays(a: Log, b: Log, i: nat)
    requires a <= b && i <= |a| && FirstKeyFrom(a, i) < |a|
    ensures FirstKeyFrom(b, i) == FirstKeyFrom(a, i)
    decreases |a| - i
  {
    hide IsVideoKeyframe;
    if !IsVideoKeyframe(a[i]) {
      KeyStays(a, b, i + 1);
    }
  }

  lemma TrapGrows(a: Log, b: Log, i: nat, j: nat, c: nat, m: nat)
    requires a <= b && TrapAt(a, i, j, c, m)
    ensures TrapAt(b, i, j, c, m)
  {
    KeyStays(a, b, 0);
    hide IsPlayableIdr, IsPlayableVideo, IsVideoKeyframe, FirstKeyFrom;
  }

  function Video(isKeyframe: bool, data: seq<byte>): MediaFrame {
    MediaFrame(0, 0, None, H264, isKeyframe, data)
  }

  /** Four frames are enough: an IDR that is neither flagged nor in Annex B, a picture, and two key frames. */
  lemma FourFramesTrap()
    ensures Trap([Video(false, [0x65]), Video(false, [0x41]), Video(true, [0x65]), Video(true, [0x65])])
  {
    var log := [Video(false, [0x65]), Video(false, [0x41]), Video(true, [0x65]), Video(true, [0x65])];
    assert !IsVideoKeyframe(log[0]) && !IsVideoKeyframe(log[1]) && IsVideoKeyframe(log[2]) && IsVideoKeyframe(log[3]);
    assert IsPlayableIdr(log[0]) && !IsPlayableIdr(log[1]) && IsPlayableVideo(log[1]) && IsPlayableIdr(log[2]);
    hide IsPlayableIdr, IsPlayableVideo, IsVideoKeyframe;
    assert FirstKeyFrom(log, 2) == 2 && FirstKeyFrom(log, 1) == 2;
    assert TrapAt(log, 0, 1, 2, 3);
  }

  // ---------------------------------------------------------------- time

  lemma BeforeTrans(u: View, v: View, w: View)
    requires NotBefore(u, v) && NotBefore(v, w)
    ensures NotBefore(u, w)
  {
    hide View.Valid, View.Keeps;
  }

  /** Time moves forward within each receive and from one to the next, and none goes past `last`. */
  ghost predicate Timeline(calls: seq<Call>, last: View)
    decreases |calls|
  {
    last.Valid()
    && (calls == []
        || (Forward(calls[0].h) && (forall n: nat :: NotBefore(calls[0].h(n), Start(calls[1..], last)))
            && Timeline(calls[1..], last)))
  }

  /** What the next receive finds first. */
  function Start(calls: seq<Call>, last: View): View {
    if calls == [] then last else calls[0].h(0)
  }

  lemma {:induction false} StartBefore(calls: seq<Call>, last: View)
    requires Timeline(calls, last)
    ensures NotBefore(Start(calls, last), last) && Callable(calls)
    decreases |calls|
  {
    if calls != [] {
      StartBefore(calls[1..], last);
      BeforeTrans(calls[0].h(0), Start(calls[1..], last), last);
      ForwardValid(calls[0].h, 5);
      hide NotBefore, Forward, View.Valid;
      forall i | 0 <= i < |calls| ensures calls[i].h(5).suffix <= |calls[i].h(5).log| {
        assert i > 0 ==> calls[i] == calls[1..][i - 1];
      }
    }
  }

  // ---------------------------------------------------------------- what is gone for good

  /** Of the frames from c up to the mark, which lies in the log, no video is kept. */
  ghost predicate NoVideoBelow(c: nat, mark: nat, v: View) {
    mark <= |v.log| && forall s :: c <= s < mark && IsPlayableVideo(v.log[s]) ==> !v.Keeps(s)
  }

  lemma NoVideoLater(c: nat, mark: nat, v: View, d: nat, w: View)
    requires NoVideoBelow(c, mark, v) && NotBefore(v, w) && c <= d
    ensures NoVideoBelow(d, mark, w)
  {
    hide View.Valid, View.Keeps, IsPlayableVideo;
  }

  /** Nothing below the mark. */
  ghost predicate Above(frames: seq<Stored>, mark: nat) {
    forall i :: 0 <= i < |frames| ==> frames[i].seqNo >= mark
  }

  /** The mark behind the last of these frames. */
  function Marked(frames: seq<Stored>, mark: nat): nat {
    if frames == [] then mark else frames[|frames| - 1].seqNo + 1
  }

  /** What one receive may deliver above a mark: video in order, up to the next cursor or up to video that is gone. */
  ghost predicate Rises(r': Reader, out: seq<Stored>, mark: nat, after: View) {
    && r'.policy == LiveCoalesce
    && Increasing(Videos(out)) && Above(Videos(out), mark)
    && NoVideoBelow(r'.cursor, Marked(Videos(out), mark), after)
  }

  lemma {:induction false} VideosArePlayable(frames: seq<Stored>)
    ensures forall i :: 0 <= i < |Videos(frames)| ==>
      Videos(frames)[i] in frames && IsPlayableVideo(Videos(frames)[i].frame)
  {
    hide IsPlayableVideo;
    if frames != [] {
      VideosArePlayable(frames[1..]);
    }
  }

  /** The video of any window lies above the mark. */
  lemma WindowAbove(v0: View, v: View, c: nat, mark: nat, a: nat, b: nat)
    requires NotBefore(v0, v) && NoVideoBelow(c, mark, v0) && c <= a
    ensures var videos := Videos(v.FramesFrom(a, b));
      Increasing(videos) && InSpan(videos, a, b + 1) && Above(videos, mark)
      && (forall i :: 0 <= i < |videos| ==> videos[i].seqNo < |v.log|)
  {
    var frames := v.FramesFrom(a, b);
    WindowFacts(v, a, b);
    WindowOrdered(v, a, b);
    VideosInSpan(frames, a, b + 1);
    VideosArePlayable(frames);
    NoVideoLater(c, mark, v0, c, v);
    hide View.FramesFrom, View.Valid, IsPlayableVideo;
    forall i | 0 <= i < |Videos(frames)| ensures Videos(frames)[i].seqNo >= mark && Videos(frames)[i].seqNo < |v.log| {
      var k :| 0 <= k < |frames| && frames[k] == Videos(frames)[i];
      assert v.Get(frames[k].seqNo) == Some(frames[k]);
    }
  }

  /** Delivered up to the cursor: whatever was gone stays gone. */
  lemma UpToCursor(r: Reader, r': Reader, out: seq<Stored>, mark: nat, v0: View, after: View)
    requires NotBefore(v0, after) && NoVideoBelow(r.cursor, mark, v0) && r'.policy == LiveCoalesce
        && r.cursor <= r'.cursor
    requires Increasing(Videos(out)) && Above(Videos(out), mark)
    requires forall i :: 0 <= i < |Videos(out)| ==>
      Videos(out)[i].seqNo < r'.cursor && Videos(out)[i].seqNo < |after.log|
    ensures Rises(r', out, mark, after)
  {
    NoVideoLater(r.cursor, mark, v0, r'.cursor, after);
    hide View.Keeps, View.Valid, Videos, IsPlayableVideo, Increasing, Above;
  }

  // ---------------------------------------------------------------- the search

  /** Where the search ends: on an IDR that its view keeps, with no IDR behind it up to the end of the batch that this
      view keeps; or with no IDR of the batch that its last view keeps. */
  lemma {:induction false} SearchEnds(h: Script, at: nat, from: nat, until: int, log: Log) returns (n: nat)
    requires Forward(h) && until < |log| && log <= h(0).log && from <= until + 1
    ensures var k := LastPlayableIdrSeq(h, at, from, until);
      k.Some? ==>
        && from <= k.value <= until && h(n).Keeps(k.value) && IsPlayableIdr(log[k.value])
        && forall s :: k.value < s <= until && IsPlayableIdr(log[s]) ==> !h(n).Keeps(s)
    ensures at <= n
    decreases until + 1 - from
  {
    hide IsPlayableIdr, View.Keeps, View.Valid;
    n := at;
    if from <= until {
      assert NotBefore(h(0), h(at));
      assert h(at).log[until] == log[until];
      var f := h(at).Get(until);
      assert f.Some? <==> h(at).Keeps(until);
      if !(f.Some? && IsPlayableIdr(f.value.frame)) {
        n := SearchEnds(h, at + 1, from, until - 1, log);
        assert NotBefore(h(at), h(n));
        hide Forward;
        assert IsPlayableIdr(log[until]) ==> !h(n).Keeps(until);
      }
    }
  }

  /** A view that has lost c but still keeps k in front of it: k and what it keeps up to c lie before the first key
      frame, and c lies in a GOP that is gone. */
  lemma LostBehind(w: View, k: nat, c: nat)
    requires w.Valid() && w.Keeps(k) && !w.Keeps(c) && k < c < |w.log|
    ensures w.prefix <= k < FirstKey(w.log) <= c < w.suffix < |w.log| && IsVideoKeyframe(w.log[w.suffix])
  {
    hide IsVideoKeyframe, FirstKeyFrom;
  }

  /** Video between the two that is still kept makes the shape. */
  lemma KeptBetween(w: View, k: nat, s: nat, c: nat)
    requires w.Valid() && k < s <= c < |w.log| && w.Keeps(k) && w.Keeps(s) && !w.Keeps(c)
    requires IsPlayableIdr(w.log[k]) && IsPlayableIdr(w.log[c]) && IsPlayableVideo(w.log[s])
    requires forall t :: k < t <= c && IsPlayableIdr(w.log[t]) ==> !w.Keeps(t)
    ensures TrapAt(w.log, k, s, c, w.suffix)
  {
    LostBehind(w, k, c);
    hide IsPlayableIdr, IsPlayableVideo, IsVideoKeyframe, FirstKey;
    forall t | k < t < FirstKey(w.log) ensures !IsPlayableIdr(w.log[t]) {
      assert w.Keeps(t);
    }
  }

  /** An older IDR found in place of the one just sent: unless the log has the shape, no video between them is kept. */
  lemma OlderFound(w: View, after: View, k: nat, c: nat)
    requires NotBefore(w, after) && k < c < |w.log| && w.Keeps(k) && !w.Keeps(c)
    requires IsPlayableIdr(w.log[k]) && IsPlayableIdr(w.log[c])
    requires forall s :: k < s <= c && IsPlayableIdr(w.log[s]) ==> !w.Keeps(s)
    requires !Trap(after.log)
    ensures NoVideoBelow(k + 1, c + 1, after)
  {
    hide IsPlayableIdr, IsPlayableVideo, View.Valid, View.Keeps, TrapAt;
    forall s | k + 1 <= s < c + 1 && IsPlayableVideo(after.log[s]) ensures !after.Keeps(s) {
      if after.Keeps(s) {
        assert w.Keeps(s) && w.log[s] == after.log[s];
        KeptBetween(w, k, s, c);
        TrapGrows(w.log, after.log, k, s, c, w.suffix);
      }
    }
  }

  // ---------------------------------------------------------------- one receive

  lemma NothingRises(r: Reader, r': Reader, mark: nat, v0: View, after: View)
    requires NotBefore(v0, after) && NoVideoBelow(r.cursor, mark, v0) && r'.policy == LiveCoalesce
        && r.cursor <= r'.cursor
    ensures Rises(r', [], mark, after)
  {
    NothingToSplit();
    NothingOrdered(0, 0);
    hide NotBefore, NoVideoBelow, Videos;
    UpToCursor(r, r', [], mark, v0, after);
  }

  /** A window passed on, or only its video if that is all the video there is. */
  lemma WindowRises(r: Reader, r': Reader, out: seq<Stored>, v: View, a: nat, b: nat, mark: nat, v0: View, after: View)
    requires NotBefore(v0, v) && NotBefore(v, after) && NotBefore(v0, after) && NoVideoBelow(r.cursor, mark, v0)
    requires r.cursor <= a <= b && r'.policy == LiveCoalesce && r'.cursor == b + 1
    requires Videos(out) == Videos(v.FramesFrom(a, b))
    ensures Rises(r', out, mark, after)
  {
    WindowAbove(v0, v, r.cursor, mark, a, b);
    LogGrows(v, after);
    hide View.FramesFrom, NotBefore, NoVideoBelow, Videos;
    UpToCursor(r, r', out, mark, v0, after);
  }

  lemma CatchUpRises(r: Reader, h: Script, mark: nat, after: View)
    requires r.policy == LiveCoalesce && r.videoCatchupUntil.Some?
    requires Forward(h) && NotBefore(h(1), after) && NotBefore(h(0), after) && NoVideoBelow(r.cursor, mark, h(0))
    ensures h(5).suffix <= |h(5).log|
    ensures Rises(Recv(r, h).0, Recv(r, h).1, mark, after)
  {
    ForwardValid(h, 5);
    ForwardValid(h, 1);
    assert NotBefore(h(0), h(1));
    var end := Min(h(0).LatestSeq(), r.videoCatchupUntil.value);
    WindowLength(h(1), r.cursor, end);
    var (r', out) := Recv(r, h);
    hide View.FramesFrom, NotBefore, Forward, NoVideoBelow, Videos, Rises;
    if out == [] {
      NothingRises(r, r', mark, h(0), after);
    } else {
      WindowRises(r, r', out, h(1), r.cursor, end, mark, h(0), after);
    }
  }

  /** A jump brings nothing, or a window behind the cursor. */
  lemma JumpBrings(r: Reader, oldest: nat, h: Script) returns (a: nat, b: nat)
    requires h(5).suffix <= |h(5).log| && oldest > r.cursor
    ensures var (r', out) := Jump(r, oldest, h);
      && r'.policy == r.policy && r.cursor <= r'.cursor
      && (out == [] || (r.cursor <= a <= b && out == h(7).FramesFrom(a, b) && r'.cursor == b + 1))
  {
    a := Max(h(5).SnapLatestIdr(), oldest);
    b := Min(h(6).LatestSeq(), a + MAX_SEQUENTIAL_BATCH - 1);
    hide View.FramesFrom, View.SnapLatestIdr, View.LatestSeq;
  }

  lemma JumpRises(r: Reader, oldest: nat, h: Script, mark: nat, after: View)
    requires r.policy == LiveCoalesce && oldest > r.cursor
    requires Forward(h) && NotBefore(h(7), after) && NotBefore(h(0), after) && NoVideoBelow(r.cursor, mark, h(0))
    ensures h(5).suffix <= |h(5).log|
    ensures Rises(Jump(r, oldest, h).0, Jump(r, oldest, h).1, mark, after)
  {
    ForwardValid(h, 5);
    assert NotBefore(h(0), h(7));
    hide *;
    var a, b := JumpBrings(r, oldest, h);
    var (r', out) := Jump(r, oldest, h);
    if out == [] {
      NothingRises(r, r', mark, h(0), after);
    } else {
      WindowRises(r, r', out, h(7), a, b, mark, h(0), after);
    }
  }

  lemma {:induction false} LastIdrPlays(frames: seq<Stored>)
    ensures forall i :: 0 <= i < |LastIdrOf(frames)| ==>
      LastIdrOf(frames)[i] in frames && IsPlayableIdr(LastIdrOf(frames)[i].frame)
    decreases |frames|
  {
    hide IsPlayableIdr;
    if frames != [] {
      LastIdrPlays(frames[..|frames| - 1]);
    }
  }

  /** The IDR of a window is an IDR of the log that the window's view keeps. */
  lemma IdrOfWindow(h: Script, a: nat, b: nat, idr: seq<Stored>)
    requires Forward(h) && b < |h(0).log|
    requires idr == LastIdrOf(Videos(h(3).FramesFrom(a, b)))
    ensures |idr| <= 1 && (idr != [] ==> a <= idr[0].seqNo <= b && IsPlayableIdr(h(0).log[idr[0].seqNo]))
  {
    var frames := h(3).FramesFrom(a, b);
    LastIdrIsVideo(Videos(frames));
    LastIdrPlays(Videos(frames));
    VideosArePlayable(frames);
    assert NotBefore(h(0), h(3));
    LogGrows(h(0), h(3));
    WindowOrdered(h(3), a, b);
    hide View.FramesFrom, View.Valid, View.Keeps, Forward, NotBefore, LastIdrOf, Videos, IsPlayableIdr, IsPlayableVideo;
    if idr != [] {
      assert idr[0] in Videos(frames);
      var i :| 0 <= i < |Videos(frames)| && Videos(frames)[i] == idr[0];
      assert idr[0] in frames;
    }
  }

  lemma OlderFoundLater(v0: View, w: View, after: View, k: nat, c: nat)
    requires NotBefore(v0, w) && NotBefore(w, after) && k < c < |v0.log| && w.Keeps(k)
    requires IsPlayableIdr(v0.log[k]) && IsPlayableIdr(v0.log[c])
    requires forall s :: k < s <= c && IsPlayableIdr(v0.log[s]) ==> !w.Keeps(s)
    requires !Trap(after.log)
    ensures NoVideoBelow(k + 1, c + 1, after)
  {
    LogGrows(v0, w);
    hide IsPlayableIdr, View.Keeps, View.Valid, Trap, NoVideoBelow;
    OlderFound(w, after, k, c);
  }

  /** Where a burst leaves the reader: behind the IDR that the search finds, or behind the burst. */
  lemma BurstLeaves(r: Reader, h: Script, mark: nat, after: View, latest: nat, idr: seq<Stored>)
    requires Forward(h) && (forall n: nat :: NotBefore(h(n), after)) && NoVideoBelow(r.cursor, mark, h(0))
        && !Trap(after.log)
    requires r.cursor <= latest < |h(0).log|
    requires |idr| <= 1 && (idr != [] ==> r.cursor <= idr[0].seqNo <= latest && IsPlayableIdr(h(0).log[idr[0].seqNo]))
    ensures var k := LastPlayableIdrSeq(h, 8, r.cursor, latest);
      (k.Some? ==> r.cursor <= k.value)
      && NoVideoBelow(if k.Some? then k.value + 1 else latest + 1, Marked(idr, mark), after)
  {
    hide LastPlayableIdrSeq, View.Keeps, View.Valid, IsPlayableIdr, IsPlayableVideo, Trap, NotBefore, NoVideoBelow;
    var k := LastPlayableIdrSeq(h, 8, r.cursor, latest);
    var n := SearchEnds(h, 8, r.cursor, latest, h(0).log);
    assert NotBefore(h(0), after) && NotBefore(h(0), h(n)) && NotBefore(h(n), after);
    hide Forward;
    LogGrows(h(0), after);
    if idr == [] {
      NoVideoLater(r.cursor, mark, h(0), if k.Some? then k.value + 1 else latest + 1, after);
    } else if k.Some? && k.value < idr[0].seqNo {
      OlderFoundLater(h(0), h(n), after, k.value, idr[0].seqNo);
    } else {
      NothingBelow(if k.Some? then k.value + 1 else latest + 1, idr[0].seqNo + 1, after);
    }
  }

  lemma NothingBelow(c: nat, mark: nat, v: View)
    requires mark <= c && mark <= |v.log|
    ensures NoVideoBelow(c, mark, v)
  {
  }

  /** A burst: the last IDR of its window is delivered, and the cursor goes behind the IDR that the search finds. */
  lemma BurstRises(r: Reader, h: Script, mark: nat, after: View, latest: nat)
    requires r.policy == LiveCoalesce && r.cursor <= latest < |h(0).log|
    requires Forward(h) && (forall n: nat :: NotBefore(h(n), after)) && NoVideoBelow(r.cursor, mark, h(0))
        && !Trap(after.log)
    requires |Videos(h(3).FramesFrom(r.cursor, latest))| > 1
    ensures var (r', out) := Deliver(r, latest, h(3).FramesFrom(r.cursor, latest), h);
      Rises(r', out, mark, after)
  {
    assert NotBefore(h(0), h(3));
    var frames := h(3).FramesFrom(r.cursor, latest);
    var idr := LastIdrOf(Videos(frames));
    var (r', out) := Deliver(r, latest, frames, h);
    DeliversIdr(r, h, latest, frames);
    hide View.FramesFrom, LastPlayableIdrSeq, Videos, LastIdrOf, Forward, NotBefore, NoVideoBelow, Trap, Deliver;
    IdrOfWindow(h, r.cursor, latest, idr);
    IdrAbove(h(0), h(3), r.cursor, latest, mark, idr);
    BurstLeaves(r, h, mark, after, latest, idr);
  }

  lemma DeliversIdr(r: Reader, h: Script, latest: nat, frames: seq<Stored>)
    requires r.policy == LiveCoalesce && |Videos(frames)| > 1
    ensures var (r', out) := Deliver(r, latest, frames, h);
      var k := LastPlayableIdrSeq(h, 8, r.cursor, latest);
      && r'.policy == LiveCoalesce && r'.cursor == (if k.Some? then k.value + 1 else latest + 1)
      && Videos(out) == LastIdrOf(Videos(frames))
  {
    CoalescedVideos(frames);
    hide LastPlayableIdrSeq, Videos, LastIdrOf, Coalesced;
  }

  lemma IdrAbove(v0: View, v: View, a: nat, b: nat, mark: nat, idr: seq<Stored>)
    requires NotBefore(v0, v) && NoVideoBelow(a, mark, v0) && idr == LastIdrOf(Videos(v.FramesFrom(a, b)))
    ensures Increasing(idr) && Above(idr, mark) && |idr| <= 1
  {
    var videos := Videos(v.FramesFrom(a, b));
    WindowAbove(v0, v, a, mark, a, b);
    LastIdrIsVideo(videos);
    LastIdrPlays(videos);
    hide View.FramesFrom, NotBefore, NoVideoBelow, Videos, LastIdrOf, IsPlayableIdr;
    if idr != [] {
      assert idr[0] in videos;
    }
  }

  /** There is no burst on a hub that was empty at the first call. */
  lemma NotEmpty(v0: View, v: View, c: nat)
    requires v.Valid() && |Videos(v.FramesFrom(c, v0.LatestSeq()))| > 1
    ensures v0.log != [] && v0.LatestSeq() < |v0.log|
  {
    var end := v0.LatestSeq();
    WindowFacts(v, c, end);
    VideosInSpan(v.FramesFrom(c, end), c, end + 1);
    SpanBound(Videos(v.FramesFrom(c, end)), c, end + 1);
    hide View.FramesFrom, Videos, View.Valid;
  }

  /** Every receive of a live reader, whatever is evicted meanwhile. */
  lemma RecvRises(r: Reader, h: Script, mark: nat, after: View)
    requires r.policy == LiveCoalesce
    requires Forward(h) && (forall n: nat :: NotBefore(h(n), after)) && NoVideoBelow(r.cursor, mark, h(0))
        && !Trap(after.log)
    ensures h(5).suffix <= |h(5).log|
    ensures Rises(Recv(r, h).0, Recv(r, h).1, mark, after)
  {
    ForwardValid(h, 5);
    ForwardValid(h, 3);
    assert NotBefore(h(0), after) && NotBefore(h(0), h(3)) && NotBefore(h(3), after);
    var latest := h(0).LatestSeq();
    var frames := h(3).FramesFrom(r.cursor, latest);
    hide View.FramesFrom, View.OldestSeq, Videos, Coalesced, LastPlayableIdrSeq, Forward, NotBefore, NoVideoBelow;
    hide Trap, Rises;
    hide Jump, CatchUp, View.Valid;
    if r.videoCatchupUntil.Some? {
      CatchUpRises(r, h, mark, after);
    } else if r.cursor > latest {
      NothingRises(r, r, mark, h(0), after);
    } else if frames == [] {
      var oldest := h(4).OldestSeq();
      if oldest.Some? && oldest.value > r.cursor {
        JumpRises(r, oldest.value, h, mark, after);
      } else {
        NothingRises(r, r, mark, h(0), after);
      }
    } else if |Videos(frames)| > 1 {
      NotEmpty(h(0), h(3), r.cursor);
      BurstRises(r, h, mark, after, latest);
    } else {
      CoalescedVideos(frames);
      WindowRises(r, r.(cursor := latest + 1), Coalesced(frames), h(3), r.cursor, latest, mark, h(0), after);
    }
  }

  // ---------------------------------------------------------------- runs

  lemma AboveJoin(a: seq<Stored>, b: seq<Stored>, mark: nat)
    requires Increasing(a) && Increasing(b) && Above(a, mark) && Above(b, Marked(a, mark))
    ensures Increasing(a + b) && Above(a + b, mark)
  {
  }

  lemma {:induction false} RunRises(r: Reader, calls: seq<Call>, last: View, mark: nat)
    requires r.policy == LiveCoalesce && Timeline(calls, last) && !Trap(last.log)
    requires NoVideoBelow(r.cursor, mark, Start(calls, last))
    ensures Callable(calls)
    ensures var videos := Videos(Receives(r, calls).1); Increasing(videos) && Above(videos, mark)
    decreases |calls|
  {
    StartBefore(calls, last);
    if calls == [] {
      NothingToSplit();
      NothingOrdered(0, 0);
    } else {
      var h, after := calls[0].h, Start(calls[1..], last);
      StartBefore(calls[1..], last);
      NoTrapBefore(after, last);
      RecvRises(r, h, mark, after);
      var r1, out := Next(r, calls[0]), Recv(r, h).1;
      var mark1 := Marked(Videos(out), mark);
      hide Recv, Forward, NotBefore, NoVideoBelow, Trap, Videos, Increasing, Above, Marked, View.Valid;
      RunRises(r1, calls[1..], last, mark1);
      var more := Receives(r1, calls[1..]).1;
      SplitAppend(out, more);
      AboveJoin(Videos(out), Videos(more), mark);
    }
  }

  lemma NoTrapBefore(v: View, last: View)
    requires NotBefore(v, last) && !Trap(last.log)
    ensures !Trap(v.log)
  {
    if Trap(v.log) {
      var i, j, c, m :| TrapAt(v.log, i, j, c, m);
      TrapGrows(v.log, last.log, i, j, c, m);
    }
  }

  // ---------------------------------------------------------------- the converse

  /** The hub before m is published, and after m when everything from the first key frame on but m is evicted. */
  function Before(log: Log, m: nat): View
    requires m <= |log|
  {
    View(log[..m], 0, FirstKey(log))
  }

  function Behind(log: Log, m: nat): View
    requires m < |log|
  {
    View(log[..m + 1], 0, m)
  }

  /** The key frame m is published while the first receive searches the hub. */
  function Springing(log: Log, m: nat): (calls: seq<Call>)
    requires m < |log|
    ensures |calls| == 2
  {
    var (a, b) := (Before(log, m), Behind(log, m));
    [Call((n: nat) => if n < 8 then a else b, false, false), Call((n: nat) => b, false, false)]
  }

  lemma KeyOfPart(log: Log, n: nat)
    requires FirstKey(log) < n <= |log|
    ensures FirstKey(log[..n]) == FirstKey(log)
  {
    assert log[..n][FirstKey(log)] == log[FirstKey(log)];
    KeyStays(log[..n], log, 0);
    hide IsVideoKeyframe;
  }

  lemma SpringingViews(log: Log, m: nat)
    requires FirstKey(log) < m < |log| && IsVideoKeyframe(log[m])
    ensures var (a, b, last) := (Before(log, m), Behind(log, m), View(log, 0, m));
      && FirstKey(a.log) == FirstKey(b.log) == FirstKey(log)
      && NotBefore(a, a) && NotBefore(a, b) && NotBefore(b, b) && NotBefore(b, last)
  {
    KeyOfPart(log, m);
    KeyOfPart(log, m + 1);
    hide FirstKey, IsVideoKeyframe;
  }

  lemma SpringingTimeline(log: Log, m: nat)
    requires FirstKey(log) < m < |log| && IsVideoKeyframe(log[m])
    ensures Timeline(Springing(log, m), View(log, 0, m))
  {
    SpringingViews(log, m);
    hide FirstKey, IsVideoKeyframe, NotBefore;
    var calls, last := Springing(log, m), View(log, 0, m);
    assert last.Valid() by {
      assert NotBefore(Behind(log, m), last);
      LastValid(Behind(log, m), last);
    }
    assert Forward(calls[0].h) && Forward(calls[1].h);
    assert calls[1..][1..] == [];
    assert Timeline(calls[1..][1..], last);
    assert Timeline(calls[1..], last);
  }

  lemma LastValid(v: View, w: View)
    requires NotBefore(v, w)
    ensures w.Valid()
  {
  }

  /** The search skips what is gone and what is no IDR, down to i. */
  lemma {:induction false} SearchFalls(h: Script, at: nat, i: nat, until: nat, v: View)
    requires (forall n: nat :: n >= at ==> h(n) == v) && i <= until < |v.log| && v.Keeps(i) && IsPlayableIdr(v.log[i])
    requires forall s :: i < s <= until && v.Keeps(s) ==> !IsPlayableIdr(v.log[s])
    ensures LastPlayableIdrSeq(h, at, i, until) == Some(i)
    decreases until
  {
    hide IsPlayableIdr, View.Keeps;
    if until > i {
      SearchFalls(h, at + 1, i, until - 1, v);
    }
  }

  /** The burst that the trap needs: more than one video frame, the last IDR at c or behind it. */
  lemma TwoIdrs(log: Log, i: nat, c: nat, m: nat)
    requires i < c < m <= |log| && IsPlayableIdr(log[i]) && IsPlayableIdr(log[c])
    ensures |VideoLog(log, i, m)| > 1
    ensures var idr := BurstIdr(log, i, m); idr != [] && |idr| == 1 && idr[0].seqNo >= c
  {
    BurstIdrIs(log, i, m);
    BurstIdrIs(log, i + 1, m);
    IdrIsVideo(log[i]);
    var first, rest := [Stored(i, log[i])], Section(log, i + 1, m);
    assert Section(log, i, m) == first + rest;
    SplitAppend(first, rest);
    SplitOne(first[0]);
    assert VideoLog(log, i, m) == first + VideoLog(log, i + 1, m);
    hide IsPlayableIdr, IsPlayableVideo, Section, VideoLog;
  }

  lemma {:induction false} VideoIn(log: Log, a: nat, b: nat, j: nat)
    requires a <= j < b <= |log| && IsPlayableVideo(log[j])
    ensures VideoLog(log, a, b) != [] && InSpan(VideoLog(log, a, b), a, b)
    decreases b
  {
    SectionOrdered(log, a, b);
    VideosInSpan(Section(log, a, b), a, b);
    VideoLogSnoc(log, a, b - 1);
    hide IsPlayableVideo, VideoLog, Section, InSpan;
    if j < b - 1 {
      VideoIn(log, a, b - 1, j);
    }
  }

  lemma FirstWindow(log: Log, i: nat, m: nat)
    requires i < FirstKey(log) < m < |log| && IsVideoKeyframe(log[m])
    ensures Before(log, m).FramesFrom(i, m - 1) == Section(log[..m], i, m)
  {
    SpringingViews(log, m);
    var a := Before(log, m);
    assert a.Valid() by {
      LastValid(a, a);
    }
    assert a.log == log[..m];
    hide IsVideoKeyframe, FirstKey;
    WindowWhole(a, i, m - 1);
  }

  lemma SpringingCalls(log: Log, m: nat)
    requires m < |log|
    ensures var calls := Springing(log, m);
      && (forall n: nat :: calls[0].h(n) == if n < 8 then Before(log, m) else Behind(log, m))
      && (forall n: nat :: calls[1].h(n) == Behind(log, m))
  {
  }

  lemma BehindKeeps(log: Log, m: nat, s: nat)
    requires FirstKey(log) < m < |log| && IsVideoKeyframe(log[m]) && s < m
    ensures Behind(log, m).Keeps(s) <==> s < FirstKey(log)
    ensures Behind(log, m).log[s] == log[s]
  {
    KeyOfPart(log, m + 1);
    hide FirstKey, IsVideoKeyframe;
  }

  lemma FirstSearch(log: Log, i: nat, j: nat, c: nat, m: nat)
    requires TrapAt(log, i, j, c, m)
    ensures LastPlayableIdrSeq(Springing(log, m)[0].h, 8, i, m - 1) == Some(i)
  {
    hide IsPlayableIdr, IsPlayableVideo, IsVideoKeyframe, FirstKey, View.Keeps, Springing, Behind, Before;
    var b := Behind(log, m);
    SpringingCalls(log, m);
    BehindKeeps(log, m, i);
    LongEnough(log, m);
    forall s | i < s <= m - 1 && b.Keeps(s) ensures !IsPlayableIdr(b.log[s]) {
      BehindKeeps(log, m, s);
    }
    SearchFalls(Springing(log, m)[0].h, 8, i, m - 1, b);
  }

  lemma LongEnough(log: Log, m: nat)
    requires m < |log|
    ensures |Behind(log, m).log| == m + 1 && Behind(log, m).suffix == m && Before(log, m).log == log[..m]
    ensures Behind(log, m).LatestSeq() == m && (m > 0 ==> Before(log, m).LatestSeq() == m - 1)
  {
  }

  /** A burst in the window, with the IDR that the search finds. */
  lemma BurstDelivered(r: Reader, h: Script, latest: nat, frames: seq<Stored>, k: nat)
    requires r.policy == LiveCoalesce && r.videoCatchupUntil.None? && h(5).suffix <= |h(5).log|
    requires h(0).LatestSeq() == latest && r.cursor <= latest && h(3).FramesFrom(r.cursor, latest) == frames
    requires |Videos(frames)| > 1 && LastPlayableIdrSeq(h, 8, r.cursor, latest) == Some(k)
    ensures Recv(r, h).0 == r.(cursor := k + 1, videoCatchupUntil := Some(latest))
    ensures Videos(Recv(r, h).1) == LastIdrOf(Videos(frames))
  {
    CoalescedVideos(frames);
    NothingToSplit();
    hide View.FramesFrom, View.LatestSeq, Videos, Coalesced, LastPlayableIdrSeq, LastIdrOf, View.OldestSeq, Jump;
    hide CatchUp;
  }

  /** What the first receive finds. */
  lemma FirstFinds(log: Log, i: nat, j: nat, c: nat, m: nat)
    requires TrapAt(log, i, j, c, m)
    ensures var h := Springing(log, m)[0].h;
      && h(5).suffix <= |h(5).log| && h(0).LatestSeq() == m - 1
      && h(3).FramesFrom(i, m - 1) == Section(log[..m], i, m)
  {
    hide View.FramesFrom, Section, FirstKey, IsPlayableIdr, IsPlayableVideo, IsVideoKeyframe;
    FirstWindow(log, i, m);
    SpringingCalls(log, m);
    LongEnough(log, m);
    SpringingViews(log, m);
    BeforeFits(log, m);
    hide Springing, Before, Behind, NotBefore, View.LatestSeq;
  }

  lemma BeforeFits(log: Log, m: nat)
    requires FirstKey(log) < m < |log|
    ensures Before(log, m).suffix <= |Before(log, m).log|
  {
  }

  lemma FirstBurst(log: Log, i: nat, j: nat, c: nat, m: nat)
    requires TrapAt(log, i, j, c, m)
    ensures var videos := Videos(Section(log[..m], i, m));
      |videos| > 1 && |LastIdrOf(videos)| == 1 && LastIdrOf(videos)[0].seqNo >= c
  {
    assert log[..m][i] == log[i] && log[..m][c] == log[c];
    hide IsPlayableIdr, IsPlayableVideo, IsVideoKeyframe, FirstKey, Videos, LastIdrOf, Section;
    TwoIdrs(log[..m], i, c, m);
  }

  lemma TrapOrder(log: Log, i: nat, j: nat, c: nat, m: nat)
    requires TrapAt(log, i, j, c, m)
    ensures i < j < FirstKey(log) <= c < m < |log| && IsPlayableVideo(log[j]) && IsVideoKeyframe(log[m])
  {
    hide FirstKey, IsPlayableIdr, IsPlayableVideo, IsVideoKeyframe;
  }

  lemma FirstCall(log: Log, i: nat, j: nat, c: nat, m: nat, h: Script)
    requires m < |log| && TrapAt(log, i, j, c, m) && h == Springing(log, m)[0].h
    ensures m > 0 && h(5).suffix <= |h(5).log|
    ensures var r := Reader(LiveCoalesce, i, false, false, None);
      && Recv(r, h).0 == r.(cursor := i + 1, videoCatchupUntil := Some(m - 1))
      && |Videos(Recv(r, h).1)| == 1 && Videos(Recv(r, h).1)[0].seqNo >= c
  {
    hide *;
    TrapOrder(log, i, j, c, m);
    FirstFinds(log, i, j, c, m);
    FirstSearch(log, i, j, c, m);
    FirstBurst(log, i, j, c, m);
    BurstDelivered(Reader(LiveCoalesce, i, false, false, None), h, m - 1, Section(log[..m], i, m), i);
  }

  lemma SecondWindow(log: Log, i: nat, j: nat, m: nat)
    requires i < j < FirstKey(log) < m < |log| && IsVideoKeyframe(log[m]) && IsPlayableVideo(log[j])
    ensures var videos := Videos(Behind(log, m).FramesFrom(i + 1, m - 1));
      videos != [] && InSpan(videos, i + 1, FirstKey(log))
  {
    var b := Behind(log, m);
    var fk := FirstKey(log);
    SpringingViews(log, m);
    hide IsPlayableVideo, IsVideoKeyframe, FirstKey, NotBefore;
    assert b.FramesFrom(i + 1, m - 1) == Section(b.log, i + 1, fk) + [] == Section(b.log, i + 1, fk);
    assert b.log[j] == log[j];
    VideoIn(b.log, i + 1, fk, j);
  }

  /** The rest of a burst, replayed. */
  lemma ReplayDelivered(r: Reader, h: Script, until: nat)
    requires r.policy == LiveCoalesce && r.videoCatchupUntil == Some(until) && h(5).suffix <= |h(5).log|
    requires r.cursor <= until <= h(0).LatestSeq()
    ensures Recv(r, h).1 == h(1).FramesFrom(r.cursor, until)
  {
    hide View.FramesFrom, View.LatestSeq;
  }

  lemma SecondCall(log: Log, i: nat, j: nat, c: nat, m: nat, h: Script)
    requires m < |log| && TrapAt(log, i, j, c, m) && h == Springing(log, m)[1].h
    ensures m > 0 && h(5).suffix <= |h(5).log|
    ensures var videos := Videos(Recv(Reader(LiveCoalesce, i + 1, false, false, Some(m - 1)), h).1);
      videos != [] && InSpan(videos, i + 1, FirstKey(log))
  {
    hide *;
    TrapOrder(log, i, j, c, m);
    SecondWindow(log, i, j, m);
    SpringingCalls(log, m);
    LongEnough(log, m);
    ReplayDelivered(Reader(LiveCoalesce, i + 1, false, false, Some(m - 1)), h, m - 1);
  }

  /** From a log of the shape there is a run that sends older video after newer. */
  lemma TrapSprings(log: Log, i: nat, j: nat, c: nat, m: nat)
    requires TrapAt(log, i, j, c, m)
    ensures var (r, calls, last) := (Reader(LiveCoalesce, i, false, false, None), Springing(log, m), View(log, 0, m));
      Timeline(calls, last) && Callable(calls) && !Increasing(Videos(Receives(r, calls).1))
  {
    var r, calls, last := Reader(LiveCoalesce, i, false, false, None), Springing(log, m), View(log, 0, m);
    TrapOrder(log, i, j, c, m);
    SpringingTimeline(log, m);
    SpringingTakesNone(log, m);
    hide TrapAt, FirstKey, Recv, Timeline, NotBefore, Videos, IsVideoKeyframe, Springing;
    StartBefore(calls, last);
    FirstCall(log, i, j, c, m, calls[0].h);
    SecondCall(log, i, j, c, m, calls[1].h);
    TwoReceives(r, calls);
    var r1 := Reader(LiveCoalesce, i + 1, false, false, Some(m - 1));
    var first, second := Recv(r, calls[0].h).1, Recv(r1, calls[1].h).1;
    SplitAppend(first, second);
    NotIncreasing(Videos(first), Videos(second), c, i + 1, FirstKey(log));
  }

  lemma SpringingTakesNone(log: Log, m: nat)
    requires m < |log|
    ensures forall call <- Springing(log, m) :: !call.takesResync && !call.takesSnap
  {
  }

  lemma NotIncreasing(a: seq<Stored>, b: seq<Stored>, c: nat, lo: nat, hi: nat)
    requires |a| == 1 && a[0].seqNo >= c && b != [] && InSpan(b, lo, hi) && hi <= c
    ensures !Increasing(a + b)
  {
    assert (a + b)[0].seqNo >= c && (a + b)[1] == b[0];
  }

  lemma TwoReceives(r: Reader, calls: seq<Call>)
    requires |calls| == 2 && Callable(calls)
    ensures calls[0].h(5).suffix <= |calls[0].h(5).log| && calls[1].h(5).suffix <= |calls[1].h(5).log|
    ensures Receives(r, calls).1 == Recv(r, calls[0].h).1 + Recv(Next(r, calls[0]), calls[1].h).1
  {
    hide Recv;
    var r1 := Next(r, calls[0]);
    assert calls[1..] == [calls[1]] && calls[1..][1..] == [];
    assert Receives(Next(r1, calls[1]), []).1 == [];
    var second := Recv(r1, calls[1].h).1;
    assert Receives(r1, calls[1..]).1 == second + [];
    assert second + [] == second;
  }

  /** In every run over the log, however it is published and evicted, a live reader's video strictly increases. */
  ghost predicate AlwaysRises(log: Log) {
    forall r: Reader, calls, last: View ::
      r.policy == LiveCoalesce && Timeline(calls, last) && Callable(calls) && last.log == log
      ==> Increasing(Videos(Receives(r, calls).1))
  }

  lemma NoTrapRises(log: Log)
    requires !Trap(log)
    ensures AlwaysRises(log)
  {
    hide Increasing, Videos, Receives, NotBefore, Trap, FirstKey;
    forall r: Reader, calls, last: View
      | r.policy == LiveCoalesce && Timeline(calls, last) && Callable(calls) && last.log == log
      ensures Increasing(Videos(Receives(r, calls).1))
    {
      NothingBelow(r.cursor, 0, Start(calls, last));
      RunRises(r, calls, last, 0);
    }
  }

  lemma OneRunFalls(log: Log, r: Reader, calls: seq<Call>, last: View)
    requires r.policy == LiveCoalesce && Timeline(calls, last) && Callable(calls) && last.log == log
    requires !Increasing(Videos(Receives(r, calls).1))
    ensures !AlwaysRises(log)
  {
    hide Increasing, Videos, Receives, Timeline, Callable;
  }

  lemma TrapFalls(log: Log, i: nat, j: nat, c: nat, m: nat)
    requires TrapAt(log, i, j, c, m)
    ensures !AlwaysRises(log)
  {
    TrapOrder(log, i, j, c, m);
    hide *;
    TrapSprings(log, i, j, c, m);
    OneRunFalls(log, Reader(LiveCoalesce, i, false, false, None), Springing(log, m), View(log, 0, m));
  }

  /** The exact condition: a live reader's video rises in every run over a log if and only if the log does not have the
      shape. */
  lemma LiveVideoRisesIff(log: Log)
    ensures AlwaysRises(log) <==> !Trap(log)
  {
    hide AlwaysRises, TrapAt;
    if Trap(log) {
      var i, j, c, m :| TrapAt(log, i, j, c, m);
      TrapFalls(log, i, j, c, m);
    } else {
      NoTrapRises(log);
    }
  }
}
