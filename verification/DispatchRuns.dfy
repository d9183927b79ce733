/**
  * Whole runs of a reader, with publishes and evictions between any two hub calls.
  */
module DispatchRuns {
  import opened Bytes
  import opened Media
  import opened RingView
  import opened Dispatch

  ghost predicate Increasing(frames: seq<Stored>) {
    forall i, j :: 0 <= i < j < |frames| ==> frames[i].seqNo < frames[j].seqNo
  }

  ghost predicate InSpan(frames: seq<Stored>, a: nat, b: nat) {
    forall i :: 0 <= i < |frames| ==> a <= frames[i].seqNo < b
  }

  ghost predicate Delivers(frames: seq<Stored>, s: nat) {
    exists i :: 0 <= i < |frames| && frames[i].seqNo == s
  }

  /** Nothing at or past c has been evicted when any of these hub calls is made. */
  ghost predicate Intact(h: Script, c: nat) {
    forall n: nat, s: nat :: c <= s < |h(n).log| ==> h(n).Keeps(s)
  }

  /** Log entries a to b - 1; none when the reader did not move. */
  function Stretch(log: Log, a: nat, b: nat): seq<Stored> {
    if a < b <= |log| then Section(log, a, b) else []
  }

  lemma StretchJoin(log: Log, a: nat, b: nat, c: nat)
    requires a <= b <= c && (b > a ==> b <= |log|) && (c > b ==> c <= |log|)
    ensures Stretch(log, a, b) + Stretch(log, b, c) == Stretch(log, a, c)
  {
    var left, right := Stretch(log, a, b), Stretch(log, b, c);
    if a == b {
      assert left + right == right;
    } else if b == c {
      assert left + right == left;
    } else {
      SectionSplit(log, a, b, c);
      hide Section;
    }
  }

  ghost predicate IsSequential(policy: Policy) {
    policy == SequentialFromIdr || policy == LiveSequential
  }

  lemma IncreasingJoin(a: seq<Stored>, b: seq<Stored>, lo: nat, mid: nat, hi: nat)
    requires Increasing(a) && Increasing(b) && InSpan(a, lo, mid) && InSpan(b, mid, hi) && lo <= mid <= hi
    ensures Increasing(a + b) && InSpan(a + b, lo, hi)
  {
  }

  lemma WindowLength(v: View, a: nat, b: nat)
    requires v.Valid()
    ensures |v.FramesFrom(a, b)| <= Max(b + 1 - a, 0)
  {
    hide FirstKey;
  }

  /** Frames of a window: ordered, inside it, taken from the log, and complete up to eviction. */
  lemma WindowFacts(v: View, a: nat, b: nat)
    requires v.Valid()
    ensures var f := v.FramesFrom(a, b);
      && Increasing(f) && InSpan(f, a, b + 1) && |f| <= Max(b + 1 - a, 0)
      && (forall i :: 0 <= i < |f| ==> f[i].seqNo < |v.log| && f[i].frame == v.log[f[i].seqNo])
      && (forall s :: a <= s <= b && v.Keeps(s) ==> Delivers(f, s))
  {
    WindowOrdered(v, a, b);
    WindowLength(v, a, b);
    hide View.FramesFrom;
    forall s | a <= s <= b && v.Keeps(s) ensures Delivers(v.FramesFrom(a, b), s) {
      var i := WindowComplete(v, a, b, s);
    }
  }

  lemma LogGrows(v: View, w: View)
    requires NotBefore(v, w)
    ensures |v.log| <= |w.log| && forall s :: 0 <= s < |v.log| ==> v.log[s] == w.log[s]
  {
  }

  // ---------------------------------------------------------------- one receive

  /** Every frame of the span that the view keeps is in the batch. */
  ghost predicate Complete(out: seq<Stored>, a: nat, b: nat, v: View) {
    forall s :: a <= s < b && v.Keeps(s) ==> Delivers(out, s)
  }

  /** One batch of a reader that does not coalesce live: new frames in order, of the log, at most 96. */
  ghost predicate Ordered(r: Reader, r': Reader, out: seq<Stored>, last: View) {
    && r'.policy == r.policy
    && r.cursor <= r'.cursor
    && Increasing(out) && InSpan(out, r.cursor, r'.cursor)
    && |out| <= MAX_SEQUENTIAL_BATCH
    && (forall i :: 0 <= i < |out| ==> out[i].seqNo < |last.log| && out[i].frame == last.log[out[i].seqNo])
  }

  predicate Flagged(r: Reader) {
    r.pendingMuxerResync || r.pendingLiveSnap
  }

  function Unflagged(r: Reader): Reader {
    r.(pendingMuxerResync := false, pendingLiveSnap := false)
  }

  /** This receive itself raises a flag, whatever was pending before it. */
  predicate Raises(r: Reader, h: Script)
    requires h(5).suffix <= |h(5).log|
  {
    Flagged(Recv(Unflagged(r), h).0)
  }

  /** A pending flag changes nothing else, and stays pending. */
  lemma FlagsStay(r: Reader, h: Script)
    requires h(5).suffix <= |h(5).log|
    ensures var (r', out) := Recv(r, h);
      var (u', same) := Recv(Unflagged(r), h);
      && out == same && r' == u'.(pendingMuxerResync := r.pendingMuxerResync || u'.pendingMuxerResync,
                                  pendingLiveSnap := r.pendingLiveSnap || u'.pendingLiveSnap)
  {
    hide View.FramesFrom, View.LatestSeq, View.OldestSeq, View.SnapLatestIdr, LastPlayableIdrSeq, Videos, Coalesced;
  }

  lemma NoBatch(r: Reader, r': Reader, last: View)
    requires r'.policy == r.policy && r.cursor <= r'.cursor
    ensures Ordered(r, r', [], last) && Complete([], r.cursor, r.cursor, last)
  {
  }

  lemma OneIsWhole(f: Stored)
    ensures Coalesced([f]) == [f]
  {
    SplitOne(f);
    hide Others, Videos, LastIdrOf, IsPlayableVideo;
  }

  /** A window that is not coalesced is delivered as it is. */
  lemma WindowDelivered(r: Reader, batchEnd: nat, h: Script)
    requires r.policy != LiveCoalesce && Forward(h)
    requires r.policy == WebRtcPlay ==> batchEnd == r.cursor
    requires h(3).FramesFrom(r.cursor, batchEnd) != []
    ensures Deliver(r, batchEnd, h(3).FramesFrom(r.cursor, batchEnd), h)
         == (r.(cursor := batchEnd + 1), h(3).FramesFrom(r.cursor, batchEnd))
  {
    ForwardValid(h, 3);
    WindowLength(h(3), r.cursor, batchEnd);
    hide View.FramesFrom, Coalesced, Videos;
    var frames := h(3).FramesFrom(r.cursor, batchEnd);
    if r.policy == WebRtcPlay {
      assert frames == [frames[0]];
      OneIsWhole(frames[0]);
    }
  }

  lemma BatchFromWindow(r: Reader, batchEnd: nat, h: Script, last: View)
    requires Forward(h) && NotBefore(h(7), last)
    requires r.cursor <= batchEnd < r.cursor + MAX_SEQUENTIAL_BATCH
    ensures var out := h(3).FramesFrom(r.cursor, batchEnd);
      Ordered(r, r.(cursor := batchEnd + 1), out, last) && Complete(out, r.cursor, batchEnd + 1, h(3))
  {
    ForwardValid(h, 3);
    assert NotBefore(h(3), h(7));
    WindowFacts(h(3), r.cursor, batchEnd);
    LogGrows(h(3), h(7));
    LogGrows(h(7), last);
    hide View.FramesFrom, View.Keeps, NotBefore, Forward, Increasing, Delivers;
  }

  lemma BatchFromJump(r: Reader, oldest: nat, h: Script, last: View)
    requires Forward(h) && NotBefore(h(7), last)
    requires oldest > r.cursor
    ensures h(5).suffix <= |h(5).log|
    ensures var (r', out) := Jump(r, oldest, h); Ordered(r, r', out, last) && r'.pendingMuxerResync
  {
    hide View.FramesFrom, View.SnapLatestIdr, View.LatestSeq, View.Keeps;
    ForwardValid(h, 5);
    ForwardValid(h, 7);
    hide Forward, View.Valid;
    var cursor := Max(h(5).SnapLatestIdr(), oldest);
    var end := Min(h(6).LatestSeq(), cursor + MAX_SEQUENTIAL_BATCH - 1);
    WindowFacts(h(7), cursor, end);
    LogGrows(h(7), last);
    hide NotBefore, Increasing, Delivers;
  }

  lemma SnapMovesOn(r: Reader, h: Script)
    requires Forward(h)
    ensures var (r1, _) := LagSnap(r, h);
      && r1.policy == r.policy && r1.cursor >= r.cursor && (r.pendingMuxerResync ==> r1.pendingMuxerResync)
      && (r1 == r || r1.pendingLiveSnap)
  {
    assert NotBefore(h(0), h(1));
    LogGrows(h(0), h(1));
    hide NotBefore, Forward;
  }

  /** From the reader behind the snap, if there was one. */
  lemma AfterSnap(r: Reader, latest: nat, h: Script, last: View)
    requires r.policy != LiveCoalesce && Forward(h) && NotBefore(h(7), last) && r.cursor <= latest
    ensures h(5).suffix <= |h(5).log|
    ensures var batchEnd := BatchEnd(r.policy, r.cursor, latest);
      var frames := h(3).FramesFrom(r.cursor, batchEnd);
      var oldest := h(4).OldestSeq();
      var (r', out) := if frames != [] then Deliver(r, batchEnd, frames, h)
                       else if oldest.Some? && oldest.value > r.cursor then Jump(r, oldest.value, h)
                       else (r, []);
      && Ordered(r, r', out, last)
      && (!r'.pendingMuxerResync ==> Complete(out, r.cursor, r'.cursor, h(3)))
  {
    ForwardValid(h, 5);
    var batchEnd := BatchEnd(r.policy, r.cursor, latest);
    NoBatch(r, r, last);
    BatchFromWindow(r, batchEnd, h, last);
    hide Ordered, NotBefore, Jump, Deliver, View.FramesFrom, View.OldestSeq, View.SnapLatestIdr;
    if h(3).FramesFrom(r.cursor, batchEnd) != [] {
      WindowDelivered(r, batchEnd, h);
    } else if h(4).OldestSeq().Some? && h(4).OldestSeq().value > r.cursor {
      BatchFromJump(r, h(4).OldestSeq().value, h, last);
    }
    hide Forward;
  }

  lemma OrderedFurther(r: Reader, r1: Reader, r': Reader, out: seq<Stored>, last: View)
    requires Ordered(r1, r', out, last) && r1.policy == r.policy && r.cursor <= r1.cursor
    ensures Ordered(r, r', out, last)
  {
  }

  lemma UnflaggedRecv(r: Reader, h: Script, last: View)
    requires r.policy != LiveCoalesce && Forward(h) && NotBefore(h(7), last)
    ensures h(5).suffix <= |h(5).log|
    ensures var (r', out) := Recv(r, h);
      && Ordered(r, r', out, last)
      && (!Flagged(r') ==> Complete(out, r.cursor, r'.cursor, h(3)))
  {
    ForwardValid(h, 5);
    SnapMovesOn(r, h);
    var (r1, latest) := LagSnap(r, h);
    NoBatch(r, r1, last);
    var (r', out) := Recv(r, h);
    if r1.cursor <= latest {
      AfterSnap(r1, latest, h, last);
      assert r1.pendingLiveSnap ==> r'.pendingLiveSnap;
      hide LagSnap, Recv, Ordered, Complete, NotBefore, Forward, View.FramesFrom, View.OldestSeq, View.SnapLatestIdr;
      OrderedFurther(r, r1, r', out, last);
    }
  }

  /** Every receive of a reader that does not coalesce live, whatever was published or evicted meanwhile: the frames of
      the span it moves over that the ring still kept when the window was read are all in the batch, unless this
      receive raised a flag. */
  lemma OrderedRecv(r: Reader, h: Script, last: View)
    requires r.policy != LiveCoalesce && Forward(h) && NotBefore(h(7), last)
    ensures h(5).suffix <= |h(5).log|
    ensures var (r', out) := Recv(r, h);
      && Ordered(r, r', out, last)
      && (!Raises(r, h) ==> Complete(out, r.cursor, r'.cursor, h(3)))
      && (Flagged(r') <==> Flagged(r) || Raises(r, h))
  {
    UnflaggedRecv(Unflagged(r), h, last);
    FlagsStay(r, h);
    hide Recv, Complete, Forward, NotBefore;
  }

  /** A sequential reader is never snapped to the live edge. */
  lemma SequentialNeverSnaps(r: Reader, h: Script)
    requires IsSequential(r.policy) && h(5).suffix <= |h(5).log|
    ensures Recv(r, h).0.pendingLiveSnap == r.pendingLiveSnap
  {
    hide View.FramesFrom, View.LatestSeq, View.OldestSeq, View.SnapLatestIdr;
  }

  // ---------------------------------------------------------------- nothing evicted past the cursor

  /** What a receive does when nothing past its cursor is evicted: the next stretch of the log, no flag. */
  ghost predicate NextStretch(r: Reader, r': Reader, out: seq<Stored>, last: View) {
    && r' == r.(cursor := r'.cursor)
    && r.cursor <= r'.cursor
    && (r'.cursor > r.cursor ==> r'.cursor <= |last.log|)
    && out == Stretch(last.log, r.cursor, r'.cursor)
  }

  /** A window with frames in it is what a sequential reader receives. */
  lemma SequentialWindow(r: Reader, h: Script, batchEnd: nat)
    requires IsSequential(r.policy) && Forward(h) && r.cursor <= h(0).LatestSeq()
    requires batchEnd == BatchEnd(r.policy, r.cursor, h(0).LatestSeq())
    requires h(3).FramesFrom(r.cursor, batchEnd) != []
    ensures h(5).suffix <= |h(5).log|
    ensures Recv(r, h) == (r.(cursor := batchEnd + 1), h(3).FramesFrom(r.cursor, batchEnd))
  {
    ForwardValid(h, 5);
    hide Forward, Jump, View.SnapLatestIdr, View.FramesFrom, View.OldestSeq, View.LatestSeq;
  }

  lemma IntactBatch(r: Reader, h: Script, last: View)
    requires IsSequential(r.policy) && Forward(h) && NotBefore(h(7), last)
    requires Intact(h, r.cursor) && r.cursor < |h(0).log|
    ensures h(5).suffix <= |h(5).log|
    ensures NextStretch(r, Recv(r, h).0, Recv(r, h).1, last)
  {
    var batchEnd := BatchEnd(r.policy, r.cursor, |h(0).log| - 1);
    assert NotBefore(h(0), h(3));
    LogGrows(h(0), h(3));
    hide NotBefore, Recv, View.FramesFrom, View.Keeps, Section;
    IntactWindow(h, r.cursor, batchEnd);
    SectionLater(h(3), last, r.cursor, batchEnd + 1, h);
    SequentialWindow(r, h, batchEnd);
    hide Forward, Intact;
  }

  lemma EmptyHubBatch(r: Reader, h: Script, last: View)
    requires IsSequential(r.policy) && Forward(h) && NotBefore(h(7), last)
    requires Intact(h, r.cursor) && h(0).log == [] && r.cursor == 0
    ensures h(5).suffix <= |h(5).log|
    ensures NextStretch(r, Recv(r, h).0, Recv(r, h).1, last)
  {
    hide Jump, View.SnapLatestIdr, View.FramesFrom, View.OldestSeq;
    ForwardValid(h, 5);
    EmptyOrIntact(h, 0, 0);
    SectionLater(h(3), last, 0, 1, h);
    hide Forward, Intact, NotBefore, Section;
  }

  /** With nothing past the cursor evicted, a batch is the next stretch of the log. */
  lemma SequentialIntact(r: Reader, h: Script, last: View)
    requires IsSequential(r.policy) && Forward(h) && NotBefore(h(7), last)
    requires Intact(h, r.cursor)
    ensures h(5).suffix <= |h(5).log|
    ensures NextStretch(r, Recv(r, h).0, Recv(r, h).1, last)
  {
    ForwardValid(h, 5);
    if r.cursor < |h(0).log| {
      IntactBatch(r, h, last);
    } else if h(0).log == [] && r.cursor == 0 {
      EmptyHubBatch(r, h, last);
    }
    hide Forward, Intact, NotBefore, View.FramesFrom, View.OldestSeq, View.SnapLatestIdr, Jump;
  }

  lemma IntactWindow(h: Script, a: nat, b: nat)
    requires Forward(h) && Intact(h, a) && a <= b < |h(3).log|
    ensures h(3).FramesFrom(a, b) == Section(h(3).log, a, b + 1)
    ensures h(3).FramesFrom(a, b) != []
  {
    ForwardValid(h, 3);
    forall s | a <= s <= b ensures h(3).Keeps(s) {
    }
    WindowWhole(h(3), a, b);
    hide View.FramesFrom;
  }

  lemma SectionLater(v: View, last: View, a: nat, b: nat, h: Script)
    requires Forward(h) && v == h(3) && NotBefore(h(7), last)
    ensures |v.log| <= |last.log|
    ensures b <= |v.log| ==> Section(v.log, a, b) == Section(last.log, a, b)
  {
    assert NotBefore(h(3), h(7));
    LogGrows(h(3), h(7));
    LogGrows(h(7), last);
  }

  /** The hub was still empty at the first call: the window is empty, or the stretch of one frame. */
  lemma EmptyOrIntact(h: Script, c: nat, batchEnd: nat)
    requires Forward(h) && Intact(h, c) && h(0).log == [] && c == batchEnd == 0
    ensures |h(3).log| > 0 ==> h(3).FramesFrom(0, 0) == Section(h(3).log, 0, 1)
    ensures |h(3).log| == 0 ==> h(3).FramesFrom(0, 0) == []
    ensures |h(4).log| > 0 ==> h(4).OldestSeq() == Some(0)
    ensures |h(4).log| == 0 ==> h(4).OldestSeq() == None
  {
    assert NotBefore(h(3), h(3)) && NotBefore(h(4), h(4));
    if |h(3).log| > 0 {
      WindowWhole(h(3), 0, 0);
    }
    if |h(4).log| > 0 {
      assert h(4).Keeps(0);
    }
    hide FirstKeyFrom;
  }

  // ---------------------------------------------------------------- runs

  /** A receive with its own hub calls, after which the caller may take either flag. */
  datatype Call = Call(h: Script, takesResync: bool, takesSnap: bool)

  function Taken(r: Reader, c: Call): Reader {
    r.(pendingMuxerResync := r.pendingMuxerResync && !c.takesResync,
       pendingLiveSnap := r.pendingLiveSnap && !c.takesSnap)
  }

  ghost predicate Callable(calls: seq<Call>) {
    forall i :: 0 <= i < |calls| ==> calls[i].h(5).suffix <= |calls[i].h(5).log|
  }

  function Next(r: Reader, c: Call): Reader
    requires c.h(5).suffix <= |c.h(5).log|
  {
    Taken(Recv(r, c.h).0, c)
  }

  /** Successive receives: the reader left, and the batches one after the other. */
  ghost function Receives(r: Reader, calls: seq<Call>): (Reader, seq<Stored>)
    requires Callable(calls)
    decreases |calls|
  {
    if calls == [] then (r, [])
    else
      var (r2, more) := Receives(Next(r, calls[0]), calls[1..]);
      (r2, Recv(r, calls[0].h).1 + more)
  }

  /** The reader as receive i finds it. */
  ghost function ReaderAt(r: Reader, calls: seq<Call>, i: nat): Reader
    requires Callable(calls) && i <= |calls|
    decreases i
  {
    if i == 0 then r else ReaderAt(Next(r, calls[0]), calls[1..], i - 1)
  }

  /** Time moves forward within each receive, and none goes past `last`. */
  ghost predicate ForwardRun(calls: seq<Call>, last: View) {
    && last.Valid() && Callable(calls)
    && (forall i :: 0 <= i < |calls| ==> Forward(calls[i].h) && NotBefore(calls[i].h(7), last))
  }

  lemma ForwardTail(calls: seq<Call>, last: View)
    requires ForwardRun(calls, last) && calls != []
    ensures ForwardRun(calls[1..], last)
    ensures Forward(calls[0].h) && NotBefore(calls[0].h(7), last) && calls[0].h(5).suffix <= |calls[0].h(5).log|
  {
  }

  ghost predicate OfLog(frames: seq<Stored>, log: Log) {
    forall i :: 0 <= i < |frames| ==> frames[i].seqNo < |log| && frames[i].frame == log[frames[i].seqNo]
  }

  lemma OfLogJoin(a: seq<Stored>, b: seq<Stored>, log: Log)
    requires OfLog(a, log) && OfLog(b, log)
    ensures OfLog(a + b, log)
  {
  }

  lemma NothingInOrder(a: nat, b: nat, log: Log)
    ensures Increasing([]) && InSpan([], a, b) && OfLog([], log)
  {
  }

  /** A reader that does not coalesce live never goes back and never repeats a frame, over any run. */
  lemma {:induction false} OrderedRun(r: Reader, calls: seq<Call>, last: View)
    requires r.policy != LiveCoalesce && ForwardRun(calls, last)
    ensures var (r', out) := Receives(r, calls);
      && r'.policy == r.policy && r.cursor <= r'.cursor
      && Increasing(out) && InSpan(out, r.cursor, r'.cursor) && OfLog(out, last.log)
    decreases |calls|
  {
    if calls == [] {
      NothingInOrder(r.cursor, r.cursor, last.log);
    } else {
      ForwardTail(calls, last);
      OrderedRecv(r, calls[0].h, last);
      var r1, out := Next(r, calls[0]), Recv(r, calls[0].h).1;
      hide Recv, ForwardRun, NotBefore, Forward, Complete;
      OrderedRun(r1, calls[1..], last);
      var (r2, more) := Receives(r1, calls[1..]);
      hide Increasing, InSpan, OfLog;
      assert OfLog(out, last.log) by {
        OrderedOfLog(r, Recv(r, calls[0].h).0, out, last);
      }
      IncreasingJoin(out, more, r.cursor, r1.cursor, r2.cursor);
      OfLogJoin(out, more, last.log);
    }
  }

  lemma OrderedOfLog(r: Reader, r': Reader, out: seq<Stored>, last: View)
    requires Ordered(r, r', out, last)
    ensures OfLog(out, last.log)
  {
  }

  /** Receive i of a run is the receive of the reader it finds, between what came before it and what comes after. */
  lemma {:induction false} RunAt(r: Reader, calls: seq<Call>, i: nat)
    requires Callable(calls) && i < |calls|
    ensures var b := ReaderAt(r, calls, i);
      && ReaderAt(r, calls, i + 1) == Next(b, calls[i])
      && Callable(calls[..i]) && Callable(calls[i + 1..]) && b == Receives(r, calls[..i]).0
      && Receives(r, calls).1
         == Receives(r, calls[..i]).1 + Recv(b, calls[i].h).1 + Receives(Next(b, calls[i]), calls[i + 1..]).1
    decreases i
  {
    hide Recv, Taken;
    if i == 0 {
      assert calls[..0] == [];
      assert [] + Recv(r, calls[0].h).1 == Recv(r, calls[0].h).1;
    } else {
      var r1, tail := Next(r, calls[0]), calls[1..];
      assert Callable(tail);
      RunAt(r1, tail, i - 1);
      hide Callable, Next;
      var b := ReaderAt(r1, tail, i - 1);
      assert calls[..i][1..] == tail[..i - 1] && tail[i - 1] == calls[i] && tail[i..] == calls[i + 1..];
      var first, before := Recv(r, calls[0].h).1, Receives(r1, tail[..i - 1]).1;
      var out, after := Recv(b, calls[i].h).1, Receives(Next(b, calls[i]), calls[i + 1..]).1;
      Assoc(first, before, out);
      Assoc(first, before + out, after);
    }
  }

  lemma {:induction false} KeepsPolicy(r: Reader, calls: seq<Call>, last: View, i: nat)
    requires r.policy != LiveCoalesce && ForwardRun(calls, last) && i <= |calls|
    ensures ReaderAt(r, calls, i).policy == r.policy && ReaderAt(r, calls, i).cursor >= r.cursor
    decreases i
  {
    if i > 0 {
      ForwardTail(calls, last);
      OrderedRecv(r, calls[0].h, last);
      hide Recv, ForwardRun, NotBefore, Forward, Complete;
      KeepsPolicy(Next(r, calls[0]), calls[1..], last, i - 1);
    }
  }

  /** In any run, with flags taken at will: if receive i itself raises no flag, every frame it moves over that the ring
      still kept when its window was read is in its batch; if it raises one, the flag is there for the caller to take.
      */
  lemma PassedOverOnlyEvicted(r: Reader, calls: seq<Call>, last: View, i: nat)
    requires r.policy != LiveCoalesce && ForwardRun(calls, last) && i < |calls|
    ensures var b, h := ReaderAt(r, calls, i), calls[i].h;
      var (b', out) := Recv(b, h);
      && Ordered(b, b', out, last)
      && (if Raises(b, h) then Flagged(b') else Complete(out, b.cursor, b'.cursor, h(3)))
      && (IsSequential(r.policy) ==> b'.pendingLiveSnap == b.pendingLiveSnap)
  {
    KeepsPolicy(r, calls, last, i);
    OrderedRecv(ReaderAt(r, calls, i), calls[i].h, last);
    hide ReaderAt, Recv, Ordered, Complete, Raises;
    if IsSequential(r.policy) {
      SequentialNeverSnaps(ReaderAt(r, calls, i), calls[i].h);
    }
  }

  /** At each receive of the run nothing at or past the cursor it finds has been evicted. */
  ghost predicate IntactRun(r: Reader, calls: seq<Call>)
    requires Callable(calls)
    decreases |calls|
  {
    calls == [] || (Intact(calls[0].h, r.cursor) && IntactRun(Next(r, calls[0]), calls[1..]))
  }

  /** With nothing past the current cursor ever evicted, the batches concatenate to the log itself and raise no flag. */
  lemma {:induction false} SequentialRunIntact(r: Reader, calls: seq<Call>, last: View)
    requires IsSequential(r.policy) && ForwardRun(calls, last) && IntactRun(r, calls)
    ensures var (r', out) := Receives(r, calls);
      && r.cursor <= r'.cursor
      && (r'.cursor > r.cursor ==> r'.cursor <= |last.log|)
      && (Flagged(r') ==> Flagged(r))
      && out == Stretch(last.log, r.cursor, r'.cursor)
    decreases |calls|
  {
    if calls != [] {
      ForwardTail(calls, last);
      SequentialIntact(r, calls[0].h, last);
      var r1, out := Next(r, calls[0]), Recv(r, calls[0].h).1;
      hide Recv, ForwardRun, NotBefore, Forward, Intact, Stretch;
      SequentialRunIntact(r1, calls[1..], last);
      StretchJoin(last.log, r.cursor, r1.cursor, Receives(r1, calls[1..]).0.cursor);
    }
  }

  // ---------------------------------------------------------------- live coalescing

  lemma {:induction false} VideosOfSplit(frames: seq<Stored>)
    ensures Videos(Others(frames)) == []
    ensures Videos(Videos(frames)) == Videos(frames)
  {
    hide IsPlayableVideo;
    if frames != [] {
      var one := [frames[0]];
      VideosOfSplit(frames[1..]);
      SplitOne(frames[0]);
      SplitAppend(one, frames[1..]);
      assert one + frames[1..] == frames;
      SplitAppend(Others(one), Others(frames[1..]));
      SplitAppend(Videos(one), Videos(frames[1..]));
      hide Videos, Others;
      NothingToSplit();
    }
  }

  lemma {:induction false} VideosInSpan(frames: seq<Stored>, a: nat, b: nat)
    requires Increasing(frames) && InSpan(frames, a, b)
    ensures Increasing(Videos(frames)) && InSpan(Videos(frames), a, b)
    decreases |frames|
  {
    hide IsPlayableVideo;
    if frames != [] {
      VideosInSpan(frames[1..], frames[0].seqNo + 1, b);
    }
  }
}
