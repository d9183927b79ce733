/**
  * Where readers come down: on a hub they subscribe to, after the ring has passed them, and after they have fallen
  * behind the live edge. In terms of the published log and of what is kept of it.
  */
module Landings {
  import opened Bytes
  import opened Media
  import opened RingView
  import opened Dispatch

  /** The last key frame of the log. */
  ghost predicate LastKeyAt(log: Log, k: nat) {
    k < |log| && IsVideoKeyframe(log[k]) && forall s :: k < s < |log| ==> !IsVideoKeyframe(log[s])
  }

  /** The mark that a snap to the latest key frame returns. */
  lemma SnapIs(v: View)
    requires v.Valid()
    ensures if v.suffix < |v.log| then LastKeyAt(v.log, v.SnapLatestIdr()) && v.Keeps(v.SnapLatestIdr())
            else v.SnapLatestIdr() == if v.log == [] then 0 else |v.log| - 1
  {
    var keys := KeySeqs(v.log, v.suffix);
    KeySeqsAre(v.log, v.suffix);
    KeySeqsMember(v.log, v.suffix, v.suffix);
    hide KeySeqs, FirstKeyFrom, IsVideoKeyframe;
    if keys != [] {
      var k := keys[|keys| - 1];
      forall s | k < s < |v.log| ensures !IsVideoKeyframe(v.log[s]) {
        KeySeqsMember(v.log, v.suffix, s);
      }
    }
  }

  /** Where a reader starts on a hub: behind the newest frame, or with the last key frame that is kept; with no key
      frame kept, on the newest frame. On an empty hub the live edge is 1. */
  lemma StartsAt(v: View, policy: Policy)
    requires v.Valid()
    ensures var r := NewReader(v, policy);
      && r == Reader(policy, r.cursor, false, false, None)
      && (policy != SequentialFromIdr ==> r.cursor == if v.log == [] then 1 else |v.log|)
      && (policy == SequentialFromIdr && v.suffix < |v.log| ==> LastKeyAt(v.log, r.cursor) && v.Keeps(r.cursor))
      && (policy == SequentialFromIdr && v.suffix == |v.log| ==> r.cursor == if v.log == [] then 0 else |v.log| - 1)
  {
    SnapIs(v);
    hide View.SnapLatestIdr, FirstKey, IsVideoKeyframe;
  }

  // ---------------------------------------------------------------- passed by the ring

  /** The oldest frame that is kept. */
  ghost predicate Oldest(v: View, s: nat) {
    v.Keeps(s) && forall t: nat :: v.Keeps(t) ==> s <= t
  }

  lemma OldestIs(v: View)
    requires v.Valid()
    ensures v.OldestSeq().Some? <==> exists s: nat :: v.Keeps(s)
    ensures v.OldestSeq().Some? ==> Oldest(v, v.OldestSeq().value)
  {
    hide FirstKey;
    if v.prefix < FirstKey(v.log) {
      assert v.Keeps(v.prefix);
    } else if v.suffix < |v.log| {
      assert v.Keeps(v.suffix);
    }
  }

  /** The receive reads its window at the third call and finds it empty, and at the next the ring begins behind the
      cursor. */
  ghost predicate Passed(r: Reader, h: Script) {
    && r.policy != WebRtcPlay && (r.policy == LiveCoalesce ==> r.videoCatchupUntil.None?)
    && r.cursor < |h(0).log|
    && (forall s: nat ::
          r.cursor <= s < |h(0).log| && (s < r.cursor + 96 || r.policy == LiveCoalesce) ==> !h(3).Keeps(s))
    && (exists s: nat :: h(4).Keeps(s)) && (forall s: nat :: h(4).Keeps(s) ==> s > r.cursor)
  }

  lemma PassedWindow(r: Reader, h: Script)
    requires Forward(h) && Passed(r, h)
    ensures r.cursor <= h(0).LatestSeq()
    ensures h(3).FramesFrom(r.cursor, BatchEnd(r.policy, r.cursor, h(0).LatestSeq())) == []
  {
    ForwardValid(h, 3);
    hide Forward;
    NothingKept(h(3), r.cursor, BatchEnd(r.policy, r.cursor, h(0).LatestSeq()));
  }

  lemma NothingKept(v: View, a: nat, b: nat)
    requires v.Valid() && forall s: nat :: a <= s <= b && s < |v.log| ==> !v.Keeps(s)
    ensures v.FramesFrom(a, b) == []
  {
    hide FirstKey;
    var (low, high) := (Max(a, v.prefix), Max(a, v.suffix));
    assert low < Min(b + 1, FirstKey(v.log)) ==> v.Keeps(low);
    assert high < Min(b + 1, |v.log|) ==> v.Keeps(high);
  }

  /** Where a reader may start again: on the oldest frame kept at the fourth call, on the last key frame at the fifth,
      or on the newest frame there when no key frame is kept. */
  ghost predicate Landing(h: Script, k: nat) {
    || Oldest(h(4), k)
    || (h(5).Keeps(k) && LastKeyAt(h(5).log, k))
    || (h(5).suffix == |h(5).log| && k == if h(5).log == [] then 0 else |h(5).log| - 1)
  }

  /** A receive of a reader that the ring has passed. */
  lemma PassedRecv(r: Reader, h: Script)
    requires Forward(h) && Passed(r, h)
    ensures h(5).suffix <= |h(5).log| && h(4).OldestSeq().Some? && Oldest(h(4), h(4).OldestSeq().value)
    ensures h(4).OldestSeq().value > r.cursor && Recv(r, h) == Jump(r, h(4).OldestSeq().value, h)
  {
    ForwardValid(h, 5);
    ForwardValid(h, 4);
    PassedWindow(r, h);
    OldestIs(h(4));
    hide View.FramesFrom, View.OldestSeq, FirstKey, Forward, Jump, Deliver, CatchUp, BatchEnd;
  }

  /** Whatever is published and evicted meanwhile, a reader that the ring has passed raises the resync flag and starts
      again at one of these places, not before the oldest frame that was kept, nor before any key frame kept a call
      later. What it brings is a window from there on. */
  lemma JumpBounds(r: Reader, h: Script) returns (start: nat)
    requires Forward(h) && Passed(r, h)
    ensures h(5).suffix <= |h(5).log|
    ensures Landing(h, start) && start > r.cursor
    ensures forall s: nat :: Oldest(h(4), s) ==> s <= start
    ensures forall k: nat :: k < |h(5).log| && h(5).Keeps(k) && IsVideoKeyframe(h(5).log[k]) ==> k <= start
    ensures var (r', out) := Recv(r, h);
      && r' == r.(cursor := r'.cursor, pendingMuxerResync := true)
      && (if out == [] then r'.cursor == start
          else start < r'.cursor <= start + 96 && out == h(7).FramesFrom(start, r'.cursor - 1))
  {
    ForwardValid(h, 5);
    PassedRecv(r, h);
    SnapIs(h(5));
    KeyBefore(h(5));
    var oldest := h(4).OldestSeq().value;
    start := Max(h(5).SnapLatestIdr(), oldest);
    JumpIs(r, oldest, h);
    hide View.FramesFrom, View.SnapLatestIdr, View.OldestSeq, FirstKey, IsVideoKeyframe, Forward, Passed, Recv, Jump;
  }

  lemma JumpIs(r: Reader, oldest: nat, h: Script)
    requires h(5).suffix <= |h(5).log|
    ensures var (r', out) := Jump(r, oldest, h);
      var start := Max(h(5).SnapLatestIdr(), oldest);
      && r' == r.(cursor := r'.cursor, pendingMuxerResync := true)
      && (if out == [] then r'.cursor == start
          else start < r'.cursor <= start + 96 && out == h(7).FramesFrom(start, r'.cursor - 1))
  {
    hide View.FramesFrom, View.SnapLatestIdr, View.LatestSeq;
  }

  lemma KeyBefore(v: View)
    requires v.Valid()
    ensures forall k: nat :: k < |v.log| && v.Keeps(k) && IsVideoKeyframe(v.log[k]) ==> k <= v.SnapLatestIdr()
  {
    SnapIs(v);
    hide View.SnapLatestIdr, IsVideoKeyframe;
  }

  /** On a hub that stands still and holds a key frame, such a reader receives the log from its last key frame on, at
      most 96 frames of it. */
  lemma JumpLandsOnKey(r: Reader, v: View)
    requires v.Valid() && Passed(r, (n: nat) => v) && v.suffix < |v.log|
    ensures var (r', out) := Recv(r, (n: nat) => v);
      && r' == r.(cursor := r'.cursor, pendingMuxerResync := true)
      && out != [] && LastKeyAt(v.log, out[0].seqNo) && |out| <= 96
      && r'.cursor == out[0].seqNo + |out| && (|out| < 96 ==> r'.cursor == |v.log|)
      && out == Section(v.log, out[0].seqNo, r'.cursor)
  {
    var h := (n: nat) => v;
    assert NotBefore(v, v);
    assert Forward(h);
    PassedRecv(r, h);
    SnapIs(v);
    var k := v.SnapLatestIdr();
    SuffixKept(v, k);
    hide View.FramesFrom, View.SnapLatestIdr, View.OldestSeq, FirstKey, IsVideoKeyframe, Forward, Passed, Recv;
    hide View.Keeps;
    WindowWhole(v, k, Min(v.LatestSeq(), k + 95));
  }

  lemma SuffixKept(v: View, k: nat)
    requires v.Valid() && v.Keeps(k) && v.suffix < |v.log| && LastKeyAt(v.log, k)
    ensures v.suffix <= k && forall s :: k <= s < |v.log| ==> v.Keeps(s)
  {
    hide IsVideoKeyframe;
  }

  // ---------------------------------------------------------------- WebRTC play

  /** On a hub that stands still a WebRTC reader more than 45 frames behind skips to the live edge and says so; one that
      is closer receives the frame at its cursor by itself, and goes on to the next. */
  lemma WebRtcRecv(r: Reader, v: View)
    requires v.Valid() && r.policy == WebRtcPlay && v.log != []
    ensures var (r', out) := Recv(r, (n: nat) => v);
      && (|v.log| - 1 - r.cursor > 45 ==>
            out == [] && r' == r.(cursor := |v.log|, pendingLiveSnap := true, videoCatchupUntil := None))
      && (|v.log| - 1 - r.cursor <= 45 && v.Keeps(r.cursor) ==>
            out == [Stored(r.cursor, v.log[r.cursor])] && r' == r.(cursor := r.cursor + 1))
      && (r.cursor >= |v.log| ==> out == [] && r' == r)
  {
    var h := (n: nat) => v;
    hide View.OldestSeq, View.SnapLatestIdr, Jump, FirstKey, CatchUp;
    if |v.log| - 1 - r.cursor <= 45 && v.Keeps(r.cursor) {
      OneFrame(v, r.cursor);
      SplitOne(Stored(r.cursor, v.log[r.cursor]));
    }
    hide View.FramesFrom, View.Keeps, Coalesced, Videos;
  }

  lemma OneFrame(v: View, s: nat)
    requires v.Valid() && v.Keeps(s)
    ensures v.FramesFrom(s, s) == [Stored(s, v.log[s])]
  {
    WindowWhole(v, s, s);
    hide View.FramesFrom, FirstKey;
  }

  // ---------------------------------------------------------------- behind an IDR sent by itself

  /** Whatever is published and evicted meanwhile, a live reader that catches up with a burst goes on to the newest
      frame or to the end of the burst, whichever comes first, and is through with it if and only if it has reached that
      end. */
  lemma CatchesUp(r: Reader, h: Script, until: nat)
    requires Forward(h) && r.policy == LiveCoalesce && r.videoCatchupUntil == Some(until) && h(0).log != []
    ensures h(5).suffix <= |h(5).log|
    ensures var (r', out) := Recv(r, h);
      if out == [] then r' == r
      else
        && r'.cursor == Min(|h(0).log|, until + 1) && out == h(1).FramesFrom(r.cursor, r'.cursor - 1)
        && r' == r.(cursor := r'.cursor, videoCatchupUntil := if r'.cursor > until then None else Some(until))
  {
    ForwardValid(h, 5);
    hide View.FramesFrom;
  }
}
