/**
  * Per-subscriber reader. Publishers and eviction may run between any two hub calls of one
  * `recv_batch`, so a call is given the views its hub calls find, as a function of a call counter.
  * Batches carry the sequence numbers of their frames.
  */
module Dispatch {
  import opened Bytes
  import opened Media
  import opened RingView

  const MAX_SEQUENTIAL_BATCH := 96
  const WEBRTC_LAG_SNAP_THRESHOLD := 45

  datatype Policy = LiveCoalesce | SequentialFromIdr | WebRtcPlay | LiveSequential

  datatype Reader = Reader(
    policy: Policy,
    cursor: nat,
    pendingMuxerResync: bool,
    pendingLiveSnap: bool,
    videoCatchupUntil: Option<nat>)

  /** The views found by successive hub calls: time only moves forward. */
  type Script = nat -> View

  ghost predicate Forward(h: Script) {
    forall i: nat, j: nat :: i <= j ==> NotBefore(h(i), h(j))
  }

  lemma ForwardValid(h: Script, n: nat)
    requires Forward(h)
    ensures h(n).Valid() && h(n).suffix <= |h(n).log|
  {
    assert NotBefore(h(n), h(n));
  }

  /** A reader subscribed when the hub shows v. */
  function NewReader(v: View, policy: Policy): Reader
    requires v.suffix <= |v.log|
  {
    Reader(policy, if policy == SequentialFromIdr then v.SnapLatestIdr() else v.LatestSeq() + 1, false, false, None)
  }

  // ---------------------------------------------------------------- coalescing

  function Others(frames: seq<Stored>): seq<Stored> {
    if frames == [] then []
    else (if IsPlayableVideo(frames[0].frame) then [] else [frames[0]]) + Others(frames[1..])
  }

  function Videos(frames: seq<Stored>): seq<Stored> {
    if frames == [] then []
    else (if IsPlayableVideo(frames[0].frame) then [frames[0]] else []) + Videos(frames[1..])
  }

  /** The last playable IDR of a list, as a list of at most one. */
  function LastIdrOf(frames: seq<Stored>): seq<Stored> {
    if frames == [] then []
    else if IsPlayableIdr(frames[|frames| - 1].frame) then [frames[|frames| - 1]]
    else LastIdrOf(frames[..|frames| - 1])
  }

  /** Everything that is not video, then one video frame: the only one, or the last IDR of several. */
  function Coalesced(frames: seq<Stored>): seq<Stored> {
    var videos := Videos(frames);
    Others(frames) + if |videos| > 1 then LastIdrOf(videos) else videos
  }

  lemma {:induction false} SplitAppend(a: seq<Stored>, b: seq<Stored>)
    ensures Others(a + b) == Others(a) + Others(b)
    ensures Videos(a + b) == Videos(a) + Videos(b)
  {
    hide IsPlayableVideo;
    if a == [] {
      assert a + b == b;
    } else {
      assert (a + b)[1..] == a[1..] + b;
      SplitAppend(a[1..], b);
      var v := IsPlayableVideo(a[0].frame);
      Assoc(if v then [] else [a[0]], Others(a[1..]), Others(b));
      Assoc(if v then [a[0]] else [], Videos(a[1..]), Videos(b));
    }
  }

  method CoalesceFlvBatch(frames: seq<Stored>) returns (out: seq<Stored>)
    ensures out == Coalesced(frames)
  {
    hide IsPlayableVideo, IsPlayableIdr, Others, Videos;
    out := [];
    var videoInBatch: seq<Stored> := [];
    NothingToSplit();
    for i := 0 to |frames|
      invariant out == Others(frames[..i])
      invariant videoInBatch == Videos(frames[..i])
    {
      assert frames[..i + 1] == frames[..i] + [frames[i]];
      SplitAppend(frames[..i], [frames[i]]);
      SplitOne(frames[i]);
      if IsPlayableVideo(frames[i].frame) {
        videoInBatch := videoInBatch + [frames[i]];
      } else {
        out := out + [frames[i]];
      }
    }
    assert frames[..|frames|] == frames;
    if videoInBatch == [] {
      assert out + [] == out;
      return;
    }
    if |videoInBatch| > 1 {
      var idr := FindLastIdr(videoInBatch);
      out := out + idr;
    } else {
      out := out + [videoInBatch[0]];
    }
  }

  method FindLastIdr(videos: seq<Stored>) returns (idr: seq<Stored>)
    ensures idr == LastIdrOf(videos)
  {
    hide IsPlayableIdr;
    var n := |videos|;
    assert videos[..n] == videos;
    while n > 0
      invariant 0 <= n <= |videos|
      invariant LastIdrOf(videos) == LastIdrOf(videos[..n])
    {
      if IsPlayableIdr(videos[n - 1].frame) {
        return [videos[n - 1]];
      }
      assert videos[..n][..n - 1] == videos[..n - 1];
      n := n - 1;
    }
    return [];
  }

  lemma NothingToSplit()
    ensures Others([]) == [] && Videos([]) == []
  {
  }

  lemma SplitOne(f: Stored)
    ensures Others([f]) == if IsPlayableVideo(f.frame) then [] else [f]
    ensures Videos([f]) == if IsPlayableVideo(f.frame) then [f] else []
  {
    assert [f][1..] == [];
  }

  // ---------------------------------------------------------------- one recv_batch

  /** Searching the hub from `to` down, one call per sequence number, starting at call number `at`. */
  function LastPlayableIdrSeq(h: Script, at: nat, from: nat, to: int): Option<nat>
    decreases to - from
  {
    if to < from then None
    else
      var f := h(at).Get(to);
      if f.Some? && IsPlayableIdr(f.value.frame) then Some(to)
      else LastPlayableIdrSeq(h, at + 1, from, to - 1)
  }

  function BatchEnd(policy: Policy, cursor: nat, latest: nat): nat {
    match policy
    case LiveCoalesce => latest
    case WebRtcPlay => cursor
    case _ => Min(latest, cursor + MAX_SEQUENTIAL_BATCH - 1)
  }

  /** Replaying a GOP after its IDR was sent alone. */
  function CatchUp(r: Reader, until: nat, h: Script): (Reader, seq<Stored>) {
    var latest := h(0).LatestSeq();
    if r.cursor > latest then (r, [])
    else
      var end := Min(latest, until);
      var frames := h(1).FramesFrom(r.cursor, end);
      if frames == [] then (r, [])
      else (r.(cursor := end + 1, videoCatchupUntil := if end + 1 > until then None else Some(until)), frames)
  }

  /** The cursor fell out of the ring: jump to the latest IDR, or to the oldest frame kept. */
  function Jump(r: Reader, oldest: nat, h: Script): (Reader, seq<Stored>)
    requires h(5).suffix <= |h(5).log|
  {
    var cursor := Max(h(5).SnapLatestIdr(), oldest);
    var r1 := r.(pendingMuxerResync := true, cursor := cursor);
    var latest := h(6).LatestSeq();
    if cursor > latest then (r1, [])
    else
      var end := Min(latest, cursor + MAX_SEQUENTIAL_BATCH - 1);
      var retry := h(7).FramesFrom(cursor, end);
      if retry == [] then (r1, []) else (r1.(cursor := end + 1), retry)
  }

  /** Frames in hand: a burst of video is collapsed, everything else is passed on. */
  function Deliver(r: Reader, batchEnd: nat, frames: seq<Stored>, h: Script): (Reader, seq<Stored>) {
    if r.policy == LiveCoalesce && |Videos(frames)| > 1 then
      match LastPlayableIdrSeq(h, 8, r.cursor, batchEnd)
      case Some(k) => (r.(cursor := k + 1, videoCatchupUntil := Some(batchEnd)), Coalesced(frames))
      case None => (r.(cursor := batchEnd + 1), Coalesced(frames))
    else
      (r.(cursor := batchEnd + 1),
       if r.policy == LiveCoalesce || r.policy == WebRtcPlay then Coalesced(frames) else frames)
  }

  /** WebRTC readers too far behind skip to the live edge first. */
  function LagSnap(r: Reader, h: Script): (Reader, nat) {
    var latest := h(0).LatestSeq();
    if r.policy == WebRtcPlay && latest - r.cursor > WEBRTC_LAG_SNAP_THRESHOLD then
      (r.(pendingLiveSnap := true, videoCatchupUntil := None, cursor := h(1).LatestSeq() + 1), h(2).LatestSeq())
    else (r, latest)
  }

  function Recv(r: Reader, h: Script): (Reader, seq<Stored>)
    requires h(5).suffix <= |h(5).log|
  {
    if r.policy == LiveCoalesce && r.videoCatchupUntil.Some? then CatchUp(r, r.videoCatchupUntil.value, h)
    else
      var (r1, latest) := LagSnap(r, h);
      if r1.cursor > latest then (r1, [])
      else
        var batchEnd := BatchEnd(r1.policy, r1.cursor, latest);
        var frames := h(3).FramesFrom(r1.cursor, batchEnd);
        if frames != [] then Deliver(r1, batchEnd, frames, h)
        else
          var oldest := h(4).OldestSeq();
          if oldest.Some? && oldest.value > r1.cursor then Jump(r1, oldest.value, h) else (r1, [])
  }

  // ---------------------------------------------------------------- the reader in place

  class DispatchReader {
    const policy: Policy
    var cursor: nat
    var pendingMuxerResync: bool
    var pendingLiveSnap: bool
    var videoCatchupUntil: Option<nat>

    ghost function State(): Reader
      reads this
    {
      Reader(policy, cursor, pendingMuxerResync, pendingLiveSnap, videoCatchupUntil)
    }

    constructor (v: View, policy: Policy)
      requires v.Valid()
      ensures State() == NewReader(v, policy)
    {
      this.policy := policy;
      cursor := if policy == SequentialFromIdr then v.SnapLatestIdr() else v.LatestSeq() + 1;
      pendingMuxerResync, pendingLiveSnap, videoCatchupUntil := false, false, None;
    }

    method BeginVideoCatchupAfterIdr(idrSeq: nat, batchEnd: nat)
      modifies this
      ensures State() == old(State()).(cursor := idrSeq + 1, videoCatchupUntil := Some(batchEnd))
    {
      videoCatchupUntil := Some(batchEnd);
      cursor := idrSeq + 1;
    }

    method SnapToLiveEdge(v: View)
      modifies this
      ensures State() == old(State()).(cursor := v.LatestSeq() + 1, videoCatchupUntil := None)
    {
      videoCatchupUntil := None;
      cursor := v.LatestSeq() + 1;
    }

    method TakeMuxerResync() returns (was: bool)
      modifies this
      ensures was == old(pendingMuxerResync)
      ensures State() == old(State()).(pendingMuxerResync := false)
    {
      was := pendingMuxerResync;
      pendingMuxerResync := false;
    }

    method TakeLiveSnap() returns (was: bool)
      modifies this
      ensures was == old(pendingLiveSnap)
      ensures State() == old(State()).(pendingLiveSnap := false)
    {
      was := pendingLiveSnap;
      pendingLiveSnap := false;
    }

    method FindLastPlayableIdr(h: Script, from: nat, to: nat) returns (r: Option<nat>)
      ensures r == LastPlayableIdrSeq(h, 8, from, to)
    {
      hide IsPlayableIdr;
      var s: int := to;
      var call := 8;
      while s >= from
        invariant LastPlayableIdrSeq(h, 8, from, to) == LastPlayableIdrSeq(h, call, from, s)
        decreases s - from
      {
        var f := h(call).Get(s);
        if f.Some? && IsPlayableIdr(f.value.frame) {
          return Some(s);
        }
        s := s - 1;
        call := call + 1;
      }
      return None;
    }

    method ReplayGop(until: nat, h: Script) returns (frames: seq<Stored>)
      requires videoCatchupUntil == Some(until)
      modifies this
      ensures (State(), frames) == CatchUp(old(State()), until, h)
    {
      hide View.FramesFrom, View.LatestSeq;
      var latest := h(0).LatestSeq();
      if cursor > latest {
        return [];
      }
      var end := Min(latest, until);
      frames := h(1).FramesFrom(cursor, end);
      if frames == [] {
        return [];
      }
      cursor := end + 1;
      if cursor > until {
        videoCatchupUntil := None;
      }
    }

    method DeliverBatch(batchEnd: nat, batch: seq<Stored>, h: Script) returns (frames: seq<Stored>)
      modifies this
      ensures (State(), frames) == Deliver(old(State()), batchEnd, batch, h)
    {
      hide Coalesced, Videos, LastPlayableIdrSeq;
      frames := batch;
      if policy == LiveCoalesce && |Videos(batch)| > 1 {
        var idr := FindLastPlayableIdr(h, cursor, batchEnd);
        frames := CoalesceFlvBatch(batch);
        if idr.Some? {
          BeginVideoCatchupAfterIdr(idr.value, batchEnd);
        } else {
          cursor := batchEnd + 1;
        }
        return;
      }
      cursor := batchEnd + 1;
      if policy == LiveCoalesce || policy == WebRtcPlay {
        frames := CoalesceFlvBatch(batch);
      }
    }

    method RecvBatch(h: Script) returns (frames: seq<Stored>)
      requires Forward(h)
      modifies this
      ensures h(5).suffix <= |h(5).log|
      ensures (State(), frames) == Recv(old(State()), h)
    {
      hide NotBefore, Forward, Jump, Deliver, CatchUp, BatchEnd;
      hide View.FramesFrom, View.LatestSeq, View.OldestSeq, View.SnapLatestIdr;
      ForwardValid(h, 5);
      if policy == LiveCoalesce && videoCatchupUntil.Some? {
        frames := ReplayGop(videoCatchupUntil.value, h);
        return;
      }
      var latest := h(0).LatestSeq();
      if policy == WebRtcPlay && latest - cursor > WEBRTC_LAG_SNAP_THRESHOLD {
        pendingLiveSnap := true;
        SnapToLiveEdge(h(1));
        latest := h(2).LatestSeq();
      }
      assert (State(), latest) == LagSnap(old(State()), h);
      hide LagSnap;
      if cursor > latest {
        return [];
      }
      var batchEnd := BatchEnd(policy, cursor, latest);
      frames := h(3).FramesFrom(cursor, batchEnd);
      if frames == [] {
        frames := JumpToIdr(h);
      } else {
        frames := DeliverBatch(batchEnd, frames, h);
      }
    }

    method JumpToIdr(h: Script) returns (frames: seq<Stored>)
      requires h(5).suffix <= |h(5).log|
      modifies this
      ensures var oldest := h(4).OldestSeq();
        (State(), frames) ==
          if oldest.Some? && oldest.value > old(cursor) then Jump(old(State()), oldest.value, h) else (old(State()), [])
    {
      hide View.FramesFrom, View.LatestSeq, View.OldestSeq, View.SnapLatestIdr;
      var oldest := h(4).OldestSeq();
      if oldest.None? || oldest.value <= cursor {
        return [];
      }
      pendingMuxerResync := true;
      cursor := Max(h(5).SnapLatestIdr(), oldest.value);
      var latest := h(6).LatestSeq();
      if cursor <= latest {
        var end := Min(latest, cursor + MAX_SEQUENTIAL_BATCH - 1);
        var retry := h(7).FramesFrom(cursor, end);
        if retry != [] {
          cursor := end + 1;
          return retry;
        }
      }
      return [];
    }
  }
}
