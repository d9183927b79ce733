/**
  * The hole of a ring: frames from before the first key frame are still kept, the oldest GOPs behind
  * it are gone. A sequential reader that falls into it gets nothing and is told nothing.
  */
module Holes {
  import opened Bytes
  import opened Media
  import opened RingView
  import opened FrameRing
  import opened RingHistory
  import opened Dispatch
  import opened DispatchRuns

  /** Frames before the first key frame are kept, c lies behind them, and a whole batch from c on is gone. */
  ghost predicate InHole(v: View, c: nat) {
    v.Valid() && v.prefix < FirstKey(v.log) <= c && c + MAX_SEQUENTIAL_BATCH <= v.suffix < |v.log|
  }

  lemma HoleWindow(v: View, c: nat)
    requires InHole(v, c)
    ensures v.FramesFrom(c, c + MAX_SEQUENTIAL_BATCH - 1) == [] && v.OldestSeq() == Some(v.prefix) && v.prefix < c
    ensures v.LatestSeq() >= c + MAX_SEQUENTIAL_BATCH - 1
  {
    hide FirstKey;
  }

  /** One receive in the hole changes nothing, whatever the views of its calls, as long as they all have the hole. */
  lemma HoleRecv(r: Reader, h: Script)
    requires IsSequential(r.policy) && forall n :: InHole(h(n), r.cursor)
    ensures h(5).suffix <= |h(5).log| && Recv(r, h) == (r, [])
  {
    assert InHole(h(5), r.cursor);
    HoleWindow(h(0), r.cursor);
    HoleWindow(h(3), r.cursor);
    HoleWindow(h(4), r.cursor);
    hide View.FramesFrom, View.OldestSeq, View.LatestSeq, View.SnapLatestIdr, Jump;
  }

  /** The hub of every call of a run has the hole. */
  ghost predicate HoleRun(calls: seq<Call>, c: nat) {
    forall i, n :: 0 <= i < |calls| ==> InHole(calls[i].h(n), c)
  }

  lemma HoleCallable(calls: seq<Call>, c: nat)
    requires HoleRun(calls, c)
    ensures Callable(calls)
  {
    forall i | 0 <= i < |calls| ensures calls[i].h(5).suffix <= |calls[i].h(5).log| {
      assert InHole(calls[i].h(5), c);
    }
  }

  /** For as long as the hole lasts, a sequential reader in it receives nothing and no flag is raised. */
  lemma {:induction false} HoleStall(r: Reader, calls: seq<Call>)
    requires IsSequential(r.policy) && HoleRun(calls, r.cursor)
    ensures Callable(calls)
    ensures var (r', out) := Receives(r, calls);
      out == [] && Unflagged(r') == Unflagged(r) && (Flagged(r') ==> Flagged(r))
    decreases |calls|
  {
    HoleCallable(calls, r.cursor);
    if calls != [] {
      HoleRecv(r, calls[0].h);
      assert HoleRun(calls[1..], r.cursor) by {
        forall i, n | 0 <= i < |calls[1..]| ensures InHole(calls[1..][i].h(n), r.cursor) {
          assert calls[1..][i] == calls[i + 1];
        }
      }
      hide Recv, HoleRun, Callable, InHole;
      HoleStall(Next(r, calls[0]), calls[1..]);
    }
  }

  /** On a hub that stands still a sequential reader behind the live edge is left where it is, silently, if and only if
      it is in the hole or the ring is empty. */
  lemma StalledIff(r: Reader, v: View)
    requires IsSequential(r.policy) && v.Valid() && r.cursor < |v.log|
    ensures Recv(r, (n: nat) => v) == (r, []) <==> InHole(v, r.cursor) || v.IsEmpty()
  {
    var h := (n: nat) => v;
    var end := BatchEnd(r.policy, r.cursor, v.LatestSeq());
    WindowEmptyIff(v, r.cursor, end);
    hide View.FramesFrom, View.SnapLatestIdr, View.Keeps, FirstKey;
    if v.OldestSeq().Some? && v.OldestSeq().value > r.cursor {
      assert Jump(r, v.OldestSeq().value, h).0.cursor > r.cursor;
    }
    hide Jump;
  }

  lemma WindowEmptyIff(v: View, a: nat, b: nat)
    requires v.Valid() && a <= b < |v.log|
    ensures v.FramesFrom(a, b) == [] <==> Min(b + 1, FirstKey(v.log)) <= Max(a, v.prefix) && b < v.suffix
  {
    hide FirstKey;
  }

  // ---------------------------------------------------------------- how long it lasts

  /** Once there, the hole lasts exactly as long as a frame from before the first key frame is kept. */
  lemma HolePersistsIff(v: View, w: View, c: nat)
    requires InHole(v, c) && NotBefore(v, w)
    ensures InHole(w, c) <==> w.prefix < FirstKey(w.log)
  {
    FirstKeyStays(v.log, w.log, 0);
    assert w.Keeps(w.suffix) && (w.suffix < |v.log| ==> v.Keeps(w.suffix));
    hide FirstKeyFrom, FirstKey;
  }

  lemma {:induction false} FirstKeyStays(a: Log, b: Log, i: nat)
    requires a <= b && i <= |a| && FirstKeyFrom(a, i) < |a|
    ensures FirstKeyFrom(b, i) == FirstKeyFrom(a, i)
    decreases |a| - i
  {
    hide IsVideoKeyframe;
    if !IsVideoKeyframe(a[i]) {
      FirstKeyStays(a, b, i + 1);
    }
  }

  /** A push leaves the reader in the hole as long as the frames from before the first key frame fit beside the newest
      GOP: nothing else ends the stall. */
  lemma HoleLastsWhilePrefixFits(v: View, f: MediaFrame, budget: Budget, c: nat)
    requires InHole(v, c) && NewestGopFits(Extended(v, f), budget)
    requires var x := Extended(v, f);
      NewestKey(x) <= |x.log| && Fits(x.(suffix := NewestKey(x)), budget)
    ensures InHole(SettledView(Extended(v, f), budget), c)
  {
    var x := Extended(v, f);
    FirstKeyGrows(v, f);
    PushIsLater(v, f, budget);
    var w := SettledView(x, budget);
    if w.prefix != x.prefix {
      PrefixGoesLast(x, budget);
    }
    FirstKeyStays(v.log, w.log, 0);
    hide SettledView, FirstKeyFrom, Fits, NewestGopFits, NewestKey;
    HolePersistsIff(v, w, c);
  }

  // ---------------------------------------------------------------- a ring that has it

  /** The publisher's first frame is not video, every later one is a key frame alone in its GOP. */
  ghost predicate OneThenKeys(frames: seq<MediaFrame>) {
    |frames| > 1 && !IsVideoKeyframe(frames[0]) && (forall i :: 0 < i < |frames| ==> IsVideoKeyframe(frames[i]))
    && forall i :: 0 <= i < |frames| ==> frames[i].data == []
  }

  const Empty := View([], 0, 0)

  lemma {:induction false} NoBytes(slots: seq<Stored>)
    requires forall i :: 0 <= i < |slots| ==> slots[i].frame.data == []
    ensures Size(slots) == 0
  {
    if slots != [] {
      NoBytes(slots[1..]);
    }
  }

  /** The keys of the last two frames of such a log. */
  lemma LastKeys(log: Log)
    requires OneThenKeys(log)
    ensures FirstKey(log) == 1
    ensures KeySeqs(log, |log| - 1) == [|log| - 1]
    ensures |log| > 2 ==> KeySeqs(log, |log| - 2) == [|log| - 2, |log| - 1] && FirstKeyFrom(log, |log| - 1) == |log| - 1
  {
    hide IsVideoKeyframe;
    assert FirstKeyFrom(log, 1) == 1;
    KeySeqsFrom(log, |log| - 1);
    assert KeySeqs(log, |log|) == [];
    if |log| > 2 {
      KeySeqsFrom(log, |log| - 2);
    }
  }

  /** What such a log keeps from its first frame and its GOP k on. */
  lemma KeptOf(log: Log, k: nat, budget: Budget)
    requires OneThenKeys(log) && 0 < k < |log|
    ensures var v := View(log, 0, k);
      v.Valid() && |v.Slots()| == 1 + |log| - k && (Fits(v, budget) <==> 1 + |log| - k <= budget.frames)
  {
    LastKeys(log);
    NoBytes(View(log, 0, k).Slots());
    hide IsVideoKeyframe, FirstKey, Size;
  }

  /** With room for two frames, one more key frame drops the one before it and leaves the first frame. */
  lemma KeyPushed(log: Log, f: MediaFrame, budget: Budget)
    requires OneThenKeys(log + [f]) && |log| > 1 && budget.frames == 2
    ensures var x := Extended(View(log, 0, |log| - 1), f);
      && x.suffix <= |log| + 1 && NewestGopFits(x, budget) && FlaggedIfNeeded(x, budget)
      && SettledView(x, budget) == View(log + [f], 0, |log|)
  {
    var n := |log|;
    var x := Extended(View(log, 0, n - 1), f);
    assert OneThenKeys(log) by {
      assert forall i :: 0 <= i < n ==> log[i] == (log + [f])[i];
    }
    LastKeys(log);
    LastKeys(log + [f]);
    KeptOf(log + [f], n - 1, budget);
    KeptOf(log + [f], n, budget);
    hide KeySeqs, FirstKeyFrom, FirstKey, IsVideoKeyframe, OneThenKeys, Fits, View.Slots, View.Valid;
    assert x == View(log + [f], 0, n - 1);
    assert DropGop(x) == View(log + [f], 0, n);
  }

  lemma {:induction false} KeysPushed(log: Log, frames: seq<MediaFrame>, budget: Budget, n: nat)
    requires OneThenKeys(log + frames) && |log| > 1 && budget.frames == 2 && n <= |frames|
    ensures AllFit(View(log, 0, |log| - 1), frames, budget)
    ensures After(View(log, 0, |log| - 1), frames, budget, n) == View(log + frames[..n], 0, |log| + n - 1)
    decreases |frames|
  {
    hide SettledView, NewestGopFits, FlaggedIfNeeded, IsVideoKeyframe;
    if frames == [] {
      assert log + frames[..n] == log;
    } else {
      var more := log + [frames[0]];
      assert more + frames[1..] == log + frames;
      assert OneThenKeys(more) by {
        assert forall i :: 0 <= i < |more| ==> more[i] == (log + frames)[i];
      }
      KeyPushed(log, frames[0], budget);
      hide OneThenKeys, Extended;
      KeysPushed(more, frames[1..], budget, if n == 0 then 0 else n - 1);
      if n > 0 {
        assert more + frames[1..][..n - 1] == log + frames[..n];
      } else {
        assert log + frames[..0] == log;
      }
    }
  }

  lemma FirstTwoPushed(f: MediaFrame, g: MediaFrame, budget: Budget)
    requires OneThenKeys([f, g]) && budget.frames == 2
    ensures var x := Extended(Empty, f);
      && x == View([f], 0, 1) && NewestGopFits(x, budget) && FlaggedIfNeeded(x, budget) && SettledView(x, budget) == x
    ensures var y := Extended(View([f], 0, 1), g);
      && y == View([f, g], 0, 1) && NewestGopFits(y, budget) && FlaggedIfNeeded(y, budget)
      && SettledView(y, budget) == y
  {
    var log := [f, g];
    LastKeys(log);
    KeptOf(log, 1, budget);
    hide IsVideoKeyframe;
    assert FirstKey([f]) == 1 && KeySeqs([f], 1) == [];
    assert [f] + [g] == log && [] + [f] == [f];
    assert Section([f], 0, 1) == [Stored(0, f)] && Section([f], 1, 1) == [];
    NoBytes([Stored(0, f)]);
    assert [Stored(0, f)] + [] == [Stored(0, f)];
  }

  lemma PushedFirst(v: View, f: MediaFrame, frames: seq<MediaFrame>, budget: Budget, n: nat, w: View)
    requires v.Valid() && Extended(v, f).suffix <= |v.log| + 1 && NewestGopFits(Extended(v, f), budget)
    requires FlaggedIfNeeded(Extended(v, f), budget)
    requires w == SettledView(Extended(v, f), budget) && AllFit(w, frames, budget) && n <= |frames|
    ensures AllFit(v, [f] + frames, budget)
    ensures After(v, [f] + frames, budget, n + 1) == After(w, frames, budget, n)
  {
    hide SettledView, NewestGopFits, FlaggedIfNeeded, Extended, FirstKey;
    assert ([f] + frames)[1..] == frames;
  }

  lemma StartsValid(f: MediaFrame, g: MediaFrame)
    requires OneThenKeys([f, g])
    ensures Empty.Valid() && View([f], 0, 1).Valid()
  {
    hide IsVideoKeyframe;
    assert FirstKey([f]) == 1;
  }

  lemma FirstTwo(frames: seq<MediaFrame>, n: nat)
    requires 2 <= n <= |frames|
    ensures var f, g, rest := frames[0], frames[1], frames[2..];
      && frames == [f, g] + rest && frames == [f] + ([g] + rest) && frames[..n] == [f, g] + rest[..n - 2]
  {
  }

  lemma SomePushed(frames: seq<MediaFrame>, budget: Budget, n: nat)
    requires OneThenKeys(frames) && budget.frames == 2 && 2 <= n <= |frames|
    ensures AllFit(Empty, frames, budget)
    ensures After(Empty, frames, budget, n) == View(frames[..n], 0, n - 1)
  {
    var f, g, rest := frames[0], frames[1], frames[2..];
    assert OneThenKeys([f, g]);
    hide OneThenKeys;
    FirstTwo(frames, n);
    FirstTwoPushed(f, g, budget);
    StartsValid(f, g);
    hide SettledView, NewestGopFits, FlaggedIfNeeded, Extended, AllFit, After, View.Valid;
    KeysPushed([f, g], rest, budget, n - 2);
    PushedFirst(View([f], 0, 1), g, rest, budget, n - 2, View([f, g], 0, 1));
    PushedFirst(Empty, f, [g] + rest, budget, n - 1, View([f], 0, 1));
  }

  /** A ring for two frames, of which the publisher's first is audio and every other one a key frame: after n pushes a
      sequential reader that has read the first frame is in the hole exactly when n is 98 or more. */
  lemma HoleReachedIff(frames: seq<MediaFrame>, budget: Budget, n: nat)
    requires OneThenKeys(frames) && budget.frames == 2 && 2 <= n <= |frames|
    ensures AllFit(Empty, frames, budget)
    ensures InHole(After(Empty, frames, budget, n), 1) <==> n >= 98
  {
    SomePushed(frames, budget, n);
    assert OneThenKeys(frames[..n]);
    LastKeys(frames[..n]);
    KeptOf(frames[..n], n - 1, budget);
    hide AllFit, After, FirstKey, View.Valid, OneThenKeys;
  }
}
