/** The ring under publishing, as its readers meet it: every view between two hub calls is a later one. */
module RingHistory {
  import opened Bytes
  import opened Media
  import opened RingView
  import opened FrameRing
  import Dispatch

  lemma FirstKeyGrows(v: View, f: MediaFrame)
    requires v.Valid()
    ensures Extended(v, f).Valid() && FirstKey(v.log) <= FirstKey(v.log + [f])
    ensures FirstKey(v.log + [f]) > FirstKey(v.log) ==> FirstKey(v.log) == |v.log|
  {
    KeySeqsAppend(v.log, f, 0);
    hide FirstKeyFrom, IsVideoKeyframe, KeySeqs;
    if v.suffix < |v.log| {
      assert (v.log + [f])[v.suffix] == v.log[v.suffix];
    }
  }

  /** A push only adds the new frame and takes old ones away: no frame that was gone comes back. */
  lemma PushIsLater(v: View, f: MediaFrame, budget: Budget)
    requires v.Valid() && NewestGopFits(Extended(v, f), budget)
    ensures NotBefore(v, SettledView(Extended(v, f), budget))
  {
    FirstKeyGrows(v, f);
    SettledViewHolds(Extended(v, f), budget);
    hide FirstKeyFrom, IsVideoKeyframe, SettledView, NewestGopFits, Fits, NewestKey;
    var w := SettledView(Extended(v, f), budget);
    forall s | 0 <= s < |v.log| && w.Keeps(s) ensures v.Keeps(s) {
    }
  }

  lemma LaterIsTransitive(u: View, v: View, w: View)
    requires NotBefore(u, v) && NotBefore(v, w)
    ensures NotBefore(u, w)
  {
    hide View.Valid, View.Keeps;
    forall s | 0 <= s < |u.log| && w.Keeps(s) ensures u.Keeps(s) {
      assert v.Keeps(s);
    }
  }

  /** Every push finds what it asks for: a newest GOP that fits, and its key frame flagged where that matters. */
  ghost predicate AllFit(v: View, frames: seq<MediaFrame>, budget: Budget)
    requires v.suffix <= |v.log|
    decreases |frames|
  {
    frames == []
    || (Extended(v, frames[0]).suffix <= |v.log| + 1 && NewestGopFits(Extended(v, frames[0]), budget)
        && FlaggedIfNeeded(Extended(v, frames[0]), budget)
        && AllFit(SettledView(Extended(v, frames[0]), budget), frames[1..], budget))
  }

  /** The view after the first n of the frames have been pushed. */
  ghost function After(v: View, frames: seq<MediaFrame>, budget: Budget, n: nat): View
    requires v.suffix <= |v.log| && AllFit(v, frames, budget) && n <= |frames|
    decreases |frames|
  {
    if n == 0 then v else After(SettledView(Extended(v, frames[0]), budget), frames[1..], budget, n - 1)
  }

  lemma {:induction false} PushesAreLater(v: View, frames: seq<MediaFrame>, budget: Budget, m: nat, n: nat)
    requires v.Valid() && AllFit(v, frames, budget) && m <= n <= |frames|
    ensures NotBefore(After(v, frames, budget, m), After(v, frames, budget, n))
    decreases |frames|
  {
    hide SettledView, NewestGopFits, FlaggedIfNeeded, FirstKeyFrom, IsVideoKeyframe;
    if n > 0 {
      var w := SettledView(Extended(v, frames[0]), budget);
      PushIsLater(v, frames[0], budget);
      PushesAreLater(w, frames[1..], budget, 0, n - 1);
      if m == 0 {
        LaterIsTransitive(v, w, After(w, frames[1..], budget, n - 1));
      } else {
        PushesAreLater(w, frames[1..], budget, m - 1, n - 1);
      }
    }
  }

  /** However a reader's hub calls fall between the pushes, they see the views of a forward script; so what is proved of
      readers under such scripts holds beside a ring that is being published to and evicts. */
  lemma RingScriptForward(v: View, frames: seq<MediaFrame>, budget: Budget, at: nat -> nat)
    requires v.Valid() && AllFit(v, frames, budget)
    requires forall i: nat, j: nat :: i <= j ==> at(i) <= at(j) <= |frames|
    ensures Dispatch.Forward(Moments(v, frames, budget, at))
  {
    var h := Moments(v, frames, budget, at);
    forall i: nat, j: nat | i <= j ensures NotBefore(h(i), h(j)) {
      PushesAreLater(v, frames, budget, at(i), at(j));
      assert at(i) <= at(i);
    }
  }

  ghost function Moments(v: View, frames: seq<MediaFrame>, budget: Budget, at: nat -> nat): Dispatch.Script
    requires v.suffix <= |v.log| && AllFit(v, frames, budget)
  {
    (i: nat) => After(v, frames, budget, Min(at(i), |frames|))
  }
}
