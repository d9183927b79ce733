/**
  * What a reader may see of a frame ring, in terms of the append-only log of published frames:
  * the frames before the first key frame from `prefix` on, and all frames from `suffix` on.
  */
module RingView {
  import opened Bytes
  import opened Media

  /** A frame with the sequence number it was published under. */
  datatype Stored = Stored(seqNo: nat, frame: MediaFrame)

  type Log = seq<MediaFrame>

  /** Position of the first key frame, or the end of the log. */
  function FirstKeyFrom(log: Log, i: nat): (k: nat)
    requires i <= |log|
    ensures i <= k <= |log|
    ensures forall j :: i <= j < k ==> !IsVideoKeyframe(log[j])
    ensures k < |log| ==> IsVideoKeyframe(log[k])
    decreases |log| - i
  {
    if i == |log| || IsVideoKeyframe(log[i]) then i else FirstKeyFrom(log, i + 1)
  }

  function FirstKey(log: Log): nat {
    FirstKeyFrom(log, 0)
  }

  /** Positions of the key frames from i on, in order. */
  function KeySeqs(log: Log, i: nat): seq<nat>
    requires i <= |log|
    decreases |log| - i
  {
    var k := FirstKeyFrom(log, i);
    if k == |log| then [] else [k] + KeySeqs(log, k + 1)
  }

  /** Log entries a to b - 1 with their sequence numbers. */
  function Section(log: Log, a: nat, b: nat): (r: seq<Stored>)
    requires b <= |log|
    ensures |r| == Max(b - a, 0)
    ensures forall i :: 0 <= i < |r| ==> r[i] == Stored(a + i, log[a + i])
  {
    if a >= b then [] else seq(b - a, i requires 0 <= i < b - a => Stored(a + i, log[a + i]))
  }

  datatype View = View(log: Log, prefix: nat, suffix: nat) {
    /** The kept prefix lies before the first key frame; the suffix starts a GOP, if there is any. */
    ghost predicate Valid() {
      && prefix <= FirstKey(log) <= suffix <= |log|
      && (FirstKey(log) < |log| ==> suffix < |log| && IsVideoKeyframe(log[suffix]))
    }

    predicate Keeps(s: nat) {
      prefix <= s < FirstKey(log) || suffix <= s < |log|
    }

    function Slots(): seq<Stored>
      requires suffix <= |log|
    {
      Section(log, prefix, FirstKey(log)) + Section(log, suffix, |log|)
    }

    // What the hub answers, each in one locked call.

    function LatestSeq(): nat {
      if log == [] then 0 else |log| - 1
    }

    function Get(s: nat): Option<Stored> {
      if Keeps(s) then Some(Stored(s, log[s])) else None
    }

    /** The kept frames with sequence numbers a to b, in order. */
    function FramesFrom(a: nat, b: nat): seq<Stored> {
      Section(log, Max(a, prefix), Min(b + 1, FirstKey(log)))
      + Section(log, Max(a, suffix), Min(b + 1, |log|))
    }

    function OldestSeq(): Option<nat> {
      if prefix < FirstKey(log) then Some(prefix)
      else if suffix < |log| then Some(suffix)
      else None
    }

    function IsEmpty(): bool {
      prefix >= FirstKey(log) && suffix >= |log|
    }

    function LatestIdrSeq(): Option<nat>
      requires suffix <= |log|
    {
      var keys := KeySeqs(log, suffix);
      if keys == [] then None else Some(keys[|keys| - 1])
    }

    function SnapLatestIdr(): nat
      requires suffix <= |log|
    {
      match LatestIdrSeq() case Some(s) => s case None => LatestSeq()
    }
  }

  /** Later in the same epoch: frames were appended, and possibly frames were evicted. */
  ghost predicate NotBefore(v: View, w: View) {
    && v.Valid() && w.Valid()
    && v.log <= w.log
    && forall s :: 0 <= s < |v.log| && w.Keeps(s) ==> v.Keeps(s)
  }

  // ---------------------------------------------------------------- facts about keys and windows

  lemma {:induction false} KeySeqsFrom(log: Log, i: nat)
    requires i < |log|
    ensures KeySeqs(log, i) == if IsVideoKeyframe(log[i]) then [i] + KeySeqs(log, i + 1) else KeySeqs(log, i + 1)
  {
  }

  lemma {:induction false} KeySeqsAre(log: Log, i: nat)
    requires i <= |log|
    ensures forall n :: 0 <= n < |KeySeqs(log, i)| ==>
      i <= KeySeqs(log, i)[n] < |log| && IsVideoKeyframe(log[KeySeqs(log, i)[n]])
    ensures forall m, n :: 0 <= m < n < |KeySeqs(log, i)| ==> KeySeqs(log, i)[m] < KeySeqs(log, i)[n]
    decreases |log| - i
  {
    var k := FirstKeyFrom(log, i);
    if k < |log| {
      KeySeqsAre(log, k + 1);
    }
  }

  lemma {:induction false} KeySeqsMember(log: Log, i: nat, n: nat)
    requires i <= |log|
    ensures n in KeySeqs(log, i) <==> i <= n < |log| && IsVideoKeyframe(log[n])
    decreases |log| - i
  {
    hide IsVideoKeyframe;
    var k := FirstKeyFrom(log, i);
    if k < |log| {
      KeySeqsMember(log, k + 1, n);
    }
  }

  /** Appending a frame appends its position when it is a key frame. */
  lemma {:induction false} KeySeqsAppend(log: Log, f: MediaFrame, i: nat)
    requires i <= |log|
    ensures KeySeqs(log + [f], i) == KeySeqs(log, i) + if IsVideoKeyframe(f) then [|log|] else []
    ensures FirstKeyFrom(log + [f], i) ==
      if FirstKeyFrom(log, i) < |log| then FirstKeyFrom(log, i) else if IsVideoKeyframe(f) then |log| else |log| + 1
    decreases |log| - i
  {
    hide IsVideoKeyframe;
    if i == |log| {
      assert KeySeqs(log + [f], |log| + 1) == [];
    } else {
      KeySeqsAppend(log, f, i + 1);
      KeySeqsFrom(log, i);
      KeySeqsFrom(log + [f], i);
      hide KeySeqs;
      if IsVideoKeyframe(log[i]) {
        Assoc([i], KeySeqs(log, i + 1), if IsVideoKeyframe(f) then [|log|] else []);
      }
    }
  }

  lemma SectionSplit(log: Log, a: nat, b: nat, c: nat)
    requires a <= b <= c <= |log|
    ensures Section(log, a, c) == Section(log, a, b) + Section(log, b, c)
  {
  }

  /** A window that is wholly kept is that stretch of the log. */
  lemma WindowWhole(v: View, a: nat, b: nat)
    requires v.Valid() && a <= b < |v.log|
    requires forall s :: a <= s <= b ==> v.Keeps(s)
    ensures v.FramesFrom(a, b) == Section(v.log, a, b + 1)
  {
    var fk := FirstKey(v.log);
    hide FirstKey;
    if a < v.suffix <= b {
      assert v.Keeps(v.suffix - 1);
      assert v.suffix == fk;
    } else if b < v.suffix {
      assert v.Keeps(b);
    } else {
      assert v.Keeps(a);
    }
  }

  /** A window holds only kept frames of its range, in strictly increasing order. */
  lemma WindowOrdered(v: View, a: nat, b: nat)
    requires v.Valid()
    ensures forall i :: 0 <= i < |v.FramesFrom(a, b)| ==>
      && a <= v.FramesFrom(a, b)[i].seqNo <= b
      && v.Get(v.FramesFrom(a, b)[i].seqNo) == Some(v.FramesFrom(a, b)[i])
    ensures forall i, j :: 0 <= i < j < |v.FramesFrom(a, b)| ==>
      v.FramesFrom(a, b)[i].seqNo < v.FramesFrom(a, b)[j].seqNo
  {
    hide FirstKey;
  }

  /** A window leaves out no kept frame of its range. */
  lemma WindowComplete(v: View, a: nat, b: nat, s: nat) returns (i: nat)
    requires v.Valid() && a <= s <= b && v.Keeps(s)
    ensures i < |v.FramesFrom(a, b)| && v.FramesFrom(a, b)[i] == Stored(s, v.log[s])
  {
    var fk := FirstKey(v.log);
    hide FirstKey;
    var lo := Section(v.log, Max(a, v.prefix), Min(b + 1, fk));
    if v.prefix <= s < fk {
      i := s - Max(a, v.prefix);
    } else {
      i := |lo| + (s - Max(a, v.suffix));
    }
  }
}
