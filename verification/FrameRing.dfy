/**
  * GOP-aware bounded frame ring. `Represents` says how the fields of a ring stand for a view of the
  * append-only log: the ring evicts whole GOPs, oldest first, and then the frames before the first
  * key frame, until both budgets hold.
  */
module FrameRing {
  import opened Bytes
  import opened Media
  import opened RingView

  datatype Budget = Budget(frames: nat, bytes: nat)

  /** The fields of a ring. */
  datatype Ring = Ring(slots: seq<Stored>, idrSeqs: seq<nat>, gopStarts: seq<nat>, writeSeq: nat, bytesUsed: nat)

  function Size(slots: seq<Stored>): nat {
    if slots == [] then 0 else |slots[0].frame.data| + Size(slots[1..])
  }

  predicate NeedsEvict(r: Ring, budget: Budget) {
    |r.slots| > budget.frames || r.bytesUsed > budget.bytes
  }

  ghost predicate Represents(r: Ring, v: View) {
    && v.Valid()
    && r.slots == v.Slots()
    && r.gopStarts == KeySeqs(v.log, v.suffix)
    && r.idrSeqs == r.gopStarts
    && r.writeSeq == |v.log|
    && r.bytesUsed == Size(r.slots)
  }

  // ---------------------------------------------------------------- one turn of the eviction loop

  /** Slots outside [start, end). */
  function WithoutRange(slots: seq<Stored>, start: nat, end: nat): seq<Stored> {
    if slots == [] then []
    else (if start <= slots[0].seqNo < end then [] else [slots[0]]) + WithoutRange(slots[1..], start, end)
  }

  function WithoutSeq(seqs: seq<nat>, s: nat): seq<nat> {
    if seqs == [] then [] else (if seqs[0] == s then [] else [seqs[0]]) + WithoutSeq(seqs[1..], s)
  }

  lemma NothingWithout(s: nat)
    ensures WithoutSeq([], s) == []
  {
  }

  lemma WithoutSeqStep(seqs: seq<nat>, i: nat, s: nat)
    requires i < |seqs|
    ensures WithoutSeq(seqs[i..], s) == (if seqs[i] == s then [] else [seqs[i]]) + WithoutSeq(seqs[i + 1..], s)
  {
    assert seqs[i..][1..] == seqs[i + 1..];
  }

  /** Slots from the first flagged key frame on. */
  function FromFlaggedKey(slots: seq<Stored>): seq<Stored> {
    if slots == [] || IsFlaggedKeyframe(slots[0].frame) then slots else FromFlaggedKey(slots[1..])
  }

  function EvictOldestGop(r: Ring): Ring
    requires r.gopStarts != []
  {
    var start := r.gopStarts[0];
    var end := if |r.gopStarts| > 1 then r.gopStarts[1] else r.writeSeq;
    var slots := WithoutRange(r.slots, start, end);
    Ring(slots, WithoutSeq(r.idrSeqs, start), r.gopStarts[1..], r.writeSeq,
         Max(r.bytesUsed - (Size(r.slots) - Size(slots)), 0))
  }

  function EvictFront(r: Ring): Ring {
    var slots := FromFlaggedKey(r.slots);
    r.(slots := slots, bytesUsed := Max(r.bytesUsed - (Size(r.slots) - Size(slots)), 0))
  }

  /** The loop has nothing left to do. */
  predicate Settled(r: Ring, budget: Budget) {
    !NeedsEvict(r, budget) || (|r.gopStarts| <= 1 && |r.slots| <= 1)
  }

  function EvictStep(r: Ring, budget: Budget): Ring {
    if Settled(r, budget) then r
    else if |r.gopStarts| > 1 then EvictOldestGop(r)
    else EvictFront(r)
  }

  function Iterate(r: Ring, budget: Budget, n: nat): Ring
    decreases n
  {
    if n == 0 then r else Iterate(EvictStep(r, budget), budget, n - 1)
  }

  // ---------------------------------------------------------------- sizes

  lemma {:induction false} SizeAppend(a: seq<Stored>, b: seq<Stored>)
    ensures Size(a + b) == Size(a) + Size(b)
  {
    if a == [] {
      assert a + b == b;
    } else {
      assert (a + b)[1..] == a[1..] + b;
      SizeAppend(a[1..], b);
    }
  }

  /** Every slot of the list lies in [a, b). */
  ghost predicate Within(slots: seq<Stored>, a: nat, b: nat) {
    forall i :: 0 <= i < |slots| ==> a <= slots[i].seqNo < b
  }

  lemma {:induction false} RemovedAll(slots: seq<Stored>, start: nat, end: nat)
    requires Within(slots, start, end)
    ensures WithoutRange(slots, start, end) == []
  {
    if slots != [] {
      RemovedAll(slots[1..], start, end);
    }
  }

  lemma {:induction false} RemovedNone(slots: seq<Stored>, start: nat, end: nat)
    requires forall i :: 0 <= i < |slots| ==> !(start <= slots[i].seqNo < end)
    ensures WithoutRange(slots, start, end) == slots
  {
    if slots != [] {
      RemovedNone(slots[1..], start, end);
    }
  }

  lemma {:induction false} WithoutRangeAppend(a: seq<Stored>, b: seq<Stored>, start: nat, end: nat)
    ensures WithoutRange(a + b, start, end) == WithoutRange(a, start, end) + WithoutRange(b, start, end)
  {
    if a == [] {
      assert a + b == b;
    } else {
      assert (a + b)[1..] == a[1..] + b;
      WithoutRangeAppend(a[1..], b, start, end);
      Assoc(if start <= a[0].seqNo < end then [] else [a[0]], WithoutRange(a[1..], start, end),
            WithoutRange(b, start, end));
    }
  }

  lemma {:induction false} WithoutSeqNone(seqs: seq<nat>, s: nat)
    requires forall i :: 0 <= i < |seqs| ==> seqs[i] != s
    ensures WithoutSeq(seqs, s) == seqs
  {
    if seqs != [] {
      WithoutSeqNone(seqs[1..], s);
    }
  }

  // ---------------------------------------------------------------- eviction in terms of the log

  /** Position of the newest key frame, or the end of the log. */
  function NewestKey(v: View): nat
    requires v.suffix <= |v.log|
  {
    var keys := KeySeqs(v.log, v.suffix);
    if keys == [] then |v.log| else keys[|keys| - 1]
  }

  /** The view after the oldest GOP is gone. */
  function DropGop(v: View): View
    requires v.suffix < |v.log|
  {
    v.(suffix := FirstKeyFrom(v.log, v.suffix + 1))
  }

  function DropPrefix(v: View): View {
    v.(prefix := FirstKey(v.log))
  }

  lemma SuffixIsFirstStart(v: View)
    requires v.Valid()
    ensures v.suffix < |v.log| ==> KeySeqs(v.log, v.suffix) == [v.suffix] + KeySeqs(v.log, v.suffix + 1)
    ensures v.suffix == |v.log| ==> KeySeqs(v.log, v.suffix) == [] && FirstKey(v.log) == |v.log|
  {
    hide IsVideoKeyframe;
    if v.suffix < |v.log| && FirstKey(v.log) < |v.log| {
      KeySeqsFrom(v.log, v.suffix);
    }
  }

  lemma KeySeqsSkip(log: Log, i: nat)
    requires i <= |log|
    ensures KeySeqs(log, FirstKeyFrom(log, i)) == KeySeqs(log, i)
    ensures |KeySeqs(log, i)| > 0 ==> KeySeqs(log, i)[0] == FirstKeyFrom(log, i) < |log|
    ensures |KeySeqs(log, i)| == 0 ==> FirstKeyFrom(log, i) == |log|
  {
  }

  /** Evicting the oldest of several GOPs drops it wholly and nothing else. */
  lemma OldestGopDropped(r: Ring, v: View)
    requires Represents(r, v) && |r.gopStarts| > 1
    ensures v.suffix < |v.log| && DropGop(v).suffix < |v.log|
    ensures Represents(EvictOldestGop(r), DropGop(v))
  {
    hide IsVideoKeyframe, FirstKeyFrom, Section, FirstKey, WithoutRange, WithoutSeq, Size, KeySeqs;
    SuffixIsFirstStart(v);
    KeySeqsSkip(v.log, v.suffix + 1);
    KeySeqsAre(v.log, v.suffix + 1);
    var start, end := v.suffix, DropGop(v).suffix;
    var rest := KeySeqs(v.log, start + 1);
    assert r.gopStarts == [start] + rest;
    assert r.gopStarts[1] == rest[0] == end && r.gopStarts[1..] == rest;
    assert KeySeqs(v.log, end) == rest;
    IdrDropped(start, rest);
    SlotsDropGop(v);
    var low := Section(v.log, v.prefix, FirstKey(v.log));
    var gop, high := Section(v.log, start, end), Section(v.log, end, |v.log|);
    SizeAppend(low + gop, high);
    SizeAppend(low, gop);
    SizeAppend(low, high);
  }

  lemma IdrDropped(start: nat, rest: seq<nat>)
    requires forall i :: 0 <= i < |rest| ==> rest[i] != start
    ensures WithoutSeq([start] + rest, start) == rest
  {
    WithoutSeqNone(rest, start);
    assert ([start] + rest)[1..] == rest;
  }

  lemma SlotsDropGop(v: View)
    requires v.Valid() && v.suffix < |v.log|
    ensures var end := DropGop(v).suffix;
      var low := Section(v.log, v.prefix, FirstKey(v.log));
      var gop, high := Section(v.log, v.suffix, end), Section(v.log, end, |v.log|);
      v.Slots() == low + gop + high && WithoutRange(v.Slots(), v.suffix, end) == low + high
  {
    hide FirstKeyFrom, IsVideoKeyframe;
    var start, end := v.suffix, DropGop(v).suffix;
    var fk := FirstKey(v.log);
    hide FirstKey;
    var low, gop, high := Section(v.log, v.prefix, fk), Section(v.log, start, end), Section(v.log, end, |v.log|);
    SectionSplit(v.log, start, end, |v.log|);
    RemovedNone(low, start, end);
    RemovedAll(gop, start, end);
    RemovedNone(high, start, end);
    hide Section;
    WithoutRangeAppend(low + gop, high, start, end);
    WithoutRangeAppend(low, gop, start, end);
    Assoc(low, gop, high);
    assert low + [] == low;
  }

  /** The flag agrees with the key frame test. */
  predicate FlagAgrees(f: MediaFrame) {
    IsVideoKeyframe(f) ==> f.isKeyframe
  }

  lemma {:induction false} FlaggedKeySkips(a: seq<Stored>, b: seq<Stored>)
    requires forall i :: 0 <= i < |a| ==> !IsFlaggedKeyframe(a[i].frame)
    ensures FromFlaggedKey(a + b) == FromFlaggedKey(b)
  {
    if a == [] {
      assert a + b == b;
    } else {
      assert (a + b)[1..] == a[1..] + b;
      FlaggedKeySkips(a[1..], b);
    }
  }

  /** In the slots of a view the first flagged key frame is the one that starts the suffix. */
  lemma FlaggedKeyStartsSuffix(v: View)
    requires v.Valid() && (v.suffix < |v.log| ==> FlagAgrees(v.log[v.suffix]))
    ensures FromFlaggedKey(v.Slots()) == Section(v.log, v.suffix, |v.log|)
  {
    var low, high := Section(v.log, v.prefix, FirstKey(v.log)), Section(v.log, v.suffix, |v.log|);
    FlaggedKeySkips(low, high);
    assert FromFlaggedKey(high) == high;
  }

  /** Front eviction drops the frames before the first key frame, and stops there if that one is flagged. */
  lemma PrefixDropped(r: Ring, v: View)
    requires Represents(r, v)
    requires v.suffix < |v.log| ==> FlagAgrees(v.log[v.suffix])
    ensures Represents(EvictFront(r), DropPrefix(v))
    ensures EvictFront(r).slots == Section(v.log, v.suffix, |v.log|)
  {
    FlaggedKeyStartsSuffix(v);
    DropPrefixSlots(v);
    hide KeySeqs, View.Slots, View.Valid, FromFlaggedKey, Section, Size, FlagAgrees;
  }

  lemma DropPrefixSlots(v: View)
    requires v.Valid()
    ensures DropPrefix(v).Valid() && DropPrefix(v).Slots() == Section(v.log, v.suffix, |v.log|)
  {
    hide FirstKey;
    var high := Section(v.log, v.suffix, |v.log|);
    assert Section(v.log, FirstKey(v.log), FirstKey(v.log)) + high == high;
  }

  /**
    * The exact condition: with one GOP left, front eviction keeps it whole iff its key frame is
    * flagged; otherwise it empties the ring while the key list still names the lost frame.
    */
  lemma FrontEvictionKeepsGopIff(r: Ring, v: View)
    requires Represents(r, v) && |r.gopStarts| == 1
    ensures Represents(EvictFront(r), DropPrefix(v)) <==> v.log[v.suffix].isKeyframe
    ensures !v.log[v.suffix].isKeyframe ==> EvictFront(r).slots == [] && EvictFront(r).idrSeqs == [v.suffix]
  {
    SuffixIsFirstStart(v);
    KeySeqsSkip(v.log, v.suffix + 1);
    assert KeySeqs(v.log, v.suffix + 1) == [];
    if v.log[v.suffix].isKeyframe {
      PrefixDropped(r, v);
    } else {
      var fk := FirstKey(v.log);
      var low, high := Section(v.log, v.prefix, fk), Section(v.log, v.suffix, |v.log|);
      var both := low + high;
      assert forall i :: 0 <= i < |both| ==> !IsFlaggedKeyframe(both[i].frame);
      FlaggedKeySkips(low + high, []);
      assert (low + high) + [] == low + high;
      hide KeySeqs, FirstKeyFrom, FirstKey;
      assert |DropPrefix(v).Slots()| >= |high| > 0;
    }
  }

  // ---------------------------------------------------------------- pushing

  /** The view once one more frame is published, before any eviction. */
  function Extended(v: View, f: MediaFrame): View {
    View(v.log + [f], v.prefix, if FirstKey(v.log) == |v.log| && !IsVideoKeyframe(f) then |v.log| + 1 else v.suffix)
  }

  function Appended(r: Ring, f: MediaFrame): Ring {
    var starts := if IsVideoKeyframe(f) then [r.writeSeq] else [];
    Ring(r.slots + [Stored(r.writeSeq, f)], r.idrSeqs + starts, r.gopStarts + starts, r.writeSeq + 1,
         r.bytesUsed + |f.data|)
  }

  /** Appending keeps the view valid; its key frames grow by the frame exactly when it is one. */
  lemma ExtendedValid(v: View, f: MediaFrame)
    requires v.Valid()
    ensures var w := Extended(v, f);
      && w.Valid() && w.log == v.log + [f] && w.prefix == v.prefix
      && KeySeqs(w.log, w.suffix) == KeySeqs(v.log, v.suffix) + if IsVideoKeyframe(f) then [|v.log|] else []
  {
    var n := |v.log|;
    KeySeqsAppend(v.log, f, v.suffix);
    KeySeqsAppend(v.log, f, 0);
    SuffixIsFirstStart(v);
    assert KeySeqs(v.log + [f], n + 1) == [];
    hide IsVideoKeyframe, FirstKeyFrom, KeySeqs;
    if v.suffix < n {
      assert (v.log + [f])[v.suffix] == v.log[v.suffix];
    }
  }

  lemma AppendedRepresents(r: Ring, v: View, f: MediaFrame)
    requires Represents(r, v)
    ensures Represents(Appended(r, f), Extended(v, f))
  {
    ExtendedValid(v, f);
    ExtendedSlots(v, f);
    SizeOne(v.Slots(), Stored(|v.log|, f));
    hide IsVideoKeyframe, View.Valid, View.Slots, KeySeqs, Size, Extended;
  }

  lemma ExtendedSlots(v: View, f: MediaFrame)
    requires v.Valid()
    ensures Extended(v, f).suffix <= |v.log| + 1
    ensures Extended(v, f).Slots() == v.Slots() + [Stored(|v.log|, f)]
  {
    var n := |v.log|;
    KeySeqsAppend(v.log, f, 0);
    SectionExtend(v.log, f, v.prefix, FirstKey(v.log));
    SectionExtend(v.log, f, v.suffix, n);
    hide IsVideoKeyframe, FirstKeyFrom, Section;
    var low, high := Section(v.log, v.prefix, FirstKey(v.log)), Section(v.log, v.suffix, n);
    Assoc(low, high, [Stored(n, f)]);
    assert FirstKey(v.log) == n ==> high == [];
    assert forall s: seq<Stored> :: s + [] == s;
  }

  lemma SectionExtend(log: Log, f: MediaFrame, a: nat, b: nat)
    requires b <= |log|
    ensures Section(log + [f], a, b) == Section(log, a, b)
    ensures a <= b == |log| ==> Section(log + [f], a, b + 1) == Section(log, a, b) + [Stored(b, f)]
    ensures Section(log + [f], |log| + 1, |log| + 1) == []
  {
  }

  // ---------------------------------------------------------------- when the loop ends, and where

  ghost predicate Fits(v: View, budget: Budget)
    requires v.suffix <= |v.log|
  {
    |v.Slots()| <= budget.frames && Size(v.Slots()) <= budget.bytes
  }

  /** Nothing to keep whole, a single frame, or a newest GOP that fits both budgets. */
  ghost predicate NewestGopFits(v: View, budget: Budget)
    requires v.suffix <= |v.log|
  {
    var k := NewestKey(v);
    || k >= |v.log|
    || |v.log| - k <= 1
    || (|v.log| - k <= budget.frames && Size(Section(v.log, k, |v.log|)) <= budget.bytes)
  }

  /** Where eviction stops: GOPs go oldest first, and the prefix only once a single GOP is left. */
  ghost function SettledView(v: View, budget: Budget): (w: View)
    requires v.suffix <= |v.log|
    ensures w.suffix <= |w.log| && w.log == v.log
    decreases |v.log| - v.suffix
  {
    if Fits(v, budget) then v
    else if |KeySeqs(v.log, v.suffix)| > 1 && v.suffix < |v.log| then SettledView(DropGop(v), budget)
    else if |v.Slots()| > 1 then DropPrefix(v)
    else v
  }

  /** When the frames before the first key frame must go, the newest key frame is flagged. */
  ghost predicate FlaggedIfNeeded(v: View, budget: Budget)
    requires v.suffix <= |v.log|
  {
    SettledView(v, budget).prefix != v.prefix ==> NewestFlagged(v)
  }

  lemma NewestKeyKept(v: View)
    requires v.Valid()
    ensures NewestKey(v) < |v.log| ==> v.suffix <= NewestKey(v)
    ensures NewestKey(v) == |v.log| <==> v.suffix == |v.log|
    ensures |KeySeqs(v.log, v.suffix)| <= 1 ==> NewestKey(v) == v.suffix
  {
    KeySeqsAre(v.log, v.suffix);
    SuffixIsFirstStart(v);
  }

  lemma NewestKeyAfterDrop(v: View)
    requires v.Valid() && v.suffix < |v.log| && |KeySeqs(v.log, v.suffix)| > 1
    ensures DropGop(v).Valid() && NewestKey(DropGop(v)) == NewestKey(v)
    ensures |KeySeqs(v.log, DropGop(v).suffix)| == |KeySeqs(v.log, v.suffix)| - 1
  {
    hide IsVideoKeyframe;
    SuffixIsFirstStart(v);
    KeySeqsSkip(v.log, v.suffix + 1);
  }

  /** The newest GOP is a tail of the slots. */
  lemma NewestGopInSlots(v: View)
    requires v.Valid() && NewestKey(v) < |v.log|
    ensures |v.Slots()| >= |v.log| - NewestKey(v)
    ensures Size(v.Slots()) >= Size(Section(v.log, NewestKey(v), |v.log|))
    ensures v.prefix == FirstKey(v.log) && v.suffix == NewestKey(v)
        ==> v.Slots() == Section(v.log, NewestKey(v), |v.log|)
  {
    NewestKeyKept(v);
    var k := NewestKey(v);
    hide FirstKey, NewestKey, KeySeqs;
    var low := Section(v.log, v.prefix, FirstKey(v.log));
    var mid, high := Section(v.log, v.suffix, k), Section(v.log, k, |v.log|);
    SectionSplit(v.log, v.suffix, k, |v.log|);
    Assoc(low, mid, high);
    SizeAppend(low + mid, high);
    if v.prefix == FirstKey(v.log) && v.suffix == k {
      assert low == [] && mid == [];
    }
  }

  /** With a newest GOP that fits, the view left once no older GOP and no prefix remain needs no more eviction. */
  lemma BareNewestFits(v: View, budget: Budget)
    requires v.Valid() && v.prefix == FirstKey(v.log)
    requires |KeySeqs(v.log, v.suffix)| <= 1
    requires NewestGopFits(v, budget)
    ensures Fits(v, budget) || |v.Slots()| <= 1
  {
    NewestKeyKept(v);
    if NewestKey(v) < |v.log| {
      NewestGopInSlots(v);
    } else {
      assert v.Slots() == [];
    }
  }

  // ---------------------------------------------------------------- the loop ends iff the newest GOP fits

  /** The newest key frame, if one is held, is flagged as one. */
  ghost predicate NewestFlagged(v: View)
    requires v.suffix <= |v.log|
  {
    NewestKey(v) < |v.log| ==> v.log[NewestKey(v)].isKeyframe
  }

  lemma StepRepresents(r: Ring, v: View, budget: Budget) returns (w: View)
    requires Represents(r, v) && NewestFlagged(v)
    ensures Represents(EvictStep(r, budget), w)
    ensures w.log == v.log && NewestKey(w) == NewestKey(v)
    ensures !Settled(r, budget) && NewestGopFits(v, budget) ==>
      |KeySeqs(w.log, w.suffix)| < |KeySeqs(v.log, v.suffix)| || (w.suffix == v.suffix && v.prefix < w.prefix)
  {
    hide IsVideoKeyframe, FirstKeyFrom, KeySeqs, Size, Section;
    if Settled(r, budget) {
      w := v;
    } else if |r.gopStarts| > 1 {
      OldestGopDropped(r, v);
      hide NewestKey, NewestGopFits;
      NewestKeyAfterDrop(v);
      w := DropGop(v);
    } else {
      NewestKeyKept(v);
      PrefixDropped(r, v);
      w := DropPrefix(v);
      StillNewest(v);
      if v.prefix == FirstKey(v.log) && NewestGopFits(v, budget) {
        BareNewestFits(v, budget);
      }
      hide NewestKey, NewestGopFits, FirstKey;
    }
  }

  lemma StillNewest(v: View)
    requires v.suffix <= |v.log|
    ensures NewestKey(DropPrefix(v)) == NewestKey(v)
  {
    hide KeySeqs;
  }

  lemma {:induction false} FlaggedLoopEnds(r: Ring, v: View, budget: Budget) returns (n: nat)
    requires Represents(r, v) && NewestFlagged(v) && NewestGopFits(v, budget)
    ensures Settled(Iterate(r, budget, n), budget)
    decreases |KeySeqs(v.log, v.suffix)|, FirstKey(v.log) - v.prefix
  {
    if Settled(r, budget) {
      n := 0;
    } else {
      var w := StepRepresents(r, v, budget);
      hide Settled, EvictStep, KeySeqs, FirstKey, FirstKeyFrom;
      n := FlaggedLoopEnds(EvictStep(r, budget), w, budget);
      n := n + 1;
    }
  }

  /** With an unflagged newest key frame the loop ends too: at the latest by emptying the ring. */
  lemma {:induction false} LoopEmpties(r: Ring, v: View, budget: Budget) returns (n: nat)
    requires Represents(r, v) && !NewestFlagged(v)
    ensures Settled(Iterate(r, budget, n), budget)
    decreases |KeySeqs(v.log, v.suffix)|
  {
    hide IsVideoKeyframe, FirstKeyFrom, KeySeqs;
    if Settled(r, budget) {
      n := 0;
    } else if |r.gopStarts| > 1 {
      OldestGopDropped(r, v);
      NewestKeyAfterDrop(v);
      n := LoopEmpties(EvictOldestGop(r), DropGop(v), budget);
      n := n + 1;
    } else {
      NewestKeyKept(v);
      SuffixOfStarts(v);
      FrontEvictionKeepsGopIff(r, v);
      assert Iterate(r, budget, 1) == Iterate(EvictFront(r), budget, 0);
      n := 1;
    }
  }

  lemma {:induction false} LoopNeverEnds(r: Ring, v: View, budget: Budget, n: nat)
    requires Represents(r, v) && NewestFlagged(v) && !NewestGopFits(v, budget)
    ensures !Settled(Iterate(r, budget, n), budget)
    decreases n
  {
    hide EvictStep, KeySeqs, FirstKey, FirstKeyFrom, IsVideoKeyframe, Section, Size, NewestKey;
    if n == 0 {
      NewestGopInSlots(v);
    } else {
      var w := StepRepresents(r, v, budget);
      hide Settled, Represents;
      LoopNeverEnds(EvictStep(r, budget), w, budget, n - 1);
    }
  }

  /** The exact condition for push to return: the eviction loop ends iff the newest GOP fits, or its key frame is not
      flagged as one. */
  lemma EvictionEndsIff(r: Ring, v: View, budget: Budget)
    requires Represents(r, v)
    ensures LoopEnds(r, budget) <==> NewestGopFits(v, budget) || !NewestFlagged(v)
  {
    hide Settled, Iterate;
    if !NewestFlagged(v) {
      var n := LoopEmpties(r, v, budget);
    } else if NewestGopFits(v, budget) {
      var n := FlaggedLoopEnds(r, v, budget);
    } else {
      forall n: nat ensures !Settled(Iterate(r, budget, n), budget) {
        LoopNeverEnds(r, v, budget, n);
      }
    }
  }

  /** The smallest ring on which push never returns: room for one frame, and a flagged key frame with one more behind.
      */
  lemma TwoFramesNeverFit(key: MediaFrame, more: MediaFrame)
    requires IsVideoKeyframe(key) && key.isKeyframe && !IsVideoKeyframe(more)
    ensures var v, budget := View([key, more], 0, 0), Budget(1, 0x200_0000);
      var r := Ring(v.Slots(), [0], [0], 2, |key.data| + |more.data|);
      Represents(r, v) && forall n: nat :: !Settled(Iterate(r, budget, n), budget)
  {
    hide IsVideoKeyframe;
    var log := [key, more];
    var v, budget := View(log, 0, 0), Budget(1, 0x200_0000);
    var r := Ring(v.Slots(), [0], [0], 2, |key.data| + |more.data|);
    KeySeqsFrom(log, 0);
    KeySeqsFrom(log, 1);
    assert KeySeqs(log, 2) == [];
    assert v.Slots() == [Stored(0, key), Stored(1, more)];
    assert v.Slots()[1..] == [Stored(1, more)] && v.Slots()[1..][1..] == [];
    assert Size(v.Slots()) == |key.data| + (|more.data| + Size([]));
    hide Settled, Iterate, KeySeqs, FirstKeyFrom, Size;
    EvictionEndsIff(r, v, budget);
  }

  // ---------------------------------------------------------------- what eviction keeps

  /** Eviction ends within both budgets or with at most one frame, and never touches the newest GOP. */
  lemma {:induction false} SettledViewHolds(v: View, budget: Budget)
    requires v.Valid() && NewestGopFits(v, budget)
    ensures var w := SettledView(v, budget);
      && w.Valid() && w.log == v.log && NewestKey(w) == NewestKey(v)
      && (Fits(w, budget) || |w.Slots()| <= 1)
      && v.prefix <= w.prefix && v.suffix <= w.suffix
    decreases |v.log| - v.suffix
  {
    hide IsVideoKeyframe, FirstKeyFrom, KeySeqs, Size;
    if Fits(v, budget) {
    } else if |KeySeqs(v.log, v.suffix)| > 1 && v.suffix < |v.log| {
      NewestKeyAfterDrop(v);
      SettledViewHolds(DropGop(v), budget);
    } else if |v.Slots()| > 1 {
      SuffixIsFirstStart(v);
      BareNewestFits(DropPrefix(v), budget);
    }
  }

  /**
    * Eviction drops no more than it must: no view that starts at an earlier key frame fits, and the
    * prefix goes only if it does not fit beside the newest GOP.
    */
  lemma {:induction false} LeastEviction(v: View, budget: Budget, k: nat)
    requires v.Valid()
    requires v.suffix <= k < SettledView(v, budget).suffix && IsVideoKeyframe(v.log[k])
    ensures !Fits(v.(suffix := k), budget)
    decreases |v.log| - v.suffix
  {
    var next := FirstKeyFrom(v.log, v.suffix + 1);
    assert k == v.suffix || next <= k;
    if k > v.suffix {
      NewestKeyAfterDrop(v);
      LeastEviction(DropGop(v), budget, k);
    }
  }

  lemma {:induction false} PrefixGoesLast(v: View, budget: Budget)
    requires v.Valid()
    requires SettledView(v, budget).prefix != v.prefix
    ensures SettledView(v, budget).suffix == NewestKey(v)
    ensures !Fits(v.(suffix := NewestKey(v)), budget)
    decreases |v.log| - v.suffix
  {
    NewestKeyKept(v);
    if |KeySeqs(v.log, v.suffix)| > 1 && v.suffix < |v.log| {
      NewestKeyAfterDrop(v);
      hide KeySeqs, FirstKey, FirstKeyFrom, IsVideoKeyframe;
      PrefixGoesLast(DropGop(v), budget);
    }
  }

  /** A kept frame is in the slots. */
  lemma SlotOf(v: View, s: nat)
    requires v.Valid()
    ensures v.Keeps(s) ==> exists i :: 0 <= i < |v.Slots()| && v.Slots()[i].seqNo == s
    ensures forall i :: 0 <= i < |v.Slots()| && v.Slots()[i].seqNo == s ==>
      v.Keeps(s) && s < |v.log| && v.Slots()[i] == Stored(s, v.log[s])
  {
    hide FirstKey;
    var low := Section(v.log, v.prefix, FirstKey(v.log));
    if v.prefix <= s < FirstKey(v.log) {
      assert v.Slots()[s - v.prefix].seqNo == s;
    } else if v.suffix <= s < |v.log| {
      assert v.Slots()[|low| + (s - v.suffix)].seqNo == s;
    }
  }

  lemma StandsFor(r: Ring, v: View)
    requires Represents(r, v)
    ensures v.Valid() && r.writeSeq == |v.log|
  {
  }

  /** The newest frame is a GOP start of the settled ring if and only if it is one by its bytes or its flag. */
  lemma NewestStarts(r: Ring, v: View, f: MediaFrame, budget: Budget)
    requires v.Valid() && Evictable(Extended(v, f), budget)
    requires Represents(r, SettledView(Extended(v, f), budget))
    ensures |v.log| in r.gopStarts <==> StartsGop(f)
    ensures |v.log| in r.idrSeqs <==> StartsGop(f)
  {
    GopStartIff(f);
    ExtendedValid(v, f);
    var x := Extended(v, f);
    SettledViewHolds(x, budget);
    var w := SettledView(x, budget);
    NewestKeyKept(w);
    KeySeqsMember(w.log, w.suffix, |v.log|);
    hide IsVideoKeyframe, StartsGop, KeySeqs, FirstKeyFrom, SettledView, Size;
  }

  // ---------------------------------------------------------------- turn by turn

  /** The loop comes to an end. */
  ghost predicate LoopEnds(r: Ring, budget: Budget) {
    exists n: nat :: Settled(Iterate(r, budget, n), budget)
  }

  /** What a view needs for eviction to end in the settled one. */
  ghost predicate Evictable(v: View, budget: Budget) {
    v.suffix <= |v.log| && NewestGopFits(v, budget) && FlaggedIfNeeded(v, budget)
  }

  lemma {:induction false} SettledStays(r: Ring, budget: Budget, n: nat)
    requires Settled(r, budget)
    ensures Iterate(r, budget, n) == r
    decreases n
  {
    hide Settled;
    if n > 0 {
      SettledStays(r, budget, n - 1);
    }
  }

  /** One turn of the loop on a ring that stands for a view. */
  lemma StepView(r: Ring, v: View, budget: Budget) returns (w: View)
    requires Represents(r, v) && Evictable(v, budget) && !Settled(r, budget)
    ensures Represents(EvictStep(r, budget), w) && Evictable(w, budget)
    ensures w.log == v.log && SettledView(w, budget) == SettledView(v, budget)
  {
    hide KeySeqs, IsVideoKeyframe, FirstKeyFrom, Section, FirstKey, Size, NewestFlagged;
    SuffixOfStarts(v);
    if |r.gopStarts| > 1 {
      OldestGopDropped(r, v);
      NewestKeyAfterDrop(v);
      FlaggedAfterDrop(v, budget);
      w := DropGop(v);
    } else {
      SuffixFlagged(v, budget);
      PrefixDropped(r, v);
      BareNewestFits(DropPrefix(v), budget);
      PrefixGone(v, budget);
      w := DropPrefix(v);
    }
  }

  lemma SettledIsView(r: Ring, v: View, budget: Budget)
    requires Represents(r, v) && Settled(r, budget)
    ensures SettledView(v, budget) == v
  {
    hide KeySeqs, FirstKey, Section, Size;
  }

  // ---------------------------------------------------------------- the ring itself

  datatype SnapMode = LiveEdge | LatestIdr

  class FrameRing {
    const budget: Budget
    var slots: seq<Stored>
    var idrSeqs: seq<nat>
    var gopStarts: seq<nat>
    var writeSeq: nat
    var bytesUsed: nat
    /** The published log and how much of it is kept. */
    ghost var view: View

    ghost function Fields(): Ring
      reads this
    {
      Ring(slots, idrSeqs, gopStarts, writeSeq, bytesUsed)
    }

    ghost predicate Valid()
      reads this
    {
      Represents(Fields(), view)
    }

    constructor (budget: Budget)
      ensures Valid() && this.budget == budget && view == View([], 0, 0)
    {
      this.budget := budget;
      slots, idrSeqs, gopStarts, writeSeq, bytesUsed := [], [], [], 0, 0;
      view := View([], 0, 0);
    }

    method RemoveSeqRange(start: nat, end: nat)
      modifies `slots, `bytesUsed
      ensures slots == WithoutRange(old(slots), start, end)
      ensures bytesUsed == Max(old(bytesUsed) - (Size(old(slots)) - Size(slots)), 0)
    {
      var kept: seq<Stored> := [];
      var dropped: nat := 0;
      for i := 0 to |slots|
        invariant slots == old(slots)
        invariant kept + WithoutRange(slots[i..], start, end) == WithoutRange(slots, start, end)
        invariant dropped + Size(kept) + Size(slots[i..]) == Size(slots)
        invariant bytesUsed == Max(old(bytesUsed) - dropped, 0)
      {
        var f := slots[i];
        assert slots[i..] == [f] + slots[i + 1..];
        if start <= f.seqNo < end {
          bytesUsed := Max(bytesUsed - |f.frame.data|, 0);
          dropped := dropped + |f.frame.data|;
        } else {
          Assoc(kept, [f], WithoutRange(slots[i + 1..], start, end));
          SizeOne(kept, f);
          kept := kept + [f];
        }
      }
      assert kept + [] == kept;
      slots := kept;
    }

    method EvictOldest()
      requires gopStarts != []
      modifies this
      ensures Fields() == EvictOldestGop(old(Fields())) && view == old(view)
    {
      hide WithoutRange, Size;
      var start := gopStarts[0];
      gopStarts := gopStarts[1..];
      var end := if gopStarts != [] then gopStarts[0] else writeSeq;
      RemoveSeqRange(start, end);
      ForgetIdr(start);
    }

    /** The list of key frames without the given one. */
    method ForgetIdr(start: nat)
      modifies `idrSeqs
      ensures idrSeqs == WithoutSeq(old(idrSeqs), start)
    {
      hide WithoutSeq;
      var kept: seq<nat> := [];
      assert idrSeqs[0..] == idrSeqs && kept + WithoutSeq(idrSeqs, start) == WithoutSeq(idrSeqs, start);
      for i := 0 to |idrSeqs|
        invariant idrSeqs == old(idrSeqs)
        invariant kept + WithoutSeq(idrSeqs[i..], start) == WithoutSeq(idrSeqs, start)
      {
        WithoutSeqStep(idrSeqs, i, start);
        if idrSeqs[i] != start {
          Assoc(kept, [idrSeqs[i]], WithoutSeq(idrSeqs[i + 1..], start));
          kept := kept + [idrSeqs[i]];
        }
      }
      NothingWithout(start);
      assert idrSeqs[|idrSeqs|..] == [] && kept + [] == kept;
      idrSeqs := kept;
    }

    method EvictFrontUntilKeyframeOrEmpty()
      modifies `slots, `bytesUsed
      ensures Fields() == EvictFront(old(Fields()))
    {
      while slots != [] && !IsFlaggedKeyframe(slots[0].frame)
        invariant FromFlaggedKey(slots) == FromFlaggedKey(old(slots))
        invariant Size(slots) <= Size(old(slots))
        invariant bytesUsed == Max(old(bytesUsed) - (Size(old(slots)) - Size(slots)), 0)
        decreases |slots|
      {
        bytesUsed := Max(bytesUsed - |slots[0].frame.data|, 0);
        slots := slots[1..];
      }
    }

    /** Whatever the ring holds, wherever the loop ends at all it leaves what its turns leave. A ring that stands for a
        view whose newest GOP fits, and is flagged where the frames in front of it must go, then stands for the settled
        view. */
    method EvictIfNeeded()
      requires LoopEnds(Fields(), budget)
      modifies this
      ensures Settled(Fields(), budget) && writeSeq == old(writeSeq)
      ensures exists n: nat :: Fields() == Iterate(old(Fields()), budget, n)
      ensures old(Valid() && Evictable(view, budget)) ==> Valid() && view == SettledView(old(view), budget)
    {
      hide Represents, NewestGopFits, FlaggedIfNeeded, EvictFront, WithoutRange, WithoutSeq, Size;
      ghost var stands := Valid() && Evictable(view, budget);
      ghost var end := if stands then SettledView(view, budget) else view;
      ghost var turns: nat :| Settled(Iterate(Fields(), budget, turns), budget);
      ghost var left := turns;
      while |slots| > budget.frames || bytesUsed > budget.bytes
        invariant Iterate(Fields(), budget, left) == Iterate(old(Fields()), budget, turns)
        invariant stands ==> Valid() && Evictable(view, budget)
        invariant stands ==> SettledView(view, budget) == end
        invariant writeSeq == old(writeSeq)
        decreases left
      {
        ghost var was := Fields();
        if |gopStarts| > 1 {
          EvictOldest();
        } else if |slots| > 1 {
          EvictFrontUntilKeyframeOrEmpty();
        } else {
          break;
        }
        assert Fields() == EvictStep(was, budget);
        left := left - 1;
        if stands {
          var w := StepView(was, view, budget);
          view := w;
        }
      }
      SettledStays(Fields(), budget, left);
      if stands {
        SettledIsView(Fields(), view, budget);
      }
    }

    /** The frame behind the others, and then the loop, if it ends. */
    method Push(frame: MediaFrame) returns (s: nat)
      requires LoopEnds(Appended(Fields(), frame), budget)
      modifies this
      ensures s == old(writeSeq) && writeSeq == s + 1
      ensures (|slots| <= budget.frames && bytesUsed <= budget.bytes) || |slots| <= 1
      ensures exists n: nat :: Fields() == Iterate(Appended(old(Fields()), frame), budget, n)
      ensures old(Valid() && Evictable(Extended(view, frame), budget)) ==>
        Valid() && view == SettledView(Extended(old(view), frame), budget) && view.log == old(view).log + [frame]
      ensures old(Valid() && Evictable(Extended(view, frame), budget)) ==>
        (s in gopStarts <==> StartsGop(frame)) && (s in idrSeqs <==> StartsGop(frame))
    {
      hide KeySeqs, IsVideoKeyframe, FirstKeyFrom, Section, FirstKey, Size, Represents, Iterate, EvictStep;
      hide NewestGopFits, FlaggedIfNeeded;
      ghost var stood := Valid();
      if stood {
        AppendedRepresents(Fields(), view, frame);
        StandsFor(Fields(), view);
      }
      s := writeSeq;
      if IsVideoKeyframe(frame) {
        gopStarts := gopStarts + [s];
        idrSeqs := idrSeqs + [s];
      }
      bytesUsed := bytesUsed + |frame.data|;
      slots := slots + [Stored(s, frame)];
      writeSeq := writeSeq + 1;
      assert Fields() == Appended(old(Fields()), frame);
      view := Extended(view, frame);
      EvictIfNeeded();
      if stood && old(Evictable(Extended(view, frame), budget)) {
        NewestStarts(Fields(), old(view), frame, budget);
      }
    }

    method Get(s: nat) returns (r: Option<Stored>)
      requires Valid()
      ensures r == view.Get(s)
    {
      SlotOf(view, s);
      hide View.Valid, View.Slots, View.Keeps, KeySeqs, Size;
      for i := 0 to |slots|
        invariant forall j :: 0 <= j < i ==> slots[j].seqNo != s
      {
        if slots[i].seqNo == s {
          return Some(slots[i]);
        }
      }
      return None;
    }

    method LatestSeq() returns (s: nat)
      requires Valid()
      ensures s == view.LatestSeq()
    {
      s := Max(writeSeq - 1, 0);
    }

    method OldestSeq() returns (s: Option<nat>)
      requires Valid()
      ensures s == view.OldestSeq()
    {
      hide FirstKeyFrom, IsVideoKeyframe, KeySeqs;
      s := if slots == [] then None else Some(slots[0].seqNo);
    }

    method LatestIdrSeq() returns (s: Option<nat>)
      requires Valid()
      ensures s == view.LatestIdrSeq()
    {
      s := if idrSeqs == [] then None else Some(idrSeqs[|idrSeqs| - 1]);
    }

    method Snap(mode: SnapMode) returns (s: nat)
      requires Valid()
      ensures s == match mode case LiveEdge => view.LatestSeq() case LatestIdr => view.SnapLatestIdr()
    {
      s := LatestSeq();
      if mode == LatestIdr {
        var idr := LatestIdrSeq();
        if idr.Some? {
          s := idr.value;
        }
      }
    }

    method FramesFrom(a: nat, b: nat) returns (out: seq<Stored>)
      requires Valid()
      ensures out == view.FramesFrom(a, b)
    {
      SlotsInRange(view, a, b);
      hide KeySeqs, View.Slots, View.FramesFrom, InRange;
      out := Select(slots, a, b);
    }
  }

  /** The filter over the slots. */
  method Select(slots: seq<Stored>, a: nat, b: nat) returns (out: seq<Stored>)
    ensures out == InRange(slots, a, b)
  {
    hide InRange;
    out := [];
    NoneInRange(a, b);
    for i := 0 to |slots|
      invariant out == InRange(slots[..i], a, b)
    {
      InRangeOne(slots[..i], slots[i], a, b);
      assert slots[..i + 1] == slots[..i] + [slots[i]];
      if a <= slots[i].seqNo <= b {
        out := out + [slots[i]];
      }
    }
    assert slots[..|slots|] == slots;
  }

  function InRange(slots: seq<Stored>, a: nat, b: nat): seq<Stored> {
    if slots == [] then []
    else (if a <= slots[0].seqNo <= b then [slots[0]] else []) + InRange(slots[1..], a, b)
  }

  lemma {:induction false} InRangeAppend(x: seq<Stored>, y: seq<Stored>, a: nat, b: nat)
    ensures InRange(x + y, a, b) == InRange(x, a, b) + InRange(y, a, b)
  {
    if x == [] {
      assert x + y == y;
    } else {
      assert (x + y)[1..] == x[1..] + y;
      InRangeAppend(x[1..], y, a, b);
      Assoc(if a <= x[0].seqNo <= b then [x[0]] else [], InRange(x[1..], a, b), InRange(y, a, b));
    }
  }

  lemma NoneInRange(a: nat, b: nat)
    ensures InRange([], a, b) == []
  {
  }

  lemma InRangeOne(x: seq<Stored>, s: Stored, a: nat, b: nat)
    ensures InRange(x + [s], a, b) == InRange(x, a, b) + if a <= s.seqNo <= b then [s] else []
  {
    InRangeAppend(x, [s], a, b);
    assert [s][1..] == [];
  }

  lemma {:induction false} SectionInRange(log: Log, lo: nat, hi: nat, a: nat, b: nat)
    requires hi <= |log|
    ensures InRange(Section(log, lo, hi), a, b) == Section(log, Max(a, lo), Min(b + 1, hi))
    decreases hi - lo
  {
    if lo < hi {
      var s := Section(log, lo, hi);
      assert s[1..] == Section(log, lo + 1, hi);
      SectionInRange(log, lo + 1, hi, a, b);
      if a <= lo <= b {
        SectionSplit(log, lo, lo + 1, Min(b + 1, hi));
      }
    }
  }

  lemma SlotsInRange(v: View, a: nat, b: nat)
    requires v.Valid()
    ensures InRange(v.Slots(), a, b) == v.FramesFrom(a, b)
  {
    hide FirstKeyFrom, InRange;
    InRangeAppend(Section(v.log, v.prefix, FirstKey(v.log)), Section(v.log, v.suffix, |v.log|), a, b);
    SectionInRange(v.log, v.prefix, FirstKey(v.log), a, b);
    SectionInRange(v.log, v.suffix, |v.log|, a, b);
    hide Section;
  }

  lemma SizeOne(kept: seq<Stored>, f: Stored)
    ensures Size(kept + [f]) == Size(kept) + |f.frame.data|
  {
    SizeAppend(kept, [f]);
    assert [f][1..] == [];
  }

  lemma SuffixOfStarts(v: View)
    requires v.Valid()
    ensures KeySeqs(v.log, v.suffix) != [] <==> v.suffix < |v.log|
  {
    SuffixIsFirstStart(v);
  }

  /** The flag matters only where front eviction runs. */
  lemma SuffixFlagged(v: View, budget: Budget)
    requires v.Valid() && NewestGopFits(v, budget) && FlaggedIfNeeded(v, budget)
    requires |KeySeqs(v.log, v.suffix)| <= 1 && !Fits(v, budget) && |v.Slots()| > 1
    ensures v.suffix < |v.log| ==> FlagAgrees(v.log[v.suffix])
  {
    NewestKeyKept(v);
    if v.prefix == FirstKey(v.log) {
      BareNewestFits(v, budget);
    }
    hide FirstKeyFrom, KeySeqs, Size, NewestKey;
  }

  lemma FlaggedAfterDrop(v: View, budget: Budget)
    requires v.Valid() && v.suffix < |v.log| && |KeySeqs(v.log, v.suffix)| > 1
    requires FlaggedIfNeeded(v, budget) && !Fits(v, budget)
    ensures DropGop(v).suffix <= |v.log| && FlaggedIfNeeded(DropGop(v), budget)
  {
    NewestKeyAfterDrop(v);
    hide FirstKeyFrom, KeySeqs, Size, NewestKey;
  }

  /** One more turn settles a view with a single GOP, and then it stays. */
  lemma PrefixGone(v: View, budget: Budget)
    requires v.Valid() && NewestGopFits(v, budget)
    requires |KeySeqs(v.log, v.suffix)| <= 1 && !Fits(v, budget) && |v.Slots()| > 1
    ensures SettledView(v, budget) == DropPrefix(v) == SettledView(DropPrefix(v), budget)
    ensures NewestGopFits(DropPrefix(v), budget)
    ensures |DropPrefix(v).Slots()| < |v.Slots()|
  {
    SuffixIsFirstStart(v);
    BareNewestFits(DropPrefix(v), budget);
    hide KeySeqs, FirstKeyFrom, Size;
  }
}
