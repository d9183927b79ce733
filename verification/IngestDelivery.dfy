/**
  * Whole runs of the ingest: a sequence gap forgets everything before it, and every access unit is a
  * run of consecutive parts with one timestamp.
  */
module IngestDelivery {
  import opened Bytes
  import opened H264Util
  import opened Rtp
  import opened RtpH264
  import opened H264RtpIngest

  // ---------------------------------------------------------------- gaps

  /** Same behaviour from here on, with `past` already flushed by the first state only. */
  ghost predicate Alike(s: State, t: State, past: seq<Group>) {
    && s.fuBuffer == t.fuBuffer
    && s.expectedSeq == t.expectedSeq
    && s.batch.parts == t.batch.parts
    && s.batch.isKeyframe == t.batch.isKeyframe
    && (s.batch.parts != [] ==> s.batch.timestamp == t.batch.timestamp)
    && s.flushed == past + t.flushed
  }

  lemma FlushAlike(s: State, t: State, past: seq<Group>)
    requires Alike(s, t, past)
    ensures Alike(Flush(s), Flush(t), past)
  {
    if s.batch.parts != [] {
      Assoc(past, t.flushed, [t.batch]);
    }
  }

  lemma AddPartAlike(s: State, t: State, past: seq<Group>, part: Part, timestamp: u32)
    requires Alike(s, t, past)
    ensures Alike(AddPart(s, part, timestamp), AddPart(t, part, timestamp), past)
  {
    FlushAlike(s, t, past);
  }

  lemma PayloadAlike(s: State, t: State, past: seq<Group>, payload: seq<byte>, timestamp: u32, marker: bool)
    requires Alike(s, t, past)
    ensures Alike(IngestPayload(s, payload, timestamp, marker), IngestPayload(t, payload, timestamp, marker), past)
  {
    if payload != [] {
      var (fuBuffer, part) := PartOf(s.fuBuffer, payload);
      hide PartOf, IsParameterSetOnly;
      var s1, t1 := s.(fuBuffer := fuBuffer), t.(fuBuffer := fuBuffer);
      if part.Some? {
        AddPartAlike(s1, t1, past, part.value, timestamp);
        FlushAlike(AddPart(s1, part.value, timestamp), AddPart(t1, part.value, timestamp), past);
        hide AddPart, Flush;
      }
    }
  }

  lemma InfoAlike(s: State, t: State, past: seq<Group>, info: RtpInfo)
    requires Alike(s, t, past)
    ensures Alike(IngestInfo(s, info), IngestInfo(t, info), past)
  {
    hide IngestPayload, IsFuAContinuation;
    var next := Some((info.sequenceNumber + 1) % 0x1_0000);
    var s1, t1 := s.(expectedSeq := next), t.(expectedSeq := next);
    PayloadAlike(s1, t1, past, info.payload, info.timestamp, info.marker);
    PayloadAlike(Discard(s1), Discard(t1), past, info.payload, info.timestamp, info.marker);
    assert IsGap(s, info) == IsGap(t, info);
    hide Alike, Discard, IsGap;
  }

  lemma {:induction false} RunAlike(s: State, t: State, past: seq<Group>, infos: seq<RtpInfo>)
    requires Alike(s, t, past)
    ensures Alike(Run(s, infos), Run(t, infos), past)
    decreases |infos|
  {
    if infos != [] {
      InfoAlike(s, t, past, infos[0]);
      hide IngestInfo;
      RunAlike(IngestInfo(s, infos[0]), IngestInfo(t, infos[0]), past, infos[1..]);
    }
  }

  /** Without a fragment to continue, a continuation leaves no trace. */
  lemma ContinuationIgnored(t: State, payload: seq<byte>, timestamp: u32, marker: bool)
    requires IsFuAContinuation(payload) && t.fuBuffer == None
    ensures IngestPayload(t, payload, timestamp, marker) == t
  {
    assert Push(None, payload) == Depacketized(None, Failed(MissingFuStart));
    hide ContainsIdr, IsIdrRtpPayload, Push, AddPart, IsParameterSetOnly;
  }

  /** A packet after a gap is ingested as the first packet of a new session would be. */
  lemma GapStartsAfresh(st: State, info: RtpInfo)
    requires IsGap(st, info)
    ensures Alike(IngestInfo(st, info), IngestInfo(Fresh, info), st.flushed)
  {
    var next := Some((info.sequenceNumber + 1) % 0x1_0000);
    var s1 := Discard(st.(expectedSeq := next));
    var t1 := Fresh.(expectedSeq := next);
    hide IngestPayload, IsFuAContinuation;
    assert st.flushed + [] == st.flushed;
    PayloadAlike(s1, t1, st.flushed, info.payload, info.timestamp, info.marker);
    if IsFuAContinuation(info.payload) {
      ContinuationIgnored(t1, info.payload, info.timestamp, info.marker);
    }
  }

  /** Nothing from before a gap is published after it: the rest of the run is that of a new session. */
  lemma GapForgets(st: State, infos: seq<RtpInfo>)
    requires infos != [] && IsGap(st, infos[0])
    ensures Run(st, infos).flushed == st.flushed + Run(Fresh, infos).flushed
    ensures Published(Run(st, infos).flushed) == Published(st.flushed) + Published(Run(Fresh, infos).flushed)
  {
    GapStartsAfresh(st, infos[0]);
    hide IngestInfo, Published;
    RunAlike(IngestInfo(st, infos[0]), IngestInfo(Fresh, infos[0]), st.flushed, infos[1..]);
    PublishedAppend(st.flushed, Run(Fresh, infos).flushed);
  }

  // ---------------------------------------------------------------- spans of consecutive sequence numbers

  /** The sequence number due after a packet. */
  function DueAfter(info: RtpInfo): nat {
    (info.sequenceNumber + 1) % 0x1_0000
  }

  ghost predicate Consecutive(infos: seq<RtpInfo>) {
    forall k :: 0 < k < |infos| ==> infos[k].sequenceNumber == DueAfter(infos[k - 1])
  }

  lemma ConsecutiveTail(infos: seq<RtpInfo>)
    requires infos != [] && Consecutive(infos)
    ensures Consecutive(infos[1..])
    ensures |infos| > 1 ==> infos[1].sequenceNumber == DueAfter(infos[0])
  {
    forall k | 0 < k < |infos[1..]|
      ensures infos[1..][k].sequenceNumber == DueAfter(infos[1..][k - 1])
    {
      assert infos[1..][k] == infos[k + 1] && infos[1..][k - 1] == infos[k + 1 - 1];
    }
  }

  /** Length of the first span: packets up to the first gap. */
  ghost function SpanLength(infos: seq<RtpInfo>): (n: nat)
    requires infos != []
    ensures 0 < n <= |infos|
    ensures Consecutive(infos[..n])
    ensures n < |infos| ==> infos[n].sequenceNumber != DueAfter(infos[n - 1])
  {
    if |infos| == 1 || infos[1].sequenceNumber != DueAfter(infos[0]) then 1
    else
      var n := 1 + SpanLength(infos[1..]);
      assert forall k :: 0 < k < n ==> infos[..n][k] == infos[1..][..n - 1][k - 1];
      n
  }

  /** Groups flushed by a run made of new sessions, one per span. */
  ghost function FlushedBySpans(infos: seq<RtpInfo>): seq<Group>
    decreases |infos|
  {
    if infos == [] then []
    else Run(Fresh, infos[..SpanLength(infos)]).flushed + FlushedBySpans(infos[SpanLength(infos)..])
  }

  lemma RunNothing(st: State)
    ensures Run(st, []) == st
  {
  }

  lemma {:induction false} RunAppend(st: State, a: seq<RtpInfo>, b: seq<RtpInfo>)
    ensures Run(st, a + b) == Run(Run(st, a), b)
    decreases |a|
  {
    hide IngestInfo;
    if a == [] {
      assert a + b == b;
    } else {
      assert (a + b)[1..] == a[1..] + b;
      RunAppend(IngestInfo(st, a[0]), a[1..], b);
    }
  }

  lemma ExpectsNext(st: State, info: RtpInfo)
    ensures IngestInfo(st, info).expectedSeq == Some(DueAfter(info))
  {
    hide PartOf, IsParameterSetOnly;
  }

  lemma {:induction false} RunExpectsNext(st: State, infos: seq<RtpInfo>)
    requires infos != []
    ensures Run(st, infos).expectedSeq == Some(DueAfter(infos[|infos| - 1]))
    decreases |infos|
  {
    hide IngestInfo, DueAfter;
    ExpectsNext(st, infos[0]);
    if |infos| > 1 {
      assert infos[1..][|infos| - 2] == infos[|infos| - 1];
      RunExpectsNext(IngestInfo(st, infos[0]), infos[1..]);
    } else {
      RunNothing(IngestInfo(st, infos[0]));
    }
  }

  /** A run with a gap in it flushes what its two sides flush on their own. */
  lemma RunSplitsAtGap(a: seq<RtpInfo>, b: seq<RtpInfo>)
    requires a != [] && (b != [] ==> b[0].sequenceNumber != DueAfter(a[|a| - 1]))
    ensures Run(Fresh, a + b).flushed == Run(Fresh, a).flushed + Run(Fresh, b).flushed
  {
    hide IngestInfo, Published, Run, DueAfter;
    RunAppend(Fresh, a, b);
    RunExpectsNext(Fresh, a);
    if b != [] {
      GapForgets(Run(Fresh, a), b);
    } else {
      RunNothing(Run(Fresh, a));
      RunNothing(Fresh);
      assert Run(Fresh, a).flushed + [] == Run(Fresh, a).flushed;
    }
  }

  lemma SpansStep(infos: seq<RtpInfo>)
    requires infos != []
    ensures var n := SpanLength(infos);
      && FlushedBySpans(infos) == Run(Fresh, infos[..n]).flushed + FlushedBySpans(infos[n..])
      && infos[..n] + infos[n..] == infos && infos[..n] != []
      && (infos[n..] != [] ==> infos[n..][0].sequenceNumber != DueAfter(infos[..n][n - 1]))
  {
    hide Run, Consecutive, DueAfter;
  }

  /** Any run publishes what its spans of consecutive packets publish on their own. */
  lemma {:induction false} RunIsBySpans(infos: seq<RtpInfo>)
    ensures Run(Fresh, infos).flushed == FlushedBySpans(infos)
    decreases |infos|
  {
    if infos == [] {
      RunNothing(Fresh);
    } else {
      SpansStep(infos);
      var n := SpanLength(infos);
      hide *;
      RunIsBySpans(infos[n..]);
      RunSplitsAtGap(infos[..n], infos[n..]);
    }
  }

  // ---------------------------------------------------------------- groups are runs of parts

  datatype Timed = Timed(timestamp: u32, data: seq<byte>)

  /** Parts that leave the depacketizer, each with the timestamp of its packet, in arrival order. */
  function PartsOf(fuBuffer: Option<seq<byte>>, infos: seq<RtpInfo>): seq<Timed>
    decreases |infos|
  {
    if infos == [] then []
    else if infos[0].payload == [] then PartsOf(fuBuffer, infos[1..])
    else
      var (next, part) := PartOf(fuBuffer, infos[0].payload);
      (if part.None? || IsParameterSetOnly(part.value.data) then [] else [Timed(infos[0].timestamp, part.value.data)])
      + PartsOf(next, infos[1..])
  }

  /** The parts of a group, all stamped with the timestamp of the group. */
  function Stamped(timestamp: u32, parts: seq<seq<byte>>): seq<Timed> {
    if parts == [] then [] else [Timed(timestamp, parts[0])] + Stamped(timestamp, parts[1..])
  }

  function StampedAll(groups: seq<Group>): seq<Timed> {
    if groups == [] then [] else Stamped(groups[0].timestamp, groups[0].parts) + StampedAll(groups[1..])
  }

  lemma {:induction false} StampedAppend(timestamp: u32, parts: seq<seq<byte>>, data: seq<byte>)
    ensures Stamped(timestamp, parts + [data]) == Stamped(timestamp, parts) + [Timed(timestamp, data)]
  {
    if parts == [] {
      assert (parts + [data])[1..] == [];
    } else {
      assert (parts + [data])[1..] == parts[1..] + [data];
      StampedAppend(timestamp, parts[1..], data);
    }
  }

  lemma {:induction false} StampedAllAppend(groups: seq<Group>, g: Group)
    ensures StampedAll(groups + [g]) == StampedAll(groups) + Stamped(g.timestamp, g.parts)
  {
    if groups == [] {
      assert (groups + [g])[1..] == [];
    } else {
      assert (groups + [g])[1..] == groups[1..] + [g];
      StampedAllAppend(groups[1..], g);
      Assoc(Stamped(groups[0].timestamp, groups[0].parts), StampedAll(groups[1..]), Stamped(g.timestamp, g.parts));
    }
  }

  /** Everything a state has grouped so far, flushed or still in the batch. */
  function Grouped(st: State): seq<Timed> {
    StampedAll(st.flushed) + Stamped(st.batch.timestamp, st.batch.parts)
  }

  lemma FlushGrouped(st: State)
    ensures Grouped(Flush(st)) == Grouped(st)
  {
    if st.batch.parts != [] {
      StampedAllAppend(st.flushed, st.batch);
      assert Grouped(Flush(st)) == StampedAll(st.flushed + [st.batch]) + [];
    }
  }

  lemma AddPartGrouped(st: State, part: Part, timestamp: u32)
    ensures Grouped(AddPart(st, part, timestamp)) == Grouped(st) + [Timed(timestamp, part.data)]
  {
    FlushGrouped(st);
    var st1 := if st.batch.parts != [] && st.batch.timestamp != timestamp then Flush(st) else st;
    var parts := st1.batch.parts;
    assert parts == [] || st1.batch.timestamp == timestamp;
    StampedAppend(timestamp, parts, part.data);
    Assoc(StampedAll(st1.flushed), Stamped(timestamp, parts), [Timed(timestamp, part.data)]);
    assert parts == [] ==> Stamped(timestamp, parts) == Stamped(st1.batch.timestamp, parts);
  }

  /** Without a gap, groups in flush order and then the batch are exactly the parts in arrival order. */
  lemma {:induction false} GroupsArePartsInOrder(st: State, infos: seq<RtpInfo>)
    requires Consecutive(infos)
    requires infos != [] ==> !IsGap(st, infos[0])
    ensures Grouped(Run(st, infos)) == Grouped(st) + PartsOf(st.fuBuffer, infos)
    decreases |infos|
  {
    if infos == [] {
      assert Grouped(st) + [] == Grouped(st);
    } else {
      var next := IngestInfo(st, infos[0]);
      InfoGrouped(st, infos[0]);
      ExpectsNext(st, infos[0]);
      hide IngestInfo, Grouped, PartsOf;
      ConsecutiveTail(infos);
      assert infos[1..] != [] ==> !IsGap(next, infos[1..][0]);
      hide Consecutive, IsGap;
      GroupsArePartsInOrder(next, infos[1..]);
      PartsOfSplit(st.fuBuffer, infos);
      Assoc(Grouped(st), PartsOf(st.fuBuffer, [infos[0]]), PartsOf(next.fuBuffer, infos[1..]));
    }
  }

  lemma PartsOfSplit(fuBuffer: Option<seq<byte>>, infos: seq<RtpInfo>)
    requires infos != []
    ensures PartsOf(fuBuffer, infos) == PartsOf(fuBuffer, [infos[0]])
      + PartsOf(if infos[0].payload == [] then fuBuffer else PartOf(fuBuffer, infos[0].payload).0, infos[1..])
  {
    hide PartOf, IsParameterSetOnly;
    assert [infos[0]][1..] == [];
  }

  lemma PayloadGrouped(st: State, info: RtpInfo)
    requires info.payload != []
    ensures var (fuBuffer, part) := PartOf(st.fuBuffer, info.payload);
      var next := IngestPayload(st, info.payload, info.timestamp, info.marker);
      && next.fuBuffer == fuBuffer
      && Grouped(next) == Grouped(st)
           + if part.None? || IsParameterSetOnly(part.value.data) then [] else [Timed(info.timestamp, part.value.data)]
  {
    hide PartOf, IsParameterSetOnly, Grouped;
    var (fuBuffer, part) := PartOf(st.fuBuffer, info.payload);
    var st1 := st.(fuBuffer := fuBuffer);
    SameGrouped(st, st1);
    assert Grouped(st) + [] == Grouped(st);
    if part.Some? {
      AddPartGrouped(st1, part.value, info.timestamp);
      FlushGrouped(AddPart(st1, part.value, info.timestamp));
    }
  }

  lemma SameGrouped(s: State, t: State)
    requires s.flushed == t.flushed && s.batch == t.batch
    ensures Grouped(s) == Grouped(t)
  {
  }

  lemma InfoGrouped(st: State, info: RtpInfo)
    requires !IsGap(st, info)
    ensures var next := IngestInfo(st, info);
      && Grouped(next) == Grouped(st) + PartsOf(st.fuBuffer, [info])
      && next.fuBuffer == if info.payload == [] then st.fuBuffer else PartOf(st.fuBuffer, info.payload).0
  {
    hide PartOf, IsParameterSetOnly, Grouped, IsGap;
    var st1 := st.(expectedSeq := Some((info.sequenceNumber + 1) % 0x1_0000));
    assert [info][1..] == [];
    SameGrouped(st, st1);
    if info.payload == [] {
      assert Grouped(st) + [] == Grouped(st);
    } else {
      PayloadGrouped(st1, info);
      hide IngestPayload;
      assert forall x: seq<Timed> :: x + [] == x;
    }
  }
}
