/**
  * An access unit sent by the RTSP packetizer and received by the RTP ingest. The ingest drops NAL
  * units that are parameter sets or delimiters on their own and publishes the rest, byte for byte,
  * as one access unit when the last NAL unit is one it keeps.
  */
module RtpEndToEnd {
  import opened Bytes
  import opened H264Util
  import opened Rtp
  import opened RtpH264
  import opened RtspPacketizer
  import opened RtpReassembly
  import opened H264RtpIngest
  import opened IngestDelivery

  // ---------------------------------------------------------------- what the type tests see

  lemma JoinedFirstByte(nals: seq<seq<byte>>)
    requires nals != [] && nals[0] != []
    ensures var data := Join(nals); CodeAt(data, 0) && |data| > 4 && data[4] == nals[0][0]
  {
  }

  /** Type tests on a joined access unit see exactly the types of its NALs. */
  lemma JoinedTypes(nals: seq<seq<byte>>)
    requires CodeFreeNals(nals) && nals != []
    ensures IsKeyframeAnnexB(Join(nals)) <==> HasNalType(nals, 5)
    ensures ContainsVcl(Join(nals)) <==> HasNalType(nals, 1) || HasNalType(nals, 5)
    ensures IsParameterSetOnly(Join(nals)) <==> AllParameterSets(nals)
  {
    assert nals[0] != [];
    assert NalType(nals[0]) == 5 ==> HasNalType(nals, 5);
    hide NalsOf, Join, CodeFreeNals, AllParameterSets, CodeAt, HasNalType;
    SplitJoined(nals);
    JoinedFirstByte(nals);
  }

  /** A NAL unit that may be sent: types 1 to 23, F bit 0, no start code inside. */
  ghost predicate Sendable(nal: seq<byte>) {
    nal != [] && 1 <= NalType(nal) <= 23 && nal[0] < 0x80 && CodeFree(nal)
  }

  ghost predicate SendableNals(nals: seq<seq<byte>>) {
    forall k :: 0 <= k < |nals| ==> Sendable(nals[k])
  }

  lemma SendableFacts(nals: seq<seq<byte>>)
    requires SendableNals(nals)
    ensures SingleNalTypes(nals) && CodeFreeNals(nals)
    ensures nals != [] ==> Sendable(nals[0]) && nals[0] != [] && SendableNals(nals[1..])
  {
    hide CodeFree;
  }

  /** An SPS, a PPS or an access unit delimiter: types 7, 8 and 9. */
  predicate Dropped(nal: seq<byte>) {
    nal != [] && (nal[0] % 32 == 7 || nal[0] % 32 == 8 || nal[0] % 32 == 9)
  }

  lemma OneNal(nal: seq<byte>)
    requires Sendable(nal)
    ensures nal != []
    ensures IsKeyframeAnnexB(Join([nal])) <==> NalType(nal) == 5
    ensures IsParameterSetOnly(Join([nal])) <==> Dropped(nal)
    ensures HasNalType([nal], 5) <==> NalType(nal) == 5
  {
    assert CodeFreeNals([nal]);
    hide CodeFree, CodeFreeNals;
    JoinedTypes([nal]);
    assert [nal][0] == nal;
    hide IsKeyframeAnnexB, IsParameterSetOnly, Join;
  }

  // ---------------------------------------------------------------- one NAL

  lemma SinglePart(nal: seq<byte>, fuBuffer: Option<seq<byte>>)
    requires Sendable(nal)
    ensures PartOf(fuBuffer, nal) == (fuBuffer, Some(Part(Join([nal]), NalType(nal) == 5)))
  {
    OneNal(nal);
    hide Join, IsKeyframeAnnexB, HasNalType, StapA, CodeFree;
    assert ParseRtpH264(nal) == [nal];
  }

  lemma FragmentKey(p: seq<byte>, nal: seq<byte>, first: bool, last: bool)
    requires nal != [] && IsFragment(p, nal, first, last)
    ensures ParseRtpH264(p) == [] && !ContainsIdr(ParseRtpH264(p))
    ensures IsIdrRtpPayload(p) <==> NalType(nal) == 5
  {
  }

  lemma PartialWhole(nal: seq<byte>)
    requires nal != [] && nal[0] < 0x80
    ensures Partial(nal, |nal| - 1) == Join([nal])
  {
    JoinOne(nal);
    hide Join;
    assert nal == [nal[0]] + nal[1..];
    assert nal[1..1 + (|nal| - 1)] == nal[1..];
    Assoc(StartCode, [nal[0]], nal[1..]);
  }

  /** A fragment adds nothing until the last one, which adds the NAL. */
  lemma FragmentPart(nal: seq<byte>, offset: nat, fuBuffer: Option<seq<byte>>)
    requires Sendable(nal) && offset < |nal| - 1
    requires offset > 0 ==> fuBuffer == Some(Partial(nal, offset))
    ensures var chunk := Min(|nal| - 1 - offset, UDP_RTP_MAX_PAYLOAD - 2);
      PartOf(fuBuffer, Fragments(nal, offset)[0]) ==
        if offset + chunk >= |nal| - 1 then (None, Some(Part(Join([nal]), NalType(nal) == 5)))
        else (Some(Partial(nal, offset + chunk)), None)
  {
    OneNal(nal);
    PartialWhole(nal);
    hide Push, Fragments, Join, IsKeyframeAnnexB, Partial, ParseRtpH264, IsIdrRtpPayload, ContainsIdr, IsFragment;
    hide HasNalType, CodeFree;
    FragmentPushed(nal, offset, fuBuffer);
    FragmentHeader(nal, offset);
    var chunk := Min(|nal| - 1 - offset, UDP_RTP_MAX_PAYLOAD - 2);
    FragmentKey(Fragments(nal, offset)[0], nal, offset == 0, offset + chunk >= |nal| - 1);
  }

  /** The packets' fields as the receiver reads them. */
  function Infos(sequence: u16, timestamp: u32, marker: bool, payloads: seq<seq<byte>>): (r: seq<RtpInfo>)
    ensures |r| == |payloads|
    decreases |payloads|
  {
    if payloads == [] then []
    else
      [RtpInfo(sequence, timestamp, marker && |payloads| == 1, payloads[0])]
      + Infos(Later(sequence, 1), timestamp, marker, payloads[1..])
  }

  /** The ingest expects this sequence number, or anything. */
  ghost predicate Ready(st: State, sequence: u16) {
    st.expectedSeq == None || st.expectedSeq == Some(sequence)
  }

  /** Batch and flushed groups after one whole NAL. */
  function Kept(st: State, nal: seq<byte>, timestamp: u32, marker: bool): State
    requires nal != []
  {
    if Dropped(nal) then st
    else
      var st1 := AddPart(st, Part(Join([nal]), NalType(nal) == 5), timestamp);
      if marker then Flush(st1) else st1
  }

  /** Same batch and flushed groups; fragment buffer and expected number aside. */
  ghost predicate SameWork(s: State, t: State) {
    s.batch == t.batch && s.flushed == t.flushed
  }

  lemma KeptWork(s: State, t: State, nal: seq<byte>, timestamp: u32, marker: bool)
    requires nal != [] && SameWork(s, t)
    ensures SameWork(Kept(s, nal, timestamp, marker), Kept(t, nal, timestamp, marker))
  {
    hide Join;
  }

  /** What one packet does when its number is the expected one. */
  lemma InOrder(st: State, info: RtpInfo)
    requires Ready(st, info.sequenceNumber) && info.payload != []
    ensures var next := IngestInfo(st, info);
      var (fuBuffer, part) := PartOf(st.fuBuffer, info.payload);
      && next.expectedSeq == Some(Later(info.sequenceNumber, 1))
      && next.fuBuffer == fuBuffer
      && (part.None? || IsParameterSetOnly(part.value.data) ==> SameWork(next, st))
      && (part.Some? && !IsParameterSetOnly(part.value.data) ==>
           var added := AddPart(st, part.value, info.timestamp);
           SameWork(next, if info.marker then Flush(added) else added))
  {
    hide PartOf, IsParameterSetOnly;
  }

  lemma RunInfos(st: State, sequence: u16, timestamp: u32, marker: bool, payloads: seq<seq<byte>>)
    requires payloads != []
    ensures Run(st, Infos(sequence, timestamp, marker, payloads)) ==
      Run(IngestInfo(st, RtpInfo(sequence, timestamp, marker && |payloads| == 1, payloads[0])),
          Infos(Later(sequence, 1), timestamp, marker, payloads[1..]))
  {
    hide IngestInfo, Later;
    var infos := Infos(sequence, timestamp, marker, payloads);
    assert infos[1..] == Infos(Later(sequence, 1), timestamp, marker, payloads[1..]);
  }

  lemma {:induction false} FragmentsIngested(st: State, nal: seq<byte>, offset: nat, sequence: u16, timestamp: u32,
                                             marker: bool)
    requires Sendable(nal) && offset < |nal| - 1
    requires offset > 0 ==> st.fuBuffer == Some(Partial(nal, offset))
    requires Ready(st, sequence)
    ensures var payloads := Fragments(nal, offset);
      var next := Run(st, Infos(sequence, timestamp, marker, payloads));
      && next.expectedSeq == Some(Later(sequence, |payloads|))
      && SameWork(next, Kept(st, nal, timestamp, marker))
    decreases |nal| - offset
  {
    hide PartOf, IsParameterSetOnly, Fragments, Partial, Join, IngestInfo, IsKeyframeAnnexB, HasNalType, Run, Later;
    hide CodeFree;
    OneNal(nal);
    FragmentPart(nal, offset, st.fuBuffer);
    FragmentHeader(nal, offset);
    var chunk := Min(|nal| - 1 - offset, UDP_RTP_MAX_PAYLOAD - 2);
    var isEnd := offset + chunk >= |nal| - 1;
    var all := Fragments(nal, offset);
    var info := RtpInfo(sequence, timestamp, marker && |all| == 1, all[0]);
    var next := IngestInfo(st, info);
    RunInfos(st, sequence, timestamp, marker, all);
    assert info.payload != [];
    InOrder(st, info);
    assert all[1..] == if isEnd then [] else Fragments(nal, offset + chunk);
    if isEnd {
      hide AddPart, Flush;
      RunNothing(next);
    } else {
      hide AddPart, Flush, Kept;
      FragmentsIngested(next, nal, offset + chunk, Later(sequence, 1), timestamp, marker);
      LaterLater(sequence, 1, |all| - 1);
      KeptWork(next, st, nal, timestamp, marker);
    }
  }

  lemma NalIngested(st: State, nal: seq<byte>, sequence: u16, timestamp: u32, marker: bool)
    requires Sendable(nal) && Ready(st, sequence)
    ensures var payloads := NalPayloads(nal);
      var next := Run(st, Infos(sequence, timestamp, marker, payloads));
      && next.expectedSeq == Some(Later(sequence, |payloads|))
      && SameWork(next, Kept(st, nal, timestamp, marker))
  {
    hide PartOf, IsParameterSetOnly, Join, IngestInfo, Flush, AddPart, Run, Fragments, CodeFree, Later, HasNalType;
    OneNal(nal);
    if |nal| > UDP_RTP_MAX_PAYLOAD {
      FragmentsIngested(st, nal, 0, sequence, timestamp, marker);
    } else {
      SinglePart(nal, st.fuBuffer);
      var info := RtpInfo(sequence, timestamp, marker, nal);
      RunInfos(st, sequence, timestamp, marker, [nal]);
      assert [nal][1..] == [];
      InOrder(st, info);
      RunNothing(IngestInfo(st, info));
    }
  }

  // ---------------------------------------------------------------- the access unit

  /** NAL units the ingest keeps, in order. */
  function KeptNals(nals: seq<seq<byte>>): seq<seq<byte>> {
    if nals == [] then []
    else (if Dropped(nals[0]) then [] else [nals[0]]) + KeptNals(nals[1..])
  }

  /** One Annex B part per NAL. */
  function PartPerNal(nals: seq<seq<byte>>): seq<seq<byte>> {
    if nals == [] then [] else [Join([nals[0]])] + PartPerNal(nals[1..])
  }

  lemma {:induction false} PartsConcat(nals: seq<seq<byte>>)
    ensures Concat(PartPerNal(nals)) == Join(nals)
  {
    if nals != [] {
      JoinOne(nals[0]);
      PartsConcat(nals[1..]);
      assert PartPerNal(nals)[1..] == PartPerNal(nals[1..]);
    }
  }

  /** Batch with the parts of these NALs added. */
  function Grown(batch: Group, nals: seq<seq<byte>>, timestamp: u32): Group {
    if nals == [] then batch
    else Group(timestamp, batch.parts + PartPerNal(nals), batch.isKeyframe || HasNalType(nals, 5))
  }

  /** Work left by a whole access unit: the batch flushed at the marker, unless its NAL is a parameter set. */
  function AuWork(st: State, nals: seq<seq<byte>>, timestamp: u32): State
    requires nals != []
  {
    var st1 := st.(batch := Grown(st.batch, KeptNals(nals), timestamp));
    if Dropped(nals[|nals| - 1]) then st1 else Flush(st1)
  }

  /** The batch is empty or belongs to this timestamp. */
  predicate SameUnit(batch: Group, timestamp: u32) {
    batch.parts == [] || batch.timestamp == timestamp
  }

  lemma GrownCons(batch: Group, nal: seq<byte>, rest: seq<seq<byte>>, timestamp: u32)
    requires SameUnit(batch, timestamp)
    ensures Grown(batch, [nal] + rest, timestamp) ==
      Grown(Group(timestamp, batch.parts + [Join([nal])], batch.isKeyframe || HasNalType([nal], 5)), rest, timestamp)
  {
    hide Join;
    assert ([nal] + rest)[1..] == rest && [nal][1..] == [];
    Assoc(batch.parts, [Join([nal])], PartPerNal(rest));
    assert [Join([nal])] + [] == [Join([nal])];
    TypeInEither([nal], rest, 5);
    hide HasNalType;
  }

  lemma TypeInEither(a: seq<seq<byte>>, b: seq<seq<byte>>, t: nat)
    ensures HasNalType(a + b, t) <==> HasNalType(a, t) || HasNalType(b, t)
  {
    if HasNalType(a, t) {
      var k :| 0 <= k < |a| && a[k] != [] && NalType(a[k]) == t;
      assert (a + b)[k] == a[k];
    }
    if HasNalType(b, t) {
      var k :| 0 <= k < |b| && b[k] != [] && NalType(b[k]) == t;
      assert (a + b)[|a| + k] == b[k];
    }
    if HasNalType(a + b, t) {
      var k :| 0 <= k < |a + b| && (a + b)[k] != [] && NalType((a + b)[k]) == t;
      assert (a + b)[k] == if k < |a| then a[k] else b[k - |a|];
    }
  }

  /** Keeping one NAL grows the batch by it. */
  lemma KeptGrows(st: State, nal: seq<byte>, timestamp: u32)
    requires Sendable(nal) && SameUnit(st.batch, timestamp)
    ensures var next := Kept(st, nal, timestamp, false);
      && SameUnit(next.batch, timestamp) && next.flushed == st.flushed
      && (if Dropped(nal) then next.batch == st.batch
          else next.batch == Group(timestamp, st.batch.parts + [Join([nal])],
                                   st.batch.isKeyframe || HasNalType([nal], 5)))
      && Kept(st, nal, timestamp, true) == if Dropped(nal) then next else Flush(next)
  {
    OneNal(nal);
    hide Join, HasNalType, CodeFree, IsKeyframeAnnexB, IsParameterSetOnly;
  }

  lemma {:induction false} InfosAppend(sequence: u16, timestamp: u32, marker: bool, a: seq<seq<byte>>,
                                       b: seq<seq<byte>>)
    requires b != []
    ensures Infos(sequence, timestamp, marker, a + b)
         == Infos(sequence, timestamp, false, a) + Infos(Later(sequence, |a|), timestamp, marker, b)
    decreases |a|
  {
    if a == [] {
      assert a + b == b;
      LaterZero(sequence);
      assert [] + Infos(sequence, timestamp, marker, b) == Infos(sequence, timestamp, marker, b);
    } else {
      assert (a + b)[1..] == a[1..] + b;
      LaterLater(sequence, 1, |a| - 1);
      hide Later;
      InfosAppend(Later(sequence, 1), timestamp, marker, a[1..], b);
      Assoc([RtpInfo(sequence, timestamp, false, a[0])], Infos(Later(sequence, 1), timestamp, false, a[1..]),
            Infos(Later(sequence, |a|), timestamp, marker, b));
    }
  }

  lemma AuPayloadsNonEmpty(nals: seq<seq<byte>>)
    requires nals != [] && Sendable(nals[0])
    ensures AuPayloads(nals) != []
  {
    hide CodeFree, Fragments;
  }

  lemma {:induction false} AccessUnitIngested(st: State, nals: seq<seq<byte>>, sequence: u16, timestamp: u32)
    requires SendableNals(nals) && nals != []
    requires Ready(st, sequence) && SameUnit(st.batch, timestamp)
    ensures SameWork(Run(st, Infos(sequence, timestamp, true, AuPayloads(nals))), AuWork(st, nals, timestamp))
    decreases |nals|
  {
    hide Sendable, NalPayloads, Run, Infos, Kept, Later, Flush, Grown, Dropped;
    SendableFacts(nals);
    var nal, rest := nals[0], nals[1..];
    KeptGrows(st, nal, timestamp);
    if rest == [] {
      NalIngested(st, nal, sequence, timestamp, true);
      assert NalPayloads(nal) + [] == NalPayloads(nal);
      assert AuPayloads(nals) == NalPayloads(nal);
      LastGrows(st, nal, timestamp);
      assert nals == [nal];
    } else {
      NalIngested(st, nal, sequence, timestamp, false);
      var next := Run(st, Infos(sequence, timestamp, false, NalPayloads(nal)));
      AuPayloadsNonEmpty(rest);
      InfosAppend(sequence, timestamp, true, NalPayloads(nal), AuPayloads(rest));
      RunAppend(st, Infos(sequence, timestamp, false, NalPayloads(nal)),
                Infos(Later(sequence, |NalPayloads(nal)|), timestamp, true, AuPayloads(rest)));
      AccessUnitIngested(next, rest, Later(sequence, |NalPayloads(nal)|), timestamp);
      AuWorkCons(st, next, nals, timestamp);
    }
  }

  lemma LastGrows(st: State, nal: seq<byte>, timestamp: u32)
    requires Sendable(nal) && SameUnit(st.batch, timestamp)
    ensures SameWork(Kept(st, nal, timestamp, true), AuWork(st, [nal], timestamp))
  {
    KeptGrows(st, nal, timestamp);
    hide Kept, Sendable, HasNalType, Join, Flush;
    assert [nal][1..] == [];
    if Dropped(nal) {
      assert KeptNals([nal]) == [];
    } else {
      assert KeptNals([nal]) == [nal] + [];
      GrownCons(st.batch, nal, [], timestamp);
      var next := Kept(st, nal, timestamp, false);
      FlushWork(next, st.(batch := next.batch));
    }
  }

  lemma FlushWork(s: State, t: State)
    requires SameWork(s, t)
    ensures SameWork(Flush(s), Flush(t))
  {
  }

  lemma AuWorkCons(st: State, next: State, nals: seq<seq<byte>>, timestamp: u32)
    requires |nals| > 1 && Sendable(nals[0]) && SameUnit(st.batch, timestamp)
    requires SameWork(next, Kept(st, nals[0], timestamp, false))
    ensures SameWork(AuWork(next, nals[1..], timestamp), AuWork(st, nals, timestamp))
  {
    var nal, rest := nals[0], KeptNals(nals[1..]);
    KeptGrows(st, nal, timestamp);
    hide Kept, Sendable, HasNalType, Join, Flush;
    if Dropped(nal) {
      assert KeptNals(nals) == [] + rest == rest;
    } else {
      GrownCons(st.batch, nal, rest, timestamp);
    }
    hide KeptNals, Grown;
    var s1 := st.(batch := Grown(st.batch, KeptNals(nals), timestamp));
    var n1 := next.(batch := Grown(next.batch, KeptNals(nals[1..]), timestamp));
    assert SameWork(n1, s1);
    FlushWork(n1, s1);
    assert nals[1..][|nals| - 2] == nals[|nals| - 1];
  }

  // ---------------------------------------------------------------- packets to published frames

  function IngestAll(st: State, packets: seq<seq<byte>>): State
    decreases |packets|
  {
    if packets == [] then st else IngestAll(IngestPacket(st, packets[0]), packets[1..])
  }

  ghost predicate NonEmptyPayloads(payloads: seq<seq<byte>>) {
    forall k :: 0 <= k < |payloads| ==> payloads[k] != []
  }

  lemma {:induction false} PacketsAsInfos(st: State, f: Flow, sequence: u16, marker: bool, payloads: seq<seq<byte>>)
    requires f.payloadType < 0x80 && NonEmptyPayloads(payloads)
    ensures IngestAll(st, Packets(f, sequence, marker, payloads))
        == Run(st, Infos(sequence, f.timestamp, marker, payloads))
    decreases |payloads|
  {
    hide IngestInfo, RtpPacketInfo, BuildRtpPacket, Later;
    if payloads != [] {
      var mark := marker && |payloads| == 1;
      BuildThenInfo(f.payloadType, sequence, f.timestamp, f.ssrc, mark, payloads[0]);
      var info := RtpInfo(sequence, f.timestamp, mark, payloads[0]);
      assert IngestPacket(st, Packets(f, sequence, marker, payloads)[0]) == IngestInfo(st, info);
      assert NonEmptyPayloads(payloads[1..]);
      PacketsAsInfos(IngestInfo(st, info), f, Later(sequence, 1), marker, payloads[1..]);
      RunInfos(st, sequence, f.timestamp, marker, payloads);
      assert Packets(f, sequence, marker, payloads)[1..] == Packets(f, Later(sequence, 1), marker, payloads[1..]);
    }
  }

  lemma {:induction false} SentPayloadsNonEmpty(nals: seq<seq<byte>>)
    ensures NonEmptyPayloads(AuPayloads(nals))
    decreases |nals|
  {
    if nals != [] {
      SentPayloadsNonEmpty(nals[1..]);
      var nal := nals[0];
      assert NonEmptyPayloads(NalPayloads(nal)) by {
        if |nal| > UDP_RTP_MAX_PAYLOAD {
          LongNalSplits(nal);
        }
      }
      hide NalPayloads;
    }
  }

  lemma KeptFacts(nals: seq<seq<byte>>)
    requires SendableNals(nals)
    ensures SendableNals(KeptNals(nals))
  {
    hide Sendable;
    if nals != [] {
      SendableFacts(nals);
      KeptFacts(nals[1..]);
      hide Dropped;
    }
  }

  lemma {:induction false} InfoInOrder(sequence: u16, timestamp: u32, marker: bool, payloads: seq<seq<byte>>, k: nat)
    requires k < |payloads|
    ensures Infos(sequence, timestamp, marker, payloads)[k].sequenceNumber == Later(sequence, k)
    decreases k
  {
    hide Later;
    if k == 0 {
      LaterZero(sequence);
    } else {
      InfoInOrder(Later(sequence, 1), timestamp, marker, payloads[1..], k - 1);
      LaterLater(sequence, 1, k - 1);
    }
  }

  /** After the packets of an access unit the ingest expects the sequence number behind them. */
  lemma ExpectsBehind(st: State, sequence: u16, timestamp: u32, payloads: seq<seq<byte>>)
    requires payloads != []
    ensures Run(st, Infos(sequence, timestamp, true, payloads)).expectedSeq == Some(Later(sequence, |payloads|))
  {
    hide Run, Infos;
    var infos := Infos(sequence, timestamp, true, payloads);
    assert DueAfter(infos[|infos| - 1]) == Later(infos[|infos| - 1].sequenceNumber, 1);
    hide Later, DueAfter;
    RunExpectsNext(st, infos);
    InfoInOrder(sequence, timestamp, true, payloads, |payloads| - 1);
    LaterLater(sequence, |payloads| - 1, 1);
  }

  /** Nothing collected yet. */
  predicate Idle(st: State) {
    st.batch.parts == [] && !st.batch.isKeyframe
  }

  /** What an access unit publishes: one frame of its kept NALs if there is a slice among them. */
  function FramesOf(nals: seq<seq<byte>>, timestamp: u32): seq<AccessUnit> {
    var kept := KeptNals(nals);
    if HasNalType(kept, 1) || HasNalType(kept, 5) then [AccessUnit(timestamp, Join(kept), HasNalType(kept, 5))] else []
  }

  /**
    * Main result. From an idle ingest, the packets of one access unit publish exactly one frame with the
    * kept NALs, the timestamp and the IDR flag, iff a coded slice is kept and the marker packet carries no
    * parameter set; otherwise they publish nothing. The ingest then expects the next sequence number, and is
    * idle again unless the marker packet carried a parameter set behind kept NALs.
    */
  lemma AccessUnitDelivered(st: State, nals: seq<seq<byte>>, f: Flow, sequence: u16)
    requires f.payloadType < 0x80
    requires SendableNals(nals) && nals != []
    requires Ready(st, sequence) && Idle(st)
    ensures var packets := Packets(f, sequence, true, AuPayloads(NalsOf(Join(nals))));
      var next := IngestAll(st, packets);
      && Published(next.flushed) == Published(st.flushed)
           + (if Dropped(nals[|nals| - 1]) then [] else FramesOf(nals, f.timestamp))
      && next.expectedSeq == Some(Later(sequence, |packets|))
      && (Idle(next) <==> !Dropped(nals[|nals| - 1]) || KeptNals(nals) == [])
  {
    hide *;
    SendableFacts(nals);
    SplitJoined(nals);
    SentPayloadsNonEmpty(nals);
    PacketsAsInfos(st, f, sequence, true, AuPayloads(nals));
    EmptySameUnit(st, f.timestamp);
    AccessUnitIngested(st, nals, sequence, f.timestamp);
    AuPayloadsNonEmpty(nals);
    ExpectsBehind(st, sequence, f.timestamp, AuPayloads(nals));
    var next := IngestAll(st, Packets(f, sequence, true, AuPayloads(nals)));
    WorkPublished(st, next, nals, f.timestamp);
    WorkLeft(st, next, nals, f.timestamp);
  }

  lemma WorkLeft(st: State, next: State, nals: seq<seq<byte>>, timestamp: u32)
    requires nals != [] && Idle(st) && SameWork(next, AuWork(st, nals, timestamp))
    ensures Idle(next) <==> !Dropped(nals[|nals| - 1]) || KeptNals(nals) == []
  {
    hide Join, HasNalType, KeptNals, Dropped;
    if KeptNals(nals) != [] {
      PartsExist(KeptNals(nals));
    }
  }

  lemma EmptySameUnit(st: State, timestamp: u32)
    requires Idle(st)
    ensures SameUnit(st.batch, timestamp)
  {
  }

  lemma WorkPublished(st: State, next: State, nals: seq<seq<byte>>, timestamp: u32)
    requires SendableNals(nals) && nals != []
    requires Idle(st)
    requires SameWork(next, AuWork(st, nals, timestamp))
    ensures Published(next.flushed) == Published(st.flushed)
                                       + (if Dropped(nals[|nals| - 1]) then [] else FramesOf(nals, timestamp))
  {
    hide Join, HasNalType, CodeFreeNals, SingleNalTypes, ContainsVcl, IsKeyframeAnnexB, KeptNals, Published;
    hide Dropped;
    var kept := KeptNals(nals);
    KeptFacts(nals);
    SendableFacts(kept);
    hide SendableNals, Sendable;
    assert Published(st.flushed) + [] == Published(st.flushed);
    NoTypes(1);
    NoTypes(5);
    if kept != [] && !Dropped(nals[|nals| - 1]) {
      PartsConcat(kept);
      JoinedTypes(kept);
      PartsExist(kept);
      assert st.batch.parts + PartPerNal(kept) == PartPerNal(kept);
      var group := Group(timestamp, PartPerNal(kept), HasNalType(kept, 5));
      assert next.flushed == st.flushed + [group];
      PublishedAppend(st.flushed, [group]);
      PublishedOne(group);
    }
  }

  lemma PartsExist(nals: seq<seq<byte>>)
    requires nals != []
    ensures PartPerNal(nals) != []
  {
  }

  lemma NoTypes(t: nat)
    ensures !HasNalType([], t)
  {
  }

  lemma PublishedOne(g: Group)
    ensures Published([g]) ==
      if ContainsVcl(g.Data()) then [AccessUnit(g.timestamp, g.Data(), g.isKeyframe || IsKeyframeAnnexB(g.Data()))]
      else []
  {
    hide ContainsVcl, IsKeyframeAnnexB;
    assert [g][1..] == [];
  }
}
