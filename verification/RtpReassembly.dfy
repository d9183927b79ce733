/**
  * What leaves the packetizer conforms to RFC 6184, and the depacketizer reassembles it.
  */
module RtpReassembly {
  import opened Bytes
  import opened H264Util
  import opened Rtp
  import opened RtpH264
  import opened RtspPacketizer

  // ---------------------------------------------------------------- packet fields

  /** Packet k of an access unit: consecutive sequence numbers, marker on the last one only, if the payload type fits
      its seven bits. */
  lemma {:induction false} PacketFields(f: Flow, sequence: u16, marker: bool, payloads: seq<seq<byte>>, k: nat)
    requires k < |payloads| && payloads[k] != []
    ensures RtpPacketInfo(Packets(f, sequence, marker, payloads)[k])
         == Some(RtpInfo(Later(sequence, k), f.timestamp, (marker && k == |payloads| - 1) || f.payloadType >= 0x80,
                         payloads[k]))
    decreases k
  {
    hide RtpPacketInfo, BuildRtpPacket;
    if k == 0 {
      LaterZero(sequence);
      BuildThenInfo(f.payloadType, sequence, f.timestamp, f.ssrc, marker && |payloads| == 1, payloads[0]);
    } else {
      PacketFields(f, Later(sequence, 1), marker, payloads[1..], k - 1);
      LaterLater(sequence, 1, k - 1);
    }
  }

  /** Type and importance of the NAL, start bit on the first fragment, end bit on the last, at most 1200 bytes each. */
  ghost predicate IsFragment(p: seq<byte>, nal: seq<byte>, first: bool, last: bool)
    requires nal != []
  {
    && 3 <= |p| <= 1200
    && p[0] % 0x20 == 28 && p[0] / 0x20 == nal[0] / 0x20 % 4
    && p[1] % 0x20 == nal[0] % 0x20
    && (p[1] >= 0x80 <==> first)
    && (p[1] / 0x40 % 2 == 1 <==> last)
  }

  lemma FragmentHeader(nal: seq<byte>, offset: nat)
    requires |nal| > 1 && offset < |nal| - 1
    ensures var chunk := Min(|nal| - 1 - offset, UDP_RTP_MAX_PAYLOAD - 2);
      var isEnd := offset + chunk >= |nal| - 1;
      var p := Fragments(nal, offset)[0];
      && IsFragment(p, nal, offset == 0, isEnd)
      && p[0] / 0x20 * 0x20 + p[1] % 0x20 == nal[0] % 0x80
      && p[2..] == nal[1 + offset..1 + offset + chunk]
      && Fragments(nal, offset) == [p] + if isEnd then [] else Fragments(nal, offset + chunk)
  {
    FragmentsStep(nal, offset);
    hide Fragments;
    var chunk := Min(|nal| - 1 - offset, UDP_RTP_MAX_PAYLOAD - 2);
    var isEnd := offset + chunk >= |nal| - 1;
    FuHeaderBits(nal[0], offset == 0, isEnd);
  }

  lemma FuHeaderBits(b: byte, first: bool, last: bool)
    ensures var ind := b / 0x20 % 4 * 0x20 + FU_A;
      var header := (if first then 0x80 else 0) + (if last then 0x40 else 0) + b % 0x20;
      && ind % 0x20 == FU_A && ind / 0x20 == b / 0x20 % 4 && header % 0x20 == b % 0x20
      && (header >= 0x80 <==> first) && (header / 0x40 % 2 == 1 <==> last)
      && ind / 0x20 * 0x20 + header % 0x20 == b % 0x80
  {
    var q := b / 0x20 % 4;
    assert (q * 0x20 + FU_A) / 0x20 == q;
    assert b % 0x80 == q * 0x20 + b % 0x20;
  }

  lemma {:induction false} FragmentsConform(nal: seq<byte>, offset: nat, k: nat)
    requires |nal| > 1 && offset < |nal| - 1 && k < |Fragments(nal, offset)|
    ensures IsFragment(Fragments(nal, offset)[k], nal, offset == 0 && k == 0, k == |Fragments(nal, offset)| - 1)
    decreases k
  {
    FragmentHeader(nal, offset);
    if k > 0 {
      hide Fragments, IsFragment;
      var chunk := Min(|nal| - 1 - offset, UDP_RTP_MAX_PAYLOAD - 2);
      FragmentsConform(nal, offset + chunk, k - 1);
    }
  }

  /** A long NAL takes at least two fragments, so no fragment carries both bits. */
  lemma LongNalSplits(nal: seq<byte>)
    requires |nal| > UDP_RTP_MAX_PAYLOAD
    ensures |NalPayloads(nal)| >= 2
    ensures forall k :: 0 <= k < |NalPayloads(nal)| ==>
      IsFragment(NalPayloads(nal)[k], nal, k == 0, k == |NalPayloads(nal)| - 1)
  {
    FragmentHeader(nal, 0);
    forall k | 0 <= k < |Fragments(nal, 0)|
      ensures IsFragment(Fragments(nal, 0)[k], nal, k == 0, k == |Fragments(nal, 0)| - 1)
    {
      FragmentsConform(nal, 0, k);
    }
    hide IsFragment;
  }

  // ---------------------------------------------------------------- reassembly

  /** What a run of payloads leaves in the depacketizer and completes, and whether all were accepted. */
  datatype Outcome = Outcome(fuBuffer: Option<seq<byte>>, completed: seq<seq<byte>>, accepted: bool)

  function PushAll(fuBuffer: Option<seq<byte>>, payloads: seq<seq<byte>>): Outcome
    decreases |payloads|
  {
    if payloads == [] then Outcome(fuBuffer, [], true)
    else
      var d := Push(fuBuffer, payloads[0]);
      var rest := PushAll(d.fuBuffer, payloads[1..]);
      match d.result
      case Complete(annexB) => rest.(completed := [annexB] + rest.completed)
      case Pending => rest
      case Failed(_) => rest.(accepted := false)
  }

  lemma {:induction false} PushAllAppend(fuBuffer: Option<seq<byte>>, a: seq<seq<byte>>, b: seq<seq<byte>>)
    ensures var first := PushAll(fuBuffer, a);
      var second := PushAll(first.fuBuffer, b);
      PushAll(fuBuffer, a + b)
        == Outcome(second.fuBuffer, first.completed + second.completed, first.accepted && second.accepted)
    decreases |a|
  {
    hide Push;
    if a == [] {
      assert a + b == b;
      assert [] + PushAll(fuBuffer, b).completed == PushAll(fuBuffer, b).completed;
    } else {
      assert (a + b)[1..] == a[1..] + b;
      var d := Push(fuBuffer, a[0]);
      PushAllAppend(d.fuBuffer, a[1..], b);
      var first := PushAll(d.fuBuffer, a[1..]);
      if d.result.Complete? {
        Assoc([d.result.annexB], first.completed, PushAll(first.fuBuffer, b).completed);
      }
    }
  }

  /** What the receiver rebuilds: FU-A carries no F bit, so a fragmented NAL comes back with it cleared. */
  function Restored(nal: seq<byte>): seq<byte>
    requires nal != []
  {
    if |nal| <= 1200 then nal else [nal[0] % 0x80] + nal[1..]
  }

  lemma RestoredIff(nal: seq<byte>)
    requires nal != []
    ensures Restored(nal) == nal <==> |nal| <= 1200 || nal[0] < 0x80
  {
    assert nal == [nal[0]] + nal[1..];
    assert Restored(nal)[0] == if |nal| <= UDP_RTP_MAX_PAYLOAD then nal[0] else nal[0] % 0x80;
  }

  /** The fragment buffer once the NAL bytes before `offset` have arrived. */
  function Partial(nal: seq<byte>, offset: nat): seq<byte>
    requires nal != [] && offset < |nal|
  {
    StartCode + [nal[0] % 0x80] + nal[1..1 + offset]
  }

  lemma FragmentPushed(nal: seq<byte>, offset: nat, fuBuffer: Option<seq<byte>>)
    requires |nal| > 1 && offset < |nal| - 1
    requires offset > 0 ==> fuBuffer == Some(Partial(nal, offset))
    ensures var chunk := Min(|nal| - 1 - offset, UDP_RTP_MAX_PAYLOAD - 2);
      Push(fuBuffer, Fragments(nal, offset)[0]) ==
        if offset + chunk >= |nal| - 1 then Depacketized(None, Complete(Partial(nal, |nal| - 1)))
        else Depacketized(Some(Partial(nal, offset + chunk)), Pending)
  {
    FragmentHeader(nal, offset);
    var p := Fragments(nal, offset)[0];
    hide Fragments;
    var chunk := Min(|nal| - 1 - offset, UDP_RTP_MAX_PAYLOAD - 2);
    assert Partial(nal, offset + chunk) ==
      (if offset == 0 then StartCode + [nal[0] % 0x80] else Partial(nal, offset)) + nal[1 + offset..1 + offset + chunk];
    hide Partial;
  }

  lemma {:induction false} FragmentsReassemble(nal: seq<byte>, offset: nat, fuBuffer: Option<seq<byte>>)
    requires |nal| > 1 && offset < |nal| - 1
    requires offset > 0 ==> fuBuffer == Some(Partial(nal, offset))
    ensures PushAll(fuBuffer, Fragments(nal, offset)) == Outcome(None, [Partial(nal, |nal| - 1)], true)
    decreases |nal| - offset
  {
    FragmentPushed(nal, offset, fuBuffer);
    FragmentHeader(nal, offset);
    hide Push, Partial, Fragments, IsFragment;
    var chunk := Min(|nal| - 1 - offset, UDP_RTP_MAX_PAYLOAD - 2);
    var all := Fragments(nal, offset);
    if offset + chunk >= |nal| - 1 {
      assert all[1..] == [];
    } else {
      assert all[1..] == Fragments(nal, offset + chunk);
      FragmentsReassemble(nal, offset + chunk, Some(Partial(nal, offset + chunk)));
    }
  }

  /** One NAL through packetizer and depacketizer. */
  lemma NalReassembles(nal: seq<byte>, fuBuffer: Option<seq<byte>>)
    requires nal != [] && 1 <= NalType(nal) <= 23
    ensures var o := PushAll(fuBuffer, NalPayloads(nal));
      o.completed == [Join([Restored(nal)])] && o.accepted
  {
    assert Join([Restored(nal)]) == StartCode + Restored(nal) by {
      assert [Restored(nal)][1..] == [];
    }
    if |nal| <= UDP_RTP_MAX_PAYLOAD {
      assert NalPayloads(nal)[1..] == [];
    } else {
      FragmentsReassemble(nal, 0, fuBuffer);
      assert Partial(nal, |nal| - 1) == StartCode + Restored(nal);
    }
  }

  function Singles(nals: seq<seq<byte>>): (r: seq<seq<byte>>)
    requires forall k :: 0 <= k < |nals| ==> nals[k] != []
    ensures |r| == |nals|
  {
    if nals == [] then [] else [Join([Restored(nals[0])])] + Singles(nals[1..])
  }

  /** A whole access unit: one complete NAL per NAL sent, in order, nothing rejected. */
  lemma {:induction false} AccessUnitReassembles(nals: seq<seq<byte>>, fuBuffer: Option<seq<byte>>)
    requires SingleNalTypes(nals)
    ensures var o := PushAll(fuBuffer, AuPayloads(nals));
      o.completed == Singles(nals) && o.accepted
    decreases |nals|
  {
    if nals != [] {
      hide PushAll, NalPayloads, Join, Restored;
      NalReassembles(nals[0], fuBuffer);
      PushAllAppend(fuBuffer, NalPayloads(nals[0]), AuPayloads(nals[1..]));
      AccessUnitReassembles(nals[1..], PushAll(fuBuffer, NalPayloads(nals[0])).fuBuffer);
    }
  }

  /** The rebuilt NAL k is the NAL sent iff it was not fragmented or its F bit is clear. */
  lemma {:induction false} RebuiltIff(nals: seq<seq<byte>>, k: nat)
    requires SingleNalTypes(nals) && k < |nals|
    ensures Singles(nals)[k] == Join([nals[k]]) <==> |nals[k]| <= 1200 || nals[k][0] < 0x80
    decreases k
  {
    if k == 0 {
      var nal := nals[0];
      RestoredIff(nal);
      JoinOne(nal);
      JoinOne(Restored(nal));
      hide Join, Restored;
      assert Join([nal])[4..] == nal && Join([Restored(nal)])[4..] == Restored(nal);
    } else {
      hide Join, Restored;
      RebuiltIff(nals[1..], k - 1);
    }
  }

  lemma JoinOne(nal: seq<byte>)
    ensures Join([nal]) == StartCode + nal
  {
    assert [nal][1..] == [];
  }
}
