/** H.264 egress: an Annex B access unit as RTP packets of at most 1200 payload bytes. */
module RtspPacketizer {
  import opened Bytes
  import opened H264Util
  import opened Rtp
  import opened RtpH264

  const UDP_RTP_MAX_PAYLOAD := 1200

  /** FU-A payloads for the NAL bytes after its header, from `offset` on. */
  function Fragments(nal: seq<byte>, offset: nat): (r: seq<seq<byte>>)
    requires |nal| > 1 && offset < |nal| - 1
    ensures |r| > 0
    decreases |nal| - offset
  {
    var chunk := Min(|nal| - 1 - offset, UDP_RTP_MAX_PAYLOAD - 2);
    var isEnd := offset + chunk >= |nal| - 1;
    var header := (if offset == 0 then 0x80 else 0) + (if isEnd then 0x40 else 0) + nal[0] % 0x20;
    [[nal[0] / 0x20 % 4 * 0x20 + FU_A, header] + nal[1 + offset..1 + offset + chunk]]
    + if isEnd then [] else Fragments(nal, offset + chunk)
  }

  /** RTP payloads of one NAL: itself when it fits, FU-A fragments when not. */
  function NalPayloads(nal: seq<byte>): (r: seq<seq<byte>>)
    ensures nal != [] ==> |r| > 0
  {
    if nal == [] then []
    else if |nal| <= UDP_RTP_MAX_PAYLOAD then [nal]
    else Fragments(nal, 0)
  }

  /** RTP payloads of a list of NALs. */
  function AuPayloads(nals: seq<seq<byte>>): seq<seq<byte>> {
    if nals == [] then [] else NalPayloads(nals[0]) + AuPayloads(nals[1..])
  }

  /** Fields every packet of one access unit shares. */
  datatype Flow = Flow(payloadType: byte, timestamp: u32, ssrc: u32)

  /** One packet per payload with consecutive sequence numbers; the last may carry the marker. */
  function Packets(f: Flow, sequence: u16, marker: bool, payloads: seq<seq<byte>>): (r: seq<seq<byte>>)
    ensures |r| == |payloads|
    decreases |payloads|
  {
    if payloads == [] then []
    else
      [BuildRtpPacket(f.payloadType, sequence, f.timestamp, f.ssrc, marker && |payloads| == 1, payloads[0])]
      + Packets(f, Later(sequence, 1), marker, payloads[1..])
  }

  /** The sequence number n packets later. */
  function Later(sequence: u16, n: nat): u16 {
    (sequence + n) % 0x1_0000
  }

  lemma LaterLater(sequence: u16, m: nat, n: nat)
    ensures Later(Later(sequence, m), n) == Later(sequence, m + n)
  {
  }

  lemma {:induction false} PacketsAppend(f: Flow, sequence: u16, marker: bool, a: seq<seq<byte>>, b: seq<seq<byte>>)
    ensures Packets(f, sequence, marker, a + b)
         == Packets(f, sequence, marker && b == [], a) + Packets(f, Later(sequence, |a|), marker, b)
    decreases |a|
  {
    hide BuildRtpPacket;
    if a == [] {
      assert a + b == b;
    } else {
      assert (a + b)[1..] == a[1..] + b;
      PacketsAppend(f, Later(sequence, 1), marker, a[1..], b);
      LaterLater(sequence, 1, |a| - 1);
      hide Later;
      var first := [BuildRtpPacket(f.payloadType, sequence, f.timestamp, f.ssrc, marker && |a + b| == 1, a[0])];
      Assoc(first, Packets(f, Later(sequence, 1), marker && b == [], a[1..]),
            Packets(f, Later(sequence, |a|), marker, b));
    }
  }

  // ---------------------------------------------------------------- the packetizing loops

  method PacketizeH264Nal(nal: seq<byte>, f: Flow, sequence: u16, marker: bool)
      returns (packets: seq<seq<byte>>, next: u16)
    ensures packets == Packets(f, sequence, marker, NalPayloads(nal))
    ensures next == Later(sequence, |NalPayloads(nal)|)
  {
    hide BuildRtpPacket;
    if nal == [] {
      return [], sequence;
    }
    if |nal| <= UDP_RTP_MAX_PAYLOAD {
      var pkt := BuildRtpPacket(f.payloadType, sequence, f.timestamp, f.ssrc, marker, nal);
      return [pkt], Later(sequence, 1);
    }
    packets, next := PacketizeFragments(nal, f, sequence, marker);
  }

  /** One fragment: FU indicator, FU header and as much of the NAL as fits. */
  method Fragment(nal: seq<byte>, offset: nat) returns (payload: seq<byte>, chunkSize: nat)
    requires |nal| > 1 && offset < |nal| - 1
    ensures 0 < chunkSize && offset + chunkSize <= |nal| - 1
    ensures Fragments(nal, offset)
         == [payload] + if offset + chunkSize == |nal| - 1 then [] else Fragments(nal, offset + chunkSize)
  {
    var nalType := nal[0] % 0x20;
    var fuIndicator := nal[0] / 0x20 % 4 * 0x20 + FU_A;
    chunkSize := Min(|nal| - 1 - offset, UDP_RTP_MAX_PAYLOAD - 2);
    var isStart := offset == 0;
    var isEnd := offset + chunkSize >= |nal| - 1;
    var fuHeader := (if isStart then 0x80 else 0) + (if isEnd then 0x40 else 0) + nalType;
    payload := [fuIndicator, fuHeader] + nal[1 + offset..1 + offset + chunkSize];
    FragmentsStep(nal, offset);
  }

  method PacketizeFragments(nal: seq<byte>, f: Flow, sequence: u16, marker: bool)
      returns (packets: seq<seq<byte>>, next: u16)
    requires |nal| > 1
    ensures packets == Packets(f, sequence, marker, Fragments(nal, 0))
    ensures next == Later(sequence, |Fragments(nal, 0)|)
  {
    hide BuildRtpPacket, Fragments, Later;
    packets := [];
    next := sequence;
    var offset := 0;
    ghost var done: seq<seq<byte>> := [];
    LaterZero(sequence);
    while offset < |nal| - 1
      invariant offset <= |nal| - 1
      invariant next == Later(sequence, |done|)
      invariant Fragments(nal, 0) == done + if offset < |nal| - 1 then Fragments(nal, offset) else []
      invariant packets == Packets(f, sequence, marker && offset == |nal| - 1, done)
    {
      var payload, chunkSize := Fragment(nal, offset);
      var mark := marker && offset + chunkSize == |nal| - 1;
      Assoc(done, [payload], if offset + chunkSize == |nal| - 1 then [] else Fragments(nal, offset + chunkSize));
      PacketsAppend(f, sequence, mark, done, [payload]);
      packets := packets + [BuildRtpPacket(f.payloadType, next, f.timestamp, f.ssrc, mark, payload)];
      LaterLater(sequence, |done|, 1);
      next := Later(next, 1);
      done := done + [payload];
      offset := offset + chunkSize;
    }
    assert done + [] == done;
  }

  lemma FragmentsStep(nal: seq<byte>, offset: nat)
    requires |nal| > 1 && offset < |nal| - 1
    ensures var chunk := Min(|nal| - 1 - offset, UDP_RTP_MAX_PAYLOAD - 2);
      var isEnd := offset + chunk >= |nal| - 1;
      var header := (if offset == 0 then 0x80 else 0) + (if isEnd then 0x40 else 0) + nal[0] % 0x20;
      Fragments(nal, offset) ==
        [[nal[0] / 0x20 % 4 * 0x20 + FU_A, header] + nal[1 + offset..1 + offset + chunk]]
        + if isEnd then [] else Fragments(nal, offset + chunk)
  {
  }

  lemma LaterZero(sequence: u16)
    ensures Later(sequence, 0) == sequence
  {
  }

  method PacketizeH264AccessUnit(annexB: seq<byte>, f: Flow, sequence: u16) returns (packets: seq<seq<byte>>, next: u16)
    ensures packets == Packets(f, sequence, true, AuPayloads(NalsOf(annexB)))
    ensures next == Later(sequence, |packets|)
  {
    hide BuildRtpPacket, NalPayloads, Later, Ranges, Slices;
    var ranges := IterAnnexBNalRanges(annexB);
    ghost var nals := NalsOf(annexB);
    packets := [];
    next := sequence;
    LaterZero(sequence);
    ghost var done: seq<seq<byte>> := [];
    assert nals[0..] == nals;
    for i := 0 to |ranges|
      invariant AuPayloads(nals) == done + AuPayloads(nals[i..])
      invariant packets == Packets(f, sequence, i == |ranges|, done)
      invariant next == Later(sequence, |done|)
    {
      var marker := i + 1 == |ranges|;
      var nal := annexB[ranges[i].0..ranges[i].1];
      assert nal == nals[i] && nals[i..][1..] == nals[i + 1..];
      var more;
      more, next := PacketizeH264Nal(nal, f, next, marker);
      PacketsAppend(f, sequence, marker, done, NalPayloads(nal));
      LaterLater(sequence, |done|, |NalPayloads(nal)|);
      Assoc(done, NalPayloads(nal), AuPayloads(nals[i + 1..]));
      packets := packets + more;
      done := done + NalPayloads(nal);
    }
    assert done + [] == done;
  }
}
