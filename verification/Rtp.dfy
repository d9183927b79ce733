/** RTP packets with the fixed twelve-byte header of section 5.1 of RFC 3550. */
module Rtp {
  import opened Bytes

  datatype RtpInfo = RtpInfo(sequenceNumber: u16, timestamp: u32, marker: bool, payload: seq<byte>)

  /** Header and payload of one packet; the payload type is a seven-bit field, and a larger one sets the marker. */
  function BuildRtpPacket(payloadType: byte, sequence: u16, timestamp: u32, ssrc: u32, marker: bool,
                          payload: seq<byte>): seq<byte> {
    [0x80, if marker && payloadType < 0x80 then 0x80 + payloadType else payloadType] + Be16(sequence)
        + Be32(timestamp) + Be32(ssrc) + payload
  }

  /** Sequence number, timestamp, marker and payload, past contributing sources and extension. */
  function RtpPacketInfo(rtp: seq<byte>): Option<RtpInfo> {
    if |rtp| < 12 then None
    else
      var marker := rtp[1] >= 0x80;
      var sequenceNumber := FromBe16(rtp[2], rtp[3]);
      var timestamp := FromBe32(rtp[4], rtp[5], rtp[6], rtp[7]);
      var extension := rtp[0] / 0x10 % 2;
      var start := 12 + rtp[0] % 0x10 * 4;
      if start > |rtp| then None
      else if extension != 0 && start + 4 > |rtp| then None
      else
        var offset := if extension != 0 then start + FromBe16(rtp[start + 2], rtp[start + 3]) * 4 + 4 else start;
        if offset >= |rtp| then None
        else Some(RtpInfo(sequenceNumber, timestamp, marker, rtp[offset..]))
  }

  /** A built packet reads back field by field, provided it has a payload; the marker is the one asked for exactly when
      it is set anyway or the payload type fits its seven bits. */
  lemma BuildThenInfo(payloadType: byte, sequence: u16, timestamp: u32, ssrc: u32, marker: bool, payload: seq<byte>)
    ensures RtpPacketInfo(BuildRtpPacket(payloadType, sequence, timestamp, ssrc, marker, payload))
         == if payload == [] then None else Some(RtpInfo(sequence, timestamp, marker || payloadType >= 0x80, payload))
  {
    var rtp := BuildRtpPacket(payloadType, sequence, timestamp, ssrc, marker, payload);
    Be16RoundTrip(sequence);
    Be32RoundTrip(timestamp);
    assert |Be32(ssrc)| == 4;
    assert rtp[2] == Be16(sequence)[0] && rtp[3] == Be16(sequence)[1];
    assert rtp[4] == Be32(timestamp)[0] && rtp[5] == Be32(timestamp)[1]
        && rtp[6] == Be32(timestamp)[2] && rtp[7] == Be32(timestamp)[3];
    assert rtp[12..] == payload;
    hide Be16, Be32, FromBe32, FromBe16, BuildRtpPacket;
  }
}
