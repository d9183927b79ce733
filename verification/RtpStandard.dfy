/** The fixed RTP header bit by bit (section 5.1 of RFC 3550), beside the packets that are built and read. */
module RtpStandard {
  import opened Bytes
  import opened Rtp

  /** Two and four bytes, most significant first. */
  function Word(p: seq<byte>, i: nat): nat
    requires i + 2 <= |p|
  {
    p[i] as int * 256 + p[i + 1] as int
  }

  function Long(p: seq<byte>, i: nat): nat
    requires i + 4 <= |p|
  {
    Word(p, i) * 65536 + Word(p, i + 2)
  }

  /** A built packet: version 2, no padding, no extension, no contributing sources; then marker and payload type,
      sequence number, time stamp, synchronization source, and the payload from byte 12 on. */
  lemma BuiltAs(payloadType: byte, sequence: u16, timestamp: u32, ssrc: u32, marker: bool, payload: seq<byte>)
    ensures var p := BuildRtpPacket(payloadType, sequence, timestamp, ssrc, marker, payload);
      && |p| == 12 + |payload| && p[0] == 0x80
      && (payloadType < 128 ==> p[1] % 128 == payloadType && (p[1] / 128 == 1 <==> marker))
      && Word(p, 2) == sequence && Long(p, 4) == timestamp && Long(p, 8) == ssrc && p[12..] == payload
  {
    var p := BuildRtpPacket(payloadType, sequence, timestamp, ssrc, marker, payload);
    BigEndian16(sequence);
    BigEndian32(timestamp);
    BigEndian32(ssrc);
    var (s, t, c) := (Be16(sequence), Be32(timestamp), Be32(ssrc));
    assert p[2] == s[0] && p[3] == s[1];
    assert p[4] == t[0] && p[5] == t[1] && p[6] == t[2] && p[7] == t[3];
    assert p[8] == c[0] && p[9] == c[1] && p[10] == c[2] && p[11] == c[3];
    hide Be16, Be32;
  }

  lemma BigEndian16(x: u16)
    ensures |Be16(x)| == 2 && Word(Be16(x), 0) == x
  {
  }

  lemma BigEndian32(x: u32)
    ensures |Be32(x)| == 4 && Long(Be32(x), 0) == x
  {
  }

  /** Where the payload of any packet starts: past its contributing sources, and past an extension of so many words. */
  function PayloadAt(p: seq<byte>): Option<nat>
    requires |p| >= 12
  {
    var sources := 12 + p[0] % 16 * 4;
    if p[0] / 16 % 2 == 0 then Some(sources)
    else if sources + 4 > |p| then None
    else Some(sources + 4 + 4 * Word(p, sources + 2))
  }

  /** Any packet is read by these fields, if there is a payload at all; version and padding are not looked at, so
      padding stays in the payload. */
  lemma ReadAs(p: seq<byte>)
    ensures RtpPacketInfo(p) ==
      if |p| < 12 || PayloadAt(p) == None || PayloadAt(p).value >= |p| then None
      else Some(RtpInfo(Word(p, 2), Long(p, 4), p[1] / 128 == 1, p[PayloadAt(p).value..]))
  {
    if |p| >= 12 {
      WordsAlike(p);
      hide FromBe16, FromBe32, Word, Long;
    }
  }

  lemma WordsAlike(p: seq<byte>)
    requires |p| >= 12
    ensures FromBe16(p[2], p[3]) == Word(p, 2) && FromBe32(p[4], p[5], p[6], p[7]) == Long(p, 4)
    ensures forall i: nat :: i + 2 <= |p| ==> FromBe16(p[i], p[i + 1]) == Word(p, i)
  {
  }
}
