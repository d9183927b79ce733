/** Elementary-stream preparation and PES headers, with the decoder of ISO/IEC 13818-1, section 2.4.3.6. */
module Pes {
  import opened Bytes
  import opened H264Util
  import opened TsPackets
  import TsDemux

  const U64_MAX: nat := 0xFFFF_FFFF_FFFF_FFFF

  // ---------------------------------------------------------------- time stamps

  /** Milliseconds in 90 kHz ticks, saturating at 64 bits. */
  function PtsTicks(ms: nat): nat {
    Min(ms * 90, U64_MAX)
  }

  /** The five time-stamp bytes; the top three bits are taken from bit 31 up. */
  function PesTimestamp(pts: nat): (r: seq<byte>)
    ensures |r| == 5
  {
    [0x21 + pts / 0x8000_0000 % 8 * 2, pts / 0x40_0000 % 0x100, 1 + pts / 0x8000 % 0x80 * 2, pts / 0x80 % 0x100,
     1 + pts % 0x80 * 2]
  }

  /** The 33-bit time stamp a decoder reads from five bytes. */
  function ReadTimestamp(b: seq<byte>): nat
    requires |b| == 5
  {
    (b[0] as int) / 2 % 8 * 0x4000_0000 + (b[1] as int) * 0x40_0000 + (b[2] as int) / 2 * 0x8000
    + (b[3] as int) * 0x80 + (b[4] as int) / 2
  }

  /** The time stamp that goes through: 30 low bits, and bits 31 to 33 in place of bits 30 to 32. */
  function CarriedPts(pts: nat): nat {
    pts % 0x4000_0000 + pts / 0x8000_0000 % 8 * 0x4000_0000
  }

  lemma TimestampRead(pts: nat)
    ensures ReadTimestamp(PesTimestamp(pts)) == CarriedPts(pts)
  {
    LowBits(pts);
  }

  lemma LowBits(pts: nat)
    ensures pts % 0x4000_0000 == pts / 0x40_0000 % 0x100 * 0x40_0000 + pts / 0x8000 % 0x80 * 0x8000
                                 + pts / 0x80 % 0x100 * 0x80 + pts % 0x80
  {
    var a, b, c := pts / 0x80, pts / 0x8000, pts / 0x40_0000;
    assert b == a / 0x100 && c == b / 0x80;
    assert pts == a * 0x80 + pts % 0x80;
    assert a == b * 0x100 + a % 0x100;
    assert b == c * 0x80 + b % 0x80;
    assert pts / 0x4000_0000 == c / 0x100;
  }

  /** A decoder sees the right 33-bit time stamp exactly when bits 30 to 33 of the tick count are all equal. */
  lemma PtsExactIff(pts: nat)
    ensures ReadTimestamp(PesTimestamp(pts)) == pts % 0x2_0000_0000
       <==> pts / 0x4000_0000 % 16 == 0 || pts / 0x4000_0000 % 16 == 15
  {
    TimestampRead(pts);
    hide ReadTimestamp, PesTimestamp;
    var q := pts / 0x4000_0000;
    assert pts == q * 0x4000_0000 + pts % 0x4000_0000;
    assert pts / 0x8000_0000 == q / 2;
    assert pts / 0x2_0000_0000 == q / 8;
    assert pts % 0x2_0000_0000 == q % 8 * 0x4000_0000 + pts % 0x4000_0000;
    Nibble(q);
  }

  lemma Nibble(q: nat)
    ensures q / 2 % 8 == q % 8 <==> q % 16 == 0 || q % 16 == 15
  {
    var k, r := q / 16, q % 16;
    assert q == 8 * (2 * k) + r && q / 2 == 8 * k + r / 2;
    LowEight(k, r / 2);
    LowEight(2 * k, r);
    NibbleLow(r);
  }

  lemma LowEight(k: nat, r: nat)
    ensures (8 * k + r) % 8 == r % 8
  {
  }

  lemma NibbleLow(r: nat)
    requires r < 16
    ensures r / 2 % 8 == r % 8 <==> r == 0 || r == 15
  {
  }

  lemma CarriedStart(pts: nat)
    requires pts < 0x4000_0000
    ensures CarriedPts(pts) == pts && CarriedPts(0x4000_0000 + pts) == pts
  {
  }

  /** Three hours and nineteen minutes in, the time stamp falls back to nearly zero. */
  lemma PtsFallsBack()
    ensures PtsTicks(11_930_464) < 0x4000_0000 < PtsTicks(11_930_465)
    ensures ReadTimestamp(PesTimestamp(PtsTicks(11_930_464))) == 11_930_464 * 90
    ensures ReadTimestamp(PesTimestamp(PtsTicks(11_930_465))) == 26
  {
    TimestampRead(PtsTicks(11_930_464));
    TimestampRead(PtsTicks(11_930_465));
    hide ReadTimestamp, PesTimestamp, CarriedPts;
    CarriedStart(1_073_741_760);
    CarriedStart(26);
  }

  // ---------------------------------------------------------------- elementary streams

  const AudNal: seq<byte> := [9, 0xF0]

  predicate StartsWithAud(data: seq<byte>) {
    [0, 0, 0, 1, 9] <= data || [0, 0, 1, 9] <= data
  }

  /** An access unit with a delimiter in front, unless it has one. */
  function PrepareH264Au(data: seq<byte>): seq<byte> {
    if data == [] then []
    else if StartsWithAud(data) then data
    else [0, 0, 0, 1, 9, 0xF0] + data
  }

  /** A raw AAC frame behind a seven-byte ADTS header of fixed rate and channels, unless it has a sync word. */
  function WrapAacAdts(raw: seq<byte>): seq<byte> {
    if raw == [] then []
    else if |raw| >= 2 && raw[0] == 0xFF && raw[1] >= 0xF0 then raw
    else AdtsHeader(|raw| + 7) + raw
  }

  function AdtsHeader(frameLen: nat): (r: seq<byte>)
    ensures |r| == 7
  {
    var high := frameLen / 0x800 % 0x100;
    [0xFF, 0xF1, 0x10, if high < 0x80 then 0x80 + high else high, frameLen / 8 % 0x100, frameLen % 8 * 0x20 + 0x1F,
     0xFC]
  }

  /** The 13-bit frame length of an ADTS header. */
  function AdtsLength(h: seq<byte>): nat
    requires |h| >= 7
  {
    (h[3] as int) % 4 * 0x800 + (h[4] as int) * 8 + (h[5] as int) / 0x20
  }

  /** The header announces the whole frame exactly when it fits thirteen bits. */
  lemma AdtsLengthIff(raw: seq<byte>)
    requires raw != [] && !(|raw| >= 2 && raw[0] == 0xFF && raw[1] >= 0xF0)
    ensures var adts := WrapAacAdts(raw);
      && |adts| == |raw| + 7 && adts[7..] == raw
      && (AdtsLength(adts) == |adts| <==> |raw| <= 8184)
  {
    AdtsHeaderLength(|raw| + 7);
    hide AdtsHeader;
    var h := AdtsHeader(|raw| + 7);
    assert h + raw == WrapAacAdts(raw);
    assert (h + raw)[3] == h[3] && (h + raw)[4] == h[4] && (h + raw)[5] == h[5];
  }

  lemma AdtsHeaderLength(n: nat)
    ensures AdtsLength(AdtsHeader(n)) == n % 0x2000
  {
    var h := AdtsHeader(n);
    var a, c := n / 8, n / 0x800;
    assert (h[3] as int) % 4 == c % 4 by {
      QuarterOf(c);
    }
    assert (h[5] as int) / 0x20 == n % 8;
    assert n == a * 8 + n % 8;
    assert c == a / 0x100 && a == c * 0x100 + a % 0x100;
    assert n / 0x2000 == c / 4 && c == n / 0x2000 * 4 + c % 4;
  }

  lemma QuarterOf(c: nat)
    ensures var high := c % 0x100;
      (if high < 0x80 then 0x80 + high else high) % 4 == c % 4
  {
    assert c == 0x100 * (c / 0x100) + c % 0x100;
    assert c % 4 == c % 0x100 % 4;
  }

  /** An access unit is left as it is if and only if it is empty, or 09 stands behind a start code right at its front;
      any other gets a delimiter of six bytes. */
  lemma PreparedIff(data: seq<byte>)
    ensures var behindLong := |data| >= 5 && data[0] == 0 && data[1] == 0 && data[2] == 0 && data[3] == 1
        && data[4] == 9;
      var behindShort := |data| >= 4 && data[0] == 0 && data[1] == 0 && data[2] == 1 && data[3] == 9;
      if data == [] || behindLong || behindShort then PrepareH264Au(data) == data
      else PrepareH264Au(data) == [0, 0, 0, 1, 9, 0xF0] + data
  {
    if |data| >= 5 {
      assert data[..5] == [data[0], data[1], data[2], data[3], data[4]];
    }
    if |data| >= 4 {
      assert data[..4] == [data[0], data[1], data[2], data[3]];
    }
  }

  /** A raw AAC frame is left as it is if and only if it is empty or starts with twelve ones; any other gets a
      header. */
  lemma WrappedIff(raw: seq<byte>)
    ensures var synced := |raw| >= 2 && raw[0] == 255 && raw[1] / 16 == 15;
      if raw == [] || synced then WrapAacAdts(raw) == raw
      else WrapAacAdts(raw) == AdtsHeader(|raw| + 7) + raw
  {
    hide AdtsHeader;
  }

  /** The fixed part of an ADTS header, as its decoder reads it: twelve ones, MPEG-4, layer 0, no CRC; profile 0, which
      is AAC Main; rate index 4, which is 44100 Hz; two channels; a full buffer, and one block. */
  lemma AdtsRead(n: nat)
    ensures var h := AdtsHeader(n);
      && h[0] == 255 && h[1] / 16 == 15 && h[1] / 8 % 2 == 0 && h[1] / 2 % 4 == 0 && h[1] % 2 == 1
      && h[2] / 64 == 0 && h[2] / 4 % 16 == 4 && h[2] / 2 % 2 == 0
      && (n < 0x2_0000 ==> h[2] as int % 2 * 4 + h[3] as int / 64 == 2)
      && h[5] as int % 32 * 64 + h[6] as int / 4 == 0x7FF && h[6] % 4 == 0
  {
  }

  /** A time stamp is carried in 90 ticks a millisecond, as far as 64 bits go. */
  lemma TicksAre(ms: nat)
    ensures PtsTicks(ms) == if 90 * ms < 0x1_0000_0000_0000_0000 then 90 * ms else 0xFFFF_FFFF_FFFF_FFFF
  {
  }

  /** The delimiter is one more NAL in front; the access unit's own NALs are the same. */
  lemma DelimiterInFront(nals: seq<seq<byte>>)
    requires nals != [] && SingleNalTypes(nals) && CodeFreeNals(nals)
    ensures NalsOf(PrepareH264Au(Join(nals))) == if nals[0][0] == 9 then nals else [AudNal] + nals
  {
    var data := Join(nals);
    JoinFront(nals);
    SplitJoined(nals);
    if nals[0][0] != 9 {
      hide NalsOf;
      AudCodeFree(nals);
      assert ([AudNal] + nals)[1..] == nals;
      assert Join([AudNal] + nals) == StartCode + AudNal + data;
      assert StartCode + AudNal == [0, 0, 0, 1, 9, 0xF0];
      SplitJoined([AudNal] + nals);
    }
  }

  lemma JoinFront(nals: seq<seq<byte>>)
    requires nals != [] && SingleNalTypes(nals)
    ensures var data := Join(nals);
      && |data| >= 5 && data[..4] == StartCode && data[4] == nals[0][0]
      && (StartsWithAud(data) <==> nals[0][0] == 9)
  {
    var data := Join(nals);
    assert nals[0] != [];
    assert data == StartCode + (nals[0] + Join(nals[1..])) by {
      Assoc(StartCode, nals[0], Join(nals[1..]));
    }
    assert data[..4] == StartCode && data[4] == nals[0][0];
    if nals[0][0] == 9 {
      assert data[..5] == [0, 0, 0, 1, 9];
    }
    assert data[2] == 0;
  }

  lemma AudCodeFree(nals: seq<seq<byte>>)
    requires CodeFreeNals(nals)
    ensures CodeFreeNals([AudNal] + nals)
  {
    forall k | 0 <= k < |[AudNal] + nals| ensures CodeFree(([AudNal] + nals)[k]) {
      assert k > 0 ==> ([AudNal] + nals)[k] == nals[k - 1];
    }
  }

  // ---------------------------------------------------------------- PES packets

  /** The fourteen header bytes; a body over 65535 bytes declares no length. */
  function PesHeader(n: nat, ms: nat, isVideo: bool): (r: seq<byte>)
    ensures |r| == 14
  {
    [0, 0, 1, if isVideo then 0xE0 else 0xC0] + Be16(if n + 8 <= 0xFFFF then n + 8 else 0)
    + [if isVideo then 0x84 else 0x80, 0x80, 5] + PesTimestamp(PtsTicks(ms))
  }

  function PesOf(es: seq<byte>, ms: nat, isVideo: bool): seq<byte> {
    PesHeader(|es|, ms, isVideo) + es
  }

  method WritePesTimestamp(pes: seq<byte>, ms: nat) returns (r: seq<byte>)
    ensures r == pes + PesTimestamp(PtsTicks(ms))
  {
    var pts := if ms * 90 <= U64_MAX then ms * 90 else U64_MAX;
    Doubled(pts);
    ghost var b := PesTimestamp(pts);
    r := pes + [0x21 + pts / 0x8000_0000 % 8 * 2];
    r := r + [pts / 0x40_0000 % 0x100];
    r := r + [1 + pts / 0x8000 % 0x80 * 2];
    r := r + [pts / 0x80 % 0x100];
    r := r + [1 + pts * 2 % 0x100];
    hide PesTimestamp;
    Pushed(pes, b);
  }

  lemma Doubled(pts: nat)
    ensures pts * 2 % 0x100 == pts % 0x80 * 2
  {
    assert pts == pts / 0x80 * 0x80 + pts % 0x80;
  }

  lemma Pushed(s: seq<byte>, b: seq<byte>)
    requires |b| == 5
    ensures s + [b[0]] + [b[1]] + [b[2]] + [b[3]] + [b[4]] == s + b
  {
  }

  method BuildPes(es: seq<byte>, ms: nat, isVideo: bool) returns (pes: seq<byte>)
    ensures pes == PesOf(es, ms, isVideo)
  {
    hide PesTimestamp, PtsTicks;
    pes := [0, 0, 1];
    pes := pes + [if isVideo then 0xE0 else 0xC0];
    var bodyLen := 3 + 5 + |es|;
    if bodyLen <= 0xFFFF {
      pes := pes + [bodyLen / 0x100 % 0x100];
      pes := pes + [bodyLen % 0x100];
    } else {
      pes := pes + [0, 0];
    }
    pes := pes + [if isVideo then 0x84 else 0x80];
    pes := pes + [0x80];
    pes := pes + [5];
    ghost var head := pes;
    assert head == [0, 0, 1, if isVideo then 0xE0 else 0xC0] + Be16(if bodyLen <= 0xFFFF then bodyLen else 0)
                   + [if isVideo then 0x84 else 0x80, 0x80, 5];
    pes := WritePesTimestamp(pes, ms);
    pes := pes + es;
  }

  /** A decoded PES packet: stream, time stamp, alignment flag and elementary stream. */
  datatype PesPacket = PesPacket(streamId: nat, pts: nat, aligned: bool, es: seq<byte>)

  /** Headers with a time stamp only; a declared length ends the elementary stream, an undeclared one runs to the end.
      */
  function DecodePes(unit: seq<byte>): Option<PesPacket> {
    if |unit| < 14 || unit[..3] != [0, 0, 1] || unit[6] / 0x40 != 2 || unit[7] / 0x40 != 2 || unit[8] < 5 then None
    else
      var declared := FromBe16(unit[4], unit[5]);
      var end := if declared == 0 then |unit| else 6 + declared;
      if 9 + unit[8] as int <= end <= |unit| then
        Some(PesPacket(unit[3], ReadTimestamp(unit[9..14]), unit[6] / 4 % 2 == 1, unit[9 + unit[8] as int..end]))
      else None
  }

  /** A unit whose fourteen header bytes are those of a PES with a time stamp and nothing else. */
  lemma DecodedFrom(unit: seq<byte>, isVideo: bool, declared: nat, end: nat)
    requires 14 <= end <= |unit| && unit[..3] == [0, 0, 1] && unit[3] == (if isVideo then 0xE0 else 0xC0)
    requires FromBe16(unit[4], unit[5]) == declared && end == (if declared == 0 then |unit| else 6 + declared)
    requires unit[6] == (if isVideo then 0x84 else 0x80) && unit[7] == 0x80 && unit[8] == 5
    ensures DecodePes(unit)
         == Some(PesPacket(if isVideo then 0xE0 else 0xC0, ReadTimestamp(unit[9..14]), isVideo, unit[14..end]))
  {
    hide ReadTimestamp, FromBe16;
  }

  lemma HeaderFields(n: nat, ms: nat, isVideo: bool)
    ensures var h := PesHeader(n, ms, isVideo);
      && h[..3] == [0, 0, 1] && h[3] == (if isVideo then 0xE0 else 0xC0)
      && FromBe16(h[4], h[5]) == (if n + 8 <= 0xFFFF then n + 8 else 0)
      && h[6] == (if isVideo then 0x84 else 0x80) && h[7] == 0x80 && h[8] == 5
      && h[9..14] == PesTimestamp(PtsTicks(ms))
  {
    hide PesTimestamp, PtsTicks;
    Be16RoundTrip(if n + 8 <= 0xFFFF then n + 8 else 0);
  }

  /** From the unit a demultiplexer collects, the decoder takes back the elementary stream and the carried time stamp,
      fill bytes or not. */
  lemma PesDecoded(es: seq<byte>, ms: nat, isVideo: bool)
    ensures DecodePes(TsDemux.PesUnit(PesOf(es, ms, isVideo), isVideo))
         == Some(PesPacket(if isVideo then 0xE0 else 0xC0, CarriedPts(PtsTicks(ms)), isVideo, es))
  {
    var h, pes := PesHeader(|es|, ms, isVideo), PesOf(es, ms, isVideo);
    HeaderFields(|es|, ms, isVideo);
    TimestampRead(PtsTicks(ms));
    hide PesHeader, PesTimestamp, PtsTicks, ReadTimestamp, CarriedPts;
    var unit := TsDemux.PesUnit(pes, isVideo);
    assert unit[..|pes|] == pes && (|pes| < |unit| ==> |pes| < PCR_BODY);
    assert pes == h + es;
    FieldsRead(unit, h, es);
    var declared := if |es| + 8 <= 0xFFFF then |es| + 8 else 0;
    hide DecodePes, FromBe16, TsDemux.PesUnit;
    DecodedFrom(unit, isVideo, declared, |pes|);
  }

  lemma FieldsRead(unit: seq<byte>, h: seq<byte>, es: seq<byte>)
    requires |h| == 14 && |unit| >= 14 + |es| && unit[..14 + |es|] == h + es
    ensures unit[..3] == h[..3] && unit[9..14] == h[9..14] && forall i :: 0 <= i < 14 ==> unit[i] == h[i]
    ensures unit[14..14 + |es|] == es
  {
    assert forall i :: 0 <= i < 14 ==> unit[i] == unit[..14 + |es|][i];
  }
}
