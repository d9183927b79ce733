/** H.264 between RTMP (length-prefixed AVCC) and the Annex B frames of the hub. */
module FlvVideo {
  import opened Bytes
  import opened H264Util

  /** A video frame as the hub keeps it. */
  datatype VideoFrame = VideoFrame(timestamp: u32, data: seq<byte>, isKeyframe: bool)

  // ---------------------------------------------------------------- AVCC

  /** Each NAL behind its 32-bit length. */
  function Avcc(nals: seq<seq<byte>>): seq<byte> {
    if nals == [] then [] else Be32(|nals[0]| % 0x1_0000_0000) + nals[0] + Avcc(nals[1..])
  }

  /** The NALs that lie whole behind their lengths, from byte i on. */
  function Tiles(p: seq<byte>, i: nat): seq<seq<byte>>
    decreases |p| - i
  {
    if i + 4 > |p| then []
    else
      var len := FromBe32(p[i], p[i + 1], p[i + 2], p[i + 3]);
      if i + 4 + len > |p| then [] else [p[i + 4..i + 4 + len]] + Tiles(p, i + 4 + len)
  }

  method AvccToAnnexB(payload: seq<byte>) returns (annexB: seq<byte>)
    ensures annexB == Join(Tiles(payload, 0))
  {
    hide Tiles, Join;
    annexB := [];
    var offset := 0;
    while offset + 4 <= |payload|
      invariant offset <= |payload|
      invariant Join(Tiles(payload, 0)) == annexB + Join(Tiles(payload, offset))
      decreases |payload| - offset
    {
      var len := FromBe32(payload[offset], payload[offset + 1], payload[offset + 2], payload[offset + 3]);
      if offset + 4 + len > |payload| {
        TilesEnd(payload, offset);
        return;
      }
      var nal := payload[offset + 4..offset + 4 + len];
      TilesStep(payload, offset);
      Assoc(annexB, StartCode + nal, Join(Tiles(payload, offset + 4 + len)));
      annexB := annexB + (StartCode + nal);
      offset := offset + 4 + len;
    }
    TilesEnd(payload, offset);
  }

  /** What becomes of an incoming video message; a NALU packet shorter than its five-byte header makes the slice of its
      payload panic. */
  datatype Incoming = Dropped | Panics | Video(frame: VideoFrame)

  method VideoPayloadToFrame(data: seq<byte>, timestamp: u32) returns (r: Incoming)
    ensures r == FrameOf(data, timestamp)
  {
    if |data| < 2 {
      return Dropped;
    }
    if data[1] != 1 {
      return Dropped;
    }
    if |data| < 5 {
      return Panics;
    }
    var isKeyframe := data[0] / 0x10 == 1;
    var annexB := AvccToAnnexB(data[5..]);
    JoinStartsWithCode(Tiles(data[5..], 0));
    if annexB == [] {
      return Dropped;
    }
    return Video(VideoFrame(timestamp, annexB, isKeyframe));
  }

  lemma TilesStep(p: seq<byte>, i: nat)
    requires i + 4 <= |p|
    requires i + 4 + FromBe32(p[i], p[i + 1], p[i + 2], p[i + 3]) <= |p|
    ensures var end := i + 4 + FromBe32(p[i], p[i + 1], p[i + 2], p[i + 3]);
      Join(Tiles(p, i)) == StartCode + p[i + 4..end] + Join(Tiles(p, end))
  {
    var end := i + 4 + FromBe32(p[i], p[i + 1], p[i + 2], p[i + 3]);
    assert Tiles(p, i)[1..] == Tiles(p, end);
  }

  lemma TilesEnd(p: seq<byte>, i: nat)
    requires i + 4 > |p| || i + 4 + FromBe32(p[i], p[i + 1], p[i + 2], p[i + 3]) > |p|
    ensures Tiles(p, i) == [] && Join(Tiles(p, i)) == []
    ensures forall s: seq<byte> :: s + Join(Tiles(p, i)) == s
  {
  }

  function FrameOf(data: seq<byte>, timestamp: u32): Incoming {
    if |data| < 2 || data[1] != 1 then Dropped
    else if |data| < 5 then Panics
    else if Tiles(data[5..], 0) == [] then Dropped
    else Video(VideoFrame(timestamp, Join(Tiles(data[5..], 0)), data[0] / 0x10 == 1))
  }

  // ---------------------------------------------------------------- splitting on either start code

  predicate AnyCodeAt(data: seq<byte>, i: nat) {
    ShortCodeAt(data, i) || CodeAt(data, i)
  }

  function NextAny(data: seq<byte>, i: nat): (e: nat)
    requires i <= |data|
    ensures i <= e <= |data|
    ensures forall j :: i <= j < e ==> !AnyCodeAt(data, j)
    ensures e < |data| ==> AnyCodeAt(data, e)
    decreases |data| - i
  {
    if i == |data| || AnyCodeAt(data, i) then i else NextAny(data, i + 1)
  }

  function CodeEnd(data: seq<byte>, i: nat): (e: nat)
    requires AnyCodeAt(data, i)
    ensures i < e <= |data|
  {
    if ShortCodeAt(data, i) then i + 3 else i + 4
  }

  /** NALs after each three- or four-byte start code from i on; empty ones are kept. */
  function SplitFrom(data: seq<byte>, i: nat): seq<seq<byte>>
    requires i <= |data|
    decreases |data| - i
  {
    var at := NextAny(data, i);
    if at == |data| then []
    else
      var start := CodeEnd(data, at);
      var end := NextAny(data, start);
      [data[start..end]] + SplitFrom(data, end)
  }

  function RtmpHeader(frame: VideoFrame): seq<byte> {
    [if frame.isKeyframe || IsKeyframeAnnexB(frame.data) then 0x17 else 0x27, 1, 0, 0, 0]
  }

  method FindNextAny(data: seq<byte>, start: nat) returns (end: nat)
    requires start <= |data|
    ensures end == NextAny(data, start)
  {
    end := |data|;
    var j := start;
    while j + 3 <= |data|
      invariant start <= j <= |data|
      invariant NextAny(data, start) == NextAny(data, j)
    {
      if AnyCodeAt(data, j) {
        return j;
      }
      j := j + 1;
    }
    assert forall k :: j <= k < |data| ==> !AnyCodeAt(data, k);
  }

  lemma SplitSkips(data: seq<byte>, i: nat)
    requires i < |data| && !AnyCodeAt(data, i)
    ensures SplitFrom(data, i) == SplitFrom(data, i + 1)
  {
    hide AnyCodeAt, CodeEnd;
    assert NextAny(data, i) == NextAny(data, i + 1);
  }

  lemma SplitFinds(data: seq<byte>, i: nat)
    requires AnyCodeAt(data, i)
    ensures var start := CodeEnd(data, i);
      var end := NextAny(data, start);
      SplitFrom(data, i) == [data[start..end]] + SplitFrom(data, end)
  {
  }

  lemma AvccStep(nal: seq<byte>, rest: seq<seq<byte>>)
    ensures Avcc([nal] + rest) == Be32(|nal| % 0x1_0000_0000) + nal + Avcc(rest)
  {
    assert ([nal] + rest)[1..] == rest;
  }

  method FrameToRtmpVideo(frame: VideoFrame) returns (data: seq<byte>)
    ensures data == RtmpHeader(frame) + Avcc(SplitFrom(frame.data, 0))
  {
    hide SplitFrom, NextAny, Avcc, IsKeyframeAnnexB, Be32;
    var annexB := frame.data;
    var frameType := if frame.isKeyframe || IsKeyframeAnnexB(frame.data) then 0x10 else 0x20;
    data := [frameType + 0x07];
    data := data + [1];
    data := data + [0, 0, 0];
    assert data == RtmpHeader(frame);
    hide RtmpHeader;
    var i := 0;
    while i < |annexB|
      invariant i <= |annexB|
      invariant RtmpHeader(frame) + Avcc(SplitFrom(annexB, 0)) == data + Avcc(SplitFrom(annexB, i))
      decreases |annexB| - i
    {
      if !AnyCodeAt(annexB, i) {
        SplitSkips(annexB, i);
        i := i + 1;
        continue;
      }
      var start := CodeEnd(annexB, i);
      var end := FindNextAny(annexB, start);
      SplitFinds(annexB, i);
      AvccStep(annexB[start..end], SplitFrom(annexB, end));
      var tagged := Be32(|annexB[start..end]| % 0x1_0000_0000) + annexB[start..end];
      Assoc(data, tagged, Avcc(SplitFrom(annexB, end)));
      data := data + tagged;
      i := end;
    }
    NothingLeft(annexB);
    assert data + [] == data;
  }

  lemma NothingLeft(data: seq<byte>)
    ensures Avcc(SplitFrom(data, |data|)) == []
  {
  }

  // ---------------------------------------------------------------- round trips

  /** No three-byte start code inside (section 7.4.1 of H.264). */
  ghost predicate ShortFree(nal: seq<byte>) {
    forall j :: 0 <= j < |nal| ==> !ShortCodeAt(nal, j)
  }

  ghost predicate ShortFreeNals(nals: seq<seq<byte>>) {
    forall k :: 0 <= k < |nals| ==> ShortFree(nals[k])
  }

  ghost predicate Lengths32(nals: seq<seq<byte>>) {
    forall k :: 0 <= k < |nals| ==> |nals[k]| < 0x1_0000_0000
  }

  lemma {:induction false} NextAnyIs(data: seq<byte>, i: nat, e: nat)
    requires i <= e <= |data|
    requires forall j :: i <= j < e ==> !AnyCodeAt(data, j)
    requires e < |data| ==> AnyCodeAt(data, e)
    ensures NextAny(data, i) == e
    decreases e - i
  {
    if i < e {
      NextAnyIs(data, i + 1, e);
    }
  }

  lemma NoAnyCodeAcross(data: seq<byte>, start: nat, nal: seq<byte>, rest: seq<byte>, j: nat)
    requires start <= |data| && data[start..] == nal + rest
    requires ShortFree(nal)
    requires rest == [] || CodeAt(rest, 0)
    requires start <= j < start + |nal|
    ensures !AnyCodeAt(data, j)
  {
    var k := j - start;
    forall p | j <= p < |data| ensures data[p] == (nal + rest)[p - start] {
      assert data[start..][p - start] == data[p];
    }
    assert !ShortCodeAt(nal, k);
    if k + 1 < |nal| {
      assert !ShortCodeAt(nal, k + 1);
    }
    if k + 3 > |nal| && rest != [] {
      assert (nal + rest)[k + 2] == rest[k + 2 - |nal|] == 0;
    }
    if k + 4 > |nal| && rest != [] {
      assert (nal + rest)[k + 3] == rest[k + 3 - |nal|] == 0;
    }
  }

  lemma HeadSplit(data: seq<byte>, i: nat, nal: seq<byte>, rest: seq<byte>)
    requires i <= |data| && data[i..] == StartCode + nal + rest
    requires ShortFree(nal)
    requires rest == [] || CodeAt(rest, 0)
    ensures AnyCodeAt(data, i) && CodeEnd(data, i) == i + 4
    ensures NextAny(data, i + 4) == i + 4 + |nal|
    ensures data[i + 4..i + 4 + |nal|] == nal
    ensures data[i + 4 + |nal|..] == rest
  {
    var start, end := i + 4, i + 4 + |nal|;
    assert data[i] == data[i..][0] && data[i + 1] == data[i..][1] && data[i + 2] == data[i..][2]
        && data[i + 3] == data[i..][3];
    assert data[start..] == data[i..][4..] == nal + rest;
    assert data[end..] == data[start..][|nal|..] == rest;
    assert data[start..end] == data[start..][..|nal|] == nal;
    forall j | start <= j < end ensures !AnyCodeAt(data, j) {
      NoAnyCodeAcross(data, start, nal, rest, j);
    }
    if end < |data| {
      assert forall d :: 0 <= d < 4 ==> data[end + d] == data[end..][d];
    }
    NextAnyIs(data, start, end);
  }

  lemma {:induction false} SplitJoinedFrom(data: seq<byte>, i: nat, nals: seq<seq<byte>>)
    requires i <= |data| && data[i..] == Join(nals)
    requires ShortFreeNals(nals)
    ensures SplitFrom(data, i) == nals
    decreases |nals|
  {
    hide SplitFrom, NextAny, AnyCodeAt, ShortFree, CodeEnd;
    if nals == [] {
      assert i == |data|;
      SplitNothing(data);
    } else {
      assert data[i..] == StartCode + nals[0] + Join(nals[1..]);
      assert ShortFreeNals(nals[1..]);
      JoinStartsWithCode(nals[1..]);
      hide Join;
      HeadSplit(data, i, nals[0], Join(nals[1..]));
      hide ShortFreeNals;
      SplitFinds(data, i);
      SplitJoinedFrom(data, i + 4 + |nals[0]|, nals[1..]);
    }
  }

  lemma SplitNothing(data: seq<byte>)
    ensures SplitFrom(data, |data|) == []
  {
  }

  /** Every NAL the splitter returns is free of three-byte start codes. */
  lemma {:induction false} SplitShortFree(data: seq<byte>, i: nat)
    requires i <= |data|
    ensures ShortFreeNals(SplitFrom(data, i))
    decreases |data| - i
  {
    var at := NextAny(data, i);
    if at < |data| {
      var start := CodeEnd(data, at);
      var end := NextAny(data, start);
      SplitShortFree(data, end);
      var nal := data[start..end];
      forall j | 0 <= j < |nal| ensures !ShortCodeAt(nal, j) {
        assert !AnyCodeAt(data, start + j);
      }
      assert SplitFrom(data, i) == [nal] + SplitFrom(data, end);
      hide SplitFrom, NextAny, ShortCodeAt, CodeEnd, AnyCodeAt, ShortFree;
      assert ShortFree(nal);
    }
  }

  /** An Annex B frame splits into the NALs it was joined from, empty ones too, iff none has 00 00 01 inside. */
  lemma SplitJoinIffShortFree(nals: seq<seq<byte>>)
    ensures SplitFrom(Join(nals), 0) == nals <==> ShortFreeNals(nals)
  {
    hide *;
    assert Join(nals)[0..] == Join(nals);
    SplitShortFree(Join(nals), 0);
    if ShortFreeNals(nals) {
      SplitJoinedFrom(Join(nals), 0, nals);
    }
  }

  lemma {:induction false} TilesOfAvcc(p: seq<byte>, i: nat, nals: seq<seq<byte>>)
    requires i <= |p| && p[i..] == Avcc(nals)
    requires Lengths32(nals)
    ensures Tiles(p, i) == nals
    decreases |nals|
  {
    hide Be32, FromBe32;
    if nals != [] {
      var nal := nals[0];
      var b := Be32(|nal|);
      Be32RoundTrip(|nal|);
      assert p[i..] == b + nal + Avcc(nals[1..]);
      hide Avcc;
      assert p[i] == p[i..][0] && p[i + 1] == p[i..][1] && p[i + 2] == p[i..][2] && p[i + 3] == p[i..][3];
      assert p[i + 4..i + 4 + |nal|] == p[i..][4..4 + |nal|] == nal;
      assert p[i + 4 + |nal|..] == p[i..][4 + |nal|..] == Avcc(nals[1..]);
      assert Lengths32(nals[1..]);
      TilesOfAvcc(p, i + 4 + |nal|, nals[1..]);
    }
  }

  /** Length-prefixed NALs determine the payload and the other way round. */
  lemma AvccInjective(a: seq<seq<byte>>, b: seq<seq<byte>>)
    requires Lengths32(a) && Lengths32(b) && Avcc(a) == Avcc(b)
    ensures a == b
  {
    hide Tiles, Avcc;
    assert Avcc(a)[0..] == Avcc(a);
    TilesOfAvcc(Avcc(a), 0, a);
    TilesOfAvcc(Avcc(a), 0, b);
  }

  lemma {:induction false} SplitLengths(data: seq<byte>, i: nat)
    requires i <= |data| < 0x1_0000_0000
    ensures Lengths32(SplitFrom(data, i))
    decreases |data| - i
  {
    var at := NextAny(data, i);
    if at < |data| {
      var start := CodeEnd(data, at);
      var end := NextAny(data, start);
      SplitLengths(data, end);
      assert SplitFrom(data, i) == [data[start..end]] + SplitFrom(data, end);
      hide SplitFrom, NextAny, CodeEnd;
    }
  }

  /**
    * AVCC to Annex B and back is the identity on the NAL payload iff no NAL has 00 00 01 inside,
    * for every well-tiled payload whose Annex B form has a 32-bit length.
    */
  lemma AvccRoundTripIff(data: seq<byte>, timestamp: u32, nals: seq<seq<byte>>)
    requires |data| >= 5 && data[1] == 1 && nals != []
    requires Lengths32(nals) && data[5..] == Avcc(nals) && |Join(nals)| < 0x1_0000_0000
    ensures FrameOf(data, timestamp) == Video(VideoFrame(timestamp, Join(nals), data[0] / 0x10 == 1))
    ensures Avcc(SplitFrom(Join(nals), 0)) == data[5..] <==> ShortFreeNals(nals)
  {
    hide Tiles, Avcc, Join, SplitFrom, ShortFreeNals, Lengths32;
    assert data[5..][0..] == data[5..];
    TilesOfAvcc(data[5..], 0, nals);
    SplitJoinIffShortFree(nals);
    SplitLengths(Join(nals), 0);
    if Avcc(SplitFrom(Join(nals), 0)) == data[5..] {
      AvccInjective(SplitFrom(Join(nals), 0), nals);
    }
  }
}
