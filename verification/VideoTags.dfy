/** The RTMP video message of a frame, byte by byte, and the frame that comes back out of it. */
module VideoTags {
  import opened Bytes
  import opened H264Util
  import opened NalTypes
  import opened FlvVideo

  /** The five bytes in front: AVC, a NALU packet, no composition time, and a key frame if and only if the frame is
      flagged or has type 5 in front or behind a four-byte start code. */
  lemma TagHeader(frame: VideoFrame)
    ensures var isKey := frame.isKeyframe || LeadType(frame.data, 5) || SomeBehind(frame.data, 0, |frame.data|, 5);
      RtmpHeader(frame) == [if isKey then 0x17 else 0x27, 0x01, 0x00, 0x00, 0x00]
  {
    KeyframeIff(frame.data);
    hide IsKeyframeAnnexB, LeadType, SomeBehind;
  }

  /** A frame sent as RTMP video and received again is the same frame, its key-frame mark set also by what it holds, if
      and only if none of its NALs has 00 00 01 inside. */
  lemma TagRoundTripIff(frame: VideoFrame, nals: seq<seq<byte>>, timestamp: u32)
    requires nals != [] && frame.data == Join(nals) && |frame.data| < 0x1_0000_0000
    ensures var isKey := frame.isKeyframe || LeadType(frame.data, 5) || SomeBehind(frame.data, 0, |frame.data|, 5);
      var tag := RtmpHeader(frame) + Avcc(SplitFrom(frame.data, 0));
      FrameOf(tag, timestamp) == Video(VideoFrame(timestamp, Join(SplitFrom(frame.data, 0)), isKey))
      && (SplitFrom(frame.data, 0) == nals <==> ShortFreeNals(nals))
  {
    TagHeader(frame);
    SplitJoinIffShortFree(nals);
    SplitLengths(frame.data, 0);
    var cut := SplitFrom(frame.data, 0);
    assert cut != [] by {
      JoinStartsWithCode(nals);
      SplitsSomething(frame.data);
    }
    var header, body := RtmpHeader(frame), Avcc(cut);
    assert (header + body)[5..] == body;
    assert body[0..] == body;
    hide IsKeyframeAnnexB, LeadType, SomeBehind, SplitFrom, Avcc, Tiles, Lengths32, ShortFreeNals, RtmpHeader, Join;
    TilesOfAvcc(body, 0, cut);
  }

  lemma SplitsSomething(data: seq<byte>)
    requires CodeAt(data, 0)
    ensures SplitFrom(data, 0) != []
  {
  }
}
