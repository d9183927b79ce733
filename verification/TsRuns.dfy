/** What a receiver gets from any run of the muxer, and which continuity it sees. */
module TsRuns {
  import opened Bytes
  import opened Media
  import opened Pes
  import opened TsDemux
  import opened TsMuxer
  import opened TsPackets
  import opened TsTables

  // ---------------------------------------------------------------- what was sent

  /** Audio codecs go on PID 0x101, everything else on 0x100. */
  function Carrier(codec: CodecType): nat {
    if codec == AAC || codec == Opus || codec == G711 then 0x101 else 0x100
  }

  /** The unit an operation sends on a PID. */
  function SentBy(op: Op, pid: nat): seq<seq<byte>> {
    match op
    case Pat => if pid == 0 then [TablePayload(PatSection())] else []
    case Pmt(hasVideo, hasAudio) => if pid == 0x1000 then [TablePayload(PmtSection(hasVideo, hasAudio))] else []
    case Frame(frame) =>
      if pid == Carrier(frame.codec) && frame.data != [] then [PesUnit(FramePes(frame), IsVideo(frame.codec))] else []
    case _ => []
  }

  function Sent(ops: seq<Op>, pid: nat): seq<seq<byte>> {
    if ops == [] then [] else SentBy(ops[0], pid) + Sent(ops[1..], pid)
  }

  /** The frames sent on a PID, as a PES decoder presents them. */
  function Presented(ops: seq<Op>, pid: nat): seq<PesPacket> {
    if ops == [] then []
    else
      (match ops[0]
       case Frame(frame) =>
         if pid == Carrier(frame.codec) && frame.data != [] then [PresentedFrame(frame)] else []
       case _ => [])
      + Presented(ops[1..], pid)
  }

  function PresentedFrame(frame: MediaFrame): PesPacket {
    var video := frame.codec in {H264, H265};
    PesPacket(if video then 0xE0 else 0xC0, CarriedPts(PtsTicks(frame.timestamp)), video, Content(frame))
  }

  /** What a frame is sent as: video behind an access unit delimiter, unless one is right in front, and AAC behind an
      ADTS header, unless it starts with twelve ones. */
  function Content(frame: MediaFrame): seq<byte> {
    var data := frame.data;
    if data == [] then []
    else if frame.codec in {H264, H265} then
      if (|data| > 4 && data[..5] == [0, 0, 0, 1, 9]) || (|data| > 3 && data[..4] == [0, 0, 1, 9]) then data
      else [0, 0, 0, 1, 9, 0xF0] + data
    else if frame.codec == AAC && !(|data| > 1 && data[0] == 255 && data[1] / 16 == 15) then
      AdtsHeader(|data| + 7) + data
    else data
  }

  lemma ContentIs(frame: MediaFrame)
    ensures Content(frame) == ElementaryStream(frame)
  {
    PreparedIff(frame.data);
    WrappedIff(frame.data);
    hide AdtsHeader, PrepareH264Au, WrapAacAdts;
  }

  /** Every unit decoded; nothing if one does not decode. */
  function DecodeUnits(units: seq<seq<byte>>): Option<seq<PesPacket>> {
    if units == [] then Some([])
    else
      match DecodePes(units[0])
      case None => None
      case Some(p) =>
        match DecodeUnits(units[1..])
        case None => None
        case Some(rest) => Some([p] + rest)
  }

  /** The counter a PID goes on from. */
  function CounterOf(s: State, pid: nat): nat {
    if pid == PAT_PID then s.pat
    else if pid == PMT_PID then s.pmt
    else if pid == VIDEO_PID then s.video
    else if pid == AUDIO_PID then s.audio
    else 0
  }

  predicate KnownCodec(op: Op) {
    op.Frame? ==> op.frame.codec != Unknown
  }

  ghost predicate KnownCodecs(ops: seq<Op>) {
    forall op <- ops :: KnownCodec(op)
  }

  /** The packets run on from one state's counter to the next one's, on one PID. */
  ghost predicate RunsOn(s: State, ps: seq<Packet>, t: State, pid: nat) {
    var ccs := CountersOn(ps, pid);
    Consecutive(ccs, CounterOf(s, pid)) && CounterOf(t, pid) == CounterAfter(CounterOf(s, pid), |ccs|)
  }

  // ---------------------------------------------------------------- one operation

  lemma StreamEmpty(frame: MediaFrame)
    ensures ElementaryStream(frame) == [] <==> frame.data == []
  {
  }

  /** Whatever the state, an operation's packets add its unit on its own PID, and nothing anywhere else. */
  lemma OpDemuxed(s: State, op: Op, units: seq<seq<byte>>, pid: nat)
    requires Valid(s)
    ensures Demux(units, Views(Emitted(s, op)), pid) == units + SentBy(op, pid)
  {
    hide TablePackets, PesPackets, TablePayload, PatSection, PmtSection, FramePes, ElementaryStream, AllOn, PesUnit;
    match op {
      case Pat =>
        var payload := TablePayload(PatSection());
        TableDemuxed(units, payload, PAT_PID, s.pat, s.flagged);
        TableCounted(payload, PAT_PID, true, s.pat, s.flagged);
        OnePid(units, Views(Emitted(s, op)), PAT_PID, pid);
      case Pmt(v, a) =>
        var payload := TablePayload(PmtSection(v, a));
        TableDemuxed(units, payload, PMT_PID, s.pmt, false);
        TableCounted(payload, PMT_PID, true, s.pmt, false);
        OnePid(units, Views(Emitted(s, op)), PMT_PID, pid);
      case Frame(frame) =>
        StreamEmpty(frame);
        var isVideo := IsVideo(frame.codec);
        var cc := if isVideo then s.video else s.audio;
        if frame.data != [] {
          PesDemuxed(units, FramePes(frame), PidOf(frame.codec), isVideo, cc, s.clock);
          PesCounted(FramePes(frame), PidOf(frame.codec), isVideo, cc, s.clock, true);
          OnePid(units, Views(Emitted(s, op)), PidOf(frame.codec), pid);
        }
      case _ =>
    }
  }

  lemma OnlyPid(s: State, ps: seq<Packet>, t: State, on: nat, pid: nat)
    requires AllOn(ps, on) && forall k :: 0 <= k < |ps| ==> ps[k].cc == CounterAfter(CounterOf(s, on), k)
    requires CounterOf(t, on) == CounterAfter(CounterOf(s, on), |ps|)
    requires pid != on ==> CounterOf(t, pid) == CounterOf(s, pid)
    requires CounterOf(s, pid) < 16
    ensures RunsOn(s, ps, t, pid)
  {
    hide AllOn, CounterOf;
    OnePid([], ps, on, pid);
    assert CounterAfter(CounterOf(s, pid), 0) == CounterOf(s, pid);
  }

  /** For a known codec, an operation runs on on every PID. */
  lemma OpRunsOn(s: State, op: Op, pid: nat)
    requires Valid(s) && KnownCodec(op)
    ensures RunsOn(s, Views(Emitted(s, op)), After(s, op), pid)
  {
    hide TablePackets, PesPackets, TablePayload, PatSection, PmtSection, FramePes, ElementaryStream, AllOn, RunsOn;
    var ps := Views(Emitted(s, op));
    match op {
      case Pat =>
        TableCounted(TablePayload(PatSection()), PAT_PID, true, s.pat, s.flagged);
        OnlyPid(s, ps, After(s, op), PAT_PID, pid);
      case Pmt(v, a) =>
        TableCounted(TablePayload(PmtSection(v, a)), PMT_PID, true, s.pmt, false);
        OnlyPid(s, ps, After(s, op), PMT_PID, pid);
      case Frame(frame) =>
        var isVideo := IsVideo(frame.codec);
        var cc := if isVideo then s.video else s.audio;
        PesCounted(FramePes(frame), PidOf(frame.codec), isVideo, cc, s.clock, true);
        NoPackets(PidOf(frame.codec));
        OnlyPid(s, ps, After(s, op), PidOf(frame.codec), pid);
      case _ =>
        NoPackets(PAT_PID);
        OnlyPid(s, ps, After(s, op), PAT_PID, pid);
    }
  }

  lemma NoPackets(pid: nat)
    ensures AllOn([], pid) && Views([]) == []
  {
  }

  // ---------------------------------------------------------------- runs

  lemma {:induction false} RunDemuxed(s: State, ops: seq<Op>, units: seq<seq<byte>>, pid: nat)
    requires Valid(s)
    ensures Demux(units, Views(RunPackets(s, ops)), pid) == units + Sent(ops, pid)
    decreases |ops|
  {
    hide Emitted, After, Valid, SentBy;
    if ops == [] {
      assert units + [] == units;
    } else {
      var rest := RunPackets(After(s, ops[0]), ops[1..]);
      OpDemuxed(s, ops[0], units, pid);
      AfterValid(s, ops[0]);
      RunDemuxed(After(s, ops[0]), ops[1..], units + SentBy(ops[0], pid), pid);
      ViewsAppend(Emitted(s, ops[0]), rest);
      DemuxAppend(units, Views(Emitted(s, ops[0])), Views(rest), pid);
      Assoc(units, SentBy(ops[0], pid), Sent(ops[1..], pid));
    }
  }

  lemma RunsOnAppend(s: State, a: seq<Packet>, t: State, b: seq<Packet>, u: State, pid: nat)
    requires RunsOn(s, a, t, pid) && RunsOn(t, b, u, pid)
    ensures RunsOn(s, a + b, u, pid)
  {
    hide Consecutive, CounterAfter, CountersOn, CounterOf;
    CountersAppend(a, b, pid);
    ConsecutiveAppend(CountersOn(a, pid), CountersOn(b, pid), CounterOf(s, pid), CounterOf(t, pid));
    CounterSum(CounterOf(s, pid), |CountersOn(a, pid)|, |CountersOn(b, pid)|);
  }

  lemma {:induction false} RunCounted(s: State, ops: seq<Op>, pid: nat)
    requires Valid(s) && KnownCodecs(ops)
    ensures RunsOn(s, Views(RunPackets(s, ops)), RunState(s, ops), pid)
    decreases |ops|
  {
    if ops == [] {
      assert CounterAfter(CounterOf(s, pid), 0) == CounterOf(s, pid);
    } else {
      hide Emitted, After, Valid, RunsOn, KnownCodec;
      var rest := RunPackets(After(s, ops[0]), ops[1..]);
      OpRunsOn(s, ops[0], pid);
      AfterValid(s, ops[0]);
      RunCounted(After(s, ops[0]), ops[1..], pid);
      ViewsAppend(Emitted(s, ops[0]), rest);
      RunsOnAppend(s, Views(Emitted(s, ops[0])), After(s, ops[0]), Views(rest), RunState(s, ops), pid);
    }
  }

  lemma DecodeCons(unit: seq<byte>, units: seq<seq<byte>>, p: PesPacket, rest: seq<PesPacket>)
    requires DecodePes(unit) == Some(p) && DecodeUnits(units) == Some(rest)
    ensures DecodeUnits([unit] + units) == Some([p] + rest)
  {
    hide DecodePes;
    assert ([unit] + units)[1..] == units;
  }

  /** A frame's unit decodes to what is presented of it. */
  lemma FrameDecodes(frame: MediaFrame)
    ensures DecodePes(PesUnit(FramePes(frame), IsVideo(frame.codec))) == Some(PresentedFrame(frame))
  {
    PesDecoded(ElementaryStream(frame), frame.timestamp, IsVideo(frame.codec));
    ContentIs(frame);
    hide Content, DecodePes, PesUnit, PesOf, ElementaryStream, CarriedPts, PtsTicks;
  }

  lemma {:induction false} SentDecodes(ops: seq<Op>, pid: nat)
    requires pid == 0x100 || pid == 0x101
    ensures DecodeUnits(Sent(ops, pid)) == Some(Presented(ops, pid))
  {
    hide DecodePes, PesUnit, FramePes, PresentedFrame, PidOf, TablePayload, PatSection, PmtSection;
    if ops != [] {
      SentDecodes(ops[1..], pid);
      assert [] + Sent(ops[1..], pid) == Sent(ops[1..], pid);
      assert [] + Presented(ops[1..], pid) == Presented(ops[1..], pid);
      if ops[0].Frame? {
        var frame := ops[0].frame;
        FrameDecodes(frame);
        var unit := PesUnit(FramePes(frame), IsVideo(frame.codec));
        DecodeCons(unit, Sent(ops[1..], pid), PresentedFrame(frame), Presented(ops[1..], pid));
      }
    }
  }

  /** The bytes of any run are whole packets from which every PID's units come back in order: the tables as they were
      written, the frames as PES packets that decode to their elementary streams; and with known codecs each PID's
      continuity counters step by one modulo 16 across the whole run. */
  lemma RunDelivered(s: State, ops: seq<Op>, pid: nat)
    requires Valid(s)
    ensures AllWellformed(RunPackets(s, ops))
    ensures var stream := ReadPackets(EncodeAll(RunPackets(s, ops)));
      && stream.Some?
      && Demux([], stream.value, pid) == Sent(ops, pid)
      && (pid == 0x100 || pid == 0x101
          ==> DecodeUnits(Demux([], stream.value, pid)) == Some(Presented(ops, pid)))
      && (KnownCodecs(ops) ==> RunsOn(s, stream.value, RunState(s, ops), pid))
  {
    RunWellformed(s, ops);
    StreamRead(RunPackets(s, ops));
    RunDemuxed(s, ops, [], pid);
    hide RunPackets, Demux, RunsOn, DecodeUnits, Valid, KnownCodecs, AllWellformed, EncodeAll, ReadPackets, Views;
    assert [] + Sent(ops, pid) == Sent(ops, pid);
    if KnownCodecs(ops) {
      RunCounted(s, ops, pid);
    }
    if pid == 0x100 || pid == 0x101 {
      SentDecodes(ops, pid);
    }
  }

  /** A frame of unknown codec goes out on the video PID under the audio counter: the video PID keeps its continuity
      exactly when the two counters happen to agree and the packets are a multiple of sixteen; the audio PID when they
      are such a multiple. */
  lemma UnknownRunsOnIff(s: State, frame: MediaFrame)
    requires Valid(s) && frame.codec == Unknown && frame.data != []
    ensures var ps := Views(Emitted(s, Frame(frame)));
      && ps != []
      && (RunsOn(s, ps, After(s, Frame(frame)), VIDEO_PID) <==> s.video == s.audio && |ps| % 16 == 0)
      && (RunsOn(s, ps, After(s, Frame(frame)), AUDIO_PID) <==> |ps| % 16 == 0)
  {
    var ps := Views(Emitted(s, Frame(frame)));
    PesCounted(FramePes(frame), VIDEO_PID, false, s.audio, s.clock, true);
    hide PesPackets, FramePes, AllOn, Views;
    assert ps != [] && ps[0].cc == CounterAfter(s.audio, 0);
    OnePid([], ps, VIDEO_PID, AUDIO_PID);
    assert CountersOn(ps, VIDEO_PID)[0] == ps[0].cc;
    hide CountersOn, Emitted, CounterAfter;
    SameCounter(s.video, |ps|);
    SameCounter(s.audio, |ps|);
  }

  lemma SameCounter(cc: nat, n: nat)
    requires cc < 16
    ensures CounterAfter(cc, n) == cc <==> n % 16 == 0
    ensures CounterAfter(cc, 0) == cc
  {
  }

  // ---------------------------------------------------------------- what the tables announce

  /** The stream type of a codec, ISO/IEC 13818-1 table 2-34; none for the codecs that have none there. */
  function StreamType(codec: CodecType): Option<nat> {
    match codec
    case H264 => Some(0x1B)
    case H265 => Some(0x24)
    case AAC => Some(0x0F)
    case _ => None
  }

  /** With both streams announced, a receiver of the tables takes the frames of a codec for what they are exactly for
      H.264 and AAC: everything else goes out on a PID announced as one of these. */
  lemma RightlyAnnouncedIff(codec: CodecType)
    ensures var tables := ReadPmt(TablePayload(PmtSection(true, true)));
      && tables.Some?
      && (StreamType(codec).Some?
          && (exists s <- tables.value.streams :: s.0 == StreamType(codec).value && s.1 == Carrier(codec))
          <==> codec in {H264, AAC})
      && exists s <- tables.value.streams :: s.1 == Carrier(codec)
  {
    TablesRead(true, true);
    hide ReadPmt, TablePayload, PmtSection;
    var streams := Announced(true, true);
    assert streams == [(0x1B, VIDEO_PID), (0x0F, AUDIO_PID)];
    assert (0x1B, VIDEO_PID) in streams && (0x0F, AUDIO_PID) in streams;
  }
}
