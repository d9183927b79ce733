/** The transport-stream muxer: its state, its operations and what a receiver gets from any run of them. */
module TsMuxer {
  import opened Bytes
  import opened Media
  import opened Pes
  import opened TsPackets
  import opened TsTables
  import Crc32

  const PAT_PID := 0

  datatype State = State(video: nat, audio: nat, pat: nat, pmt: nat, clock: nat, flagged: bool)

  const Fresh := State(0, 0, 0, 0, 0, false)

  predicate Valid(s: State) {
    s.video < 16 && s.audio < 16 && s.pat < 16 && s.pmt < 16
  }

  datatype Op = Pat | Pmt(hasVideo: bool, hasAudio: bool) | Frame(frame: MediaFrame) | Discontinuity | Clock(ms: nat)
              | NewSegment

  // ---------------------------------------------------------------- one operation

  function PidOf(codec: CodecType): (pid: nat)
    ensures pid < 0x2000
  {
    match codec
    case H264 | H265 => VIDEO_PID
    case AAC | Opus | G711 => AUDIO_PID
    case Unknown => VIDEO_PID
  }

  function ElementaryStream(frame: MediaFrame): seq<byte> {
    if frame.codec == AAC then WrapAacAdts(frame.data)
    else if IsVideo(frame.codec) then PrepareH264Au(frame.data)
    else frame.data
  }

  function FramePes(frame: MediaFrame): (r: seq<byte>)
    ensures r != []
  {
    PesOf(ElementaryStream(frame), frame.timestamp, IsVideo(frame.codec))
  }

  function FramePackets(frame: MediaFrame, cc: nat, clock: nat): seq<TsPacket> {
    if ElementaryStream(frame) == [] then []
    else PesPackets(FramePes(frame), PidOf(frame.codec), IsVideo(frame.codec), cc, clock, true)
  }

  /** The packets an operation emits. */
  function Emitted(s: State, op: Op): seq<TsPacket> {
    match op
    case Pat => TablePackets(TablePayload(PatSection()), PAT_PID, true, s.pat, s.flagged)
    case Pmt(hasVideo, hasAudio) =>
      TablePackets(TablePayload(PmtSection(hasVideo, hasAudio)), PMT_PID, true, s.pmt, false)
    case Frame(frame) => FramePackets(frame, if IsVideo(frame.codec) then s.video else s.audio, s.clock)
    case Discontinuity | Clock(_) | NewSegment => []
  }

  function Advanced(cc: nat, n: nat): nat {
    (cc + n) % 16
  }

  /** The state an operation leaves. */
  function After(s: State, op: Op): State {
    var n := |Emitted(s, op)|;
    match op
    case Pat => s.(pat := Advanced(s.pat, n), flagged := false)
    case Pmt(_, _) => s.(pmt := Advanced(s.pmt, n))
    case Frame(frame) =>
      if IsVideo(frame.codec) then s.(video := Advanced(s.video, n)) else s.(audio := Advanced(s.audio, n))
    case Discontinuity => s.(flagged := true)
    case Clock(ms) => s.(clock := ms * 27000)
    case NewSegment => s
  }

  lemma EmittedWellformed(s: State, op: Op)
    requires Valid(s)
    ensures AllWellformed(Emitted(s, op))
  {
    hide Wellformed, AllWellformed, PesPackets, TablePackets, FramePes, ElementaryStream, TablePayload, PmtSection;
    hide PatSection;
    match op
    case Pat => TableWellformed(TablePayload(PatSection()), PAT_PID, true, s.pat, s.flagged);
    case Pmt(v, a) => TableWellformed(TablePayload(PmtSection(v, a)), PMT_PID, true, s.pmt, false);
    case Frame(frame) =>
      PesWellformed(FramePes(frame), PidOf(frame.codec), IsVideo(frame.codec),
                    if IsVideo(frame.codec) then s.video else s.audio, s.clock, true);
      NoneWellformed();
    case _ => NoneWellformed();
  }

  lemma NoneWellformed()
    ensures AllWellformed([]) && EncodeAll([]) == []
  {
  }

  // ---------------------------------------------------------------- the muxer

  class TsMuxer {
    const crcTable: seq<bv32>
    var continuityCounterVideo: nat
    var continuityCounterAudio: nat
    var continuityCounterPat: nat
    var continuityCounterPmt: nat
    var pcrClock: nat
    var segmentDiscontinuity: bool

    ghost function Now(): State
      reads this
    {
      State(continuityCounterVideo, continuityCounterAudio, continuityCounterPat, continuityCounterPmt, pcrClock,
            segmentDiscontinuity)
    }

    ghost predicate Ready()
      reads this
    {
      Crc32.IsTable(crcTable) && Valid(Now())
    }

    /** The table is a compile-time constant of the program. */
    constructor (table: seq<bv32>)
      requires Crc32.IsTable(table)
      ensures Ready() && Now() == Fresh
    {
      crcTable := table;
      continuityCounterVideo, continuityCounterAudio, continuityCounterPat, continuityCounterPmt := 0, 0, 0, 0;
      pcrClock := 0;
      segmentDiscontinuity := false;
    }

    method MarkSegmentDiscontinuity()
      requires Ready()
      modifies this
      ensures Ready() && Now() == After(old(Now()), Discontinuity)
    {
      segmentDiscontinuity := true;
    }

    /** Counters and clock go on into the next segment. */
    method ResetForNewSegment()
      requires Ready()
      ensures Ready() && Now() == After(Now(), NewSegment)
    {
    }

    method HardReset()
      requires Ready()
      modifies this
      ensures Ready() && Now() == Fresh
    {
      continuityCounterVideo, continuityCounterAudio, continuityCounterPat, continuityCounterPmt := 0, 0, 0, 0;
      pcrClock := 0;
      segmentDiscontinuity := false;
    }

    method UpdatePcr(timestampMs: nat)
      requires Ready()
      modifies this
      ensures Ready() && Now() == After(old(Now()), Clock(timestampMs))
    {
      pcrClock := timestampMs * 27000;
    }

    method GeneratePat() returns (output: seq<byte>)
      requires Ready()
      modifies this
      ensures Ready() && Now() == After(old(Now()), Pat)
      ensures AllWellformed(Emitted(old(Now()), Pat)) && output == EncodeAll(Emitted(old(Now()), Pat))
    {
      hide TablePackets, AllWellformed, EncodeAll, Crc32.IsTable, TablePayload, PatSection;
      var payload := PatPayload(crcTable);
      var discontinuity := segmentDiscontinuity;
      segmentDiscontinuity := false;
      output, continuityCounterPat := TableToTsPackets(PAT_PID, true, payload, continuityCounterPat, discontinuity);
    }

    method GeneratePmt(hasVideo: bool, hasAudio: bool) returns (output: seq<byte>)
      requires Ready()
      modifies this
      ensures var op := Pmt(hasVideo, hasAudio);
        && Ready() && Now() == After(old(Now()), op)
        && AllWellformed(Emitted(old(Now()), op)) && output == EncodeAll(Emitted(old(Now()), op))
    {
      hide TablePackets, AllWellformed, EncodeAll, Crc32.IsTable, TablePayload, PmtSection;
      var payload := PmtPayload(crcTable, hasVideo, hasAudio);
      output, continuityCounterPmt := TableToTsPackets(PMT_PID, true, payload, continuityCounterPmt, false);
    }

    method GeneratePatPmt(hasVideo: bool, hasAudio: bool) returns (output: seq<byte>)
      requires Ready()
      modifies this
      ensures Ready() && Valid(old(Now()))
      ensures var ops := [Pat, Pmt(hasVideo, hasAudio)];
        && Now() == RunState(old(Now()), ops) && AllWellformed(RunPackets(old(Now()), ops))
        && output == EncodeAll(RunPackets(old(Now()), ops))
    {
      hide TablePackets, AllWellformed, EncodeAll, Crc32.IsTable, TablePayload, PmtSection, PatSection, Emitted, After;
      ghost var s := Now();
      output := GeneratePat();
      ghost var s1 := Now();
      var pmt := GeneratePmt(hasVideo, hasAudio);
      output := output + pmt;
      TwoSteps(s, Pat, Pmt(hasVideo, hasAudio));
    }

    method FrameToTs(frame: MediaFrame) returns (output: seq<byte>)
      requires Ready()
      modifies this
      ensures var op := Frame(frame);
        && Ready() && Now() == After(old(Now()), op)
        && AllWellformed(Emitted(old(Now()), op)) && output == EncodeAll(Emitted(old(Now()), op))
    {
      hide PesPackets, AllWellformed, EncodeAll, Crc32.IsTable, PrepareH264Au, WrapAacAdts, PesOf;
      NoneWellformed();
      var pid := PidOf(frame.codec);
      var isVideo := IsVideo(frame.codec);
      var payload := if frame.codec == AAC then WrapAacAdts(frame.data)
                     else if isVideo then PrepareH264Au(frame.data)
                     else frame.data;
      if payload == [] {
        return [];
      }
      var pes := BuildPes(payload, frame.timestamp, isVideo);
      if isVideo {
        output, continuityCounterVideo := PesToTsPackets(pes, pid, isVideo, continuityCounterVideo, pcrClock);
      } else {
        output, continuityCounterAudio := PesToTsPackets(pes, pid, isVideo, continuityCounterAudio, pcrClock);
      }
    }
  }

  // ---------------------------------------------------------------- runs

  function RunState(s: State, ops: seq<Op>): State
    decreases |ops|
  {
    if ops == [] then s else RunState(After(s, ops[0]), ops[1..])
  }

  function RunPackets(s: State, ops: seq<Op>): seq<TsPacket>
    decreases |ops|
  {
    if ops == [] then [] else Emitted(s, ops[0]) + RunPackets(After(s, ops[0]), ops[1..])
  }

  lemma AfterValid(s: State, op: Op)
    requires Valid(s)
    ensures Valid(After(s, op))
  {
    hide Emitted;
  }

  lemma AllWellformedAppend(a: seq<TsPacket>, b: seq<TsPacket>)
    requires AllWellformed(a) && AllWellformed(b)
    ensures AllWellformed(a + b)
  {
    hide Wellformed;
  }

  lemma {:induction false} RunWellformed(s: State, ops: seq<Op>)
    requires Valid(s)
    ensures AllWellformed(RunPackets(s, ops)) && Valid(RunState(s, ops))
    decreases |ops|
  {
    hide Emitted, After, AllWellformed, Valid;
    NoneWellformed();
    if ops != [] {
      EmittedWellformed(s, ops[0]);
      AfterValid(s, ops[0]);
      RunWellformed(After(s, ops[0]), ops[1..]);
      AllWellformedAppend(Emitted(s, ops[0]), RunPackets(After(s, ops[0]), ops[1..]));
    }
  }

  lemma TwoSteps(s: State, a: Op, b: Op)
    requires Valid(s)
    ensures RunState(s, [a, b]) == After(After(s, a), b)
    ensures RunPackets(s, [a, b]) == Emitted(s, a) + Emitted(After(s, a), b)
    ensures AllWellformed(Emitted(s, a)) && AllWellformed(Emitted(After(s, a), b))
        && AllWellformed(RunPackets(s, [a, b]))
    ensures EncodeAll(RunPackets(s, [a, b])) == EncodeAll(Emitted(s, a)) + EncodeAll(Emitted(After(s, a), b))
  {
    hide Emitted, After, AllWellformed, EncodeAll, Valid;
    EmittedWellformed(s, a);
    AfterValid(s, a);
    EmittedWellformed(After(s, a), b);
    assert [a, b][1..] == [b] && [b][1..] == [];
    RunWellformed(s, [a, b]);
    assert Emitted(After(s, a), b) + [] == Emitted(After(s, a), b);
    assert RunState(After(s, a), [b]) == RunState(After(After(s, a), b), []);
    assert RunPackets(After(s, a), [b]) == Emitted(After(s, a), b) + RunPackets(After(After(s, a), b), []);
    assert [a, b][0] == a && [b][0] == b;
    EncodeAppend(Emitted(s, a), Emitted(After(s, a), b));
  }

  lemma {:induction false} RunAppend(s: State, a: seq<Op>, b: seq<Op>)
    ensures RunState(s, a + b) == RunState(RunState(s, a), b)
    ensures RunPackets(s, a + b) == RunPackets(s, a) + RunPackets(RunState(s, a), b)
    decreases |a|
  {
    hide Emitted, After;
    if a == [] {
      assert a + b == b;
    } else {
      assert (a + b)[1..] == a[1..] + b;
      RunAppend(After(s, a[0]), a[1..], b);
      Assoc(Emitted(s, a[0]), RunPackets(After(s, a[0]), a[1..]), RunPackets(RunState(s, a), b));
    }
  }

  /** The bytes of a longer run are the bytes of its two parts. */
  lemma RunEncoded(s: State, a: seq<Op>, b: seq<Op>)
    requires Valid(s)
    ensures Valid(RunState(s, a)) && AllWellformed(RunPackets(s, a)) && AllWellformed(RunPackets(RunState(s, a), b))
    ensures AllWellformed(RunPackets(s, a + b)) && RunState(s, a + b) == RunState(RunState(s, a), b)
    ensures EncodeAll(RunPackets(s, a + b)) == EncodeAll(RunPackets(s, a)) + EncodeAll(RunPackets(RunState(s, a), b))
  {
    hide *;
    RunWellformed(s, a);
    RunWellformed(RunState(s, a), b);
    RunWellformed(s, a + b);
    RunAppend(s, a, b);
    EncodeAppend(RunPackets(s, a), RunPackets(RunState(s, a), b));
  }
}
