/** The clock references of a transport stream: which packets carry one, and what time a decoder takes from it. */
module TsClocks {
  import opened Bytes
  import opened Media
  import opened TsPackets
  import opened TsDemux
  import opened TsTables
  import opened TsMuxer

  const CLOCK_PERIOD := 0x2_0000_0000

  lemma {:induction false} LaterPackets(pes: seq<byte>, pid: nat, isVideo: bool, cc: nat, clock: nat)
    ensures forall p <- PesPackets(pes, pid, isVideo, cc, clock, false) :: !p.field.Pcr?
    decreases |pes|
  {
    if pes != [] {
      LaterPackets(pes[PesTaken(pes, isVideo, false)..], pid, isVideo, Next(cc), clock);
    }
  }

  /** Video carries the clock in the first packet of every frame, and nothing else carries one. */
  lemma FrameClock(s: State, frame: MediaFrame)
    ensures var ps := Views(Emitted(s, Frame(frame)));
      forall k :: 0 <= k < |ps| ==>
        ps[k].clock == if k == 0 && frame.codec in {H264, H265} then Some(300 * (s.clock % CLOCK_PERIOD)) else None
  {
    var cc := if IsVideo(frame.codec) then s.video else s.audio;
    var ps := Emitted(s, Frame(frame));
    if ps != [] {
      var (pes, pid, isVideo) := (FramePes(frame), PidOf(frame.codec), IsVideo(frame.codec));
      LaterPackets(pes[PesTaken(pes, isVideo, true)..], pid, isVideo, Next(cc), s.clock);
      assert ps == PesPackets(pes, pid, isVideo, cc, s.clock, true);
      assert forall k :: 0 < k < |ps| ==> ps[k] in ps[1..];
    }
    hide FramePes;
  }

  lemma {:induction false} RestClocks(payload: seq<byte>, pid: nat, cc: nat)
    ensures forall p <- TableRest(payload, pid, cc) :: !p.field.Pcr?
    decreases |payload|
  {
    if payload != [] {
      RestClocks(payload[TableTaken(payload, false)..], pid, Next(cc));
    }
  }

  lemma TableClock(payload: seq<byte>, pid: nat, start: bool, cc: nat, flagged: bool)
    ensures forall v <- Views(TablePackets(payload, pid, start, cc, flagged)) :: v.clock == None
  {
    var ps := TablePackets(payload, pid, start, cc, flagged);
    if payload != [] {
      RestClocks(payload[TableTaken(payload, flagged)..], pid, Next(cc));
      assert ps[1..] == TableRest(payload[TableTaken(payload, flagged)..], pid, Next(cc));
      assert forall k :: 0 < k < |ps| ==> ps[k] in ps[1..];
    }
  }

  /** The tables carry no clock. */
  lemma TablesHaveNone(s: State, hasVideo: bool, hasAudio: bool)
    ensures forall v <- Views(Emitted(s, Pat)) + Views(Emitted(s, Pmt(hasVideo, hasAudio))) :: v.clock == None
  {
    hide TablePackets, TablePayload, PatSection, PmtSection;
    TableClock(TablePayload(PatSection()), PAT_PID, true, s.pat, s.flagged);
    TableClock(TablePayload(PmtSection(hasVideo, hasAudio)), PMT_PID, true, s.pmt, false);
  }

  // ---------------------------------------------------------------- what time it is

  /** A clock set to some milliseconds, in ticks of 27 MHz as a decoder reads it in a frame. */
  function ClockSeen(ms: nat): nat {
    300 * (27_000 * ms % CLOCK_PERIOD)
  }

  lemma ClockSet(s: State, ms: nat, frame: MediaFrame)
    requires frame.codec in {H264, H265}
    ensures var ps := Views(Emitted(After(s, Clock(ms)), Frame(frame)));
      ps != [] ==> ps[0].clock == Some(ClockSeen(ms))
  {
    FrameClock(After(s, Clock(ms)), frame);
    hide Emitted;
  }

  /** The count written has 27 million ticks a second in a field that counts 90 thousand, so it runs 300 times too fast:
      it is the right one if and only if the time is a multiple of 2^32 milliseconds. */
  lemma ClockRightIff(ms: nat)
    ensures ClockSeen(ms) == 27_000 * ms % (300 * CLOCK_PERIOD) <==> ms % 0x1_0000_0000 == 0
  {
    var (fast, right) := (27_000 * ms, 90 * ms);
    Scaled(right);
    SameRemainder(fast, right);
    OddFactor(ms);
  }

  lemma Scaled(x: nat)
    ensures 300 * x % (300 * CLOCK_PERIOD) == 300 * (x % CLOCK_PERIOD)
  {
    var (q, r) := (x / 0x2_0000_0000, x % 0x2_0000_0000);
    Remainder300(300 * x, q, 300 * r);
  }

  lemma Remainder300(x: nat, q: nat, r: nat)
    requires x == 0x258_0000_0000 * q + r && r < 0x258_0000_0000
    ensures x % 0x258_0000_0000 == r
  {
  }

  lemma SameRemainder(a: nat, b: nat)
    requires a >= b
    ensures a % CLOCK_PERIOD == b % CLOCK_PERIOD <==> (a - b) % CLOCK_PERIOD == 0
  {
  }

  /** 26910 is twice an odd number, whose inverse modulo 2^32 is 1115318895. */
  lemma OddFactor(ms: nat)
    ensures 26_910 * ms % CLOCK_PERIOD == 0 <==> ms % 0x1_0000_0000 == 0
  {
    if 26_910 * ms % 0x2_0000_0000 == 0 {
      var q := 26_910 * ms / 0x2_0000_0000;
      Multiple(ms, 1_115_318_895 * q - 3_494 * ms);
    } else if ms % 0x1_0000_0000 == 0 {
      var k := ms / 0x1_0000_0000;
      NoRemainder(26_910 * ms, 13_455 * k);
    }
  }

  lemma Multiple(x: nat, k: int)
    requires x == 0x1_0000_0000 * k
    ensures x % 0x1_0000_0000 == 0
  {
  }

  lemma NoRemainder(x: nat, k: nat)
    requires x == 0x2_0000_0000 * k
    ensures x % 0x2_0000_0000 == 0
  {
  }
}
