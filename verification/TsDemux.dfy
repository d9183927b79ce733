/** A demultiplexer in the terms of ISO/IEC 13818-1, section 2.4.3, and what it makes of the packets the muxer cuts. */
module TsDemux {
  import opened Bytes
  import opened TsPackets

  // ---------------------------------------------------------------- reading packets

  /** A packet as it is read; its clock reference in ticks of 27 MHz. */
  datatype Packet = Packet(pid: nat, start: bool, cc: nat, discontinuity: bool, clock: Option<nat>, payload: seq<byte>)

  /** The clock reference of section 2.4.3.5: 33 bits at 90 kHz, six reserved bits, and nine bits that count to 300. */
  function ReadClock(f: seq<byte>): nat
    requires |f| == 6
  {
    var base := f[0] as int * 0x200_0000 + f[1] as int * 0x2_0000 + f[2] as int * 0x200 + f[3] as int * 2
        + f[4] as int / 128;
    300 * base + (f[4] as int % 2) * 256 + f[5] as int
  }

  /** An adaptation field of this length with nothing but a discontinuity, a clock reference, and stuffing. */
  predicate Plain(p: seq<byte>, size: nat)
    requires |p| == 188 && size <= 183
  {
    size > 0 ==>
      && p[5] % 0x80 in {0, 0x10} && (p[5] % 0x80 == 0x10 ==> size >= 7)
      && forall k :: (if p[5] % 0x80 == 0x10 then 12 else 6) <= k < 5 + size ==> p[k] == 0xFF
  }

  /** Header, adaptation field skipped by its length, payload; transport errors, scrambling and adaptation fields with
      anything else in them are refused. */
  function ParsePacket(p: seq<byte>): Option<Packet>
    requires |p| == 188
  {
    var pid := (p[1] as int) % 0x20 * 0x100 + p[2];
    var start := p[1] / 0x40 % 2 == 1;
    var cc := p[3] % 0x10;
    if p[0] != 0x47 || p[1] >= 0x80 then None
    else if p[3] / 0x10 == 1 then Some(Packet(pid, start, cc, false, None, p[4..]))
    else if p[3] / 0x10 == 3 && p[4] <= 183 && Plain(p, p[4]) then
      var clock := if p[4] >= 7 && p[5] / 0x10 % 2 == 1 then Some(ReadClock(p[6..12])) else None;
      Some(Packet(pid, start, cc, p[4] > 0 && p[5] >= 0x80, clock, p[5 + p[4]..]))
    else None
  }

  /** A byte stream as whole packets; nothing when it is not made of them. */
  function ReadPackets(stream: seq<byte>): Option<seq<Packet>>
    decreases |stream|
  {
    if stream == [] then Some([])
    else if |stream| < 188 then None
    else
      match ParsePacket(stream[..188])
      case None => None
      case Some(p) =>
        match ReadPackets(stream[188..])
        case None => None
        case Some(rest) => Some([p] + rest)
  }

  /** What a demultiplexer sees of a packet. */
  function View(t: TsPacket): Packet {
    Packet(t.pid, t.start, t.cc, t.field.Stuffing? && t.field.size > 1 && t.field.discontinuity,
           if t.field.Pcr? then Some(300 * (t.field.clock % 0x2_0000_0000)) else None, t.payload)
  }

  function Views(ts: seq<TsPacket>): (r: seq<Packet>)
    ensures |r| == |ts|
    ensures forall k :: 0 <= k < |ts| ==> r[k] == View(ts[k])
  {
    if ts == [] then [] else [View(ts[0])] + Views(ts[1..])
  }

  /** The header's numbers, read back from its bytes. */
  lemma HeaderRead(t: TsPacket)
    requires Wellformed(t)
    ensures var h, c := HeaderStart(t.pid, t.start), Control(t.field, t.cc);
      && h[0] == 0x47 && h[1] < 0x80 && (h[1] as int) % 0x20 * 0x100 + h[2] == t.pid
      && (h[1] / 0x40 % 2 == 1 <==> t.start)
      && c[0] % 0x10 == t.cc && c[0] / 0x10 == (if t.field.NoField? then 1 else 3)
  {
  }

  /** The bytes of a packet, part by part. */
  lemma PartsOf(h: seq<byte>, c: seq<byte>, field: seq<byte>, payload: seq<byte>)
    requires |h| == 3 && |c| == 1
    ensures var p := h + c + field + payload;
      && p[0] == h[0] && p[1] == h[1] && p[2] == h[2] && p[3] == c[0]
      && (field != [] ==> p[4] == field[0]) && (|field| > 1 ==> p[5] == field[1])
      && (|field| >= 8 ==> p[6..12] == field[2..8])
      && p[4 + |field|..] == payload
  {
  }

  lemma ParseEncoded(t: TsPacket)
    requires Wellformed(t)
    ensures |Encode(t)| == TS_PACKET_SIZE && ParsePacket(Encode(t)) == Some(View(t))
  {
    FieldLength(t.field);
    HeaderRead(t);
    if !t.field.NoField? {
      FieldStart(t.field);
    }
    hide FieldBytes, HeaderStart, Control;
    PartsOf(HeaderStart(t.pid, t.start), Control(t.field, t.cc), FieldBytes(t.field), t.payload);
  }

  lemma FieldStart(field: Adaptation)
    requires 0 < FieldSize(field) <= BODY
    ensures var b := FieldBytes(field);
      && |b| == FieldSize(field) && b[0] == |b| - 1
      && (|b| > 1 ==> (b[1] >= 0x80 <==> field.Stuffing? && field.discontinuity))
      && (|b| > 1 ==> (b[1] / 0x10 % 2 == 1 <==> field.Pcr?))
      && (field.Pcr? ==> |b| == 8 && ReadClock(b[2..8]) == 300 * (field.clock % 0x2_0000_0000))
  {
    if field.Pcr? {
      ClockRead(field.clock);
      assert FieldBytes(field)[2..8] == PcrField(field.clock);
      hide PcrField, ReadClock;
    }
  }

  /** What is written as a clock reference is read as its low 33 bits, at 90 kHz. */
  lemma ClockRead(clock: nat)
    ensures ReadClock(PcrField(clock)) == 300 * (clock % 0x2_0000_0000)
  {
    var low := clock % 0x2_0000_0000;
    Digits(clock);
    assert clock % 2 * 0x80 + 0x7E < 0x100;
  }

  /** The digits of 33 bits: four of eight, and the last one. */
  lemma Digits(clock: nat)
    ensures clock / 0x200_0000 % 0x100 * 0x200_0000 + clock / 0x2_0000 % 0x100 * 0x2_0000
        + clock / 0x200 % 0x100 * 0x200
         + clock / 2 % 0x100 * 2 + clock % 2 == clock % 0x2_0000_0000
  {
    var (a, b) := (clock / 2, clock / 0x200);
    var (c, d) := (clock / 0x2_0000, clock / 0x200_0000);
    assert a / 0x100 == b && b / 0x100 == c && c / 0x100 == d;
    var (q, low) := (d / 0x100, d % 0x100 * 0x200_0000 + c % 0x100 * 0x2_0000 + b % 0x100 * 0x200 + a % 0x100 * 2
                     + clock % 2);
    assert clock == 2 * a + clock % 2 && a == 0x100 * b + a % 0x100;
    assert b == 0x100 * c + b % 0x100 && c == 0x100 * d + c % 0x100 && d == 0x100 * q + d % 0x100;
    Remainder(clock, q, low);
  }

  lemma Remainder(x: nat, q: nat, low: nat)
    requires x == 0x2_0000_0000 * q + low && low < 0x2_0000_0000
    ensures x % 0x2_0000_0000 == low
  {
  }

  /** Every stream of encoded packets is read back, packet by packet. */
  lemma {:induction false} StreamRead(ts: seq<TsPacket>)
    requires AllWellformed(ts)
    ensures ReadPackets(EncodeAll(ts)) == Some(Views(ts))
    ensures |EncodeAll(ts)| == TS_PACKET_SIZE * |ts|
  {
    hide Encode, ParsePacket, View, Wellformed;
    if ts != [] {
      var e, rest := Encode(ts[0]), EncodeAll(ts[1..]);
      ParseEncoded(ts[0]);
      StreamRead(ts[1..]);
      assert (e + rest)[..TS_PACKET_SIZE] == e && (e + rest)[TS_PACKET_SIZE..] == rest;
      assert EncodeAll(ts) == e + rest;
      assert Views(ts) == [View(ts[0])] + Views(ts[1..]);
    }
  }

  lemma ViewsAppend(a: seq<TsPacket>, b: seq<TsPacket>)
    ensures Views(a + b) == Views(a) + Views(b)
  {
  }

  // ---------------------------------------------------------------- units and counters of one PID

  /** Units received so far: a start flag opens one, other packets continue the last. */
  function AddPacket(units: seq<seq<byte>>, p: Packet): seq<seq<byte>> {
    if p.start then units + [p.payload]
    else if units == [] then units
    else units[..|units| - 1] + [units[|units| - 1] + p.payload]
  }

  function Demux(units: seq<seq<byte>>, ps: seq<Packet>, pid: nat): seq<seq<byte>>
    decreases |ps|
  {
    if ps == [] then units
    else Demux(if ps[0].pid == pid then AddPacket(units, ps[0]) else units, ps[1..], pid)
  }

  lemma {:induction false} DemuxAppend(units: seq<seq<byte>>, a: seq<Packet>, b: seq<Packet>, pid: nat)
    ensures Demux(units, a + b, pid) == Demux(Demux(units, a, pid), b, pid)
    decreases |a|
  {
    hide AddPacket;
    if a == [] {
      assert a + b == b;
    } else {
      assert (a + b)[1..] == a[1..] + b;
      DemuxAppend(if a[0].pid == pid then AddPacket(units, a[0]) else units, a[1..], b, pid);
    }
  }

  /** The continuity counters of one PID, in order. */
  function CountersOn(ps: seq<Packet>, pid: nat): seq<nat> {
    if ps == [] then []
    else (if ps[0].pid == pid then [ps[0].cc] else []) + CountersOn(ps[1..], pid)
  }

  lemma {:induction false} CountersAppend(a: seq<Packet>, b: seq<Packet>, pid: nat)
    ensures CountersOn(a + b, pid) == CountersOn(a, pid) + CountersOn(b, pid)
  {
    if a == [] {
      assert a + b == b;
    } else {
      assert (a + b)[1..] == a[1..] + b;
      CountersAppend(a[1..], b, pid);
      Assoc(if a[0].pid == pid then [a[0].cc] else [], CountersOn(a[1..], pid), CountersOn(b, pid));
    }
  }

  /** The counter k packets after one that carried `from`. */
  function CounterAfter(from: nat, k: nat): nat {
    (from + k) % 16
  }

  /** Each counter one past the one before it, modulo 16, from the given one. */
  ghost predicate Consecutive(ccs: seq<nat>, from: nat) {
    forall k :: 0 <= k < |ccs| ==> ccs[k] == CounterAfter(from, k)
  }

  lemma ConsecutiveAppend(a: seq<nat>, b: seq<nat>, from: nat, middle: nat)
    requires Consecutive(a, from) && Consecutive(b, middle)
    requires middle == CounterAfter(from, |a|)
    ensures Consecutive(a + b, from)
  {
    hide CounterAfter;
    forall k | 0 <= k < |a + b| ensures (a + b)[k] == CounterAfter(from, k) {
      if k >= |a| {
        CounterSum(from, |a|, k - |a|);
      }
    }
  }

  lemma CounterSum(from: nat, n: nat, k: nat)
    ensures CounterAfter(CounterAfter(from, n), k) == CounterAfter(from, n + k)
  {
  }

  ghost predicate AllOn(ps: seq<Packet>, pid: nat) {
    forall p <- ps :: p.pid == pid
  }

  /** Packets of one PID leave every other alone, and their counters are all that PID gets. */
  lemma {:induction false} OnePid(units: seq<seq<byte>>, ps: seq<Packet>, pid: nat, other: nat)
    requires AllOn(ps, pid)
    ensures other != pid ==> Demux(units, ps, other) == units && CountersOn(ps, other) == []
    ensures |CountersOn(ps, pid)| == |ps| && forall k :: 0 <= k < |ps| ==> CountersOn(ps, pid)[k] == ps[k].cc
    decreases |ps|
  {
    if ps != [] {
      OnePid(units, ps[1..], pid, other);
    }
  }

  // ---------------------------------------------------------------- the packets of a PES

  /** What the payloads of a PES add up to: the PES, and for a short video one the rest of its packet. */
  function PesUnit(pes: seq<byte>, isVideo: bool): seq<byte> {
    if isVideo && |pes| < 176 then pes + Fill(176 - |pes|, 0xFF) else pes
  }

  lemma {:induction false} PesCounted(pes: seq<byte>, pid: nat, isVideo: bool, cc: nat, clock: nat, first: bool)
    requires cc < 16
    ensures var ts := PesPackets(pes, pid, isVideo, cc, clock, first);
      && AllOn(Views(ts), pid)
      && forall k :: 0 <= k < |ts| ==> ts[k].cc == CounterAfter(cc, k)
    decreases |pes|
  {
    if pes != [] {
      var t := PesHead(pes, pid, isVideo, cc, clock, first);
      assert t.pid == pid && t.cc == cc;
      hide PesHead, PesTaken;
      var rest := PesPackets(pes[PesTaken(pes, isVideo, first)..], pid, isVideo, Next(cc), clock, false);
      PesCounted(pes[PesTaken(pes, isVideo, first)..], pid, isVideo, Next(cc), clock, false);
      OneBefore(t, rest, cc);
      AllOnCons(View(t), Views(rest), pid);
      assert Views([t] + rest) == [View(t)] + Views(rest);
    }
  }

  lemma AllOnCons(p: Packet, ps: seq<Packet>, pid: nat)
    requires p.pid == pid && AllOn(ps, pid)
    ensures AllOn([p] + ps, pid)
  {
  }

  lemma OneBefore(t: TsPacket, rest: seq<TsPacket>, cc: nat)
    requires cc < 16 && t.cc == cc
    requires forall k :: 0 <= k < |rest| ==> rest[k].cc == CounterAfter(Next(cc), k)
    ensures forall k :: 0 <= k < |[t] + rest| ==> ([t] + rest)[k].cc == CounterAfter(cc, k)
  {
    forall k | 0 <= k < |[t] + rest| ensures ([t] + rest)[k].cc == CounterAfter(cc, k) {
      if k > 0 {
        CounterNext(cc, k - 1);
      }
    }
  }

  lemma CounterNext(cc: nat, k: nat)
    requires cc < 16
    ensures CounterAfter(Next(cc), k) == CounterAfter(cc, k + 1)
  {
  }

  /** Packets that only continue a unit add their payloads to it. */
  lemma {:induction false} PesContinues(units: seq<seq<byte>>, unit: seq<byte>, pes: seq<byte>, pid: nat,
                                        isVideo: bool, cc: nat, clock: nat)
    ensures Demux(units + [unit], Views(PesPackets(pes, pid, isVideo, cc, clock, false)), pid) == units + [unit + pes]
    decreases |pes|
  {
    if pes == [] {
      assert unit + pes == unit;
    } else {
      var n := PesTaken(pes, isVideo, false);
      var t := PesHead(pes, pid, isVideo, cc, clock, false);
      assert t.payload == pes[..n] && !t.start && t.pid == pid;
      hide PesHead;
      var rest := PesPackets(pes[n..], pid, isVideo, Next(cc), clock, false);
      assert Views([t] + rest)[1..] == Views(rest);
      assert AddPacket(units + [unit], View(t)) == units + [unit + pes[..n]];
      PesContinues(units, unit + pes[..n], pes[n..], pid, isVideo, Next(cc), clock);
      Assoc(unit, pes[..n], pes[n..]);
      assert pes[..n] + pes[n..] == pes;
    }
  }

  /** The packets of a PES are one unit: the PES itself, filled up only when it is a video PES under 176 bytes. */
  lemma PesDemuxed(units: seq<seq<byte>>, pes: seq<byte>, pid: nat, isVideo: bool, cc: nat, clock: nat)
    requires pes != []
    ensures Demux(units, Views(PesPackets(pes, pid, isVideo, cc, clock, true)), pid) == units + [PesUnit(pes, isVideo)]
  {
    var n := PesTaken(pes, isVideo, true);
    var t := PesHead(pes, pid, isVideo, cc, clock, true);
    var rest := PesPackets(pes[n..], pid, isVideo, Next(cc), clock, false);
    assert t.start && t.pid == pid;
    assert t.payload + pes[n..] == PesUnit(pes, isVideo);
    hide PesHead, PesUnit;
    assert Views([t] + rest)[1..] == Views(rest);
    PesContinues(units, t.payload, pes[n..], pid, isVideo, Next(cc), clock);
  }

  // ---------------------------------------------------------------- the packets of a table

  lemma {:induction false} TableRestCounted(payload: seq<byte>, pid: nat, cc: nat)
    requires cc < 16
    ensures var ts := TableRest(payload, pid, cc);
      && AllOn(Views(ts), pid)
      && forall k :: 0 <= k < |ts| ==> ts[k].cc == CounterAfter(cc, k)
    decreases |payload|
  {
    if payload != [] {
      var n := TableTaken(payload, false);
      var t := TableHead(payload, pid, false, cc, false);
      assert t.pid == pid && t.cc == cc;
      hide TableHead, TableTaken;
      var rest := TableRest(payload[n..], pid, Next(cc));
      TableRestCounted(payload[n..], pid, Next(cc));
      OneBefore(t, rest, cc);
      AllOnCons(View(t), Views(rest), pid);
      assert Views([t] + rest) == [View(t)] + Views(rest);
    }
  }

  lemma TableCounted(payload: seq<byte>, pid: nat, start: bool, cc: nat, flagged: bool)
    requires cc < 16
    ensures var ts := TablePackets(payload, pid, start, cc, flagged);
      && AllOn(Views(ts), pid)
      && forall k :: 0 <= k < |ts| ==> ts[k].cc == CounterAfter(cc, k)
  {
    if payload != [] {
      var n := TableTaken(payload, flagged);
      var t := TableHead(payload, pid, start, cc, flagged);
      assert t.pid == pid && t.cc == cc;
      hide TableHead, TableTaken;
      var rest := TableRest(payload[n..], pid, Next(cc));
      TableRestCounted(payload[n..], pid, Next(cc));
      OneBefore(t, rest, cc);
      AllOnCons(View(t), Views(rest), pid);
      assert Views([t] + rest) == [View(t)] + Views(rest);
    }
  }

  lemma {:induction false} TableContinues(units: seq<seq<byte>>, unit: seq<byte>, payload: seq<byte>, pid: nat, cc: nat)
    ensures Demux(units + [unit], Views(TableRest(payload, pid, cc)), pid) == units + [unit + payload]
    decreases |payload|
  {
    if payload == [] {
      assert unit + payload == unit;
    } else {
      var n := TableTaken(payload, false);
      var t := TableHead(payload, pid, false, cc, false);
      assert t.payload == payload[..n] && !t.start && t.pid == pid;
      hide TableHead;
      var rest := TableRest(payload[n..], pid, Next(cc));
      assert Views([t] + rest)[1..] == Views(rest);
      assert AddPacket(units + [unit], View(t)) == units + [unit + payload[..n]];
      TableContinues(units, unit + payload[..n], payload[n..], pid, Next(cc));
      Assoc(unit, payload[..n], payload[n..]);
      assert payload[..n] + payload[n..] == payload;
    }
  }

  /** A table payload comes back whole and alone, and its first packet says so when a discontinuity was due. */
  lemma TableDemuxed(units: seq<seq<byte>>, payload: seq<byte>, pid: nat, cc: nat, flagged: bool)
    requires payload != []
    ensures var ps := Views(TablePackets(payload, pid, true, cc, flagged));
      && Demux(units, ps, pid) == units + [payload]
      && ps != [] && ps[0].discontinuity == flagged
      && forall k :: 0 < k < |ps| ==> !ps[k].discontinuity
  {
    var n := TableTaken(payload, flagged);
    var t := TableHead(payload, pid, true, cc, flagged);
    assert t.payload == payload[..n] && t.start && t.pid == pid && View(t).discontinuity == flagged;
    hide TableHead;
    var rest := TableRest(payload[n..], pid, Next(cc));
    assert Views([t] + rest)[1..] == Views(rest);
    TableContinues(units, payload[..n], payload[n..], pid, Next(cc));
    assert payload[..n] + payload[n..] == payload;
    Unflagged(payload[n..], pid, Next(cc));
  }

  lemma {:induction false} Unflagged(payload: seq<byte>, pid: nat, cc: nat)
    ensures forall p <- Views(TableRest(payload, pid, cc)) :: !p.discontinuity
    decreases |payload|
  {
    if payload != [] {
      var n := TableTaken(payload, false);
      var t := TableHead(payload, pid, false, cc, false);
      assert !View(t).discontinuity;
      hide TableHead, TableTaken;
      var rest := TableRest(payload[n..], pid, Next(cc));
      Unflagged(payload[n..], pid, Next(cc));
      assert Views([t] + rest) == [View(t)] + Views(rest);
    }
  }
}
