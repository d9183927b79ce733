/** The 188-byte transport packet layer: how a payload is cut into packets, and how a demultiplexer reads them. */
module TsPackets {
  import opened Bytes

  const TS_PACKET_SIZE := 188
  const SYNC_BYTE: byte := 0x47
  /** What a packet holds after its four header bytes. */
  const BODY := 184
  /** What the first packet of a video PES holds after the header and the eight bytes of the PCR field. */
  const PCR_BODY := 176

  // ---------------------------------------------------------------- packets

  /** The bytes between the header and the payload: nothing, stuffing, or a clock reference. */
  datatype Adaptation = NoField | Stuffing(size: nat, discontinuity: bool) | Pcr(clock: nat)

  datatype TsPacket = TsPacket(pid: nat, start: bool, cc: nat, field: Adaptation, payload: seq<byte>)

  function FieldSize(field: Adaptation): nat {
    match field
    case NoField => 0
    case Stuffing(size, _) => size
    case Pcr(_) => 8
  }

  predicate Wellformed(t: TsPacket) {
    t.pid < 0x2000 && t.cc < 16 && FieldSize(t.field) + |t.payload| == BODY
    && (t.field.Stuffing? ==> t.field.size > 0)
  }

  function HeaderStart(pid: nat, start: bool): (r: seq<byte>)
    requires pid < 0x2000
    ensures |r| == 3
  {
    [SYNC_BYTE, pid / 0x100 + (if start then 0x40 else 0), pid % 0x100]
  }

  /** The fourth header byte: whether an adaptation field is there, and the counter. */
  function Control(field: Adaptation, cc: nat): (r: seq<byte>)
    requires cc < 16
    ensures |r| == 1
  {
    [(if field.NoField? then 0x10 else 0x30) + cc]
  }

  /** The clock reference as it is written: the low 33 bits of the count, six reserved ones, a zero extension. */
  function PcrField(clock: nat): (r: seq<byte>)
    ensures |r| == 6
  {
    [clock / 0x200_0000 % 0x100, clock / 0x2_0000 % 0x100, clock / 0x200 % 0x100, clock / 2 % 0x100,
     clock % 2 * 0x80 + 0x7E, 0]
  }

  function FieldBytes(field: Adaptation): seq<byte>
    requires FieldSize(field) <= BODY
  {
    match field
    case NoField => []
    case Stuffing(size, discontinuity) =>
      if size == 0 then []
      else if size == 1 then [0]
      else [size - 1, if discontinuity then 0x80 else 0] + Fill(size - 2, 0xFF)
    case Pcr(clock) => [7, 0x10] + PcrField(clock)
  }

  function Encode(t: TsPacket): seq<byte>
    requires Wellformed(t)
  {
    HeaderStart(t.pid, t.start) + Control(t.field, t.cc) + FieldBytes(t.field) + t.payload
  }

  predicate AllWellformed(ts: seq<TsPacket>) {
    forall t <- ts :: Wellformed(t)
  }

  function EncodeAll(ts: seq<TsPacket>): seq<byte>
    requires AllWellformed(ts)
  {
    if ts == [] then [] else Encode(ts[0]) + EncodeAll(ts[1..])
  }

  lemma {:induction false} EncodeAppend(a: seq<TsPacket>, b: seq<TsPacket>)
    requires AllWellformed(a) && AllWellformed(b)
    ensures EncodeAll(a + b) == EncodeAll(a) + EncodeAll(b)
  {
    hide Encode, Wellformed;
    if a == [] {
      assert a + b == b;
    } else {
      EncodeAppend(a[1..], b);
      assert (a + b)[1..] == a[1..] + b;
      Assoc(Encode(a[0]), EncodeAll(a[1..]), EncodeAll(b));
    }
  }

  // ---------------------------------------------------------------- cutting payloads

  function Next(cc: nat): (r: nat)
    ensures r < 16
  {
    (cc + 1) % 16
  }

  /** The packet that takes the front of a PES, or of what is left of it. */
  function PesHead(pes: seq<byte>, pid: nat, isVideo: bool, cc: nat, clock: nat, first: bool): TsPacket {
    if first && isVideo then
      if |pes| < PCR_BODY then TsPacket(pid, true, cc, Pcr(clock), pes + Fill(PCR_BODY - |pes|, 0xFF))
      else TsPacket(pid, true, cc, Pcr(clock), pes[..PCR_BODY])
    else if |pes| < BODY then TsPacket(pid, first, cc, Stuffing(BODY - |pes|, false), pes)
    else TsPacket(pid, first, cc, NoField, pes[..BODY])
  }

  function PesTaken(pes: seq<byte>, isVideo: bool, first: bool): (n: nat)
    ensures n <= |pes| && (pes != [] ==> n > 0)
  {
    Min(|pes|, if first && isVideo then PCR_BODY else BODY)
  }

  function PesPackets(pes: seq<byte>, pid: nat, isVideo: bool, cc: nat, clock: nat, first: bool): seq<TsPacket>
    decreases |pes|
  {
    if pes == [] then [] else
    [PesHead(pes, pid, isVideo, cc, clock, first)]
    + PesPackets(pes[PesTaken(pes, isVideo, first)..], pid, isVideo, Next(cc), clock, false)
  }

  /** The stuffing in front of a table payload: a discontinuity needs at least the two bytes of its flag. */
  function TableStuffing(payload: seq<byte>, flagged: bool): (n: nat)
    ensures n <= BODY
  {
    var fill := BODY - Min(|payload|, BODY);
    if flagged && fill < 2 then 2 else fill
  }

  function TableTaken(payload: seq<byte>, flagged: bool): (n: nat)
    ensures n <= |payload| && (payload != [] ==> n > 0)
  {
    Min(|payload|, BODY - TableStuffing(payload, flagged))
  }

  function TableHead(payload: seq<byte>, pid: nat, start: bool, cc: nat, flagged: bool): TsPacket {
    var stuffing := TableStuffing(payload, flagged);
    TsPacket(pid, start, cc, if stuffing == 0 then NoField else Stuffing(stuffing, flagged),
             payload[..TableTaken(payload, flagged)])
  }

  function TableRest(payload: seq<byte>, pid: nat, cc: nat): seq<TsPacket>
    decreases |payload|
  {
    if payload == [] then [] else
    [TableHead(payload, pid, false, cc, false)] + TableRest(payload[TableTaken(payload, false)..], pid, Next(cc))
  }

  /** A table payload as packets; an empty one still makes a packet, of zeros. */
  function TablePackets(payload: seq<byte>, pid: nat, start: bool, cc: nat, flagged: bool): seq<TsPacket> {
    if payload == [] then [TsPacket(pid, start, cc, NoField, Fill(BODY, 0))] else
    [TableHead(payload, pid, start, cc, flagged)]
    + TableRest(payload[TableTaken(payload, flagged)..], pid, Next(cc))
  }

  lemma PesHeadWellformed(pes: seq<byte>, pid: nat, isVideo: bool, cc: nat, clock: nat, first: bool)
    requires pes != [] && pid < 0x2000 && cc < 16
    ensures Wellformed(PesHead(pes, pid, isVideo, cc, clock, first))
  {
  }

  lemma {:induction false} PesWellformed(pes: seq<byte>, pid: nat, isVideo: bool, cc: nat, clock: nat, first: bool)
    requires pid < 0x2000 && cc < 16
    ensures AllWellformed(PesPackets(pes, pid, isVideo, cc, clock, first))
    decreases |pes|
  {
    hide Wellformed, PesHead;
    if pes != [] {
      PesHeadWellformed(pes, pid, isVideo, cc, clock, first);
      PesWellformed(pes[PesTaken(pes, isVideo, first)..], pid, isVideo, Next(cc), clock, false);
    }
  }

  lemma TableHeadWellformed(payload: seq<byte>, pid: nat, start: bool, cc: nat, flagged: bool)
    requires payload != [] && pid < 0x2000 && cc < 16
    ensures Wellformed(TableHead(payload, pid, start, cc, flagged))
  {
  }

  lemma {:induction false} TableRestWellformed(payload: seq<byte>, pid: nat, cc: nat)
    requires pid < 0x2000 && cc < 16
    ensures AllWellformed(TableRest(payload, pid, cc))
    decreases |payload|
  {
    hide Wellformed, TableHead;
    if payload != [] {
      TableHeadWellformed(payload, pid, false, cc, false);
      TableRestWellformed(payload[TableTaken(payload, false)..], pid, Next(cc));
    }
  }

  lemma TableWellformed(payload: seq<byte>, pid: nat, start: bool, cc: nat, flagged: bool)
    requires pid < 0x2000 && cc < 16
    ensures AllWellformed(TablePackets(payload, pid, start, cc, flagged))
  {
    hide TableHead, TableRest;
    if payload != [] {
      TableHeadWellformed(payload, pid, start, cc, flagged);
      hide Wellformed;
      TableRestWellformed(payload[TableTaken(payload, flagged)..], pid, Next(cc));
    }
  }

  // ---------------------------------------------------------------- filling packets in place

  /** s with src written over it from position `at`. */
  function Patched(s: seq<byte>, at: nat, src: seq<byte>): (r: seq<byte>)
    requires at + |src| <= |s|
    ensures |r| == |s|
  {
    s[..at] + src + s[at + |src|..]
  }

  lemma PatchedEnd(s: seq<byte>, done: seq<byte>, tail: seq<byte>, src: seq<byte>)
    requires s == done + tail && |src| <= |tail|
    ensures Patched(s, |done|, src) == done + src + tail[|src|..]
  {
  }

  lemma PatchedTwice(s: seq<byte>, at: nat, a: seq<byte>, b: seq<byte>)
    requires at + |a| + |b| <= |s|
    ensures Patched(Patched(s, at, a), at + |a|, b) == Patched(s, at, a + b)
  {
  }

  lemma FillDrop(n: nat, k: nat, b: byte)
    requires k <= n
    ensures Fill(n, b)[k..] == Fill(n - k, b)
  {
  }

  lemma PatchedByte(s: seq<byte>, at: nat, src: seq<byte>, i: nat)
    requires at + |src| <= |s| && i < |src|
    ensures Patched(s, at, src[..i])[at + i := src[i]] == Patched(s, at, src[..i + 1])
  {
  }

  method CopyInto(packet: array<byte>, at: nat, src: seq<byte>)
    requires at + |src| <= packet.Length
    modifies packet
    ensures packet[..] == Patched(old(packet[..]), at, src)
  {
    for i := 0 to |src|
      invariant packet[..] == Patched(old(packet[..]), at, src[..i])
    {
      hide Patched;
      PatchedByte(old(packet[..]), at, src, i);
      ghost var before := packet[..];
      packet[at + i] := src[i];
      assert packet[..] == before[at + i := src[i]];
    }
    assert src[..|src|] == src;
  }

  method FillWith(packet: array<byte>, from: nat, until: nat, b: byte)
    requires from <= until <= packet.Length
    modifies packet
    ensures packet[..] == Patched(old(packet[..]), from, Fill(until - from, b))
  {
    for i := from to until
      invariant packet[..] == Patched(old(packet[..]), from, Fill(i - from, b))
    {
      hide Patched;
      var k := i - from;
      assert Fill(until - from, b)[..k] == Fill(k, b) && Fill(until - from, b)[..k + 1] == Fill(k + 1, b);
      PatchedByte(old(packet[..]), from, Fill(until - from, b), k);
      ghost var before := packet[..];
      packet[i] := b;
      assert packet[..] == before[i := b];
    }
  }

  method WriteHeader(packet: array<byte>, pid: nat, start: bool)
    requires packet.Length == TS_PACKET_SIZE && pid < 0x2000
    modifies packet
    ensures packet[..] == Patched(old(packet[..]), 0, HeaderStart(pid, start))
  {
    packet[0] := SYNC_BYTE;
    packet[1] := pid / 0x100 % 0x20;
    packet[2] := pid % 0x100;
    if start {
      packet[1] := packet[1] + 0x40;
    }
  }

  /** A minimal adaptation field, for a discontinuity or a clock reference or both; without a clock reference its flags
      stand behind a field of declared length zero. */
  method WriteAdaptationPrefix(packet: array<byte>, cc: nat, discontinuity: bool, clock: Option<nat>)
      returns (payloadStart: nat)
    requires packet.Length == TS_PACKET_SIZE && cc < 16
    modifies packet
    ensures payloadStart == if clock.Some? then 12 else 6
    ensures packet[..] == Patched(old(packet[..]), 3,
      [0x30 + cc, if clock.Some? then 7 else 0, (if discontinuity then 0x80 else 0) + (if clock.Some? then 0x10 else 0)]
      + (if clock.Some? then PcrField(clock.value) else []))
  {
    hide PcrField;
    var flags: byte := 0;
    if discontinuity {
      flags := flags + 0x80;
    }
    if clock.Some? {
      flags := flags + 0x10;
    }
    packet[3] := 0x30 + cc;
    packet[4] := if clock.Some? then 7 else 0;
    packet[5] := flags;
    payloadStart := 6;
    ghost var front := [0x30 + cc, if clock.Some? then 7 else 0, flags];
    assert packet[..] == Patched(old(packet[..]), 3, front);
    if clock.Some? {
      PatchedTwice(old(packet[..]), 3, front, PcrField(clock.value));
      CopyInto(packet, 6, PcrField(clock.value));
      payloadStart := 12;
    }
    assert front + [] == front;
  }

  /** The field a video PES gets. */
  lemma PcrPrefix(clock: nat, cc: nat)
    requires cc < 16
    ensures [0x30 + cc, 7, 0x10] + PcrField(clock) == Control(Pcr(clock), cc) + FieldBytes(Pcr(clock))
  {
    hide PcrField;
  }

  /** Stuffing of the given size in front of the payload; a single byte has no room for the flags. */
  method WriteStuffing(packet: array<byte>, cc: nat, size: nat, discontinuity: bool)
    requires packet.Length == TS_PACKET_SIZE && cc < 16 && 0 < size <= BODY
    modifies packet
    ensures var field := Stuffing(size, discontinuity);
      packet[..] == Patched(old(packet[..]), 3, Control(field, cc) + FieldBytes(field))
  {
    packet[3] := 0x30 + cc;
    packet[4] := size - 1;
    if size > 1 {
      var flags: byte := if discontinuity then 0x80 else 0;
      packet[5] := flags;
      assert packet[..] == Patched(old(packet[..]), 3, [0x30 + cc, size - 1, flags]);
      PatchedTwice(old(packet[..]), 3, [0x30 + cc, size - 1, flags], Fill(size - 2, 0xFF));
      FillWith(packet, 6, 4 + size, 0xFF);
      assert [0x30 + cc, size - 1, flags] + Fill(size - 2, 0xFF)
          == Control(Stuffing(size, discontinuity), cc) + FieldBytes(Stuffing(size, discontinuity));
    }
  }

  method WritePlain(packet: array<byte>, cc: nat)
    requires packet.Length == TS_PACKET_SIZE && cc < 16
    modifies packet
    ensures packet[..] == Patched(old(packet[..]), 3, Control(NoField, cc) + FieldBytes(NoField))
  {
    packet[3] := 0x10 + cc;
  }

  /** Header, field and payload written over a filled packet, one after the other. */
  lemma Assembled(s: seq<byte>, b: byte, t: TsPacket, src: seq<byte>)
    requires s == Fill(TS_PACKET_SIZE, b) && Wellformed(t) && |src| <= |t.payload|
    requires t.payload == src + Fill(|t.payload| - |src|, b)
    ensures var front := Control(t.field, t.cc) + FieldBytes(t.field);
      && |front| == 1 + FieldSize(t.field)
      && Patched(Patched(Patched(s, 0, HeaderStart(t.pid, t.start)), 3, front), 4 + FieldSize(t.field), src)
          == Encode(t)
  {
    FieldLength(t.field);
    hide Wellformed, HeaderStart, Control, FieldBytes, FieldSize;
    var start := HeaderStart(t.pid, t.start);
    var front := Control(t.field, t.cc) + FieldBytes(t.field);
    PatchedEnd(s, [], s, start);
    FillDrop(TS_PACKET_SIZE, 3, b);
    assert [] + start + s[3..] == start + Fill(185, b);
    var s1 := Patched(s, 0, start);
    PatchedEnd(s1, start, Fill(185, b), front);
    FillDrop(185, |front|, b);
    var s2 := Patched(s1, 3, front);
    PatchedEnd(s2, start + front, Fill(185 - |front|, b), src);
    FillDrop(185 - |front|, |src|, b);
    Assoc(start + front, src, Fill(185 - |front| - |src|, b));
    Assoc(start, Control(t.field, t.cc), FieldBytes(t.field));
  }

  lemma FieldLength(field: Adaptation)
    requires FieldSize(field) <= BODY
    ensures |FieldBytes(field)| == FieldSize(field)
  {
  }

  lemma EncodeOne(ts: seq<TsPacket>, t: TsPacket)
    requires AllWellformed(ts) && Wellformed(t)
    ensures AllWellformed(ts + [t]) && EncodeAll(ts + [t]) == EncodeAll(ts) + Encode(t)
  {
    hide Encode, Wellformed;
    EncodeAppend(ts, [t]);
    assert EncodeAll([t]) == Encode(t) + EncodeAll([]);
  }

  lemma PesHeadBody(pes: seq<byte>, pid: nat, isVideo: bool, cc: nat, clock: nat, first: bool)
    requires pes != []
    ensures var t, n := PesHead(pes, pid, isVideo, cc, clock, first), PesTaken(pes, isVideo, first);
      && t.pid == pid && t.start == first && t.cc == cc
      && t.field == (if first && isVideo then Pcr(clock) else if n < BODY then Stuffing(BODY - n, false) else NoField)
      && n <= |t.payload| && t.payload == pes[..n] + Fill(|t.payload| - n, 0xFF)
  {
  }

  /** Stuffing written where a plain control byte already stood. */
  lemma PlainOverwritten(s: seq<byte>, cc: nat, field: Adaptation)
    requires |s| == TS_PACKET_SIZE && cc < 16 && field.Stuffing? && 0 < field.size <= BODY
    ensures var front := Control(field, cc) + FieldBytes(field);
      && 3 + |front| <= |s|
      && Patched(Patched(s, 3, Control(NoField, cc) + FieldBytes(NoField)), 3, front) == Patched(s, 3, front)
  {
    FieldLength(field);
    hide FieldBytes;
  }

  /** One packet of a PES, filled in place; `first` is the packet that opens it. */
  method PesPacket(pes: seq<byte>, pid: nat, isVideo: bool, cc: nat, clock: nat, first: bool)
    returns (packet: array<byte>, copyLen: nat)
    requires pes != [] && pid < 0x2000 && cc < 16
    ensures fresh(packet) && packet.Length == TS_PACKET_SIZE && copyLen == PesTaken(pes, isVideo, first)
    ensures Wellformed(PesHead(pes, pid, isVideo, cc, clock, first))
    ensures packet[..] == Encode(PesHead(pes, pid, isVideo, cc, clock, first))
  {
    PesHeadWellformed(pes, pid, isVideo, cc, clock, first);
    PesHeadBody(pes, pid, isVideo, cc, clock, first);
    ghost var t := PesHead(pes, pid, isVideo, cc, clock, first);
    hide PesHead, FieldBytes, Patched, HeaderStart, Control, Encode, Wellformed;
    packet := new byte[TS_PACKET_SIZE](_ => 0xFF);
    ghost var blank := packet[..];
    assert blank == Fill(TS_PACKET_SIZE, 0xFF);
    hide Fill;
    WriteHeader(packet, pid, first);
    ghost var headed := packet[..];
    var payloadStart: nat := 4;
    if first && isVideo {
      PcrPrefix(clock, cc);
      payloadStart := WriteAdaptationPrefix(packet, cc, false, Some(clock));
    } else {
      WritePlain(packet, cc);
    }
    var room := TS_PACKET_SIZE - payloadStart;
    copyLen := Min(|pes|, room);
    if copyLen < room && payloadStart == 4 {
      var stuffing := room - copyLen;
      PlainOverwritten(headed, cc, Stuffing(stuffing, false));
      WriteStuffing(packet, cc, stuffing, false);
      payloadStart := 4 + stuffing;
      copyLen := Min(|pes|, TS_PACKET_SIZE - payloadStart);
    }
    CopyInto(packet, payloadStart, pes[..copyLen]);
    Assembled(blank, 0xFF, t, pes[..copyLen]);
  }

  /** The packets still to come from a position, one packet later. */
  lemma PesStep(pes: seq<byte>, offset: nat, pid: nat, isVideo: bool, cc: nat, clock: nat, first: bool)
    requires offset < |pes|
    ensures var n := offset + PesTaken(pes[offset..], isVideo, first);
      && n <= |pes|
      && PesPackets(pes[offset..], pid, isVideo, cc, clock, first)
         == [PesHead(pes[offset..], pid, isVideo, cc, clock, first)]
            + PesPackets(pes[n..], pid, isVideo, Next(cc), clock, false)
  {
    hide PesHead;
    var n := PesTaken(pes[offset..], isVideo, first);
    assert pes[offset..][n..] == pes[offset + n..];
  }

  lemma NoneLeft(payload: seq<byte>, pid: nat, isVideo: bool, cc: nat, clock: nat, first: bool)
    ensures PesPackets(payload[|payload|..], pid, isVideo, cc, clock, first) == []
    ensures TableRest(payload[|payload|..], pid, cc) == []
  {
  }

  lemma EncodeNone()
    ensures EncodeAll([]) == []
  {
  }

  lemma TableStep(payload: seq<byte>, offset: nat, pid: nat, cc: nat)
    requires offset < |payload|
    ensures var n := offset + TableTaken(payload[offset..], false);
      && n <= |payload|
      && TableRest(payload[offset..], pid, cc)
         == [TableHead(payload[offset..], pid, false, cc, false)] + TableRest(payload[n..], pid, Next(cc))
  {
    hide TableHead;
    var n := TableTaken(payload[offset..], false);
    assert payload[offset..][n..] == payload[offset + n..];
  }

  method PesToTsPackets(pes: seq<byte>, pid: nat, isVideo: bool, start: nat, clock: nat)
    returns (output: seq<byte>, cc: nat)
    requires pid < 0x2000 && start < 16
    ensures AllWellformed(PesPackets(pes, pid, isVideo, start, clock, true))
    ensures output == EncodeAll(PesPackets(pes, pid, isVideo, start, clock, true))
    ensures cc < 16 && cc == (start + |PesPackets(pes, pid, isVideo, start, clock, true)|) % 16
  {
    hide Wellformed, Encode, PesHead, PesPackets, PesTaken, EncodeAll;
    EncodeNone();
    ghost var all := PesPackets(pes, pid, isVideo, start, clock, true);
    ghost var done: seq<TsPacket> := [];
    PesWellformed(pes, pid, isVideo, start, clock, true);
    output := [];
    cc := start;
    var offset := 0;
    var first := true;
    while offset < |pes|
      invariant 0 <= offset <= |pes| && cc < 16
      invariant AllWellformed(done) && output == EncodeAll(done)
      invariant done + PesPackets(pes[offset..], pid, isVideo, cc, clock, first) == all
      invariant cc == (start + |done|) % 16
    {
      var packet, copyLen := PesPacket(pes[offset..], pid, isVideo, cc, clock, first);
      ghost var t := PesHead(pes[offset..], pid, isVideo, cc, clock, first);
      PesStep(pes, offset, pid, isVideo, cc, clock, first);
      EncodeOne(done, t);
      Assoc(done, [t], PesPackets(pes[offset + copyLen..], pid, isVideo, Next(cc), clock, false));
      done := done + [t];
      offset := offset + copyLen;
      cc := Next(cc);
      output := output + packet[..];
      first := false;
    }
    NoneLeft(pes, pid, isVideo, cc, clock, first);
    assert done == done + [];
  }

  /** One packet of a table payload, filled in place. */
  method TablePacket(payload: seq<byte>, pid: nat, start: bool, cc: nat, flagged: bool)
    returns (packet: array<byte>, copyLen: nat)
    requires payload != [] && pid < 0x2000 && cc < 16
    ensures fresh(packet) && packet.Length == TS_PACKET_SIZE && copyLen == TableTaken(payload, flagged)
    ensures Wellformed(TableHead(payload, pid, start, cc, flagged))
    ensures packet[..] == Encode(TableHead(payload, pid, start, cc, flagged))
  {
    TableHeadWellformed(payload, pid, start, cc, flagged);
    ghost var t := TableHead(payload, pid, start, cc, flagged);
    hide FieldBytes, Patched, HeaderStart, Control, Encode;
    packet := new byte[TS_PACKET_SIZE](_ => 0xFF);
    ghost var blank := packet[..];
    assert blank == Fill(TS_PACKET_SIZE, 0xFF);
    WriteHeader(packet, pid, start);
    var payloadStart: nat := 4;
    var remaining := TS_PACKET_SIZE - payloadStart;
    copyLen := Min(remaining, |payload|);
    if copyLen < remaining || flagged {
      var stuffing: nat := remaining - copyLen;
      if flagged && stuffing < 2 {
        stuffing := 2;
      }
      WriteStuffing(packet, cc, stuffing, flagged);
      payloadStart := 4 + stuffing;
      copyLen := Min(|payload|, TS_PACKET_SIZE - payloadStart);
    } else {
      WritePlain(packet, cc);
    }
    CopyInto(packet, payloadStart, payload[..copyLen]);
    assert t.payload == payload[..copyLen] + Fill(0, 0xFF);
    Assembled(blank, 0xFF, t, payload[..copyLen]);
  }

  /** The packet of an empty payload: zeros after a plain header. */
  method EmptyPacket(pid: nat, start: bool, cc: nat) returns (packet: array<byte>)
    requires pid < 0x2000 && cc < 16
    ensures fresh(packet)
    ensures Wellformed(TsPacket(pid, start, cc, NoField, Fill(BODY, 0)))
    ensures packet[..] == Encode(TsPacket(pid, start, cc, NoField, Fill(BODY, 0)))
  {
    hide FieldBytes, HeaderStart, Control, Encode;
    packet := new byte[TS_PACKET_SIZE](_ => 0);
    ghost var blank := packet[..];
    assert blank == Fill(TS_PACKET_SIZE, 0);
    WriteHeader(packet, pid, start);
    WritePlain(packet, cc);
    Assembled(blank, 0, TsPacket(pid, start, cc, NoField, Fill(BODY, 0)), []);
  }

  /** Packets of a table payload; only the first carries the start flag and the discontinuity. */
  method TableToTsPackets(pid: nat, payloadStart: bool, payload: seq<byte>, start: nat, discontinuity: bool)
    returns (packets: seq<byte>, cc: nat)
    requires pid < 0x2000 && start < 16
    ensures AllWellformed(TablePackets(payload, pid, payloadStart, start, discontinuity))
    ensures packets == EncodeAll(TablePackets(payload, pid, payloadStart, start, discontinuity))
    ensures cc < 16 && cc == (start + |TablePackets(payload, pid, payloadStart, start, discontinuity)|) % 16
  {
    hide Wellformed, Encode, TableHead, TableRest, TableTaken, EncodeAll;
    EncodeNone();
    ghost var all := TablePackets(payload, pid, payloadStart, start, discontinuity);
    ghost var done: seq<TsPacket> := [];
    TableWellformed(payload, pid, payloadStart, start, discontinuity);
    packets := [];
    cc := start;
    var offset := 0;
    var first := true;
    while offset < |payload|
      invariant 0 <= offset <= |payload| && cc < 16
      invariant first ==> offset == 0 && done == [] && cc == start
      invariant !first ==> offset > 0 && done != []
      invariant AllWellformed(done) && packets == EncodeAll(done)
      invariant first <==> packets == []
      invariant !first ==> done + TableRest(payload[offset..], pid, cc) == all
      invariant cc == (start + |done|) % 16
    {
      var flagged := first && discontinuity;
      var packet, copyLen := TablePacket(payload[offset..], pid, first && payloadStart, cc, flagged);
      ghost var t := TableHead(payload[offset..], pid, first && payloadStart, cc, flagged);
      if first {
        assert payload[0..] == payload;
      } else {
        TableStep(payload, offset, pid, cc);
      }
      EncodeOne(done, t);
      Assoc(done, [t], TableRest(payload[offset + copyLen..], pid, Next(cc)));
      done := done + [t];
      offset := offset + copyLen;
      first := false;
      cc := Next(cc);
      packets := packets + packet[..];
    }
    NoneLeft(payload, pid, false, cc, 0, false);
    assert done == done + [];
    if packets == [] {
      var packet := EmptyPacket(pid, payloadStart, cc);
      EncodeOne([], TsPacket(pid, payloadStart, cc, NoField, Fill(BODY, 0)));
      assert [] + all == all;
      cc := Next(cc);
      packets := packets + packet[..];
    }
  }
}
