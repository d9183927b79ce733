/**
  * Multiplexed delivery. A sender holds one queue of messages per chunk stream and may put the
  * next chunk of any queue on the wire at any time: every schedule of chunk stream ids is a
  * chunk-level interleaving of the encoded messages. The parser returns exactly the messages
  * that were completed, in the order in which their last chunks were sent, however the bytes
  * were cut into reads.
  */
module ChunkDelivery {
  import opened Bytes
  import opened ChunkStream
  import opened ChunkCuts

  /** A queue of messages, the first `sent` payload bytes of its head already on the wire. */
  datatype Lane = Lane(queue: seq<RtmpMessage>, sent: nat) {
    ghost predicate Valid() {
      && (forall i :: 0 <= i < |queue| ==> |queue[i].payload| < 0x100_0000)
      && (sent > 0 ==> |queue| > 0 && sent < |queue[0].payload|)
    }
  }

  type Lanes = map<nat, Lane>

  ghost predicate ValidLanes(lanes: Lanes) {
    forall c :: c in lanes ==> 2 <= c < 65600 && lanes[c].Valid()
  }

  predicate HasChunk(lanes: Lanes, c: nat) {
    c in lanes && lanes[c].queue != []
  }

  function NextSent(lane: Lane, chunkSize: nat): nat
    requires lane.queue != [] && lane.sent <= |lane.queue[0].payload|
  {
    lane.sent + Min(chunkSize, |lane.queue[0].payload| - lane.sent)
  }

  /** The lane after its next chunk is sent. */
  function Advance(lane: Lane, chunkSize: nat): (r: Lane)
    requires lane.queue != [] && lane.sent <= |lane.queue[0].payload|
  {
    if NextSent(lane, chunkSize) < |lane.queue[0].payload| then lane.(sent := NextSent(lane, chunkSize))
    else Lane(lane.queue[1..], 0)
  }

  datatype Sent = Sent(csid: nat, msg: RtmpMessage)

  /** What a schedule puts on the wire, which messages it completes, and what it leaves queued. */
  datatype Wire = Wire(bytes: seq<byte>, completed: seq<Sent>, lanes: Lanes)

  ghost function Send(lanes: Lanes, schedule: seq<nat>, chunkSize: nat): Wire
    requires ValidLanes(lanes) && chunkSize > 0
    decreases |schedule|
  {
    if schedule == [] then Wire([], [], lanes)
    else
      var c := schedule[0];
      if !HasChunk(lanes, c) then Send(lanes, schedule[1..], chunkSize)
      else
        var lane := lanes[c];
        var w := Send(lanes[c := Advance(lane, chunkSize)], schedule[1..], chunkSize);
        Wire(ChunkAt(lane.queue[0], c, chunkSize, lane.sent) + w.bytes, Finished(lane, c, chunkSize) + w.completed,
             w.lanes)
  }

  function Finished(lane: Lane, c: nat, chunkSize: nat): seq<Sent>
    requires lane.queue != [] && lane.sent <= |lane.queue[0].payload|
  {
    if NextSent(lane, chunkSize) < |lane.queue[0].payload| then [] else [Sent(c, lane.queue[0])]
  }

  // ---------------------------------------------------------------- schedules are interleavings

  /** The bytes the schedule puts on chunk stream c. */
  ghost function LaneBytes(lanes: Lanes, schedule: seq<nat>, chunkSize: nat, c: nat): seq<byte>
    requires ValidLanes(lanes) && chunkSize > 0
    decreases |schedule|
  {
    if schedule == [] then []
    else
      var d := schedule[0];
      if !HasChunk(lanes, d) then LaneBytes(lanes, schedule[1..], chunkSize, c)
      else
        var rest := LaneBytes(lanes[d := Advance(lanes[d], chunkSize)], schedule[1..], chunkSize, c);
        if d == c then ChunkAt(lanes[c].queue[0], c, chunkSize, lanes[c].sent) + rest else rest
  }

  /** What encode_message still has to put on the wire for a lane. */
  ghost function Pending(lane: Lane, c: nat, chunkSize: nat): seq<byte>
    requires lane.Valid() && c < 65600 && chunkSize > 0
    decreases |lane.queue|
  {
    if lane.queue == [] then []
    else EncodedFrom(lane.queue[0], c, chunkSize, lane.sent) + Pending(Lane(lane.queue[1..], 0), c, chunkSize)
  }

  lemma PendingAdvance(lane: Lane, c: nat, chunkSize: nat)
    requires lane.Valid() && lane.queue != [] && c < 65600 && chunkSize > 0
    ensures Pending(lane, c, chunkSize)
         == ChunkAt(lane.queue[0], c, chunkSize, lane.sent) + Pending(Advance(lane, chunkSize), c, chunkSize)
  {
    hide ChunkAt;
    var m := lane.queue[0];
    var next := NextSent(lane, chunkSize);
    var tail := Pending(Lane(lane.queue[1..], 0), c, chunkSize);
    var rest := if next < |m.payload| then EncodedFrom(m, c, chunkSize, next) else [];
    assert EncodedFrom(m, c, chunkSize, lane.sent) == ChunkAt(m, c, chunkSize, lane.sent) + rest;
    hide EncodedFrom;
    Assoc(ChunkAt(m, c, chunkSize, lane.sent), rest, tail);
    assert [] + tail == tail;
  }

  /** On every chunk stream the wire carries the encoded messages of its queue, in order and uncut. */
  lemma {:induction false} ScheduleInterleaves(lanes: Lanes, schedule: seq<nat>, chunkSize: nat, c: nat)
    requires ValidLanes(lanes) && chunkSize > 0 && c in lanes
    ensures var after := Send(lanes, schedule, chunkSize).lanes;
      && ValidLanes(after) && after.Keys == lanes.Keys
      && Pending(lanes[c], c, chunkSize) == LaneBytes(lanes, schedule, chunkSize, c) + Pending(after[c], c, chunkSize)
    decreases |schedule|
  {
    if schedule == [] {
      assert [] + Pending(lanes[c], c, chunkSize) == Pending(lanes[c], c, chunkSize);
    } else {
      var d := schedule[0];
      if !HasChunk(lanes, d) {
        ScheduleInterleaves(lanes, schedule[1..], chunkSize, c);
      } else {
        var lanes' := lanes[d := Advance(lanes[d], chunkSize)];
        ScheduleInterleaves(lanes', schedule[1..], chunkSize, c);
        if d == c {
          PendingAdvance(lanes[c], c, chunkSize);
          hide ChunkAt, Pending;
          Assoc(ChunkAt(lanes[c].queue[0], c, chunkSize, lanes[c].sent),
                LaneBytes(lanes', schedule[1..], chunkSize, c),
                Pending(Send(lanes', schedule[1..], chunkSize).lanes[c], c, chunkSize));
        }
      }
    }
  }

  function OfLane(completed: seq<Sent>, c: nat): seq<RtmpMessage> {
    if completed == [] then []
    else (if completed[0].csid == c then [completed[0].msg] else []) + OfLane(completed[1..], c)
  }

  lemma {:induction false} OfLaneAppend(a: seq<Sent>, b: seq<Sent>, c: nat)
    ensures OfLane(a + b, c) == OfLane(a, c) + OfLane(b, c)
  {
    if a == [] {
      assert a + b == b;
    } else {
      OfLaneAppend(a[1..], b, c);
      assert (a + b)[1..] == a[1..] + b;
      var head := if a[0].csid == c then [a[0].msg] else [];
      Assoc(head, OfLane(a[1..], c), OfLane(b, c));
    }
  }

  lemma FinishedLeavesQueue(lane: Lane, d: nat, c: nat, chunkSize: nat)
    requires lane.queue != [] && lane.sent <= |lane.queue[0].payload|
    ensures d == c ==> lane.queue == OfLane(Finished(lane, d, chunkSize), c) + Advance(lane, chunkSize).queue
    ensures d != c ==> OfLane(Finished(lane, d, chunkSize), c) == []
  {
    var done := Finished(lane, d, chunkSize);
    assert done != [] ==> done[1..] == [] && OfLane(done[1..], c) == [];
  }

  /** Nothing is lost or reordered inside a queue: completed messages, then the ones still queued. */
  lemma {:induction false} CompletedInQueueOrder(lanes: Lanes, schedule: seq<nat>, chunkSize: nat, c: nat)
    requires ValidLanes(lanes) && chunkSize > 0 && c in lanes
    ensures var w := Send(lanes, schedule, chunkSize);
      c in w.lanes && lanes[c].queue == OfLane(w.completed, c) + w.lanes[c].queue
    decreases |schedule|
  {
    hide ChunkAt;
    if schedule == [] {
    } else {
      var d := schedule[0];
      if !HasChunk(lanes, d) {
        CompletedInQueueOrder(lanes, schedule[1..], chunkSize, c);
      } else {
        var lanes' := lanes[d := Advance(lanes[d], chunkSize)];
        CompletedInQueueOrder(lanes', schedule[1..], chunkSize, c);
        var w := Send(lanes', schedule[1..], chunkSize);
        var done := Finished(lanes[d], d, chunkSize);
        OfLaneAppend(done, w.completed, c);
        hide OfLane, Finished, Advance;
        Assoc(OfLane(done, c), OfLane(w.completed, c), w.lanes[c].queue);
        FinishedLeavesQueue(lanes[d], d, c, chunkSize);
      }
    }
  }

  // ---------------------------------------------------------------- the parser keeps up with the sender

  /** Messages the parser returns: one without payload is encoded but never reported. */
  function Delivered(completed: seq<Sent>): seq<RtmpMessage> {
    if completed == [] then []
    else (if completed[0].msg.payload == [] then [] else [completed[0].msg]) + Delivered(completed[1..])
  }

  lemma {:induction false} DeliveredAppend(a: seq<Sent>, b: seq<Sent>)
    ensures Delivered(a + b) == Delivered(a) + Delivered(b)
  {
    if a == [] {
      assert a + b == b;
    } else {
      DeliveredAppend(a[1..], b);
      assert (a + b)[1..] == a[1..] + b;
      var head := if a[0].msg.payload == [] then [] else [a[0].msg];
      Assoc(head, Delivered(a[1..]), Delivered(b));
    }
  }

  /** What the parser must hold about one lane between two chunks. */
  ghost predicate LaneInSync(a: ChunkAssembler, headers: Headers, c: nat, lane: Lane) {
    if lane.sent == 0 then
      a.msgLength == 0 && a.received == 0 && a.buffer == []
    else
      && lane.queue != [] && lane.sent <= |lane.queue[0].payload|
      && var m := lane.queue[0];
      && a.msgLength == |m.payload| && a.received == lane.sent && a.buffer == m.payload[..lane.sent]
      && c in headers
      && headers[c].timestamp == m.timestamp && headers[c].msgLength == |m.payload|
      && headers[c].msgType == m.msgType && headers[c].msgStreamId == m.msgStreamId
  }

  ghost predicate InSync(st: ParserState, lanes: Lanes) {
    forall c :: c in lanes ==> LaneInSync(AssemblerOf(st.assemblers, c), st.headers, c, lanes[c])
  }

  /** A fresh parser is in sync with any sender that has not started a message. */
  lemma FreshInSync(lanes: Lanes)
    requires forall c :: c in lanes ==> lanes[c].sent == 0
    ensures InSync(ParserState([], map[], map[]), lanes)
  {
  }

  lemma BasicRoundTrip(fmt: ChunkFmt, c: nat, rest: seq<byte>)
    requires 2 <= c < 65600
    ensures ReadBasic(BasicBytes(fmt, c) + rest) == Some(Basic(fmt, c, |BasicBytes(fmt, c)|))
  {
  }

  /** Of a larger id the low sixteen bits go through, counted from 64. */
  lemma BasicTruncated(fmt: ChunkFmt, c: nat, rest: seq<byte>)
    requires c >= 320
    ensures ReadBasic(BasicBytes(fmt, c) + rest) == Some(Basic(fmt, 64 + (c - 64) % 0x1_0000, 3))
  {
    var (b, low) := (BasicBytes(fmt, c), (c - 64) % 0x1_0000);
    assert (b + rest)[0] == b[0] && (b + rest)[1] == b[1] && (b + rest)[2] == b[2];
    assert (c - 64) / 0x100 % 0x100 == low / 0x100 && (c - 64) % 0x100 == low % 0x100;
  }

  lemma Type0Prefix(m: RtmpMessage, rest: seq<byte>)
    ensures var b := Type0Bytes(m) + rest;
      && |Type0Bytes(m)| == (if m.timestamp >= 0xFF_FFFF then 15 else 11)
      && |b| >= 11
      && (m.timestamp < 0xFF_FFFF ==> FromBe24(b[0], b[1], b[2]) == m.timestamp)
      && (m.timestamp >= 0xFF_FFFF ==> FromBe24(b[0], b[1], b[2]) == 0xFF_FFFF)
      && FromBe24(b[3], b[4], b[5]) == LengthField(|m.payload|)
      && b[6] == m.msgType
      && FromLe32(b[7], b[8], b[9], b[10]) == m.msgStreamId
      && (m.timestamp >= 0xFF_FFFF ==> |b| >= 15 && FromBe32(b[11], b[12], b[13], b[14]) == m.timestamp)
  {
    if m.timestamp < 0xFF_FFFF {
      Be24RoundTrip(m.timestamp);
    }
    Be24RoundTrip(LengthField(|m.payload|));
    Le32RoundTrip(m.msgStreamId);
    Be32RoundTrip(m.timestamp);
    hide Be24, Be32, Le32, FromBe32, FromLe32, LengthField;
  }

  lemma Type0RoundTrip(m: RtmpMessage, rest: seq<byte>)
    ensures ReadFields(Type0, Type0Bytes(m) + rest)
         == Some(Fields(m.timestamp, LengthField(|m.payload|), m.msgType, m.msgStreamId, m.timestamp >= 0xFF_FFFF,
                        |Type0Bytes(m)|))
  {
    hide Type0Bytes, FromBe24, FromLe32, FromBe32, LengthField;
    Type0Prefix(m, rest);
  }

  function HeaderBytes(m: RtmpMessage, c: nat, sent: nat): seq<byte> {
    if sent == 0 then BasicBytes(Type0, c) + Type0Bytes(m) else BasicBytes(Type3, c)
  }

  /** Header fields that belong to the message, whatever the chunk type. */
  ghost predicate Describes(h: ChunkHeader, m: RtmpMessage, c: nat) {
    && h.csid == c && h.timestamp == m.timestamp && h.msgLength == |m.payload|
    && h.msgType == m.msgType && h.msgStreamId == m.msgStreamId
  }

  /** The header of any chunk the encoder writes got back as a description of its message. */
  lemma HeaderRoundTrip(m: RtmpMessage, c: nat, sent: nat, headers: Headers, rest: seq<byte>)
    requires 2 <= c < 65600 && |m.payload| < 0x100_0000
    requires sent > 0 ==> c in headers && Describes(headers[c].(csid := c), m, c)
    ensures var r := ReadHeader(HeaderBytes(m, c, sent) + rest, headers);
      r.Some? && Describes(r.value.0, m, c) && r.value.1 == |HeaderBytes(m, c, sent)|
  {
    if sent == 0 {
      Assoc(BasicBytes(Type0, c), Type0Bytes(m), rest);
      BasicRoundTrip(Type0, c, Type0Bytes(m) + rest);
      Type0RoundTrip(m, rest);
      var b := BasicBytes(Type0, c);
      assert (b + (Type0Bytes(m) + rest))[|b|..] == Type0Bytes(m) + rest;
      hide ReadBasic, ReadFields, BasicBytes, Type0Bytes;
    } else {
      BasicRoundTrip(Type3, c, rest);
      var b := BasicBytes(Type3, c);
      assert (b + rest)[|b|..] == rest;
      hide ReadBasic, BasicBytes;
    }
  }

  /** One chunk sent is one step taken, which keeps the parser in sync with the sender. */
  lemma ChunkTaken(st: ParserState, lanes: Lanes, c: nat, chunkSize: nat, rest: seq<byte>)
    requires ValidLanes(lanes) && HasChunk(lanes, c) && chunkSize > 0
    requires InSync(st, lanes)
    requires st.buf == ChunkAt(lanes[c].queue[0], c, chunkSize, lanes[c].sent) + rest
    ensures var s := ChunkStep(st, chunkSize);
      && s.Took? && s.next.buf == rest
      && InSync(s.next, lanes[c := Advance(lanes[c], chunkSize)])
      && (if s.msg.Some? then [s.msg.value] else []) == Delivered(Finished(lanes[c], c, chunkSize))
  {
    hide ReadHeader, ChunkStep, TakeChunk;
    var lane := lanes[c];
    var m := lane.queue[0];
    var data := m.payload[lane.sent..NextSent(lane, chunkSize)];
    var head := HeaderBytes(m, c, lane.sent);
    assert st.buf == head + (data + rest) by {
      assert ChunkAt(m, c, chunkSize, lane.sent) == head + data;
      Assoc(head, data, rest);
    }
    assert LaneInSync(AssemblerOf(st.assemblers, c), st.headers, c, lane);
    HeaderRoundTrip(m, c, lane.sent, st.headers, data + rest);
    StepAfterHeader(st, chunkSize);
    hide ChunkAt, HeaderBytes;
    var (h, size) := ReadHeader(st.buf, st.headers).value;
    TakeInSync(st, lane, h, size, c, chunkSize, rest);
    var s := ChunkStep(st, chunkSize);
    forall d | d in lanes && d != c
      ensures LaneInSync(AssemblerOf(s.next.assemblers, d), s.next.headers, d, lanes[d])
    {
      assert LaneInSync(AssemblerOf(st.assemblers, d), st.headers, d, lanes[d]);
    }
  }

  lemma FinishedDelivered(lane: Lane, c: nat, chunkSize: nat)
    requires lane.queue != [] && lane.sent <= |lane.queue[0].payload|
    ensures Delivered(Finished(lane, c, chunkSize)) ==
      if NextSent(lane, chunkSize) < |lane.queue[0].payload| || lane.queue[0].payload == [] then [] else [lane.queue[0]]
  {
    var done := Finished(lane, c, chunkSize);
    assert done != [] ==> Delivered(done[1..]) == [];
  }

  lemma TakeInSync(st: ParserState, lane: Lane, h: ChunkHeader, size: nat, c: nat, chunkSize: nat, rest: seq<byte>)
    requires lane.Valid() && lane.queue != [] && chunkSize > 0
    requires LaneInSync(AssemblerOf(st.assemblers, c), st.headers, c, lane)
    requires Describes(h, lane.queue[0], c)
    requires 0 < size <= |st.buf|
    requires st.buf[size..] == lane.queue[0].payload[lane.sent..NextSent(lane, chunkSize)] + rest
    ensures var s := TakeChunk(st, h, size, chunkSize);
      && s.Took? && s.next.buf == rest
      && s.next.headers == st.headers[c := h]
      && c in s.next.assemblers
      && s.next.assemblers == st.assemblers[c := s.next.assemblers[c]]
      && LaneInSync(s.next.assemblers[c], s.next.headers, c, Advance(lane, chunkSize))
      && (if s.msg.Some? then [s.msg.value] else []) == Delivered(Finished(lane, c, chunkSize))
  {
    var m := lane.queue[0];
    var next := NextSent(lane, chunkSize);
    var data := m.payload[lane.sent..next];
    var a := AssemblerOf(st.assemblers, c);
    assert DataSize(a, h, chunkSize) == |data|;
    DataTaken(st, h, size, chunkSize, data, rest);
    PayloadGrows(m.payload, lane.sent, next);
    FinishedDelivered(lane, c, chunkSize);
    assert a.buffer + data == m.payload[..next];
    hide DataSize, Finished, Delivered, TakeChunk;
  }

  /** The data of a chunk that is there: what becomes of the assembler, and of the message if that was its last. */
  lemma DataTaken(st: ParserState, h: ChunkHeader, size: nat, chunkSize: nat, data: seq<byte>, rest: seq<byte>)
    requires 0 < size <= |st.buf| && st.buf[size..] == data + rest
    requires DataSize(AssemblerOf(st.assemblers, h.csid), h, chunkSize) == |data|
    ensures var s := TakeChunk(st, h, size, chunkSize);
      var b := Extend(AssemblerOf(st.assemblers, h.csid), h, data);
      s == if IsComplete(b) then
             Took(ParserState(rest, st.assemblers[h.csid := b.(msgLength := 0, received := 0, buffer := [])],
                              st.headers[h.csid := h]),
                  Some(MessageOf(b)))
           else Took(ParserState(rest, st.assemblers[h.csid := b], st.headers[h.csid := h]), None)
  {
    TakenBytes(st.buf, size, data, rest);
    hide DataSize, Extend, IsComplete, MessageOf;
  }

  lemma TakenBytes(buf: seq<byte>, size: nat, data: seq<byte>, rest: seq<byte>)
    requires size <= |buf| && buf[size..] == data + rest
    ensures size + |data| <= |buf| && buf[size..size + |data|] == data && buf[size + |data|..] == rest
  {
    assert buf[size..size + |data|] == buf[size..][..|data|];
    assert buf[size + |data|..] == buf[size..][|data|..];
  }

  lemma PayloadGrows(payload: seq<byte>, sent: nat, next: nat)
    requires sent <= next <= |payload|
    ensures [] + payload[0..next] == payload[..next] && payload[..|payload|] == payload
    ensures payload[..sent] + payload[sent..next] == payload[..next]
  {
  }

  /** Main result: the parser returns the messages of any interleaving, in completion order. */
  lemma {:induction false} InterleavingDelivered(st: ParserState, lanes: Lanes, schedule: seq<nat>, chunkSize: nat)
    requires ValidLanes(lanes) && chunkSize > 0
    requires InSync(st, lanes)
    requires st.buf == Send(lanes, schedule, chunkSize).bytes
    ensures var w := Send(lanes, schedule, chunkSize);
      var d := Drain(st, chunkSize);
      && d.messages == Delivered(w.completed)
      && d.state.buf == []
      && InSync(d.state, w.lanes)
    decreases |schedule|
  {
    if schedule == [] {
      assert ReadBasic(st.buf) == None;
    } else {
      var c := schedule[0];
      if !HasChunk(lanes, c) {
        InterleavingDelivered(st, lanes, schedule[1..], chunkSize);
      } else {
        var lanes' := lanes[c := Advance(lanes[c], chunkSize)];
        var w := Send(lanes', schedule[1..], chunkSize);
        ChunkTaken(st, lanes, c, chunkSize, w.bytes);
        hide ChunkStep, ChunkAt, InSync;
        InterleavingDelivered(ChunkStep(st, chunkSize).next, lanes', schedule[1..], chunkSize);
        DeliveredAppend(Finished(lanes[c], c, chunkSize), w.completed);
      }
    }
  }

  // ---------------------------------------------------------------- arbitrary reads

  /** Receives the pieces one read at a time, draining the parser after each. */
  function Reads(st: ParserState, pieces: seq<seq<byte>>, chunkSize: nat): Drained
    decreases |pieces|
  {
    if pieces == [] then Drained(st, [])
    else
      var d := Drain(st.Fed(pieces[0]), chunkSize);
      var r := Reads(d.state, pieces[1..], chunkSize);
      Drained(r.state, d.messages + r.messages)
  }

  /** Nothing the encoder puts on the wire ever leaves a delta pending at a cut. */
  lemma {:induction false} WireNeverPends(st: ParserState, lanes: Lanes, schedule: seq<nat>, chunkSize: nat, cut: nat)
    requires ValidLanes(lanes) && chunkSize > 0
    requires InSync(st, lanes)
    requires cut <= |Send(lanes, schedule, chunkSize).bytes|
    requires st.buf == Send(lanes, schedule, chunkSize).bytes[..cut]
    ensures !PendingDelta(Drain(st, chunkSize).state)
    decreases |schedule|
  {
    hide ChunkStep, ChunkAt, InSync, PendingDelta, Drain;
    if schedule == [] {
      EmptyDrains(st, chunkSize);
      NoDeltaToPend(st);
    } else if !HasChunk(lanes, schedule[0]) {
      WireNeverPends(st, lanes, schedule[1..], chunkSize, cut);
    } else {
      var c := schedule[0];
      var lane := lanes[c];
      var chunk := ChunkAt(lane.queue[0], c, chunkSize, lane.sent);
      var lanes' := lanes[c := Advance(lane, chunkSize)];
      var w := Send(lanes', schedule[1..], chunkSize);
      assert Send(lanes, schedule, chunkSize).bytes == chunk + w.bytes;
      if cut < |chunk| {
        assert st.buf == chunk[..cut];
        PartialChunk(st, lanes, c, chunkSize);
      } else {
        var rest := w.bytes[..cut - |chunk|];
        assert st.buf == chunk + rest;
        ChunkTaken(st, lanes, c, chunkSize, rest);
        StillValid(lanes, c, chunkSize);
        DrainTakes(st, chunkSize);
        WireNeverPends(ChunkStep(st, chunkSize).next, lanes', schedule[1..], chunkSize, cut - |chunk|);
      }
    }
  }

  lemma StillValid(lanes: Lanes, c: nat, chunkSize: nat)
    requires ValidLanes(lanes) && HasChunk(lanes, c) && chunkSize > 0
    ensures ValidLanes(lanes[c := Advance(lanes[c], chunkSize)])
  {
  }

  lemma DrainTakes(st: ParserState, chunkSize: nat)
    requires ChunkStep(st, chunkSize).Took?
    ensures Drain(st, chunkSize).state == Drain(ChunkStep(st, chunkSize).next, chunkSize).state
  {
    hide ChunkStep;
  }

  /** Part of a chunk is never taken, and what it leaves is a type 0 or type 3 header. */
  lemma PartialChunk(st: ParserState, lanes: Lanes, c: nat, chunkSize: nat)
    requires ValidLanes(lanes) && HasChunk(lanes, c) && chunkSize > 0
    requires InSync(st, lanes)
    requires st.buf < ChunkAt(lanes[c].queue[0], c, chunkSize, lanes[c].sent)
    ensures ChunkStep(st, chunkSize).Short?
    ensures !PendingDelta(Drain(st, chunkSize).state)
  {
    var chunk := ChunkAt(lanes[c].queue[0], c, chunkSize, lanes[c].sent);
    var missing := chunk[|st.buf|..];
    assert st.buf + missing == chunk + [];
    hide ChunkAt, PendingDelta;
    ChunkTaken(st.Fed(missing), lanes, c, chunkSize, []);
    if ChunkStep(st, chunkSize).Took? {
      StepPrefix(st, chunkSize, missing);
    }
    ChunkStartsType0Or3(lanes[c].queue[0], c, chunkSize, lanes[c].sent);
    hide ChunkStep, ChunkAt, InSync;
    assert Drain(st, chunkSize).state.buf == st.buf;
    NoDeltaToPend(Drain(st, chunkSize).state);
  }

  lemma ChunkStartsType0Or3(m: RtmpMessage, c: nat, chunkSize: nat, sent: nat)
    requires c < 65600 && |m.payload| < 0x100_0000 && sent <= |m.payload|
    ensures var chunk := ChunkAt(m, c, chunkSize, sent); chunk != [] && FmtOf(chunk[0]) in {Type0, Type3}
  {
    var fmt := if sent == 0 then Type0 else Type3;
    assert BasicBytes(fmt, c) != [] && FmtOf(BasicBytes(fmt, c)[0]) == fmt;
    hide BasicBytes, Type0Bytes;
  }

  lemma NoDeltaToPend(st: ParserState)
    requires st.buf != [] ==> FmtOf(st.buf[0]) in {Type0, Type3}
    ensures !PendingDelta(st)
  {
    hide ReadFields;
  }

  /** Read-cut independence: any cutting of an interleaving gives what one read of it all gives. */
  lemma {:induction false} CutsDoNotMatter(st: ParserState, lanes: Lanes, schedule: seq<nat>, chunkSize: nat,
                        before: seq<byte>, pieces: seq<seq<byte>>)
    requires ValidLanes(lanes) && chunkSize > 0
    requires InSync(st, lanes)
    requires st.buf == []
    requires before + Concat(pieces) == Send(lanes, schedule, chunkSize).bytes
    ensures var first := Drain(st.Fed(before), chunkSize);
      var got := Reads(first.state, pieces, chunkSize);
      Drain(st.Fed(before + Concat(pieces)), chunkSize) == Drained(got.state, first.messages + got.messages)
    decreases |pieces|
  {
    var first := Drain(st.Fed(before), chunkSize);
    if pieces == [] {
      assert before + Concat(pieces) == before;
      assert first.messages + [] == first.messages;
    } else {
      var wire := Send(lanes, schedule, chunkSize).bytes;
      var more := pieces[0];
      Assoc(before, more, Concat(pieces[1..]));
      assert st.Fed(before).buf == wire[..|before|];
      WireNeverPends(st.Fed(before), lanes, schedule, chunkSize, |before|);
      CutHarmless(st.Fed(before), chunkSize, more);
      CutsDoNotMatter(st, lanes, schedule, chunkSize, before + more, pieces[1..]);
      hide Drain, Send, InSync, PendingDelta;
      assert st.Fed(before).Fed(more) == st.Fed(before + more);
      var second := Drain(first.state.Fed(more), chunkSize);
      Assoc(first.messages, second.messages, Reads(second.state, pieces[1..], chunkSize).messages);
    }
  }

  /** Both together, from a fresh connection: whole delivery under any schedule and any cuts. */
  lemma DeliveryUnderAnyReads(lanes: Lanes, schedule: seq<nat>, chunkSize: nat, pieces: seq<seq<byte>>)
    requires ValidLanes(lanes) && chunkSize > 0
    requires forall c :: c in lanes ==> lanes[c].sent == 0
    requires Concat(pieces) == Send(lanes, schedule, chunkSize).bytes
    ensures var start := ParserState([], map[], map[]);
      var w := Send(lanes, schedule, chunkSize);
      var got := Reads(start, pieces, chunkSize);
      && got.messages == Delivered(w.completed)
      && got.state == Drain(start.Fed(w.bytes), chunkSize).state
      && got.state.buf == []
  {
    var start := ParserState([], map[], map[]);
    FreshInSync(lanes);
    EmptyDrains(start, chunkSize);
    hide Drain, Send, InSync, Delivered;
    var w := Send(lanes, schedule, chunkSize);
    assert [] + Concat(pieces) == w.bytes;
    assert start.Fed([]) == start && start.Fed(w.bytes) == ParserState(w.bytes, map[], map[]);
    CutsDoNotMatter(start, lanes, schedule, chunkSize, [], pieces);
    SyncIgnoresBuffer(start, w.bytes, lanes);
    InterleavingDelivered(start.Fed(w.bytes), lanes, schedule, chunkSize);
    assert [] + Reads(start, pieces, chunkSize).messages == Reads(start, pieces, chunkSize).messages;
  }

  lemma EmptyDrains(st: ParserState, chunkSize: nat)
    requires st.buf == []
    ensures Drain(st, chunkSize) == Drained(st, [])
  {
    assert ReadBasic(st.buf) == None;
  }

  lemma SyncIgnoresBuffer(st: ParserState, more: seq<byte>, lanes: Lanes)
    requires InSync(st, lanes)
    ensures InSync(st.Fed(more), lanes)
  {
  }
}
