/**
  * Read cuts. A socket read may end anywhere inside a chunk, and the parser has then already
  * stored the header of the chunk it could not finish. Cutting the stream after some bytes is
  * harmless for every continuation exactly when the chunk left unfinished is not one whose
  * timestamp delta the next call would add a second time.
  */
module ChunkCuts {
  import opened Bytes
  import opened ChunkStream

  // ---------------------------------------------------------------- more bytes change nothing already read

  lemma BasicPrefix(buf: seq<byte>, more: seq<byte>)
    requires ReadBasic(buf).Some?
    ensures ReadBasic(buf + more) == ReadBasic(buf)
    ensures ReadBasic(buf).value.size <= |buf|
  {
  }

  lemma FieldsPrefix(fmt: ChunkFmt, buf: seq<byte>, more: seq<byte>)
    requires ReadFields(fmt, buf).Some?
    ensures ReadFields(fmt, buf + more) == ReadFields(fmt, buf)
  {
  }

  lemma HeaderPrefix(buf: seq<byte>, more: seq<byte>, headers: Headers)
    requires ReadHeader(buf, headers).Some?
    ensures ReadHeader(buf + more, headers) == ReadHeader(buf, headers)
  {
    BasicPrefix(buf, more);
    var basic := ReadBasic(buf).value;
    FieldsPrefix(basic.fmt, buf[basic.size..], more);
    assert (buf + more)[basic.size..] == buf[basic.size..] + more;
    hide ReadBasic, ReadFields, Inherit;
  }

  lemma TakePrefix(st: ParserState, h: ChunkHeader, size: nat, chunkSize: nat, more: seq<byte>)
    requires 0 < size <= |st.buf|
    requires TakeChunk(st, h, size, chunkSize).Took?
    ensures var s := TakeChunk(st, h, size, chunkSize);
      TakeChunk(st.Fed(more), h, size, chunkSize) == Took(s.next.Fed(more), s.msg)
  {
    hide DataSize, Extend, IsComplete, MessageOf, AssemblerOf;
    var data := DataSize(AssemblerOf(st.assemblers, h.csid), h, chunkSize);
    CutInside(st.buf, more, size, size + data);
  }

  lemma CutInside(buf: seq<byte>, more: seq<byte>, i: nat, j: nat)
    requires i <= j <= |buf|
    ensures (buf + more)[i..j] == buf[i..j] && (buf + more)[j..] == buf[j..] + more
  {
  }

  /** A chunk that is taken is taken the same way whatever follows it. */
  lemma StepPrefix(st: ParserState, chunkSize: nat, more: seq<byte>)
    requires ChunkStep(st, chunkSize).Took?
    ensures var s := ChunkStep(st, chunkSize);
      ChunkStep(st.Fed(more), chunkSize) == Took(s.next.Fed(more), s.msg)
  {
    HeaderPrefix(st.buf, more, st.headers);
    StepAfterHeader(st, chunkSize);
    StepAfterHeader(st.Fed(more), chunkSize);
    hide ReadHeader, ChunkStep;
    var (h, size) := ReadHeader(st.buf, st.headers).value;
    TakePrefix(st, h, size, chunkSize, more);
  }

  // ---------------------------------------------------------------- reading a header again

  /** The buffer starts with a whole type 1 or 2 header whose delta is not zero. */
  predicate PendingDelta(st: ParserState) {
    match ReadBasic(st.buf)
    case None => false
    case Some(basic) =>
      && basic.fmt in {Type1, Type2}
      && basic.csid in st.headers
      && var f := ReadFields(basic.fmt, st.buf[basic.size..]);
        f.Some? && f.value.timestamp != 0
  }

  lemma DeltaMoves(delta: u32, t: u32)
    ensures (delta + t) % 0x1_0000_0000 == t <==> delta == 0
  {
  }

  lemma InheritAgain(basic: Basic, f: Fields, headers: Headers)
    requires Inherit(basic, f, headers).Some?
    ensures var h := Inherit(basic, f, headers).value;
      var again := Inherit(basic, f, headers[h.csid := h]);
      && h.csid == basic.csid
      && again.Some? && again.value.csid == h.csid
      && (again.value == h <==> !(basic.fmt in {Type1, Type2} && f.timestamp != 0))
  {
    DeltaMoves(f.timestamp, Inherit(basic, f, headers).value.timestamp);
  }

  /** The header read again after it was stored: the same one unless a delta is pending. */
  lemma HeaderAgain(st: ParserState)
    requires ReadHeader(st.buf, st.headers).Some?
    ensures var (h, size) := ReadHeader(st.buf, st.headers).value;
      var again := ReadHeader(st.buf, st.headers[h.csid := h]);
      && again.Some? && again.value.1 == size && again.value.0.csid == h.csid
      && (again.value.0 == h <==> !PendingDelta(st))
      && PendingDelta(st.(headers := st.headers[h.csid := h])) == PendingDelta(st)
  {
    var basic := ReadBasic(st.buf).value;
    var f := ReadFields(basic.fmt, st.buf[basic.size..]).value;
    hide ReadBasic, ReadFields;
    InheritAgain(basic, f, st.headers);
    assert basic.fmt != Type0 ==> basic.csid in st.headers;
    hide Inherit;
  }

  /** A short step leaves a parser for which the same bytes are still short. */
  lemma ShortStaysShort(st: ParserState, chunkSize: nat)
    requires ChunkStep(st, chunkSize).Short?
    ensures var left := st.(headers := ChunkStep(st, chunkSize).headers);
      && ChunkStep(left, chunkSize).Short?
      && PendingDelta(left) == PendingDelta(st)
      && (ChunkStep(left, chunkSize).headers == left.headers <==> !PendingDelta(left))
  {
    StepAfterHeader(st, chunkSize);
    var left := st.(headers := ChunkStep(st, chunkSize).headers);
    StepAfterHeader(left, chunkSize);
    hide ChunkStep, DataSize, Extend, AssemblerOf;
    var r := ReadHeader(st.buf, st.headers);
    if r.Some? {
      HeaderAgain(st);
      hide ReadHeader, PendingDelta;
      var (h, size) := r.value;
      var (h', size') := ReadHeader(st.buf, left.headers).value;
      ShortKeepsData(st, h, h', size, chunkSize);
      assert left.headers[h.csid := h'][h.csid] == h';
    }
  }

  /** The data a chunk needs does not depend on its timestamp, so the second reading needs as much. */
  lemma ShortKeepsData(st: ParserState, h: ChunkHeader, again: ChunkHeader, size: nat, chunkSize: nat)
    requires 0 < size <= |st.buf|
    requires again.csid == h.csid
    requires TakeChunk(st, h, size, chunkSize).Short?
    requires Some((h, size)) == ReadHeader(st.buf, st.headers)
    requires Some((again, size)) == ReadHeader(st.buf, st.headers[h.csid := h])
    ensures TakeChunk(st.(headers := st.headers[h.csid := h]), again, size, chunkSize)
         == Short(st.headers[h.csid := h][h.csid := again])
  {
    assert again.msgLength == h.msgLength by {
      var basic := ReadBasic(st.buf).value;
      var f := ReadFields(basic.fmt, st.buf[basic.size..]).value;
      hide ReadBasic, ReadFields;
      assert Inherit(basic, f, st.headers) == Some(h);
      assert Inherit(basic, f, st.headers[h.csid := h]) == Some(again);
    }
    hide ReadHeader;
  }

  /** With no delta pending, storing the header early makes no difference to the next step. */
  lemma StepAgain(st: ParserState, chunkSize: nat, more: seq<byte>)
    requires ChunkStep(st, chunkSize).Short? && !PendingDelta(st)
    ensures ChunkStep(st.(headers := ChunkStep(st, chunkSize).headers).Fed(more), chunkSize)
         == ChunkStep(st.Fed(more), chunkSize)
  {
    hide ReadHeader, ChunkStep, PendingDelta, DataSize, Extend, IsComplete, MessageOf, AssemblerOf;
    var r := ReadHeader(st.buf, st.headers);
    StepAfterHeader(st, chunkSize);
    if r.Some? {
      var (h, size) := r.value;
      var left := st.(headers := st.headers[h.csid := h]);
      assert ChunkStep(st, chunkSize).headers == left.headers;
      HeaderAgain(st);
      HeaderPrefix(st.buf, more, st.headers);
      HeaderPrefix(st.buf, more, left.headers);
      StepAfterHeader(st.Fed(more), chunkSize);
      StepAfterHeader(left.Fed(more), chunkSize);
      assert left.headers[h.csid := h] == left.headers;
    }
  }

  // ---------------------------------------------------------------- the cut theorem

  /** Feeding `more` after draining, against feeding it before: same messages, same final parser. */
  predicate SameAfterCut(st: ParserState, chunkSize: nat, more: seq<byte>) {
    var first := Drain(st, chunkSize);
    var second := Drain(first.state.Fed(more), chunkSize);
    Drain(st.Fed(more), chunkSize) == Drained(second.state, first.messages + second.messages)
  }

  lemma {:induction false} CutHarmless(st: ParserState, chunkSize: nat, more: seq<byte>)
    requires !PendingDelta(Drain(st, chunkSize).state)
    ensures SameAfterCut(st, chunkSize, more)
    decreases |st.buf|
  {
    match ChunkStep(st, chunkSize)
    case Short(headers) =>
      ShortStaysShort(st, chunkSize);
      StepAgain(st, chunkSize, more);
      hide ChunkStep, PendingDelta;
      var left := st.(headers := headers);
      assert Drain(st, chunkSize) == Drained(left, []);
      assert Drain(left.Fed(more), chunkSize) == Drain(st.Fed(more), chunkSize);
      assert [] + Drain(left.Fed(more), chunkSize).messages == Drain(left.Fed(more), chunkSize).messages;
    case Took(next, m) =>
      CutHarmless(next, chunkSize, more);
      StepPrefix(st, chunkSize, more);
      hide ChunkStep, PendingDelta;
      var head := if m.Some? then [m.value] else [];
      Assoc(head, Drain(next, chunkSize).messages, Drain(Drain(next, chunkSize).state.Fed(more), chunkSize).messages);
  }

  /** Draining ends on a step that is short of bytes. */
  lemma {:induction false} DrainEndsShort(st: ParserState, chunkSize: nat)
    ensures var left := Drain(st, chunkSize).state;
      && ChunkStep(left, chunkSize).Short?
      && (ChunkStep(left, chunkSize).headers == left.headers <==> !PendingDelta(left))
    decreases |st.buf|
  {
    match ChunkStep(st, chunkSize)
    case Short(_) => ShortStaysShort(st, chunkSize);
    case Took(next, _) => DrainEndsShort(next, chunkSize);
  }

  /** The exact condition: a cut is harmless for every continuation iff no delta is pending. */
  lemma CutIff(st: ParserState, chunkSize: nat)
    ensures (forall more :: SameAfterCut(st, chunkSize, more)) <==> !PendingDelta(Drain(st, chunkSize).state)
  {
    var left := Drain(st, chunkSize).state;
    DrainEndsShort(st, chunkSize);
    hide ChunkStep, PendingDelta;
    if PendingDelta(left) {
      assert left.Fed([]) == left && st.Fed([]) == st;
      assert Drain(left, chunkSize).state.headers != left.headers;
      assert !SameAfterCut(st, chunkSize, []);
    } else {
      forall more ensures SameAfterCut(st, chunkSize, more) {
        CutHarmless(st, chunkSize, more);
      }
    }
  }

  // ---------------------------------------------------------------- a harmful cut

  /** A type 1 header on chunk stream 3: 40 ms later, one byte of payload, type 9. */
  const DeltaHeader: seq<byte> := [0x43, 0, 0, 40, 0, 0, 1, 9]

  function Waiting(t: u32): ChunkHeader {
    ChunkHeader(Type0, 3, t, 1, 9, 1, false)
  }

  function Later(t: u32, ms: nat): u32 {
    (ms + t) % 0x1_0000_0000
  }

  lemma DeltaBytes(more: seq<byte>)
    ensures var b := DeltaHeader + more;
      && |b| >= 8 && b[0] == 0x43 && b[1] == 0 && b[2] == 0 && b[3] == 40 && b[4] == 0 && b[5] == 0 && b[6] == 1
      && b[7] == 9
  {
  }

  lemma DeltaBasic(more: seq<byte>)
    ensures ReadBasic(DeltaHeader + more) == Some(Basic(Type1, 3, 1))
    ensures ReadFields(Type1, (DeltaHeader + more)[1..]) == Some(Fields(40, 1, 9, 0, false, 7))
  {
    DeltaBytes(more);
    var b := DeltaHeader + more;
    OneByteBasic(b);
    hide ReadFields, ReadBasic;
    DeltaFields(b[1..]);
  }

  lemma OneByteBasic(b: seq<byte>)
    requires b != [] && b[0] == 0x43
    ensures ReadBasic(b) == Some(Basic(Type1, 3, 1))
  {
  }

  lemma DeltaFields(b: seq<byte>)
    requires |b| >= 7 && b[0] == 0 && b[1] == 0 && b[2] == 40 && b[3] == 0 && b[4] == 0 && b[5] == 1 && b[6] == 9
    ensures ReadFields(Type1, b) == Some(Fields(40, 1, 9, 0, false, 7))
  {
  }

  lemma DeltaHeaderRead(more: seq<byte>, headers: Headers, t: u32)
    requires 3 in headers && headers[3].timestamp == t && headers[3].msgStreamId == 1
    ensures ReadHeader(DeltaHeader + more, headers) == Some((ChunkHeader(Type1, 3, Later(t, 40), 1, 9, 1, false), 8))
  {
    DeltaBasic(more);
    hide ReadBasic, ReadFields;
  }

  /** The header alone: it is stored and stays in the buffer. */
  lemma DeltaHeaderWaits(st: ParserState, t: u32)
    requires st.buf == DeltaHeader && st.assemblers == map[] && 3 in st.headers
    requires st.headers[3].timestamp == t && st.headers[3].msgStreamId == 1
    ensures var left := st.(headers := st.headers[3 := ChunkHeader(Type1, 3, Later(t, 40), 1, 9, 1, false)]);
      Drain(st, 128) == Drained(left, []) && PendingDelta(left)
  {
    assert DeltaHeader + [] == DeltaHeader;
    DeltaHeaderRead([], st.headers, t);
    DeltaBasic([]);
    StepAfterHeader(st, 128);
    hide ReadHeader, ReadBasic, ReadFields, ChunkStep, Later;
  }

  lemma OneByteTaken(st: ParserState, t: u32, x: byte)
    requires st.buf == DeltaHeader + [x] && st.assemblers == map[] && 3 in st.headers
    requires st.headers[3].timestamp == t && st.headers[3].msgStreamId == 1
    ensures Drain(st, 128).messages == [RtmpMessage(9, Later(t, 40), 1, [x])]
  {
    DeltaHeaderRead([x], st.headers, t);
    StepAfterHeader(st, 128);
    var h := ChunkHeader(Type1, 3, Later(t, 40), 1, 9, 1, false);
    OneByteChunk(st, h, x);
    hide ReadHeader, ChunkStep, TakeChunk, Later;
    var s := ChunkStep(st, 128);
    NothingToDrain(s.next);
    assert Drain(st, 128).messages == [s.msg.value] + Drain(s.next, 128).messages;
  }

  /** A one-byte message behind its header is complete. */
  lemma OneByteChunk(st: ParserState, h: ChunkHeader, x: byte)
    requires |st.buf| == 9 && st.buf[8] == x && st.assemblers == map[] && h.msgLength == 1
    ensures var s := TakeChunk(st, h, 8, 128);
      && s.Took? && s.next.buf == []
      && s.msg == Some(RtmpMessage(h.msgType, h.timestamp, h.msgStreamId, [x]))
  {
    assert st.buf[8..9] == [x] && st.buf[9..] == [];
    assert [] + [x] == [x];
  }

  lemma NothingToDrain(st: ParserState)
    requires st.buf == []
    ensures Drain(st, 128).messages == []
  {
  }

  lemma LaterTwice(t: u32)
    ensures Later(Later(t, 40), 40) == Later(t, 80)
  {
  }

  /** The smallest harmful cut, between a type 1 header and its one byte: read whole the message is 40 ms after the one
      before it, cut it is 80 ms after. */
  lemma CutAddsTwice(t: u32, x: byte)
    ensures var st := ParserState(DeltaHeader, map[], map[3 := Waiting(t)]);
      && PendingDelta(Drain(st, 128).state)
      && Drain(st.Fed([x]), 128).messages == [RtmpMessage(9, Later(t, 40), 1, [x])]
      && Drain(Drain(st, 128).state.Fed([x]), 128).messages == [RtmpMessage(9, Later(t, 80), 1, [x])]
  {
    var st := ParserState(DeltaHeader, map[], map[3 := Waiting(t)]);
    DeltaHeaderWaits(st, t);
    OneByteTaken(st.Fed([x]), t, x);
    var left := st.(headers := st.headers[3 := ChunkHeader(Type1, 3, Later(t, 40), 1, 9, 1, false)]);
    OneByteTaken(left.Fed([x]), Later(t, 40), x);
    hide Drain, PendingDelta, Later;
    LaterTwice(t);
  }
}
