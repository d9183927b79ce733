/**
  * RTMP chunk stream parser and encoder (section 5.3.1 of the Adobe RTMP 1.0 specification).
  * The functions say what one parser step does to the three things the parser owns: the
  * receive buffer, the per-chunk-stream assemblers and the per-chunk-stream last headers.
  * `ChunkParser` and `EncodeMessage` are the in-place code, proved against them.
  */
module ChunkStream {
  import opened Bytes

  datatype ChunkFmt = Type0 | Type1 | Type2 | Type3

  datatype ChunkHeader = ChunkHeader(
    fmt: ChunkFmt,
    csid: nat,
    timestamp: u32,
    msgLength: u32,
    msgType: byte,
    msgStreamId: u32,
    hasExtended: bool)

  datatype ChunkAssembler = ChunkAssembler(
    timestamp: u32,
    msgLength: u32,
    msgType: byte,
    msgStreamId: u32,
    received: nat,
    buffer: seq<byte>)

  const EmptyAssembler := ChunkAssembler(0, 0, 0, 0, 0, [])

  datatype RtmpMessage = RtmpMessage(msgType: byte, timestamp: u32, msgStreamId: u32, payload: seq<byte>)

  type Headers = map<nat, ChunkHeader>
  type Assemblers = map<nat, ChunkAssembler>

  datatype ParserState = ParserState(buf: seq<byte>, assemblers: Assemblers, headers: Headers) {
    /** The same parser with more received bytes behind its buffer. */
    function Fed(more: seq<byte>): ParserState {
      this.(buf := buf + more)
    }
  }

  // ---------------------------------------------------------------- header

  datatype Basic = Basic(fmt: ChunkFmt, csid: nat, size: nat)

  datatype Fields = Fields(timestamp: u32, msgLength: u24, msgType: byte, msgStreamId: u32, hasExtended: bool,
                           size: nat)

  function FmtOf(b: byte): ChunkFmt {
    match b / 0x40
    case 0 => Type0
    case 1 => Type1
    case 2 => Type2
    case _ => Type3
  }

  function FmtCode(fmt: ChunkFmt): nat {
    match fmt
    case Type0 => 0
    case Type1 => 1
    case Type2 => 2
    case Type3 => 3
  }

  function MessageHeaderSize(fmt: ChunkFmt): nat {
    match fmt
    case Type0 => 11
    case Type1 => 7
    case Type2 => 3
    case Type3 => 0
  }

  /** The one-, two- or three-byte basic header. */
  function ReadBasic(buf: seq<byte>): Option<Basic> {
    if |buf| == 0 then None
    else
      var low := buf[0] % 0x40;
      if low == 0 then
        if |buf| < 2 then None else Some(Basic(FmtOf(buf[0]), 64 + buf[1] as int, 2))
      else if low == 1 then
        if |buf| < 3 then None else Some(Basic(FmtOf(buf[0]), 64 + buf[1] as int + buf[2] as int * 0x100, 3))
      else
        Some(Basic(FmtOf(buf[0]), low, 1))
  }

  /** The message header that follows, with its extended timestamp, as written on the wire. */
  function ReadFields(fmt: ChunkFmt, b: seq<byte>): Option<Fields> {
    var n := MessageHeaderSize(fmt);
    if |b| < n then None
    else
      var timestamp: u32 := if fmt == Type3 then 0 else FromBe24(b[0], b[1], b[2]);
      var long := fmt == Type0 || fmt == Type1;
      var msgLength: u24 := if long then FromBe24(b[3], b[4], b[5]) else 0;
      var msgType: byte := if long then b[6] else 0;
      var msgStreamId: u32 := if fmt == Type0 then FromLe32(b[7], b[8], b[9], b[10]) else 0;
      if timestamp == 0xFF_FFFF then
        if |b| < n + 4 then None
        else Some(Fields(FromBe32(b[n], b[n + 1], b[n + 2], b[n + 3]), msgLength, msgType, msgStreamId, true, n + 4))
      else
        Some(Fields(timestamp, msgLength, msgType, msgStreamId, false, n))
  }

  /** Completes the wire fields from the previous header of the same chunk stream. */
  function Inherit(basic: Basic, f: Fields, headers: Headers): Option<ChunkHeader> {
    if basic.fmt == Type0 then
      Some(ChunkHeader(Type0, basic.csid, f.timestamp, f.msgLength, f.msgType, f.msgStreamId, f.hasExtended))
    else if basic.csid !in headers then None
    else
      var last := headers[basic.csid];
      var sum: u32 := (f.timestamp + last.timestamp) % 0x1_0000_0000;
      match basic.fmt
      case Type1 => Some(ChunkHeader(Type1, basic.csid, sum, f.msgLength, f.msgType, last.msgStreamId, f.hasExtended))
      case Type2 => Some(ChunkHeader(Type2, basic.csid, sum, last.msgLength, last.msgType, last.msgStreamId,
                                     f.hasExtended))
      case _ => Some(ChunkHeader(Type3, basic.csid, last.timestamp, last.msgLength, last.msgType, last.msgStreamId,
                                 f.hasExtended))
  }

  lemma NoPreviousHeader(basic: Basic, f: Fields, headers: Headers)
    requires basic.fmt != Type0 && basic.csid !in headers
    ensures Inherit(basic, f, headers) == None
  {
  }

  /** The four cases of `Inherit`, field by field. */
  lemma InheritIs(basic: Basic, f: Fields, headers: Headers, h: ChunkHeader)
    requires h.fmt == basic.fmt && h.csid == basic.csid && h.hasExtended == f.hasExtended
    requires basic.fmt != Type0 ==> basic.csid in headers
    requires basic.fmt in {Type0, Type1} ==> h.msgLength == f.msgLength && h.msgType == f.msgType
    requires basic.fmt in {Type2, Type3} ==>
      h.msgLength == headers[basic.csid].msgLength && h.msgType == headers[basic.csid].msgType
    requires h.msgStreamId == if basic.fmt == Type0 then f.msgStreamId else headers[basic.csid].msgStreamId
    requires match basic.fmt
      case Type0 => h.timestamp == f.timestamp
      case Type3 => h.timestamp == headers[basic.csid].timestamp
      case _ => h.timestamp == (f.timestamp + headers[basic.csid].timestamp) % 0x1_0000_0000
    ensures Inherit(basic, f, headers) == Some(h)
  {
  }

  /** The header at the front of the buffer and its size in bytes. */
  function ReadHeader(buf: seq<byte>, headers: Headers): Option<(ChunkHeader, nat)> {
    match ReadBasic(buf)
    case None => None
    case Some(basic) =>
      match ReadFields(basic.fmt, buf[basic.size..])
      case None => None
      case Some(f) =>
        match Inherit(basic, f, headers)
        case None => None
        case Some(h) => Some((h, basic.size + f.size))
  }

  // ---------------------------------------------------------------- one chunk

  function AssemblerOf(assemblers: Assemblers, csid: nat): ChunkAssembler {
    if csid in assemblers then assemblers[csid] else EmptyAssembler
  }

  /** How many payload bytes this chunk must carry. */
  function DataSize(a: ChunkAssembler, h: ChunkHeader, chunkSize: nat): nat {
    var remaining := if a.msgLength > 0 then Max(a.msgLength - a.received, 0) else h.msgLength;
    Min(chunkSize, remaining)
  }

  /** The assembler after one more chunk of data under header h. */
  function Extend(a: ChunkAssembler, h: ChunkHeader, data: seq<byte>): ChunkAssembler {
    ChunkAssembler(h.timestamp, h.msgLength, h.msgType, h.msgStreamId, a.received + |data|, a.buffer + data)
  }

  predicate IsComplete(a: ChunkAssembler) {
    a.received >= a.msgLength && a.msgLength > 0
  }

  function MessageOf(a: ChunkAssembler): RtmpMessage {
    RtmpMessage(a.msgType, a.timestamp, a.msgStreamId, a.buffer)
  }

  /** What one pass of the parser loop does: it stops for lack of bytes, or takes a whole chunk. */
  datatype Step = Short(headers: Headers) | Took(next: ParserState, msg: Option<RtmpMessage>)

  function TakeChunk(st: ParserState, h: ChunkHeader, size: nat, chunkSize: nat): (s: Step)
    requires 0 < size <= |st.buf|
    ensures s.Took? ==> |s.next.buf| < |st.buf|
  {
    var headers := st.headers[h.csid := h];
    var a := AssemblerOf(st.assemblers, h.csid);
    var data := DataSize(a, h, chunkSize);
    if |st.buf| < size + data then Short(headers)
    else
      var b := Extend(a, h, st.buf[size..size + data]);
      var rest := st.buf[size + data..];
      if IsComplete(b) then
        Took(ParserState(rest, st.assemblers[h.csid := b.(msgLength := 0, received := 0, buffer := [])], headers),
             Some(MessageOf(b)))
      else
        Took(ParserState(rest, st.assemblers[h.csid := b], headers), None)
  }

  lemma HeaderFits(buf: seq<byte>, headers: Headers)
    ensures var r := ReadHeader(buf, headers); r.Some? ==> 0 < r.value.1 <= |buf|
  {
  }

  function ChunkStep(st: ParserState, chunkSize: nat): (s: Step)
    ensures s.Took? ==> |s.next.buf| < |st.buf|
  {
    match ReadHeader(st.buf, st.headers)
    case None => Short(st.headers)
    case Some((h, size)) =>
      HeaderFits(st.buf, st.headers);
      TakeChunk(st, h, size, chunkSize)
  }

  lemma StepAfterHeader(st: ParserState, chunkSize: nat)
    ensures var r := ReadHeader(st.buf, st.headers);
      if r.None? then ChunkStep(st, chunkSize) == Short(st.headers)
      else 0 < r.value.1 <= |st.buf| && ChunkStep(st, chunkSize) == TakeChunk(st, r.value.0, r.value.1, chunkSize)
  {
    HeaderFits(st.buf, st.headers);
  }

  /** One call of the parser: whole chunks are taken until a message completes or bytes run out. */
  function Parse(st: ParserState, chunkSize: nat): (ParserState, Option<RtmpMessage>)
    decreases |st.buf|
  {
    match ChunkStep(st, chunkSize)
    case Short(headers) => (st.(headers := headers), None)
    case Took(next, Some(m)) => (next, Some(m))
    case Took(next, None) => Parse(next, chunkSize)
  }

  datatype Drained = Drained(state: ParserState, messages: seq<RtmpMessage>)

  /** Every message the buffered bytes complete, and the parser left behind. */
  function Drain(st: ParserState, chunkSize: nat): Drained
    decreases |st.buf|
  {
    match ChunkStep(st, chunkSize)
    case Short(headers) => Drained(st.(headers := headers), [])
    case Took(next, m) =>
      var d := Drain(next, chunkSize);
      Drained(d.state, (if m.Some? then [m.value] else []) + d.messages)
  }

  /** Draining is calling the parser until it returns None, which is how its callers use it. */
  lemma {:induction false} DrainIsRepeatedParse(st: ParserState, chunkSize: nat)
    ensures var (next, m) := Parse(st, chunkSize);
      Drain(st, chunkSize) ==
        if m.None? then Drained(next, [])
        else Drained(Drain(next, chunkSize).state, [m.value] + Drain(next, chunkSize).messages)
    decreases |st.buf|
  {
    match ChunkStep(st, chunkSize)
    case Short(_) =>
    case Took(next, Some(_)) =>
    case Took(next, None) => DrainIsRepeatedParse(next, chunkSize);
  }

  // ---------------------------------------------------------------- encoder

  /** Basic header as the encoder writes it; ids from 2 to 65599 fit, larger ones are cut to sixteen bits. */
  function BasicBytes(fmt: ChunkFmt, csid: nat): seq<byte> {
    if csid < 64 then [FmtCode(fmt) * 0x40 + csid]
    else if csid < 320 then [FmtCode(fmt) * 0x40, csid - 64]
    else [FmtCode(fmt) * 0x40 + 1, (csid - 64) % 0x100, (csid - 64) / 0x100 % 0x100]
  }

  /** The three bytes there are for a length. */
  function LengthField(n: nat): (r: u24)
    ensures n < 0x100_0000 ==> r == n
  {
    n % 0x100_0000
  }

  /** Message header of a full (type 0) chunk; a length of 2^24 or more is cut to its low three bytes. */
  function Type0Bytes(m: RtmpMessage): seq<byte> {
    (if m.timestamp >= 0xFF_FFFF then [0xFF, 0xFF, 0xFF] else Be24(m.timestamp))
    + Be24(LengthField(|m.payload|)) + [m.msgType] + Le32(m.msgStreamId)
    + (if m.timestamp >= 0xFF_FFFF then Be32(m.timestamp) else [])
  }

  /** The chunk that carries the payload from byte `sent` on; type 0 first, type 3 after. */
  function ChunkAt(m: RtmpMessage, csid: nat, chunkSize: nat, sent: nat): seq<byte>
    requires sent <= |m.payload|
  {
    (if sent == 0 then BasicBytes(Type0, csid) + Type0Bytes(m) else BasicBytes(Type3, csid))
    + m.payload[sent..sent + Min(chunkSize, |m.payload| - sent)]
  }

  /** All chunks of the message from byte `sent` on; from 0 this is the encoded message. */
  function EncodedFrom(m: RtmpMessage, csid: nat, chunkSize: nat, sent: nat): seq<byte>
    requires sent <= |m.payload| && (m.payload != [] ==> chunkSize > 0)
    decreases |m.payload| - sent
  {
    var next := sent + Min(chunkSize, |m.payload| - sent);
    ChunkAt(m, csid, chunkSize, sent)
    + if next < |m.payload| then EncodedFrom(m, csid, chunkSize, next) else []
  }

  /** What is left to send of a message once `sent` bytes of its payload are out. */
  function Rest(m: RtmpMessage, csid: nat, chunkSize: nat, sent: nat): seq<byte>
    requires sent <= |m.payload| && (m.payload != [] ==> chunkSize > 0)
  {
    if sent < |m.payload| then EncodedFrom(m, csid, chunkSize, sent) else []
  }

  method EncodeBasicHeader(buf: seq<byte>, fmt: ChunkFmt, csid: nat) returns (out: seq<byte>)
    ensures out == buf + BasicBytes(fmt, csid)
  {
    out := buf;
    if csid < 64 {
      out := out + [FmtCode(fmt) * 0x40 + csid];
    } else if csid < 320 {
      out := out + [FmtCode(fmt) * 0x40];
      out := out + [csid - 64];
    } else {
      out := out + [FmtCode(fmt) * 0x40 + 1];
      var v := csid - 64;
      out := out + [v % 0x100];
      out := out + [v / 0x100 % 0x100];
    }
  }

  method EncodeType0Header(buf: seq<byte>, m: RtmpMessage) returns (out: seq<byte>)
    ensures out == buf + Type0Bytes(m)
  {
    out := buf;
    if m.timestamp >= 0xFF_FFFF {
      out := out + [0xFF, 0xFF, 0xFF];
    } else {
      out := out + Be24(m.timestamp);
    }
    out := out + Be24(LengthField(|m.payload|));
    out := out + [m.msgType];
    out := out + Le32(m.msgStreamId);
    if m.timestamp >= 0xFF_FFFF {
      out := out + Be32(m.timestamp);
    }
  }

  lemma RestStep(m: RtmpMessage, csid: nat, chunkSize: nat, sent: nat)
    requires sent < |m.payload| && chunkSize > 0
    ensures Rest(m, csid, chunkSize, sent)
         == ChunkAt(m, csid, chunkSize, sent) + Rest(m, csid, chunkSize, sent + Min(chunkSize, |m.payload| - sent))
  {
  }

  lemma EmptyEncoding(m: RtmpMessage, csid: nat, chunkSize: nat)
    requires m.payload == []
    ensures EncodedFrom(m, csid, chunkSize, 0) == [] + ChunkAt(m, csid, chunkSize, 0)
  {
  }

  /** One chunk appended to the output, as the body of the encoding loop writes it. */
  method EncodeChunk(out: seq<byte>, m: RtmpMessage, csid: nat, chunkSize: nat, offset: nat) returns (r: seq<byte>)
    requires offset <= |m.payload|
    ensures r == out + ChunkAt(m, csid, chunkSize, offset)
  {
    var header;
    if offset == 0 {
      header := EncodeBasicHeader([], Type0, csid);
      header := EncodeType0Header(header, m);
    } else {
      header := EncodeBasicHeader([], Type3, csid);
    }
    var dataLen := Min(chunkSize, |m.payload| - offset);
    assert header == if offset == 0 then BasicBytes(Type0, csid) + Type0Bytes(m) else BasicBytes(Type3, csid);
    hide BasicBytes, Type0Bytes;
    r := out + (header + m.payload[offset..offset + dataLen]);
  }

  method EncodeMessage(m: RtmpMessage, chunkSize: nat, csid: nat) returns (output: seq<byte>)
    requires m.payload != [] ==> chunkSize > 0
    ensures output == EncodedFrom(m, csid, chunkSize, 0)
  {
    hide EncodedFrom, ChunkAt;
    output := [];
    var offset := 0;
    while offset < |m.payload|
      invariant offset <= |m.payload|
      invariant Rest(m, csid, chunkSize, 0) == output + Rest(m, csid, chunkSize, offset)
    {
      var dataLen := Min(chunkSize, |m.payload| - offset);
      RestStep(m, csid, chunkSize, offset);
      Assoc(output, ChunkAt(m, csid, chunkSize, offset), Rest(m, csid, chunkSize, offset + dataLen));
      output := EncodeChunk(output, m, csid, chunkSize, offset);
      offset := offset + dataLen;
    }
    if |m.payload| == 0 {
      output := EncodeChunk(output, m, csid, chunkSize, 0);
      EmptyEncoding(m, csid, chunkSize);
    }
  }

  // ---------------------------------------------------------------- the parser in place

  /** The state every RTMP connection keeps between socket reads. */
  class ChunkParser {
    var buf: seq<byte>
    var assemblers: Assemblers
    var headers: Headers

    constructor ()
      ensures State() == ParserState([], map[], map[])
    {
      buf, assemblers, headers := [], map[], map[];
    }

    ghost function State(): ParserState
      reads this
    {
      ParserState(buf, assemblers, headers)
    }

    method Receive(more: seq<byte>)
      modifies this
      ensures State() == old(State()).Fed(more)
    {
      buf := buf + more;
    }

    method ParseChunkHeader() returns (r: Option<(ChunkHeader, nat)>)
      modifies this`headers
      ensures r == ReadHeader(buf, old(headers))
      ensures headers == if r.Some? then old(headers)[r.value.0.csid := r.value.0] else old(headers)
      ensures r.Some? ==> 0 < r.value.1 <= |buf|
    {
      var basic := ReadBasic(buf);
      if basic.None? {
        return None;
      }
      var Basic(fmt, csid, basicSize) := basic.value;
      hide ReadBasic;
      var b := buf[basicSize..];
      hide FromBe24, FromBe32, FromLe32, Inherit;
      if |b| < MessageHeaderSize(fmt) {
        return None;
      }
      var offset := 0;
      var timestamp: u32, msgLength: u32, msgType: byte, msgStreamId: u32 := 0, 0, 0, 0;
      var hasExtended := false;
      if fmt == Type0 || fmt == Type1 || fmt == Type2 {
        timestamp := FromBe24(b[0], b[1], b[2]);
        offset := 3;
      }
      if fmt == Type0 || fmt == Type1 {
        msgLength := FromBe24(b[offset], b[offset + 1], b[offset + 2]);
        msgType := b[offset + 3];
        offset := offset + 4;
      }
      if fmt == Type0 {
        msgStreamId := FromLe32(b[offset], b[offset + 1], b[offset + 2], b[offset + 3]);
        offset := offset + 4;
      }
      if timestamp == 0xFF_FFFF {
        if |b| < offset + 4 {
          return None;
        }
        timestamp := FromBe32(b[offset], b[offset + 1], b[offset + 2], b[offset + 3]);
        offset := offset + 4;
        hasExtended := true;
      }
      ghost var fields := Fields(timestamp, msgLength, msgType, msgStreamId, hasExtended, offset);
      assert ReadFields(fmt, b) == Some(fields);
      hide ReadFields;
      if fmt != Type0 {
        if csid !in headers {
          NoPreviousHeader(basic.value, fields, headers);
          return None;
        }
        var last := headers[csid];
        match fmt {
          case Type1 =>
            timestamp := (timestamp + last.timestamp) % 0x1_0000_0000;
            msgStreamId := last.msgStreamId;
          case Type2 =>
            timestamp := (timestamp + last.timestamp) % 0x1_0000_0000;
            msgLength, msgType, msgStreamId := last.msgLength, last.msgType, last.msgStreamId;
          case _ =>
            timestamp := last.timestamp;
            msgLength, msgType, msgStreamId := last.msgLength, last.msgType, last.msgStreamId;
        }
      }
      var header := ChunkHeader(fmt, csid, timestamp, msgLength, msgType, msgStreamId, hasExtended);
      InheritIs(basic.value, fields, headers, header);
      headers := headers[csid := header];
      return Some((header, basicSize + offset));
    }

    method ParseChunks(chunkSize: nat) returns (msg: Option<RtmpMessage>)
      modifies this
      ensures (State(), msg) == Parse(old(State()), chunkSize)
    {
      hide ReadHeader, ChunkStep;
      while true
        invariant Parse(State(), chunkSize) == Parse(old(State()), chunkSize)
        decreases |buf|
      {
        ghost var before := State();
        var parsed := ParseChunkHeader();
        if parsed.None? {
          StepAfterHeader(before, chunkSize);
          return None;
        }
        var (header, headerSize) := parsed.value;
        StepAfterHeader(before, chunkSize);
        var remaining := header.msgLength;
        if header.csid in assemblers && assemblers[header.csid].msgLength > 0 {
          remaining := Max(assemblers[header.csid].msgLength - assemblers[header.csid].received, 0);
        }
        var dataSize := Min(chunkSize, remaining);
        if |buf| < headerSize + dataSize {
          return None;
        }
        var data := buf[headerSize..headerSize + dataSize];
        var assembler := if header.csid in assemblers then assemblers[header.csid] else EmptyAssembler;
        assembler := assembler.(timestamp := header.timestamp, msgLength := header.msgLength,
                                msgType := header.msgType, msgStreamId := header.msgStreamId);
        assembler := assembler.(buffer := assembler.buffer + data, received := assembler.received + dataSize);
        buf := buf[headerSize + dataSize..];
        if assembler.received >= assembler.msgLength && assembler.msgLength > 0 {
          msg := Some(RtmpMessage(assembler.msgType, assembler.timestamp, assembler.msgStreamId, assembler.buffer));
          assembler := assembler.(msgLength := 0, received := 0, buffer := []);
          assemblers := assemblers[header.csid := assembler];
          assert ChunkStep(before, chunkSize) == Took(State(), msg);
          return;
        }
        assemblers := assemblers[header.csid := assembler];
        assert ChunkStep(before, chunkSize) == Took(State(), None);
      }
    }
  }
}
