/**
  * The chunk parser against a receiver that follows section 5.3.1 of the Adobe RTMP 1.0 specification to the letter.
  * The two differ in type 3 chunks only: where one starts a message the standard adds the delta of the last header once
  * more (section 5.3.1.2.4), and where that header had an extended time stamp the standard repeats its four bytes
  * (section 5.3.1.3). The parser does neither.
  */
module ChunkStandard {
  import opened Bytes
  import opened ChunkStream
  import opened ChunkDelivery

  /** A standard receiver: the parser's state, the time-stamp field of the last type 0, 1 or 2 header of each chunk
      stream, and whether it was an extended one. `repeated` counts what type 3 chunks have added since the last type 0
      header. */
  datatype Reading = Reading(st: ParserState, deltas: map<nat, u32>, extended: set<nat>, repeated: map<nat, nat>)

  const FreshParser := ParserState([], map[], map[])
  const FreshReading := Reading(FreshParser, map[], {}, map[])

  /** A header as the standard reads it, with what it leaves behind. */
  datatype Seen = Seen(h: ChunkHeader, size: nat, delta: u32, isExtended: bool, again: nat)

  /** A message of a standard receiver, and how much of its time stamp came from type 3 chunks. */
  datatype Timed = Timed(msg: RtmpMessage, behind: nat)

  datatype Outcome = Waits | Takes(next: Reading, msg: Option<Timed>)

  /** The next chunk of this stream starts a message. */
  predicate Starts(r: Reading, c: nat) {
    AssemblerOf(r.st.assemblers, c).received == 0
  }

  /** The chunk stream of the chunk in front, and the length of the basic header (section 5.3.1.1). */
  function StreamOf(buf: seq<byte>): Option<(nat, nat)> {
    if buf == [] then None
    else
      var low := buf[0] % 64;
      if low == 0 then (if |buf| < 2 then None else Some((64 + buf[1] as int, 2)))
      else if low == 1 then (if |buf| < 3 then None else Some((64 + buf[1] as int + 256 * buf[2] as int, 3)))
      else Some((low, 1))
  }

  /** Its type: the two high bits. */
  function KindOf(buf: seq<byte>): nat
    requires buf != []
  {
    buf[0] / 64
  }

  /** A type 3 header: everything as before, and the delta again where a message starts. */
  function Type3Header(r: Reading, c: nat, at: nat): Option<Seen> {
    var size := at + if c in r.extended then 4 else 0;
    if c !in r.st.headers || c !in r.deltas || |r.st.buf| < size then None
    else
      var last := r.st.headers[c];
      var again := if Starts(r, c) then r.deltas[c] else 0;
      Some(Seen(ChunkHeader(Type3, c, (last.timestamp + again) % 0x1_0000_0000, last.msgLength, last.msgType,
                            last.msgStreamId, false),
                size, r.deltas[c], c in r.extended, again))
  }

  /** Three bytes, most significant first. */
  function Three(buf: seq<byte>, i: nat): nat
    requires i + 3 <= |buf|
  {
    buf[i] as int * 0x1_0000 + buf[i + 1] as int * 0x100 + buf[i + 2] as int
  }

  /** Two bytes, least significant first. */
  function Two(buf: seq<byte>, i: nat): nat
    requires i + 2 <= |buf|
  {
    buf[i] as int + 0x100 * buf[i + 1] as int
  }

  /** A time stamp a delta later; time stamps have 32 bits. */
  function Moved(timestamp: u32, delta: nat): u32 {
    (delta + timestamp) % 0x1_0000_0000
  }

  /** A header of type 0, 1 or 2 (sections 5.3.1.2.1 to 5.3.1.2.3): time stamp or delta, 0xFFFFFF standing for four
      bytes behind the header; length and type but for type 2; the stream, least significant byte first, for type 0
      only. */
  function FullHeader(r: Reading, kind: nat, c: nat, at: nat): Option<Seen>
    requires kind < 3 && at > 0
  {
    var buf, last := r.st.buf, r.st.headers;
    var end := at + if kind == 0 then 11 else if kind == 1 then 7 else 3;
    if |buf| < end then None
    else
      var isExtended := Three(buf, at) == 0xFF_FFFF;
      var size := end + if isExtended then 4 else 0;
      if |buf| < size || (kind > 0 && c !in last) then None
      else
        var delta := if isExtended then buf[end] as int * 0x100_0000 + Three(buf, end + 1) else Three(buf, at);
        var timestamp := if kind == 0 then delta else Moved(last[c].timestamp, delta);
        var length := if kind == 2 then last[c].msgLength else Three(buf, at + 3);
        var msgType := if kind == 2 then last[c].msgType else buf[at + 6];
        var stream := if kind > 0 then last[c].msgStreamId
          else Two(buf, at + 7) + 0x1_0000 * Two(buf, at + 9);
        var fmt := if kind == 0 then Type0 else if kind == 1 then Type1 else Type2;
        Some(Seen(ChunkHeader(fmt, c, timestamp, length, msgType, stream, isExtended), size, delta, isExtended, 0))
  }

  function StandardHeader(r: Reading): Option<Seen> {
    match StreamOf(r.st.buf)
    case None => None
    case Some((c, at)) =>
      if KindOf(r.st.buf) == 3 then Type3Header(r, c, at) else FullHeader(r, KindOf(r.st.buf), c, at)
  }

  /** The data of a chunk: what is left of its message, a chunk's worth at most. A message with its last byte comes
      out. */
  function StandardTake(st: ParserState, h: ChunkHeader, size: nat, chunkSize: nat)
      : Option<(ParserState, Option<RtmpMessage>)>
    requires size <= |st.buf|
  {
    var c := h.csid;
    var (started, got, bytes) := if c in st.assemblers
      then (st.assemblers[c].msgLength, st.assemblers[c].received, st.assemblers[c].buffer) else (0, 0, []);
    var left := if started == 0 then h.msgLength else if got < started then started - got else 0;
    var n := if left < chunkSize then left else chunkSize;
    if |st.buf| - size < n then None
    else
      var now := bytes + st.buf[size..size + n];
      var isLast := h.msgLength > 0 && got + n >= h.msgLength;
      var a := if isLast then ChunkAssembler(h.timestamp, 0, h.msgType, h.msgStreamId, 0, [])
        else ChunkAssembler(h.timestamp, h.msgLength, h.msgType, h.msgStreamId, got + n, now);
      Some((ParserState(st.buf[size + n..], st.assemblers[c := a], st.headers[c := h]),
            if isLast then Some(RtmpMessage(h.msgType, h.timestamp, h.msgStreamId, now)) else None))
  }

  // ---------------------------------------------------------------- the same in the parser's terms

  /** Basic headers are read alike. */
  lemma BasicAlike(buf: seq<byte>)
    ensures ReadBasic(buf) == match StreamOf(buf)
      case None => None
      case Some((c, at)) => Some(Basic(FmtOf(buf[0]), c, at))
    ensures StreamOf(buf).Some? ==> buf != [] && 0 < StreamOf(buf).value.1 <= |buf|
    ensures buf != [] ==> (KindOf(buf) == 3 <==> FmtOf(buf[0]) == Type3)
  {
  }

  /** So are headers of type 0, 1 and 2, field by field. */
  lemma FieldsAlike(r: Reading, kind: nat, c: nat, at: nat)
    requires kind < 3 && 0 < at <= |r.st.buf|
    ensures var fmt := if kind == 0 then Type0 else if kind == 1 then Type1 else Type2;
      FullHeader(r, kind, c, at) == ParserFields(r, fmt, c, at)
  {
    if kind == 0 {
      Type0Alike(r, c, at);
    } else if kind == 1 {
      Type1Alike(r, c, at);
    } else {
      Type2Alike(r, c, at);
    }
    hide FullHeader, ParserFields;
  }

  function ParserFields(r: Reading, fmt: ChunkFmt, c: nat, at: nat): Option<Seen>
    requires 0 < at <= |r.st.buf|
  {
    match ReadFields(fmt, r.st.buf[at..])
    case None => None
    case Some(f) =>
      match Inherit(Basic(fmt, c, at), f, r.st.headers)
      case None => None
      case Some(h) => Some(Seen(h, at + f.size, f.timestamp, f.hasExtended, 0))
  }

  lemma Type0Alike(r: Reading, c: nat, at: nat)
    requires 0 < at <= |r.st.buf|
    ensures FullHeader(r, 0, c, at) == ParserFields(r, Type0, c, at)
  {
    Tail(r.st.buf, at);
    hide FromBe24, FromBe32, FromLe32, Three, Two;
  }

  lemma Type1Alike(r: Reading, c: nat, at: nat)
    requires 0 < at <= |r.st.buf|
    ensures FullHeader(r, 1, c, at) == ParserFields(r, Type1, c, at)
  {
    Type1Fields(r.st.buf, at);
    hide ReadFields, Three;
    if c in r.st.headers {
      Type1Inherits(c, at, r.st.headers);
    }
    hide Moved;
  }

  lemma Type1Inherits(c: nat, at: nat, headers: Headers)
    requires c in headers
    ensures forall f: Fields ::
      Inherit(Basic(Type1, c, at), f, headers) ==
        Some(ChunkHeader(Type1, c, Moved(headers[c].timestamp, f.timestamp), f.msgLength, f.msgType,
                         headers[c].msgStreamId, f.hasExtended))
  {
  }

  lemma Type1Fields(buf: seq<byte>, at: nat)
    requires at <= |buf|
    ensures ReadFields(Type1, buf[at..]) ==
      if |buf| < at + 7 then None
      else
        var (length, msgType) := (Three(buf, at + 3), buf[at + 6]);
        if Three(buf, at) != 0xFF_FFFF then Some(Fields(Three(buf, at), length, msgType, 0, false, 7))
        else if |buf| < at + 11 then None
        else Some(Fields(buf[at + 7] as int * 0x100_0000 + Three(buf, at + 8), length, msgType, 0, true, 11))
  {
    Tail(buf, at);
    hide FromBe24, FromBe32, FromLe32, Three, Two;
  }

  lemma Type2Alike(r: Reading, c: nat, at: nat)
    requires 0 < at <= |r.st.buf|
    ensures FullHeader(r, 2, c, at) == ParserFields(r, Type2, c, at)
  {
    Type2Fields(r.st.buf, at);
    hide ReadFields, Three;
    if c in r.st.headers {
      Type2Inherits(c, at, r.st.headers);
    }
    hide Moved;
  }

  lemma Type2Inherits(c: nat, at: nat, headers: Headers)
    requires c in headers
    ensures forall f: Fields ::
      Inherit(Basic(Type2, c, at), f, headers) ==
        Some(ChunkHeader(Type2, c, Moved(headers[c].timestamp, f.timestamp), headers[c].msgLength, headers[c].msgType,
                         headers[c].msgStreamId, f.hasExtended))
  {
  }

  lemma Type2Fields(buf: seq<byte>, at: nat)
    requires at <= |buf|
    ensures ReadFields(Type2, buf[at..]) ==
      if |buf| < at + 3 then None
      else if Three(buf, at) != 0xFF_FFFF then Some(Fields(Three(buf, at), 0, 0, 0, false, 3))
      else if |buf| < at + 7 then None
      else Some(Fields(buf[at + 3] as int * 0x100_0000 + Three(buf, at + 4), 0, 0, 0, true, 7))
  {
    Tail(buf, at);
    hide FromBe24, FromBe32, FromLe32, Three, Two;
  }

  /** What the parser reads behind the basic header, where it stands in the buffer. */
  lemma Tail(buf: seq<byte>, at: nat)
    requires at <= |buf|
    ensures var b := buf[at..];
      && |b| == |buf| - at
      && (|b| >= 3 ==> FromBe24(b[0], b[1], b[2]) == Three(buf, at))
      && (|b| >= 7 ==> FromBe24(b[3], b[4], b[5]) == Three(buf, at + 3) && b[6] == buf[at + 6]
                       && FromBe32(b[3], b[4], b[5], b[6]) == buf[at + 3] as int * 0x100_0000 + Three(buf, at + 4))
      && (|b| >= 11 ==>
            && FromLe32(b[7], b[8], b[9], b[10]) == Two(buf, at + 7) + 0x1_0000 * Two(buf, at + 9)
            && FromBe32(b[7], b[8], b[9], b[10]) == buf[at + 7] as int * 0x100_0000 + Three(buf, at + 8))
      && (|b| >= 15 ==>
            FromBe32(b[11], b[12], b[13], b[14]) == buf[at + 11] as int * 0x100_0000 + Three(buf, at + 12))
  {
  }

  function ParserHeader(r: Reading): Option<Seen> {
    match ReadBasic(r.st.buf)
    case None => None
    case Some(basic) =>
      if basic.fmt == Type3 then Type3Header(r, basic.csid, basic.size)
      else ParserFields(r, basic.fmt, basic.csid, basic.size)
  }

  /** The standard's own reading of a header is the parser's, type 3 aside. */
  lemma HeadersAlike(r: Reading)
    ensures StandardHeader(r) == ParserHeader(r)
  {
    BasicAlike(r.st.buf);
    if StreamOf(r.st.buf).Some? {
      var (c, at) := StreamOf(r.st.buf).value;
      if KindOf(r.st.buf) < 3 {
        FieldsAlike(r, KindOf(r.st.buf), c, at);
      }
    }
    hide StreamOf, ReadBasic, ReadFields, Inherit, Type3Header, FullHeader;
  }

  /** And its own taking of the data is the parser's. */
  lemma DataAlike(st: ParserState, h: ChunkHeader, size: nat, chunkSize: nat)
    requires 0 < size <= |st.buf|
    ensures TakeChunk(st, h, size, chunkSize) == match StandardTake(st, h, size, chunkSize)
      case None => Short(st.headers[h.csid := h])
      case Some((next, m)) => Took(next, m)
  {
  }

  lemma StandardHeaderFits(r: Reading)
    ensures StandardHeader(r).Some? ==> 0 < StandardHeader(r).value.size <= |r.st.buf|
  {
  }

  function Behind(r: Reading, x: Seen): nat {
    if x.h.fmt == Type0 then 0
    else (if x.h.csid in r.repeated then r.repeated[x.h.csid] else 0) + x.again
  }

  function Noted(r: Reading, x: Seen, next: ParserState): Reading {
    var c := x.h.csid;
    Reading(next, r.deltas[c := x.delta], if x.isExtended then r.extended + {c} else r.extended - {c},
            r.repeated[c := Behind(r, x)])
  }

  function StandardStep(r: Reading, chunkSize: nat): (s: Outcome)
    ensures s.Takes? ==> |s.next.st.buf| < |r.st.buf|
  {
    match StandardHeader(r)
    case None => Waits
    case Some(x) =>
      StandardHeaderFits(r);
      match StandardTake(r.st, x.h, x.size, chunkSize)
      case None => Waits
      case Some((next, m)) =>
        Takes(Noted(r, x, next), if m.Some? then Some(Timed(m.value, Behind(r, x))) else None)
  }

  /** Every message a standard receiver gets out of the buffered bytes. */
  function StandardDrain(r: Reading, chunkSize: nat): seq<Timed>
    decreases |r.st.buf|
  {
    match StandardStep(r, chunkSize)
    case Waits => []
    case Takes(next, m) => (if m.Some? then [m.value] else []) + StandardDrain(next, chunkSize)
  }

  // ---------------------------------------------------------------- the parser beside it

  function Back(t: u32, n: nat): u32 {
    (t - n) % 0x1_0000_0000
  }

  /** The message as the parser reports it. */
  function Late(t: Timed): RtmpMessage {
    t.msg.(timestamp := Back(t.msg.timestamp, t.behind))
  }

  function LateAll(ts: seq<Timed>): seq<RtmpMessage> {
    if ts == [] then [] else [Late(ts[0])] + LateAll(ts[1..])
  }

  function Messages(ts: seq<Timed>): seq<RtmpMessage> {
    if ts == [] then [] else [ts[0].msg] + Messages(ts[1..])
  }

  /** Two assemblers but for the time stamp, which the next chunk sets anyway. */
  predicate SameData(a: ChunkAssembler, b: ChunkAssembler) {
    a.(timestamp := 0) == b.(timestamp := 0)
  }

  /** The parser has read what the standard receiver has, its time stamps behind by what type 3 chunks have added. */
  ghost predicate Follows(p: ParserState, r: Reading) {
    && p.buf == r.st.buf
    && p.headers.Keys == r.st.headers.Keys == r.deltas.Keys == r.repeated.Keys
    && (forall c <- p.headers ::
          p.headers[c] == r.st.headers[c].(timestamp := Back(r.st.headers[c].timestamp, r.repeated[c])))
    && (forall c :: SameData(AssemblerOf(p.assemblers, c), AssemblerOf(r.st.assemblers, c)))
  }

  /** The next chunk is one of type 3 that carries an extended time stamp. */
  predicate ExtendedType3(r: Reading) {
    match StreamOf(r.st.buf)
    case None => false
    case Some((c, _)) => KindOf(r.st.buf) == 3 && c in r.extended && c in r.st.headers
  }

  lemma BackAdds(a: u32, t: u32, n: nat)
    ensures (a + Back(t, n)) % 0x1_0000_0000 == Back((a + t) % 0x1_0000_0000, n)
  {
    var m := 0x1_0000_0000;
    Congruent(a + Back(t, n), a + t - n);
    Congruent((a + t) % m - n, a + t - n);
  }

  lemma BackTwice(t: u32, n: nat, d: u32)
    ensures Back((t + d) % 0x1_0000_0000, n + d) == Back(t, n)
  {
    Congruent((t + d) % 0x1_0000_0000 - (n + d), t - n);
  }

  /** Numbers a multiple of 2^32 apart. */
  lemma Congruent(x: int, y: int)
    requires (x - y) % 0x1_0000_0000 == 0
    ensures x % 0x1_0000_0000 == y % 0x1_0000_0000
  {
  }

  lemma Type3Follows(p: ParserState, r: Reading, basic: Basic)
    requires Follows(p, r) && basic.fmt == Type3 && basic.size <= |p.buf|
    requires !(basic.csid in r.extended && basic.csid in r.st.headers)
    ensures ReadFields(Type3, p.buf[basic.size..]) == Some(Fields(0, 0, 0, 0, false, 0))
    ensures var y := Inherit(basic, Fields(0, 0, 0, 0, false, 0), p.headers);
      match Type3Header(r, basic.csid, basic.size)
      case None => y == None
      case Some(x) =>
        y == Some(x.h.(timestamp := Back(x.h.timestamp, Behind(r, x)))) && x.size == basic.size
            && x.h.csid == basic.csid
  {
    var c := basic.csid;
    if c in r.st.headers {
      var last := r.st.headers[c];
      assert p.headers[c] == last.(timestamp := Back(last.timestamp, r.repeated[c]));
      BackTwice(last.timestamp, r.repeated[c], if Starts(r, c) then r.deltas[c] else 0);
    }
    hide Back, AssemblerOf, SameData;
  }

  /** How far the parser is behind once it has read a header of type 0, 1 or 2. */
  function Held(r: Reading, basic: Basic): nat {
    if basic.fmt == Type0 || basic.csid !in r.repeated then 0 else r.repeated[basic.csid]
  }

  lemma FieldsFollow(p: ParserState, r: Reading, basic: Basic, f: Fields)
    requires Follows(p, r) && basic.fmt != Type3
    ensures var (x, y) := (Inherit(basic, f, r.st.headers), Inherit(basic, f, p.headers));
      && (x.Some? <==> y.Some?)
      && (x.Some? ==> x.value.csid == basic.csid && x.value.fmt == basic.fmt)
      && (x.Some? ==> y.value == x.value.(timestamp := Back(x.value.timestamp, Held(r, basic))))
  {
    var c := basic.csid;
    if basic.fmt == Type0 {
      assert Back(f.timestamp, 0) == f.timestamp;
    } else if c in r.st.headers {
      BackAdds(f.timestamp, r.st.headers[c].timestamp, r.repeated[c]);
    }
    hide Back, AssemblerOf, SameData;
  }

  /** Without an extended type 3 chunk both read the same header, but for the time stamp. */
  lemma HeaderFollows(p: ParserState, r: Reading)
    requires Follows(p, r) && !ExtendedType3(r)
    ensures StandardHeader(r).Some? <==> ReadHeader(p.buf, p.headers).Some?
    ensures StandardHeader(r).Some? ==>
      var x, y := StandardHeader(r).value, ReadHeader(p.buf, p.headers).value;
      y.1 == x.size && y.0 == x.h.(timestamp := Back(x.h.timestamp, Behind(r, x)))
  {
    HeadersAlike(r);
    BasicAlike(p.buf);
    hide StandardHeader, StreamOf, KindOf;
    match ReadBasic(p.buf) {
      case None =>
      case Some(basic) =>
        BasicSize(p.buf);
        if basic.fmt == Type3 {
          Type3Follows(p, r, basic);
          hide ReadBasic, ReadFields, Inherit, Type3Header, Back, Behind, Follows;
        } else {
          match ReadFields(basic.fmt, p.buf[basic.size..]) {
            case None =>
              hide ReadBasic, ReadFields, Inherit, Back;
            case Some(f) =>
              FieldsFollow(p, r, basic, f);
              hide ReadBasic, ReadFields, Inherit, Back, AssemblerOf, SameData;
          }
        }
    }
  }

  lemma BasicSize(buf: seq<byte>)
    ensures ReadBasic(buf).Some? ==> 1 <= ReadBasic(buf).value.size <= |buf|
  {
  }

  /** The same data under both headers. */
  lemma TakeFollows(p: ParserState, r: Reading, x: Seen, chunkSize: nat)
    requires Follows(p, r) && 0 < x.size <= |p.buf|
    ensures var y := x.h.(timestamp := Back(x.h.timestamp, Behind(r, x)));
      match TakeChunk(r.st, x.h, x.size, chunkSize)
      case Short(_) => TakeChunk(p, y, x.size, chunkSize).Short?
      case Took(next, m) =>
        var s := TakeChunk(p, y, x.size, chunkSize);
        && s.Took? && Follows(s.next, Noted(r, x, next))
        && s.msg == if m.None? then None else Some(Late(Timed(m.value, Behind(r, x))))
  {
    var c := x.h.csid;
    var y := x.h.(timestamp := Back(x.h.timestamp, Behind(r, x)));
    var s, t := TakeChunk(p, y, x.size, chunkSize), TakeChunk(r.st, x.h, x.size, chunkSize);
    SameTaken(p, r.st, x.h, y, x.size, chunkSize);
    hide Back, Behind, TakeChunk, SameData;
    if t.Took? {
      forall d ensures SameData(AssemblerOf(s.next.assemblers, d), AssemblerOf(t.next.assemblers, d)) {
        assert SameData(AssemblerOf(p.assemblers, d), AssemblerOf(r.st.assemblers, d));
      }
    }
  }

  /** One chunk taken from the same bytes under headers that differ in the time stamp only. */
  lemma SameTaken(p: ParserState, q: ParserState, h: ChunkHeader, y: ChunkHeader, size: nat, chunkSize: nat)
    requires p.buf == q.buf && 0 < size <= |p.buf| && y == h.(timestamp := y.timestamp)
    requires SameData(AssemblerOf(p.assemblers, h.csid), AssemblerOf(q.assemblers, h.csid))
    ensures var (s, t) := (TakeChunk(p, y, size, chunkSize), TakeChunk(q, h, size, chunkSize));
      && (s.Took? <==> t.Took?)
      && (t.Took? ==>
           && s.next.buf == t.next.buf && (s.msg.Some? <==> t.msg.Some?)
           && (t.msg.Some? ==> s.msg.value == t.msg.value.(timestamp := y.timestamp))
           && (t.msg.Some? ==> t.msg.value.timestamp == h.timestamp)
           && s.next.headers == p.headers[h.csid := y] && t.next.headers == q.headers[h.csid := h]
           && h.csid in s.next.assemblers && h.csid in t.next.assemblers
           && SameData(s.next.assemblers[h.csid], t.next.assemblers[h.csid])
           && s.next.assemblers == p.assemblers[h.csid := s.next.assemblers[h.csid]]
           && t.next.assemblers == q.assemblers[h.csid := t.next.assemblers[h.csid]])
  {
  }

  /** One step of each. */
  lemma StepFollows(p: ParserState, r: Reading, chunkSize: nat)
    requires Follows(p, r) && !ExtendedType3(r)
    ensures match StandardStep(r, chunkSize)
      case Waits => ChunkStep(p, chunkSize).Short?
      case Takes(next, m) =>
        var s := ChunkStep(p, chunkSize);
        && s.Took? && Follows(s.next, next) && s.msg == if m.None? then None else Some(Late(m.value))
  {
    HeaderFollows(p, r);
    StandardHeaderFits(r);
    StepAfterHeader(p, chunkSize);
    hide ReadHeader, StandardHeader, ChunkStep, TakeChunk, StandardTake, Follows, ExtendedType3, Noted, Behind, Back;
    if StandardHeader(r).Some? {
      DataAlike(r.st, StandardHeader(r).value.h, StandardHeader(r).value.size, chunkSize);
      assert p.buf == r.st.buf by {
        SameBuffer(p, r);
      }
      TakeFollows(p, r, StandardHeader(r).value, chunkSize);
    }
  }

  lemma SameBuffer(p: ParserState, r: Reading)
    requires Follows(p, r)
    ensures p.buf == r.st.buf
  {
  }

  // ---------------------------------------------------------------- whole streams

  /** No chunk that the standard receiver meets is one of type 3 with an extended time stamp. */
  ghost predicate NoExtendedType3(r: Reading, chunkSize: nat)
    decreases |r.st.buf|
  {
    !ExtendedType3(r)
    && match StandardStep(r, chunkSize)
       case Waits => true
       case Takes(next, _) => NoExtendedType3(next, chunkSize)
  }

  /** Of any bytes without extended type 3 chunks the parser returns exactly the messages of the standard receiver, each
      with its time stamp behind by the deltas that type 3 chunks have repeated on its chunk stream. */
  lemma {:induction false} TimesBehind(p: ParserState, r: Reading, chunkSize: nat)
    requires Follows(p, r) && NoExtendedType3(r, chunkSize)
    ensures Drain(p, chunkSize).messages == LateAll(StandardDrain(r, chunkSize))
    decreases |r.st.buf|
  {
    StepFollows(p, r, chunkSize);
    DrainSteps(p, chunkSize);
    hide ChunkStep, StandardStep, Follows, ExtendedType3, Late, Drain;
    match StandardStep(r, chunkSize) {
      case Waits =>
      case Takes(next, m) =>
        TimesBehind(ChunkStep(p, chunkSize).next, next, chunkSize);
        LateCons(m, StandardDrain(next, chunkSize));
    }
  }

  lemma DrainSteps(p: ParserState, chunkSize: nat)
    ensures Drain(p, chunkSize).messages ==
      match ChunkStep(p, chunkSize)
      case Short(_) => []
      case Took(next, m) => (if m.Some? then [m.value] else []) + Drain(next, chunkSize).messages
  {
    hide ChunkStep;
  }

  lemma LateCons(m: Option<Timed>, rest: seq<Timed>)
    ensures LateAll((if m.Some? then [m.value] else []) + rest)
         == (if m.Some? then [Late(m.value)] else []) + LateAll(rest)
  {
    hide Late;
    if m.Some? {
      assert ([m.value] + rest)[1..] == rest;
    } else {
      assert [] + rest == rest && [] + LateAll(rest) == LateAll(rest);
    }
  }

  lemma LateIff(t: Timed)
    ensures Late(t) == t.msg <==> t.behind % 0x1_0000_0000 == 0
  {
    Congruent(t.msg.timestamp - t.behind % 0x1_0000_0000, t.msg.timestamp - t.behind);
  }

  lemma {:induction false} LateAllIff(ts: seq<Timed>)
    ensures LateAll(ts) == Messages(ts) <==> forall t <- ts :: t.behind % 0x1_0000_0000 == 0
  {
    if ts != [] {
      LateIff(ts[0]);
      LateAllIff(ts[1..]);
      hide Late;
      assert LateAll(ts)[0] == Late(ts[0]) && Messages(ts)[0] == ts[0].msg;
      assert LateAll(ts)[1..] == LateAll(ts[1..]) && Messages(ts)[1..] == Messages(ts[1..]);
      assert forall t <- ts :: t == ts[0] || t in ts[1..];
    }
  }

  /** The exact condition: they agree on every message if and only if each of them is behind by nothing. */
  lemma AgreesIff(p: ParserState, r: Reading, chunkSize: nat)
    requires Follows(p, r) && NoExtendedType3(r, chunkSize)
    ensures Drain(p, chunkSize).messages == Messages(StandardDrain(r, chunkSize))
       <==> forall t <- StandardDrain(r, chunkSize) :: t.behind % 0x1_0000_0000 == 0
  {
    TimesBehind(p, r, chunkSize);
    LateAllIff(StandardDrain(r, chunkSize));
    hide Drain, StandardDrain;
  }

  // ---------------------------------------------------------------- in step

  /** The next chunk is one of type 3 that starts a message and so repeats a delta that is not zero. */
  predicate Repeats(r: Reading) {
    match StreamOf(r.st.buf)
    case None => false
    case Some((c, _)) => KindOf(r.st.buf) == 3 && c in r.deltas && Starts(r, c) && r.deltas[c] != 0
  }

  /** The parser has read exactly what the standard receiver has. */
  ghost predicate InStep(p: ParserState, r: Reading) {
    Follows(p, r) && p.headers == r.st.headers
  }

  lemma InStepIff(p: ParserState, r: Reading)
    requires Follows(p, r)
    ensures InStep(p, r) <==> forall c <- r.repeated :: r.repeated[c] % 0x1_0000_0000 == 0
  {
    forall c <- r.repeated
      ensures p.headers[c] == r.st.headers[c] <==> r.repeated[c] % 0x1_0000_0000 == 0
    {
      var t := r.st.headers[c].timestamp;
      LateIff(Timed(RtmpMessage(0, t, 0, []), r.repeated[c]));
      assert p.headers[c].timestamp == Back(t, r.repeated[c]);
    }
    hide AssemblerOf, SameData, Back;
    if forall c <- r.repeated :: r.repeated[c] % 0x1_0000_0000 == 0 {
      assert p.headers == r.st.headers;
    }
  }

  /** The chunk that is taken counts the delta it repeats, and no other chunk stream changes. */
  lemma StepCounts(r: Reading, chunkSize: nat)
    requires StandardStep(r, chunkSize).Takes? && r.st.headers.Keys == r.deltas.Keys == r.repeated.Keys
    ensures var x := StandardHeader(r).value;
      var next := StandardStep(r, chunkSize).next;
      && StandardHeader(r).Some? && next.repeated == r.repeated[x.h.csid := Behind(r, x)]
      && (x.again != 0 <==> Repeats(r)) && (x.again != 0 ==> x.h.fmt == Type3 && x.h.csid in r.repeated)
      && (x.h.fmt != Type0 ==> x.h.csid in r.repeated) && x.again < 0x1_0000_0000
  {
    HeaderCounts(r);
    hide StandardHeader, TakeChunk, Behind, Repeats;
  }

  lemma HeaderCounts(r: Reading)
    requires StandardHeader(r).Some? && r.st.headers.Keys == r.deltas.Keys == r.repeated.Keys
    ensures var x := StandardHeader(r).value;
      && (x.again != 0 <==> Repeats(r)) && (x.again != 0 ==> x.h.fmt == Type3)
      && (x.h.fmt != Type0 ==> x.h.csid in r.repeated) && x.again < 0x1_0000_0000
  {
    hide ReadFields, FmtOf;
  }

  lemma CountedMore(repeated: map<nat, nat>, c: nat, behind: nat)
    requires forall d <- repeated :: repeated[d] % 0x1_0000_0000 == 0
    ensures var more := repeated[c := behind];
      (forall d <- more :: more[d] % 0x1_0000_0000 == 0) <==> behind % 0x1_0000_0000 == 0
  {
    assert c in repeated[c := behind];
  }

  lemma PlainStep(p: ParserState, r: Reading, chunkSize: nat)
    requires InStep(p, r) && StandardStep(r, chunkSize).Takes? && !ExtendedType3(r)
    ensures ChunkStep(p, chunkSize).Took?
    ensures InStep(ChunkStep(p, chunkSize).next, StandardStep(r, chunkSize).next) <==> !Repeats(r)
  {
    StepFollows(p, r, chunkSize);
    InStepIff(p, r);
    StepCounts(r, chunkSize);
    var x := StandardHeader(r).value;
    InStepIff(ChunkStep(p, chunkSize).next, StandardStep(r, chunkSize).next);
    CountedMore(r.repeated, x.h.csid, Behind(r, x));
    StillNothing(r, x);
    hide InStep, Follows, StandardStep, StandardHeader, ChunkStep, Repeats, ExtendedType3, Behind;
  }

  lemma StillNothing(r: Reading, x: Seen)
    requires forall c <- r.repeated :: r.repeated[c] % 0x1_0000_0000 == 0
    requires x.again < 0x1_0000_0000 && (x.again != 0 ==> x.h.fmt == Type3)
    ensures Behind(r, x) % 0x1_0000_0000 == 0 <==> x.again == 0
  {
    if x.h.csid in r.repeated {
      Congruent(r.repeated[x.h.csid] + x.again, x.again);
    }
  }

  /** An extended type 3 chunk: the parser takes the four bytes of its time stamp for data. */
  lemma ExtendedStep(p: ParserState, r: Reading, chunkSize: nat)
    requires Follows(p, r) && StandardStep(r, chunkSize).Takes? && ExtendedType3(r)
    ensures ChunkStep(p, chunkSize).Took?
    ensures |ChunkStep(p, chunkSize).next.buf| == |StandardStep(r, chunkSize).next.st.buf| + 4
  {
    var basic := ReadBasic(p.buf).value;
    var x := StandardHeader(r).value;
    var y := Inherit(basic, Fields(0, 0, 0, 0, false, 0), p.headers).value;
    ExtendedHeader(p, r);
    StepAfterHeader(p, chunkSize);
    StandardHeaderFits(r);
    DataAlike(r.st, x.h, x.size, chunkSize);
    hide ReadHeader, StandardHeader, ReadBasic, ReadFields, Inherit, ChunkStep, StandardTake, StreamOf, KindOf;
    TakenLength(p, y, basic.size, chunkSize);
    TakenLength(r.st, x.h, x.size, chunkSize);
    hide TakeChunk, DataSize, Follows;
  }

  lemma ExtendedHeader(p: ParserState, r: Reading)
    requires Follows(p, r) && ExtendedType3(r) && StandardHeader(r).Some?
    ensures p.buf == r.st.buf && ReadBasic(p.buf).Some?
    ensures var basic, x := ReadBasic(p.buf).value, StandardHeader(r).value;
      var y := Inherit(basic, Fields(0, 0, 0, 0, false, 0), p.headers);
      && y.Some? && 0 < basic.size <= |p.buf| && ReadHeader(p.buf, p.headers) == Some((y.value, basic.size))
      && x.size == basic.size + 4
      && forall chunkSize :: DataSize(AssemblerOf(p.assemblers, y.value.csid), y.value, chunkSize)
                          == DataSize(AssemblerOf(r.st.assemblers, x.h.csid), x.h, chunkSize)
  {
    BasicAlike(p.buf);
    BasicSize(p.buf);
    var basic := ReadBasic(p.buf).value;
    assert ReadFields(Type3, p.buf[basic.size..]) == Some(Fields(0, 0, 0, 0, false, 0));
    assert SameData(AssemblerOf(p.assemblers, basic.csid), AssemblerOf(r.st.assemblers, basic.csid));
    hide ReadBasic, ReadFields, StreamOf, KindOf, AssemblerOf;
  }

  lemma TakenLength(st: ParserState, h: ChunkHeader, size: nat, chunkSize: nat)
    requires 0 < size <= |st.buf|
    ensures var s := TakeChunk(st, h, size, chunkSize);
      var data := DataSize(AssemblerOf(st.assemblers, h.csid), h, chunkSize);
      && (s.Took? <==> |st.buf| >= size + data)
      && (s.Took? ==> |s.next.buf| == |st.buf| - size - data)
  {
    hide DataSize;
  }

  /** One chunk is read alike if and only if it is of neither kind. */
  lemma StepInStepIff(p: ParserState, r: Reading, chunkSize: nat)
    requires InStep(p, r) && StandardStep(r, chunkSize).Takes?
    ensures (ChunkStep(p, chunkSize).Took? && InStep(ChunkStep(p, chunkSize).next, StandardStep(r, chunkSize).next))
       <==> !ExtendedType3(r) && !Repeats(r)
  {
    if ExtendedType3(r) {
      ExtendedStep(p, r, chunkSize);
    } else {
      PlainStep(p, r, chunkSize);
    }
    hide ChunkStep, StandardStep, Repeats, ExtendedType3;
  }

  /** After every chunk that the standard receiver takes, the parser has read exactly the same. */
  ghost predicate StaysInStep(p: ParserState, r: Reading, chunkSize: nat)
    decreases |r.st.buf|
  {
    InStep(p, r)
    && match StandardStep(r, chunkSize)
       case Waits => true
       case Takes(next, _) =>
         ChunkStep(p, chunkSize).Took? && StaysInStep(ChunkStep(p, chunkSize).next, next, chunkSize)
  }

  /** No chunk that the standard receiver takes is of either kind. */
  ghost predicate Plain(r: Reading, chunkSize: nat)
    decreases |r.st.buf|
  {
    match StandardStep(r, chunkSize)
    case Waits => true
    case Takes(next, _) => !ExtendedType3(r) && !Repeats(r) && Plain(next, chunkSize)
  }

  /** The exact condition, for any bytes: the parser reads every chunk as the standard does if and only if no type 3
      chunk starts a message with a delta that is not zero, and none carries an extended time stamp. */
  lemma {:induction false} StaysInStepIff(p: ParserState, r: Reading, chunkSize: nat)
    requires InStep(p, r)
    ensures StaysInStep(p, r, chunkSize) <==> Plain(r, chunkSize)
    decreases |r.st.buf|
  {
    match StandardStep(r, chunkSize) {
      case Waits =>
      case Takes(next, _) =>
        StepInStepIff(p, r, chunkSize);
        hide ChunkStep, StandardStep, Repeats, ExtendedType3, InStep;
        if ChunkStep(p, chunkSize).Took? && InStep(ChunkStep(p, chunkSize).next, next) {
          StaysInStepIff(ChunkStep(p, chunkSize).next, next, chunkSize);
        }
    }
  }

  lemma FreshInStep(bytes: seq<byte>)
    ensures InStep(FreshParser.Fed(bytes), FreshReading.(st := FreshParser.Fed(bytes)))
  {
  }

  /** Behind a header with delta 40, a type 3 chunk with a whole message: 40 later in the standard, not later in the
      parser. */
  lemma RepeatedDeltaLost(t: u32, x: byte)
    ensures var p := ParserState([0xC3, x], map[], map[3 := ChunkHeader(Type1, 3, t, 1, 9, 1, false)]);
      var r := Reading(p, map[3 := 40], {}, map[3 := 0]);
      && InStep(p, r) && Repeats(r)
      && StandardDrain(r, 128) == [Timed(RtmpMessage(9, (t + 40) % 0x1_0000_0000, 1, [x]), 40)]
      && Drain(p, 128).messages == [RtmpMessage(9, t, 1, [x])]
  {
    var p := ParserState([0xC3, x], map[], map[3 := ChunkHeader(Type1, 3, t, 1, 9, 1, false)]);
    var r := Reading(p, map[3 := 40], {}, map[3 := 0]);
    var d := Timed(RtmpMessage(9, (t + 40) % 0x1_0000_0000, 1, [x]), 40);
    assert InStep(p, r);
    RepeatedTaken(t, x);
    var next := StandardStep(r, 128).next;
    EmptyWaits(next, 128);
    assert StandardDrain(r, 128) == [d] + StandardDrain(next, 128) == [d];
    assert NoExtendedType3(r, 128);
    TimesBehind(p, r, 128);
    BackTwice(t, 0, 40);
    assert Back(t, 0) == t;
    hide StandardDrain, StandardStep, NoExtendedType3, Drain, Back;
    assert [d][1..] == [];
    assert LateAll([d]) == [Late(d)] + LateAll([d][1..]);
  }

  lemma RepeatedTaken(t: u32, x: byte)
    ensures var p := ParserState([0xC3, x], map[], map[3 := ChunkHeader(Type1, 3, t, 1, 9, 1, false)]);
      var r := Reading(p, map[3 := 40], {}, map[3 := 0]);
      var s := StandardStep(r, 128);
      && Repeats(r) && !ExtendedType3(r) && s.Takes? && s.next.st.buf == []
      && s.msg == Some(Timed(RtmpMessage(9, (t + 40) % 0x1_0000_0000, 1, [x]), 40))
  {
    var p := ParserState([0xC3, x], map[], map[3 := ChunkHeader(Type1, 3, t, 1, 9, 1, false)]);
    var r := Reading(p, map[3 := 40], {}, map[3 := 0]);
    var h := ChunkHeader(Type3, 3, (t + 40) % 0x1_0000_0000, 1, 9, 1, false);
    assert ReadBasic(p.buf) == Some(Basic(Type3, 3, 1));
    assert StandardHeader(r) == Some(Seen(h, 1, 40, false, 40));
    assert p.buf[1..2] == [x] && p.buf[2..] == [] && [] + [x] == [x];
    hide ReadBasic, StandardHeader;
    assert AssemblerOf(p.assemblers, 3) == EmptyAssembler;
    assert DataSize(EmptyAssembler, h, 128) == 1;
    assert TakeChunk(p, h, 1, 128).msg == Some(RtmpMessage(9, h.timestamp, 1, [x]));
  }

  lemma EmptyWaits(r: Reading, chunkSize: nat)
    requires r.st.buf == []
    ensures StandardStep(r, chunkSize) == Waits && StandardDrain(r, chunkSize) == [] && NoExtendedType3(r, chunkSize)
  {
    assert ReadBasic(r.st.buf) == None;
  }

  // ---------------------------------------------------------------- what the encoder sends

  lemma {:induction false} PlainIsOnTime(p: ParserState, r: Reading, chunkSize: nat)
    requires InStep(p, r) && Plain(r, chunkSize)
    ensures forall t <- StandardDrain(r, chunkSize) :: t.behind % 0x1_0000_0000 == 0
    decreases |r.st.buf|
  {
    match StandardStep(r, chunkSize) {
      case Waits =>
      case Takes(next, m) =>
        StepInStepIff(p, r, chunkSize);
        InStepIff(ChunkStep(p, chunkSize).next, next);
        StepCounts(r, chunkSize) by {
          InStepIff(p, r);
        }
        var x := StandardHeader(r).value;
        assert m.Some? ==> m.value.behind == next.repeated[x.h.csid] && x.h.csid in next.repeated;
        PlainIsOnTime(ChunkStep(p, chunkSize).next, next, chunkSize);
        hide ChunkStep, StandardStep, Repeats, ExtendedType3, InStep, StandardHeader;
    }
  }

  /** Where neither kind of chunk comes, both return the same messages. */
  lemma PlainAgrees(p: ParserState, r: Reading, chunkSize: nat)
    requires InStep(p, r) && Plain(r, chunkSize) && NoExtendedType3(r, chunkSize)
    ensures Drain(p, chunkSize).messages == Messages(StandardDrain(r, chunkSize))
  {
    PlainIsOnTime(p, r, chunkSize);
    AgreesIff(p, r, chunkSize);
    hide Drain, StandardDrain, Plain, NoExtendedType3;
  }

  /** Time stamps that need no extended field. */
  ghost predicate SmallStamps(lanes: Lanes) {
    forall c, i :: c in lanes && 0 <= i < |lanes[c].queue| ==> lanes[c].queue[i].timestamp < 0xFF_FFFF
  }

  lemma ChunkBasic(m: RtmpMessage, c: nat, chunkSize: nat, sent: nat, rest: seq<byte>)
    requires 2 <= c < 65600 && sent <= |m.payload|
    ensures var fmt := if sent == 0 then Type0 else Type3;
      && ReadBasic(ChunkAt(m, c, chunkSize, sent) + rest) == Some(Basic(fmt, c, |BasicBytes(fmt, c)|))
      && (sent == 0 ==> (ChunkAt(m, c, chunkSize, sent) + rest)[|BasicBytes(Type0, c)|..]
                        == Type0Bytes(m) + (m.payload[..Min(chunkSize, |m.payload|)] + rest))
  {
    var fmt := if sent == 0 then Type0 else Type3;
    var data := m.payload[sent..sent + Min(chunkSize, |m.payload| - sent)];
    var b := BasicBytes(fmt, c);
    var tail := (if sent == 0 then Type0Bytes(m) else []) + (data + rest);
    assert ChunkAt(m, c, chunkSize, sent) + rest == b + tail;
    BasicRoundTrip(fmt, c, tail);
    assert (b + tail)[|b|..] == tail;
    hide ReadBasic, BasicBytes, Type0Bytes;
  }

  /** The header of a chunk that the encoder writes, as the standard receiver reads it. */
  lemma ChunkSeen(r: Reading, m: RtmpMessage, c: nat, chunkSize: nat, sent: nat, rest: seq<byte>)
    requires 2 <= c < 65600 && sent <= |m.payload| && r.st.buf == ChunkAt(m, c, chunkSize, sent) + rest
    ensures ExtendedType3(r) <==> sent > 0 && c in r.extended && c in r.st.headers
    ensures Repeats(r) ==> sent > 0 && Starts(r, c)
    ensures StandardHeader(r).Some? ==>
      var x := StandardHeader(r).value;
      x.h.csid == c && x.isExtended == (if sent == 0 then m.timestamp >= 0xFF_FFFF else c in r.extended)
  {
    ChunkBasic(m, c, chunkSize, sent, rest);
    BasicAlike(r.st.buf);
    HeadersAlike(r);
    hide ReadBasic, ChunkAt, BasicBytes, StandardHeader, StreamOf, KindOf;
    if sent == 0 {
      Type0RoundTrip(m, m.payload[..Min(chunkSize, |m.payload|)] + rest);
    }
    hide ReadFields, Type0Bytes;
  }

  /** One chunk of the encoder: both take it, and stay in step. */
  lemma EncoderStep(p: ParserState, r: Reading, lanes: Lanes, c: nat, chunkSize: nat, rest: seq<byte>)
    requires ValidLanes(lanes) && chunkSize > 0 && HasChunk(lanes, c) && InSync(p, lanes) && InStep(p, r)
    requires r.extended == {} && lanes[c].queue[0].timestamp < 0xFF_FFFF
    requires lanes[c].sent <= |lanes[c].queue[0].payload|
    requires p.buf == ChunkAt(lanes[c].queue[0], c, chunkSize, lanes[c].sent) + rest
    ensures !ExtendedType3(r) && !Repeats(r) && ChunkStep(p, chunkSize).Took? && StandardStep(r, chunkSize).Takes?
    ensures var (p', r') := (ChunkStep(p, chunkSize).next, StandardStep(r, chunkSize).next);
      && p'.buf == rest && InSync(p', lanes[c := Advance(lanes[c], chunkSize)])
      && InStep(p', r') && r'.extended == {}
  {
    hide ChunkStep, StandardStep, ChunkAt, InSync, Repeats, ExtendedType3, StandardHeader;
    var lane := lanes[c];
    ChunkTaken(p, lanes, c, chunkSize, rest);
    SameBuffer(p, r);
    ChunkSeen(r, lane.queue[0], c, chunkSize, lane.sent, rest);
    if lane.sent > 0 {
      NotStarting(p, r, lanes, c);
    }
    assert Follows(p, r);
    hide Follows, InStep;
    StepFollows(p, r, chunkSize);
    PlainStep(p, r, chunkSize);
    TakesHeader(r, chunkSize);
    ExtendedNoted(r, chunkSize, c);
  }

  lemma TakesHeader(r: Reading, chunkSize: nat)
    requires StandardStep(r, chunkSize).Takes?
    ensures StandardHeader(r).Some?
  {
    hide StandardHeader;
  }

  /** Nothing that the encoder sends with small time stamps is of either kind. */
  lemma {:induction false} EncoderPlain(p: ParserState, r: Reading, lanes: Lanes, schedule: seq<nat>, chunkSize: nat)
    requires ValidLanes(lanes) && chunkSize > 0 && SmallStamps(lanes) && InSync(p, lanes)
    requires InStep(p, r) && r.extended == {} && p.buf == Send(lanes, schedule, chunkSize).bytes
    ensures Plain(r, chunkSize) && NoExtendedType3(r, chunkSize)
    decreases |schedule|
  {
    if schedule == [] {
      assert ReadBasic(r.st.buf) == None;
    } else {
      hide ChunkStep, StandardStep, ChunkAt, InSync, InStep, Repeats, ExtendedType3, StandardHeader, SmallStamps;
      var c := schedule[0];
      if !HasChunk(lanes, c) {
        EncoderPlain(p, r, lanes, schedule[1..], chunkSize);
      } else {
        var lanes' := lanes[c := Advance(lanes[c], chunkSize)];
        StillSmall(lanes, c, chunkSize);
        EncoderStep(p, r, lanes, c, chunkSize, Send(lanes', schedule[1..], chunkSize).bytes);
        EncoderPlain(ChunkStep(p, chunkSize).next, StandardStep(r, chunkSize).next, lanes', schedule[1..], chunkSize);
      }
    }
  }

  lemma NotStarting(p: ParserState, r: Reading, lanes: Lanes, c: nat)
    requires InSync(p, lanes) && InStep(p, r) && c in lanes && lanes[c].sent > 0
    ensures !Starts(r, c)
  {
    assert LaneInSync(AssemblerOf(p.assemblers, c), p.headers, c, lanes[c]);
    assert SameData(AssemblerOf(p.assemblers, c), AssemblerOf(r.st.assemblers, c));
  }

  lemma StillSmall(lanes: Lanes, c: nat, chunkSize: nat)
    requires SmallStamps(lanes) && ValidLanes(lanes) && HasChunk(lanes, c) && chunkSize > 0
    ensures SmallStamps(lanes[c := Advance(lanes[c], chunkSize)]) && lanes[c].queue[0].timestamp < 0xFF_FFFF
  {
  }

  lemma ExtendedNoted(r: Reading, chunkSize: nat, c: nat)
    requires StandardStep(r, chunkSize).Takes? && StandardHeader(r).Some? && StandardHeader(r).value.h.csid == c
    ensures StandardStep(r, chunkSize).next.extended
         == if StandardHeader(r).value.isExtended then r.extended + {c} else r.extended - {c}
    ensures c in StandardStep(r, chunkSize).next.st.headers
  {
    hide StandardHeader;
  }

  /** What the encoder sends with small time stamps, under any schedule, a standard receiver reads as the messages sent.
      */
  lemma StandardReadsEncoder(lanes: Lanes, schedule: seq<nat>, chunkSize: nat)
    requires ValidLanes(lanes) && chunkSize > 0 && SmallStamps(lanes)
    requires forall c :: c in lanes ==> lanes[c].sent == 0
    ensures var w := Send(lanes, schedule, chunkSize);
      Messages(StandardDrain(FreshReading.(st := FreshParser.Fed(w.bytes)), chunkSize)) == Delivered(w.completed)
  {
    var w := Send(lanes, schedule, chunkSize);
    var p := FreshParser.Fed(w.bytes);
    var r := FreshReading.(st := p);
    FreshInSync(lanes);
    SyncIgnoresBuffer(FreshParser, w.bytes, lanes);
    FreshInStep(w.bytes);
    assert p.buf == w.bytes;
    hide InSync, InStep, Plain, NoExtendedType3, Drain, StandardDrain, Send, Delivered;
    EncoderPlain(p, r, lanes, schedule, chunkSize);
    PlainAgrees(p, r, chunkSize);
    InterleavingDelivered(p, lanes, schedule, chunkSize);
  }

  /** One message from its first chunk on. */
  lemma OneLane(m: RtmpMessage, c: nat, chunkSize: nat)
    requires 2 <= c < 65600 && 0 < |m.payload| < 0x100_0000 && chunkSize > 0
    ensures var lanes := map[c := Lane([m], 0)];
      && ValidLanes(lanes) && HasChunk(lanes, c) && InSync(FreshParser, lanes)
      && EncodedFrom(m, c, chunkSize, 0) == ChunkAt(m, c, chunkSize, 0)
           + if chunkSize < |m.payload| then EncodedFrom(m, c, chunkSize, chunkSize) else []
  {
    hide ChunkAt;
  }

  /** A standard receiver takes the first chunk of a message for what it is. */
  lemma FirstChunk(m: RtmpMessage, c: nat, chunkSize: nat, rest: seq<byte>)
    requires 2 <= c < 65600 && 0 < |m.payload| < 0x100_0000 && chunkSize > 0
    ensures var r := FreshReading.(st := FreshParser.Fed(ChunkAt(m, c, chunkSize, 0) + rest));
      var s := StandardStep(r, chunkSize);
      && !ExtendedType3(r) && s.Takes? && s.next.st.buf == rest && c in s.next.st.headers
      && s.next.extended == if m.timestamp >= 0xFF_FFFF then {c} else {}
  {
    var bytes := ChunkAt(m, c, chunkSize, 0) + rest;
    var p := FreshParser.Fed(bytes);
    var r := FreshReading.(st := p);
    var lanes := map[c := Lane([m], 0)];
    OneLane(m, c, chunkSize);
    SyncIgnoresBuffer(FreshParser, bytes, lanes);
    FreshInStep(bytes);
    assert Follows(p, r) && p.buf == bytes;
    hide ChunkStep, StandardStep, ChunkAt, InSync, Repeats, ExtendedType3, StandardHeader, Follows, InStep;
    ChunkTaken(p, lanes, c, chunkSize, rest);
    ChunkSeen(r, m, c, chunkSize, 0, rest);
    StepFollows(p, r, chunkSize);
    TakesHeader(r, chunkSize);
    ExtendedNoted(r, chunkSize, c);
    SameBuffer(ChunkStep(p, chunkSize).next, StandardStep(r, chunkSize).next);
  }

  /** The encoder's own type 3 chunks leave out the extended time stamp: a standard receiver of one message misses it if
      and only if the message needs one and more than one chunk. */
  lemma EncoderConformsIff(m: RtmpMessage, c: nat, chunkSize: nat)
    requires 2 <= c < 65600 && 0 < |m.payload| < 0x100_0000 && chunkSize > 0
    ensures NoExtendedType3(FreshReading.(st := FreshParser.Fed(EncodedFrom(m, c, chunkSize, 0))), chunkSize)
       <==> m.timestamp < 0xFF_FFFF || |m.payload| <= chunkSize
  {
    OneLane(m, c, chunkSize);
    hide ChunkAt, StandardStep, ExtendedType3, EncodedFrom, InSync;
    var rest := if chunkSize < |m.payload| then EncodedFrom(m, c, chunkSize, chunkSize) else [];
    FirstChunk(m, c, chunkSize, rest);
    var r := FreshReading.(st := FreshParser.Fed(ChunkAt(m, c, chunkSize, 0) + rest));
    var next := StandardStep(r, chunkSize).next;
    if chunkSize >= |m.payload| {
      EmptyWaits(next, chunkSize);
    } else if m.timestamp >= 0xFF_FFFF {
      LaterChunk(m, c, chunkSize);
      ChunkSeen(next, m, c, chunkSize, chunkSize, EncodedTail(m, c, chunkSize));
    } else {
      SmallMessagePlain(m, c, chunkSize);
    }
  }

  /** What follows the second chunk of a message. */
  function EncodedTail(m: RtmpMessage, c: nat, chunkSize: nat): seq<byte>
    requires 0 < chunkSize < |m.payload|
  {
    var next := chunkSize + Min(chunkSize, |m.payload| - chunkSize);
    if next < |m.payload| then EncodedFrom(m, c, chunkSize, next) else []
  }

  lemma LaterChunk(m: RtmpMessage, c: nat, chunkSize: nat)
    requires 0 < chunkSize < |m.payload|
    ensures EncodedFrom(m, c, chunkSize, chunkSize) == ChunkAt(m, c, chunkSize, chunkSize)
        + EncodedTail(m, c, chunkSize)
  {
    hide ChunkAt;
  }

  lemma SmallMessagePlain(m: RtmpMessage, c: nat, chunkSize: nat)
    requires 2 <= c < 65600 && 0 < |m.payload| < 0x100_0000 && chunkSize > 0 && m.timestamp < 0xFF_FFFF
    ensures NoExtendedType3(FreshReading.(st := FreshParser.Fed(EncodedFrom(m, c, chunkSize, 0))), chunkSize)
  {
    var lanes := map[c := Lane([m], 0)];
    var bytes := EncodedFrom(m, c, chunkSize, 0);
    OneLane(m, c, chunkSize);
    SyncIgnoresBuffer(FreshParser, bytes, lanes);
    FreshInStep(bytes);
    assert SmallStamps(lanes);
    var schedule := WholeSchedule(lanes, m, c, chunkSize, 0);
    assert FreshParser.Fed(bytes).buf == bytes;
    hide ChunkAt, EncodedFrom, InSync, InStep, Send, SmallStamps;
    EncoderPlain(FreshParser.Fed(bytes), FreshReading.(st := FreshParser.Fed(bytes)), lanes, schedule, chunkSize);
  }

  /** A schedule that sends what is left of one message. */
  lemma {:induction false} WholeSchedule(lanes: Lanes, m: RtmpMessage, c: nat, chunkSize: nat, sent: nat)
      returns (schedule: seq<nat>)
    requires lanes == map[c := Lane([m], sent)] && ValidLanes(lanes) && chunkSize > 0 && sent < |m.payload|
    ensures Send(lanes, schedule, chunkSize).bytes == EncodedFrom(m, c, chunkSize, sent)
    decreases |m.payload| - sent
  {
    hide ChunkAt;
    var lanes' := lanes[c := Advance(lanes[c], chunkSize)];
    var next := NextSent(lanes[c], chunkSize);
    if next < |m.payload| {
      assert lanes' == map[c := Lane([m], next)];
      var more := WholeSchedule(lanes', m, c, chunkSize, next);
      schedule := [c] + more;
      assert schedule[1..] == more;
    } else {
      schedule := [c];
      assert schedule[1..] == [];
      assert Send(lanes', [], chunkSize).bytes == [];
    }
  }
}
