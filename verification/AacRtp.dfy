/** AAC in RTP as RFC 3640 frames it: one access unit behind its header, and the bit reader that takes it out. */
module AacRtp {
  import opened Bytes
  import Pes

  const SIZE_LENGTH: nat := 13
  const INDEX_LENGTH: nat := 3

  // ---------------------------------------------------------------- bits

  /** A value shifted right k places. */
  function Halved(x: nat, k: nat): nat
    decreases k
  {
    if k == 0 then x else Halved(x / 2, k - 1)
  }

  /** Bit `pos` of a byte string, most significant first. */
  function BitAt(bytes: seq<byte>, pos: nat): (b: nat)
    requires pos / 8 < |bytes|
    ensures b < 2
  {
    Halved(bytes[pos / 8], 7 - pos % 8) % 2
  }

  /** n bits from a position, appended to the value so far; nothing when the bytes run out. */
  function BitsFrom(bytes: seq<byte>, pos: nat, n: nat, v: nat): Option<nat>
    decreases n
  {
    if n == 0 then Some(v)
    else if pos / 8 >= |bytes| then None
    else BitsFrom(bytes, pos + 1, n - 1, 2 * v + BitAt(bytes, pos))
  }

  method ReadBits(bytes: seq<byte>, start: nat, n: nat) returns (r: Option<nat>, bitpos: nat)
    ensures r == BitsFrom(bytes, start, n, 0)
    ensures r.Some? ==> bitpos == start + n
  {
    var v: nat := 0;
    bitpos := start;
    for i := 0 to n
      invariant bitpos == start + i
      invariant BitsFrom(bytes, start, n, 0) == BitsFrom(bytes, bitpos, n - i, v)
    {
      var byteIdx := bitpos / 8;
      var bitIdx := 7 - bitpos % 8;
      if byteIdx >= |bytes| {
        return None, bitpos;
      }
      v := 2 * v + Halved(bytes[byteIdx], bitIdx) % 2;
      bitpos := bitpos + 1;
    }
    r := Some(v);
  }

  /** The size of the first access unit: thirteen bits, with three of index behind them. */
  function AuSize(header: seq<byte>): Option<nat> {
    if BitsFrom(header, SIZE_LENGTH, INDEX_LENGTH, 0).Some? then BitsFrom(header, 0, SIZE_LENGTH, 0) else None
  }

  method ReadAacHbrAuSize(header: seq<byte>) returns (size: Option<nat>)
    ensures size == AuSize(header)
  {
    hide BitsFrom;
    var v, bitpos := ReadBits(header, 0, SIZE_LENGTH);
    if v == None {
      NoMoreBits(header);
      return None;
    }
    var index, _ := ReadBits(header, bitpos, INDEX_LENGTH);
    if index == None {
      return None;
    }
    size := v;
  }

  lemma {:induction false} BitsRunOut(bytes: seq<byte>, pos: nat, n: nat, v: nat)
    ensures BitsFrom(bytes, pos, n, v).Some? <==> n == 0 || (pos + n - 1) / 8 < |bytes|
    decreases n
  {
    if n > 0 && pos / 8 < |bytes| {
      BitsRunOut(bytes, pos + 1, n - 1, 2 * v + BitAt(bytes, pos));
    }
  }

  lemma NoMoreBits(header: seq<byte>)
    ensures BitsFrom(header, 0, SIZE_LENGTH, 0) == None ==> BitsFrom(header, SIZE_LENGTH, INDEX_LENGTH, 0) == None
  {
    BitsRunOut(header, 0, SIZE_LENGTH, 0);
    BitsRunOut(header, SIZE_LENGTH, INDEX_LENGTH, 0);
  }

  lemma {:induction false} HalvedOnce(x: nat, k: nat)
    ensures Halved(x, k + 1) == Halved(x, k) / 2
    decreases k
  {
    if k > 0 {
      HalvedOnce(x / 2, k - 1);
    }
  }

  /** The value of the first j bits of a byte. */
  function Upper(x: byte, j: nat): nat
    requires j <= 8
  {
    Halved(x, 8 - j)
  }

  function Shifted(v: nat, j: nat): nat {
    if j == 0 then v else 2 * Shifted(v, j - 1)
  }

  lemma BitIs(bytes: seq<byte>, k: nat, j: nat)
    requires k < |bytes| && j < 8
    ensures (8 * k + j) / 8 == k && Upper(bytes[k], j + 1) == 2 * Upper(bytes[k], j) + BitAt(bytes, 8 * k + j)
  {
    HalvedOnce(bytes[k], 7 - j);
    hide Halved;
    assert (8 * k + j) / 8 == k && (8 * k + j) % 8 == j;
  }

  /** Reading n bits of byte k, j of them read already: the value grows by that many of its top bits. */
  lemma {:induction false} BitsOfByte(bytes: seq<byte>, k: nat, j: nat, n: nat, more: nat, v: nat)
    requires k < |bytes| && j + n <= 8
    ensures BitsFrom(bytes, 8 * k + j, n + more, Shifted(v, j) + Upper(bytes[k], j))
         == BitsFrom(bytes, 8 * k + j + n, more, Shifted(v, j + n) + Upper(bytes[k], j + n))
    decreases n
  {
    hide Upper, BitAt;
    if n > 0 {
      var pos, w := 8 * k + j, Shifted(v, j) + Upper(bytes[k], j);
      BitIs(bytes, k, j);
      assert BitsFrom(bytes, pos, n + more, w) == BitsFrom(bytes, pos + 1, n - 1 + more, 2 * w + BitAt(bytes, pos));
      assert Shifted(v, j + 1) == 2 * Shifted(v, j);
      BitsOfByte(bytes, k, j + 1, n - 1, more, v);
    }
  }

  lemma Uppers(x: byte, v: nat)
    ensures Upper(x, 0) == 0 && Upper(x, 5) == (x as int) / 8 && Upper(x, 8) == x
    ensures Shifted(v, 0) == v && Shifted(v, 5) == 32 * v && Shifted(0, 8) == 0
  {
    assert Halved(x, 3) == Halved(x / 2, 2) == Halved(x / 2 / 2, 1) == Halved(x / 2 / 2 / 2, 0);
    HalvedOnce(x, 7);
    HalvedOnce(x, 6);
    HalvedOnce(x, 5);
    HalvedOnce(x, 4);
    HalvedOnce(x, 3);
    assert Shifted(v, 1) == 2 * v;
    assert Shifted(v, 3) == 8 * v;
    assert Shifted(v, 4) == 16 * v;
    assert Shifted(0, 2) == 0 && Shifted(0, 4) == 0 && Shifted(0, 6) == 0;
  }

  /** The size of a two-byte header is its upper thirteen bits. */
  lemma SizeIs(header: seq<byte>)
    requires |header| >= 2
    ensures AuSize(header) == Some(FromBe16(header[0], header[1]) / 8)
  {
    hide BitsFrom, Upper, Shifted, Halved;
    var h0, h1 := header[0] as int, header[1] as int;
    BitsRunOut(header, SIZE_LENGTH, INDEX_LENGTH, 0);
    assert BitsFrom(header, 0, 13, 0) == BitsFrom(header, 8, 5, h0) by {
      BitsOfByte(header, 0, 0, 8, 5, 0);
      Uppers(header[0], 0);
    }
    assert BitsFrom(header, 8, 5, h0) == BitsFrom(header, 13, 0, 32 * h0 + h1 / 8) by {
      BitsOfByte(header, 1, 0, 5, 0, h0);
      Uppers(header[1], h0);
    }
    NoBits(header, 13, 32 * h0 + h1 / 8);
  }

  lemma NoBits(bytes: seq<byte>, pos: nat, v: nat)
    ensures BitsFrom(bytes, pos, 0, v) == Some(v)
  {
  }

  // ---------------------------------------------------------------- wrapping and stripping

  predicate HasSync(data: seq<byte>) {
    |data| >= 2 && data[0] == 0xFF && data[1] >= 0xF0
  }

  /** A frame without its ADTS header, cut to the announced length when there is one. */
  function WithoutAdts(data: seq<byte>): seq<byte> {
    if |data| >= 7 && HasSync(data) then
      var frameLength := Pes.AdtsLength(data);
      if 7 < frameLength <= |data| then data[7..frameLength]
      else if |data| > 7 then data[7..]
      else data
    else data
  }

  function AuHeader(n: nat): u16 {
    n % 0x1_0000 * 8 % 0x1_0000
  }

  /** The thirteen bits of a size. */
  function SizeField(n: nat): (r: nat)
    ensures r <= n && r < 0x2000 && (r == n <==> n < 0x2000)
  {
    n % 0x2000
  }

  /** One access unit behind its length and header; the size wraps in the 16-bit header field. */
  function WrapAacHbr(aac: seq<byte>): seq<byte> {
    var raw := WithoutAdts(aac);
    if raw == [] then [] else Be16(16) + Be16(AuHeader(|raw|)) + raw
  }

  /** The first access unit of a payload, or what there is of it when it is the only one. */
  function StripAac(payload: seq<byte>): Option<seq<byte>> {
    if payload == [] then None
    else if |payload| >= 7 && HasSync(payload) then Some(payload)
    else if |payload| < 2 then None
    else
      var lengthBits := FromBe16(payload[0], payload[1]) as nat;
      var lengthBytes := (lengthBits + 7) / 8;
      var dataOffset := 2 + lengthBytes;
      if dataOffset > |payload| || lengthBytes == 0 then None
      else if lengthBits % 16 != 0 then None
      else FirstUnit(payload[2..dataOffset], lengthBits / 16, payload[dataOffset..])
  }

  /** The unit that the first header announces. */
  function FirstUnit(headers: seq<byte>, count: nat, data: seq<byte>): Option<seq<byte>> {
    match AuSize(headers)
    case None => None
    case Some(size) =>
      if size == 0 then None
      else if size <= |data| then Some(data[..size])
      else if count == 1 && data != [] then Some(data)
      else None
  }

  lemma StripAt(payload: seq<byte>, count: nat)
    requires 0 < count < 4095 && |payload| >= 2 + 2 * count && FromBe16(payload[0], payload[1]) == 16 * count
    ensures StripAac(payload) == FirstUnit(payload[2..2 + 2 * count], count, payload[2 + 2 * count..])
  {
    assert !HasSync(payload);
    hide FirstUnit, FromBe16;
    assert (16 * count + 7) / 8 == 2 * count && 16 * count / 16 == count;
  }

  /** A payload with its parts in place strips to its first unit. */
  lemma StripParts(count: nat, headers: seq<byte>, data: seq<byte>)
    requires 0 < count < 4095 && |headers| == 2 * count
    ensures StripAac(Be16(16 * count) + headers + data) == FirstUnit(headers, count, data)
  {
    var length := Be16(16 * count);
    var payload := length + headers + data;
    Be16RoundTrip(16 * count);
    hide StripAac, FirstUnit, FromBe16, Be16;
    assert payload[0] == length[0] && payload[1] == length[1];
    assert payload[2..2 + 2 * count] == headers && payload[2 + 2 * count..] == data;
    StripAt(payload, count);
  }

  method StripMpeg4GenericAac(payload: seq<byte>) returns (aac: Option<seq<byte>>)
    ensures aac == StripAac(payload)
  {
    hide AuSize;
    if payload == [] {
      return None;
    }
    if |payload| >= 7 && HasSync(payload) {
      return Some(payload);
    }
    if |payload| < 2 {
      return None;
    }
    var lengthBits: nat := FromBe16(payload[0], payload[1]);
    var lengthBytes := (lengthBits + 7) / 8;
    var dataOffset := 2 + lengthBytes;
    if dataOffset > |payload| || lengthBytes == 0 {
      return None;
    }
    if lengthBits % (SIZE_LENGTH + INDEX_LENGTH) != 0 {
      return None;
    }
    var size := ReadAacHbrAuSize(payload[2..dataOffset]);
    if size == None || size.value == 0 {
      return None;
    }
    if dataOffset + size.value <= |payload| {
      assert payload[dataOffset..][..size.value] == payload[dataOffset..dataOffset + size.value];
      return Some(payload[dataOffset..dataOffset + size.value]);
    }
    var count := lengthBits / (SIZE_LENGTH + INDEX_LENGTH);
    if count == 1 && dataOffset < |payload| {
      return Some(payload[dataOffset..]);
    }
    aac := None;
  }

  // ---------------------------------------------------------------- what comes out

  /** The headers of a list of access units. */
  function Headers(units: seq<seq<byte>>): seq<byte> {
    if units == [] then [] else Be16(SizeField(|units[0]|) * 8) + Headers(units[1..])
  }

  lemma {:induction false} HeadersLength(units: seq<seq<byte>>)
    ensures |Headers(units)| == 2 * |units|
  {
    if units != [] {
      HeadersLength(units[1..]);
    }
  }

  /** A payload of one or more headers, the first announcing `size`, and data: what is stripped is the first `size`
      bytes; a single header with less data behind it is a fragment, and gives what there is. */
  lemma Stripped(count: nat, size: nat, headers: seq<byte>, data: seq<byte>)
    requires 0 < count < 4095 && 0 < size < 0x2000 && |headers| == 2 * count && headers[..2] == Be16(size * 8)
    requires data != []
    ensures StripAac(Be16(16 * count) + headers + data)
         == if size <= |data| then Some(data[..size]) else if count == 1 then Some(data) else None
  {
    StripParts(count, headers, data);
    Be16RoundTrip(size * 8);
    assert headers[0] == headers[..2][0] && headers[1] == headers[..2][1];
    SizeIs(headers);
    hide AuSize, FromBe16, Be16, StripAac;
  }

  /** Of several access units in a payload only the first comes out. */
  lemma OnlyTheFirst(units: seq<seq<byte>>)
    requires 0 < |units| < 4095 && 0 < |units[0]| < 0x2000
    ensures StripAac(Be16(16 * |units|) + Headers(units) + Concat(units)) == Some(units[0])
  {
    HeadersLength(units);
    var size := |units[0]|;
    assert Headers(units)[..2] == Be16(size * 8);
    assert Concat(units)[..size] == units[0];
    Stripped(|units|, size, Headers(units), Concat(units));
  }

  /** The payload of a frame: sixteen bits of headers, thirteen bits of size and three of index, and the frame without
      its ADTS header. */
  lemma WrapIs(x: seq<byte>)
    ensures var raw := WithoutAdts(x);
      var size := |raw| % 8192;
      WrapAacHbr(x) == if raw == [] then [] else [0, 16, size / 32, size % 32 * 8] + raw
  {
    var raw := WithoutAdts(x);
    var size := |raw| % 8192;
    WrapsInHeader(|raw|);
    hide WithoutAdts, AuHeader;
    assert Be16(16) == [0, 16] && Be16(size * 8) == [size / 32, size % 32 * 8];
    hide Be16;
    assert raw != [] ==> [0, 16] + [size / 32, size % 32 * 8] + raw == [0, 16, size / 32, size % 32 * 8] + raw;
  }

  /** A frame comes back unchanged exactly when it has 1 to 8191 bytes and no ADTS header with anything behind it. */
  lemma RoundTripIff(x: seq<byte>)
    ensures StripAac(WrapAacHbr(x)) == Some(x) <==> 1 <= |x| <= 8191 && !(|x| > 7 && HasSync(x))
  {
    var raw := WithoutAdts(x);
    Unheaded(x);
    if raw != [] {
      Wrapped(raw);
      hide StripAac, HasSync, WithoutAdts, SizeField, AuHeader;
      assert raw[..|raw|] == raw;
    } else {
      assert x == [];
    }
  }

  lemma Unheaded(x: seq<byte>)
    ensures WithoutAdts(x) == x <==> !(|x| > 7 && HasSync(x))
    ensures |WithoutAdts(x)| <= |x| && (WithoutAdts(x) == [] <==> x == [])
  {
    hide Pes.AdtsLength;
  }

  /** What a wrapped frame strips to: its size in thirteen bits, or nothing when those are zero. */
  lemma Wrapped(raw: seq<byte>)
    requires raw != []
    ensures var size := SizeField(|raw|);
      StripAac(Be16(16) + Be16(AuHeader(|raw|)) + raw) == if size == 0 then None else Some(raw[..size])
  {
    var size := SizeField(|raw|);
    WrapsInHeader(|raw|);
    hide *;
    if size == 0 {
      NoUnit(raw);
    } else {
      OneUnit(size, raw);
    }
  }

  lemma NoUnit(raw: seq<byte>)
    ensures StripAac(Be16(16) + Be16(0) + raw) == None
  {
    hide *;
    ZeroHeader();
    StripParts(1, Be16(0), raw);
    NoSize(Be16(0), raw);
  }

  lemma ZeroHeader()
    ensures |Be16(0)| == 2 && AuSize(Be16(0)) == Some(0)
  {
    hide AuSize;
    ZeroSize(Be16(0));
  }

  lemma ZeroSize(header: seq<byte>)
    requires |header| == 2 && header[0] == 0 && header[1] == 0
    ensures AuSize(header) == Some(0)
  {
    hide AuSize;
    SizeIs(header);
  }

  lemma NoSize(headers: seq<byte>, data: seq<byte>)
    requires AuSize(headers) == Some(0)
    ensures FirstUnit(headers, 1, data) == None
  {
    hide AuSize;
  }

  lemma OneUnit(size: nat, raw: seq<byte>)
    requires 0 < size < 0x2000 && size <= |raw|
    ensures StripAac(Be16(16) + Be16(size * 8) + raw) == Some(raw[..size])
  {
    Be16RoundTrip(size * 8);
    hide StripAac, FromBe16, Be16;
    assert Be16(size * 8)[..2] == Be16(size * 8);
    Stripped(1, size, Be16(size * 8), raw);
  }

  lemma WrapsInHeader(n: nat)
    ensures AuHeader(n) == SizeField(n) * 8
  {
    var q, r := n / 0x2000, n % 0x2000;
    var low := 0x2000 * (q % 8) + r;
    assert n == 0x1_0000 * (q / 8) + low;
    Remainder(q / 8, low);
    assert low * 8 == 0x1_0000 * (q % 8) + r * 8;
    Remainder(q % 8, r * 8);
  }

  lemma Remainder(q: nat, r: nat)
    requires r < 0x1_0000
    ensures (0x1_0000 * q + r) % 0x1_0000 == r
  {
  }

  /** What is left of a frame: with twelve ones in front and seven bytes or more, the part behind them up to the
      announced length, if that is more than seven and there are so many bytes; else everything behind them, if there is
      anything. Any other frame is left whole. */
  lemma WithoutAdtsIs(data: seq<byte>)
    ensures var synced := |data| >= 7 && data[0] == 255 && data[1] / 16 == 15;
      if !synced || |data| == 7 then WithoutAdts(data) == data
      else
        var n := data[3] as int % 4 * 2048 + data[4] as int * 8 + data[5] as int / 32;
        WithoutAdts(data) == if 7 < n <= |data| then data[7..n] else data[7..]
  {
  }

  /** The ADTS header that the transport-stream muxer writes is taken off again exactly when the announced thirteen bits
      hold the frame length, or so little of it that they are ignored. */
  lemma AdtsRemovedIff(raw: seq<byte>)
    requires raw != [] && !HasSync(raw)
    ensures WithoutAdts(Pes.WrapAacAdts(raw)) == raw <==> |raw| <= 8184 || (|raw| + 7) % 0x2000 <= 7
  {
    var n := |raw| + 7;
    var adts := Pes.WrapAacAdts(raw);
    Pes.AdtsLengthIff(raw);
    Pes.AdtsHeaderLength(n);
    var h := Pes.AdtsHeader(n);
    assert adts == h + raw;
    assert adts[3] == h[3] && adts[4] == h[4] && adts[5] == h[5] && adts[0] == h[0] && adts[1] == h[1];
    assert Pes.AdtsLength(adts) == n % 0x2000;
    assert HasSync(adts);
    hide Pes.AdtsLength, Pes.AdtsHeader, Pes.WrapAacAdts;
    var length := n % 0x2000;
    if 7 < length <= n {
      assert |adts[7..length]| == length - 7;
      assert length == n ==> adts[7..length] == raw;
    }
  }
}
