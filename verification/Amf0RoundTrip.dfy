/**
  * Decoding what the encoder wrote: the same values with Undefined read back as Null, at any nesting
  * depth and in any map order, up to the first top-level Number that looks like an object end.
  */
module Amf0RoundTrip {
  import opened Bytes
  import opened Utf8
  import opened Amf0

  /** Undefined decodes as Null. */
  function Nulled(v: Value): Value {
    match v
    case Undefined => Null
    case Object(fields) => Object(map k | k in fields :: Nulled(fields[k]))
    case EcmaArray(fields) => EcmaArray(map k | k in fields :: Nulled(fields[k]))
    case _ => v
  }

  function NulledFields(fields: map<Str, Value>): map<Str, Value> {
    map k | k in fields :: Nulled(fields[k])
  }

  /** Strings and keys fit their 16-bit lengths, and no key is empty. */
  predicate SizesOk(v: Value) {
    match v
    case String(s) => |s| < 0x1_0000
    case Object(fields) => forall k | k in fields :: 0 < |k| < 0x1_0000 && SizesOk(fields[k])
    case EcmaArray(fields) => forall k | k in fields :: 0 < |k| < 0x1_0000 && SizesOk(fields[k])
    case _ => true
  }

  ghost predicate Encodable(n: Node)
    decreases n
  {
    match n
    case Flat(v) => !v.Object? && !v.EcmaArray? && SizesOk(v)
    case Listed(_, props) => forall p | p in props :: 0 < |p.key| < 0x1_0000 && Encodable(p.node)
  }

  ghost predicate AllProps(props: seq<Prop>) {
    forall p | p in props :: 0 < |p.key| < 0x1_0000 && Encodable(p.node)
  }

  lemma {:induction false} FieldIsListed(props: seq<Prop>, p: Prop)
    requires DistinctKeys(props) && p in props
    ensures p.key in FieldsOf(props) && FieldsOf(props)[p.key] == ValueOf(p.node)
    decreases |props|
  {
    var last := props[|props| - 1];
    var rest := props[..|props| - 1];
    if p != last {
      assert p in rest;
      FieldIsListed(rest, p);
      var i :| 0 <= i < |rest| && rest[i] == p;
      assert props[i].key != last.key;
    }
    hide ValueOf;
  }

  /** A node of a value with sizes in range is encodable. */
  lemma {:induction false} NodeOfSizesOk(n: Node)
    requires Shaped(n) && SizesOk(ValueOf(n))
    ensures Encodable(n)
    decreases n
  {
    match n
    case Flat(v) =>
    case Listed(isEcma, props) =>
      var fields := FieldsOf(props);
      assert forall k | k in fields :: 0 < |k| < 0x1_0000 && SizesOk(fields[k]);
      forall p | p in props ensures 0 < |p.key| < 0x1_0000 && Encodable(p.node) {
        FieldIsListed(props, p);
        assert SizesOk(fields[p.key]);
        NodeOfSizesOk(p.node);
      }
  }

  // ---------------------------------------------------------------- one value

  /** The bytes b stand in the data at i. */
  ghost predicate At(data: seq<byte>, i: nat, b: seq<byte>) {
    i + |b| <= |data| && data[i..i + |b|] == b
  }

  lemma AtParts(data: seq<byte>, i: nat, a: seq<byte>, b: seq<byte>)
    requires At(data, i, a + b)
    ensures At(data, i, a) && At(data, i + |a|, b)
  {
    assert data[i..i + |a|] == data[i..i + |a + b|][..|a|] == a;
    assert data[i + |a|..i + |a| + |b|] == data[i..i + |a + b|][|a|..] == b;
  }

  lemma AtByte(data: seq<byte>, i: nat, b: seq<byte>, k: nat)
    requires At(data, i, b) && k < |b|
    ensures data[i + k] == b[k]
  {
    assert data[i..i + |b|][k] == data[i + k];
  }

  lemma StringAt(data: seq<byte>, i: nat, s: Str)
    requires At(data, i, StringBytes(s)) && |s| < 0x1_0000
    ensures |StringBytes(s)| == 2 + |s|
    ensures FromBe16(data[i], data[i + 1]) == |s| && data[i + 2..i + 2 + |s|] == s
  {
    hide IsText;
    var head := Be16(|s|);
    assert StringBytes(s) == head + s;
    Be16RoundTrip(|s|);
    hide StringBytes, Be16, FromBe16;
    AtParts(data, i, head, s);
    AtByte(data, i, head, 0);
    AtByte(data, i, head, 1);
  }

  lemma {:induction false} PropsPrefix(props: seq<Prop>, k: nat) returns (more: seq<byte>)
    requires k < |props|
    ensures PropsBytes(props) == PropsBytes(props[..k + 1]) + more
    ensures PropsBytes(props[..k + 1]) ==
      PropsBytes(props[..k]) + (StringBytes(props[k].key) + NodeBytes(props[k].node))
    decreases |props|
  {
    assert props[..k + 1][..k] == props[..k];
    if k + 1 == |props| {
      assert props[..k + 1] == props;
      more := [];
    } else {
      var shorter := props[..|props| - 1];
      more := PropsPrefix(shorter, k);
      assert shorter[..k + 1] == props[..k + 1];
      var last := props[|props| - 1];
      var entry := StringBytes(last.key) + NodeBytes(last.node);
      assert PropsBytes(props) == PropsBytes(shorter) + entry;
      Assoc(PropsBytes(props[..k + 1]), more, entry);
      more := more + entry;
    }
  }

  /** Property k of an object body and what stands before it. */
  lemma PropertyAt(props: seq<Prop>, k: nat, data: seq<byte>, start: nat)
    requires k < |props| && At(data, start, PropsBytes(props))
    ensures var i := start + |PropsBytes(props[..k])|;
      && At(data, i, StringBytes(props[k].key))
      && At(data, i + |StringBytes(props[k].key)|, NodeBytes(props[k].node))
      && start + |PropsBytes(props[..k + 1])| == i + |StringBytes(props[k].key)| + |NodeBytes(props[k].node)|
  {
    var more := PropsPrefix(props, k);
    var key, node := StringBytes(props[k].key), NodeBytes(props[k].node);
    hide StringBytes, NodeBytes, PropsBytes, IsText;
    var before, upto := PropsBytes(props[..k]), PropsBytes(props[..k + 1]);
    AtParts(data, start, upto, more);
    AtParts(data, start, before, key + node);
    AtParts(data, start + |before|, key, node);
    hide At;
  }

  /** Properties that stand in the data are read one by one, whatever follows them. */
  lemma {:induction false} FieldsThrough(props: seq<Prop>, k: nat, data: seq<byte>, start: nat)
    requires k <= |props| && At(data, start, PropsBytes(props))
    requires AllProps(props)
    ensures start + |PropsBytes(props[..k])| <= |data| && start + |PropsBytes(props)| <= |data|
    ensures DecodeFields(data, start + |PropsBytes(props[..k])|, NulledFields(FieldsOf(props[..k])))
         == DecodeFields(data, start + |PropsBytes(props)|, NulledFields(FieldsOf(props)))
    decreases props, |props| - k
  {
    hide DecodeFields, DecodeValue, PropsBytes, NodeBytes, StringBytes, FieldsOf, ValueOf, Encodable, NulledFields;
    hide Nulled;
    var i := start + |PropsBytes(props[..k])|;
    if k == |props| {
      assert props[..k] == props;
    } else {
      var p := props[k];
      assert p in props;
      PropertyAt(props, k, data, start);
      var at := i + |StringBytes(p.key)|;
      assert 0 < |p.key| < 0x1_0000 && Encodable(p.node);
      hide AllProps;
      StringAt(data, i, p.key);
      ValueRoundTrip(p.node, data, at);
      FieldsStep(data, i, p.key, NulledFields(FieldsOf(props[..k])), Nulled(ValueOf(p.node)), at + |NodeBytes(p.node)|);
      FieldAdded(props, k);
      FieldsThrough(props, k + 1, data, start);
    }
  }

  lemma FieldsRoundTrip(props: seq<Prop>, data: seq<byte>, start: nat)
    requires At(data, start, PropsBytes(props) + ObjectEnd) && AllProps(props)
    ensures start <= |data|
    ensures DecodeFields(data, start, map[]) == MapOk(NulledFields(FieldsOf(props)), start + |PropsBytes(props)| + 3)
    decreases props, |props| + 1
  {
    hide DecodeFields, PropsBytes, FieldsOf, NulledFields, AllProps;
    AtParts(data, start, PropsBytes(props), ObjectEnd);
    FieldsThrough(props, 0, data, start);
    EmptyProps(props);
    FieldsEnd(data, start + |PropsBytes(props)|, NulledFields(FieldsOf(props)));
  }

  lemma FieldsEnd(data: seq<byte>, i: nat, fields: map<Str, Value>)
    requires At(data, i, ObjectEnd)
    ensures DecodeFields(data, i, fields) == MapOk(fields, i + 3)
  {
    AtByte(data, i, ObjectEnd, 0);
    AtByte(data, i, ObjectEnd, 1);
    AtByte(data, i, ObjectEnd, 2);
  }

  /** One turn of the property loop. */
  lemma FieldsStep(data: seq<byte>, i: nat, key: seq<byte>, fields: map<Str, Value>, value: Value, end: nat)
    requires i + 2 + |key| <= |data| && 0 < |key| == FromBe16(data[i], data[i + 1])
    requires data[i + 2..i + 2 + |key|] == key
    requires end <= |data| && DecodeValue(data, i + 2 + |key|) == Ok(value, end)
    ensures DecodeFields(data, i, fields) == DecodeFields(data, end, fields[AsText(key) := value])
  {
    hide DecodeValue, AsText;
  }

  lemma FieldAdded(props: seq<Prop>, k: nat)
    requires k < |props|
    ensures NulledFields(FieldsOf(props[..k]))[props[k].key := Nulled(ValueOf(props[k].node))]
         == NulledFields(FieldsOf(props[..k + 1]))
  {
    assert props[..k + 1] == props[..k] + [props[k]];
    PropsSnoc(props[..k], props[k]);
    hide FieldsOf, ValueOf, Nulled;
  }

  /** One value in front of any trailing bytes. */
  lemma {:induction false} ValueRoundTrip(n: Node, data: seq<byte>, i: nat)
    requires Encodable(n) && At(data, i, NodeBytes(n))
    ensures |NodeBytes(n)| > 0
    ensures DecodeValue(data, i) == Ok(Nulled(ValueOf(n)), i + |NodeBytes(n)|)
    decreases n
  {
    hide PropsBytes, DecodeFields, FieldsOf, Be32, NulledFields;
    match n
    case Flat(v) => FlatRoundTrip(v, data, i);
    case Listed(isEcma, props) =>
      var head := if isEcma then [AMF0_ECMA_ARRAY] + Be32(|props| % 0x1_0000_0000) else [AMF0_OBJECT];
      var body := PropsBytes(props) + ObjectEnd;
      Assoc(head, PropsBytes(props), ObjectEnd);
      assert NodeBytes(n) == head + body;
      hide NodeBytes;
      AtParts(data, i, head, body);
      AtByte(data, i, head, 0);
      assert AllProps(props);
      FieldsRoundTrip(props, data, i + |head|);
      Be32RoundTrip(|props| % 0x1_0000_0000);
      NulledListed(isEcma, props);
  }

  lemma EmptyProps(props: seq<Prop>)
    ensures |PropsBytes(props[..0])| == 0 && NulledFields(FieldsOf(props[..0])) == map[]
  {
    assert props[..0] == [];
  }

  lemma NulledListed(isEcma: bool, props: seq<Prop>)
    ensures Nulled(ValueOf(Listed(isEcma, props))) ==
      if isEcma then EcmaArray(NulledFields(FieldsOf(props))) else Object(NulledFields(FieldsOf(props)))
  {
    hide FieldsOf;
  }

  lemma TextRoundTrip(s: Str, data: seq<byte>, i: nat)
    requires |s| < 0x1_0000 && At(data, i, NodeBytes(Flat(String(s))))
    ensures DecodeValue(data, i) == Ok(String(s), i + |NodeBytes(Flat(String(s)))|)
  {
    var b := NodeBytes(Flat(String(s)));
    AtByte(data, i, b, 0);
    AtParts(data, i, [AMF0_STRING], StringBytes(s));
    assert |b| == 1 + |StringBytes(s)|;
    StringAt(data, i + 1, s);
    hide StringBytes, NodeBytes, IsText, AsText, FromBe16, DecodeFields;
  }

  lemma FlatRoundTrip(v: Value, data: seq<byte>, i: nat)
    requires !v.Object? && !v.EcmaArray? && SizesOk(v) && At(data, i, NodeBytes(Flat(v)))
    ensures |NodeBytes(Flat(v))| > 0
    ensures DecodeValue(data, i) == Ok(Nulled(v), i + |NodeBytes(Flat(v))|)
  {
    AtByte(data, i, NodeBytes(Flat(v)), 0);
    match v {
      case Number(bits) =>
        AtParts(data, i, [AMF0_NUMBER], bits);
      case Boolean(b) =>
        AtByte(data, i, NodeBytes(Flat(v)), 1);
      case String(s) =>
        TextRoundTrip(s, data, i);
      case Null =>
      case Undefined =>
    }
  }

  // ---------------------------------------------------------------- the bytes, and bytes that are none

  /** What the encoder writes, marker by marker. */
  lemma WireForms(v: Value)
    requires v.String? ==> |v.s| < 65536
    ensures match v
      case Number(bits) => NodeBytes(Flat(v)) == [0x00] + bits
      case Boolean(b) => NodeBytes(Flat(v)) == [0x01, if b then 0x01 else 0x00]
      case String(s) => NodeBytes(Flat(v)) == [0x02, |s| / 256, |s| % 256] + s
      case Null => NodeBytes(Flat(v)) == [0x05]
      case Undefined => NodeBytes(Flat(v)) == [0x06]
      case _ => true
  {
    hide IsText;
    if v.String? {
      var n: u16 := |v.s|;
      assert StringBytes(v.s) == [n / 256, n % 256] + v.s;
      hide StringBytes;
      assert [0x02] + ([n / 256, n % 256] + v.s) == [0x02, n / 256, n % 256] + v.s;
    }
  }

  lemma MapForms(props: seq<Prop>)
    requires |props| < 0x1_0000_0000
    ensures NodeBytes(Listed(false, props)) == [0x03] + PropsBytes(props) + [0x00, 0x00, 0x09]
    ensures var n := |props|;
      NodeBytes(Listed(true, props)) == [0x08] + [n / 0x100_0000, n / 0x1_0000 % 0x100, n / 0x100 % 0x100, n % 0x100]
                                        + PropsBytes(props) + [0x00, 0x00, 0x09]
  {
    var n: u32 := |props|;
    ListedIs(false, props);
    ListedIs(true, props);
    CountBytes(n);
    hide NodeBytes, PropsBytes, Be32;
  }

  lemma ListedIs(isEcma: bool, props: seq<Prop>)
    requires |props| < 0x1_0000_0000
    ensures NodeBytes(Listed(isEcma, props))
         == (if isEcma then [0x08] + Be32(|props|) else [0x03]) + PropsBytes(props) + [0x00, 0x00, 0x09]
  {
    hide PropsBytes, Be32;
    assert |props| % 0x1_0000_0000 == |props|;
  }

  lemma CountBytes(n: u32)
    ensures Be32(n) == [n / 0x100_0000, n / 0x1_0000 % 0x100, n / 0x100 % 0x100, n % 0x100]
  {
    var (high, low) := (n / 0x1_0000, n % 0x1_0000);
    var (a, b, c, d) := (high / 0x100, high % 0x100, low / 0x100, low % 0x100);
    assert n == 0x100_0000 * a + 0x1_0000 * b + 0x100 * c + d;
    assert n / 0x100 == 0x1_0000 * a + 0x100 * b + c;
  }

  /** A property is its key behind its length, and its value. */
  lemma PropertyForm(p: Prop)
    requires |p.key| < 65536
    ensures PropsBytes([p]) == [|p.key| / 256, |p.key| % 256] + p.key + NodeBytes(p.node)
  {
    assert [p][..0] == [];
    hide NodeBytes, IsText;
    assert [] + (StringBytes(p.key) + NodeBytes(p.node)) == StringBytes(p.key) + NodeBytes(p.node);
  }

  /** A marker that is none of these is refused, and so is a value that is cut short. */
  lemma Refused(data: seq<byte>, i: nat)
    requires i < |data|
    ensures data[i] !in {0x00, 0x01, 0x02, 0x03, 0x05, 0x06, 0x08} ==> DecodeValue(data, i) == Err(i + 1)
    ensures data[i] == 0x00 && |data| - i < 9 ==> DecodeValue(data, i) == Err(i + 1)
    ensures data[i] == 0x01 && |data| - i < 2 ==> DecodeValue(data, i) == Err(i + 1)
    ensures data[i] == 0x02 && |data| - i < 3 ==> DecodeValue(data, i) == Err(i + 1)
    ensures data[i] == 0x08 && |data| - i < 5 ==> DecodeValue(data, i) == Err(i + 1)
    ensures data[i] == 0x02 && |data| - i >= 3 && |data| - i - 3 < data[i + 1] as int * 256 + data[i + 2]
        ==> DecodeValue(data, i) == Err(i + 3)
    ensures data[i] == 0x03 && |data| - i < 3 ==> DecodeValue(data, i) == Err(i + 1)
    ensures data[i] == 0x08 && 5 <= |data| - i < 7 ==> DecodeValue(data, i) == Err(i + 5)
    ensures data[i] == 0x01 && |data| - i >= 2 ==> DecodeValue(data, i) == Ok(Boolean(data[i + 1] != 0), i + 2)
  {
    if data[i] == 0x03 && |data| - i < 3 {
      Endings(data, i + 1, map[]);
    }
    if data[i] == 0x08 && 5 <= |data| - i < 7 {
      Endings(data, i + 5, map[]);
    }
    hide DecodeFields, AsText;
  }

  /** How the properties of an object may end. The three bytes 00 00 09 end them; so does an empty key, with the byte 09
      behind it or without; a key that is cut short makes the whole object an error; and a value that cannot be read
      ends the object with the properties before it. */
  lemma FieldsMayEnd(props: seq<Prop>, data: seq<byte>, start: nat)
    requires At(data, start, PropsBytes(props)) && AllProps(props)
    ensures var end := start + |PropsBytes(props)|;
      end <= |data| && MayEnd(data, end, NulledFields(FieldsOf(props)), DecodeFields(data, start, map[]))
  {
    hide AllProps, PropsBytes, FieldsOf, NulledFields, DecodeFields, At, MayEnd;
    FieldsThrough(props, 0, data, start);
    EmptyProps(props);
    Endings(data, start + |PropsBytes(props)|, NulledFields(FieldsOf(props)));
  }

  predicate MayEnd(data: seq<byte>, end: nat, fields: map<Str, Value>, got: DecodedMap)
    requires end <= |data|
  {
    && (|data| - end < 2 ==> got == MapErr(end))
    && (|data| - end >= 2 && data[end] == 0 && data[end + 1] == 0 ==>
          got == MapOk(fields, if |data| - end >= 3 && data[end + 2] == 0x09 then end + 3 else end + 2))
    && (|data| - end >= 2 ==>
          var len: nat := data[end] as int * 256 + data[end + 1];
          && (len > 0 && |data| - end - 2 < len ==> got == MapErr(end + 2))
          && (len > 0 && |data| - end - 2 >= len && DecodeValue(data, end + 2 + len).Err? ==>
                got == MapOk(fields, DecodeValue(data, end + 2 + len).offset)))
  }

  lemma Endings(data: seq<byte>, end: nat, fields: map<Str, Value>)
    requires end <= |data|
    ensures MayEnd(data, end, fields, DecodeFields(data, end, fields))
  {
    hide DecodeValue, AsText;
  }

  /** Keys that are not text are replaced, and can become one: of these two properties only the second is left. */
  lemma KeysMerge()
    ensures IsText(Replacement)
    ensures DecodeValue([AMF0_OBJECT, 0, 1, 0xFF, AMF0_BOOLEAN, 0, 0, 1, 0xFE, AMF0_BOOLEAN, 1] + ObjectEnd, 0)
         == Ok(Object(map[Replacement := Boolean(true)]), 14)
  {
    var data := [AMF0_OBJECT, 0, 1, 0xFF, AMF0_BOOLEAN, 0, 0, 1, 0xFE, AMF0_BOOLEAN, 1] + ObjectEnd;
    LossyIsText([0xFF]);
    assert Lossy([0xFF]) == Replacement == Lossy([0xFE]);
    assert data[3..4] == [0xFF] && data[8..9] == [0xFE];
    hide IsText, Lossy;
    assert DecodeValue(data, 4) == Ok(Boolean(false), 6) && DecodeValue(data, 9) == Ok(Boolean(true), 11);
    hide DecodeValue;
    FieldsStep(data, 1, [0xFF], map[], Boolean(false), 6);
    FieldsStep(data, 6, [0xFE], map[Replacement := Boolean(false)], Boolean(true), 11);
    FieldsEnd(data, 11, map[Replacement := Boolean(true)]);
    assert DecodeValue(data, 0) == AsValue(false, DecodeFields(data, 1, map[])) by {
      hide DecodeFields;
      ObjectAt(data, 0);
    }
    hide DecodeFields;
    assert map[Replacement := Boolean(false)][Replacement := Boolean(true)] == map[Replacement := Boolean(true)];
  }

  lemma ObjectAt(data: seq<byte>, i: nat)
    requires i < |data| && data[i] == AMF0_OBJECT
    ensures DecodeValue(data, i) == AsValue(false, DecodeFields(data, i + 1, map[]))
  {
    hide DecodeFields, IsText;
  }

  // ---------------------------------------------------------------- a list of values

  /** A top-level Number whose bytes read as an object end. */
  predicate LooksLikeEnd(v: Value) {
    v.Number? && v.bits[0] == 0 && v.bits[1] == AMF0_OBJECT_END
  }

  /** Values before the first that looks like an object end. */
  function BeforeEnd(values: seq<Value>): seq<Value> {
    if values == [] || LooksLikeEnd(values[0]) then [] else [values[0]] + BeforeEnd(values[1..])
  }

  function NulledAll(values: seq<Value>): seq<Value> {
    if values == [] then [] else [Nulled(values[0])] + NulledAll(values[1..])
  }

  function ValuesOf(nodes: seq<Node>): (r: seq<Value>)
    ensures |r| == |nodes|
    ensures forall i :: 0 <= i < |nodes| ==> r[i] == ValueOf(nodes[i])
  {
    if nodes == [] then [] else [ValueOf(nodes[0])] + ValuesOf(nodes[1..])
  }

  ghost predicate AllEncodable(nodes: seq<Node>) {
    forall i :: 0 <= i < |nodes| ==> Encodable(nodes[i])
  }

  lemma EndIffNumber(n: Node, data: seq<byte>, i: nat)
    requires Encodable(n) && At(data, i, NodeBytes(n))
    ensures ObjectEndAt(data, i) <==> LooksLikeEnd(ValueOf(n))
  {
    ValueRoundTrip(n, data, i);
    AtByte(data, i, NodeBytes(n), 0);
    if n.Flat? && n.value.Number? {
      AtByte(data, i, NodeBytes(n), 1);
      AtByte(data, i, NodeBytes(n), 2);
    }
    hide DecodeValue, PropsBytes, FieldsOf, Nulled;
  }

  /** Where decoding a list of encoded values stops. */
  function StopAt(nodes: seq<Node>): nat {
    if nodes == [] then 0
    else if LooksLikeEnd(ValueOf(nodes[0])) then 3
    else |NodeBytes(nodes[0])| + StopAt(nodes[1..])
  }

  lemma {:induction false} ListRoundTrip(nodes: seq<Node>, data: seq<byte>, i: nat, before: seq<Value>)
    requires AllEncodable(nodes) && i <= |data| && data[i..] == NodesBytes(nodes)
    ensures DecodeList(data, i, before) == Some((before + NulledAll(BeforeEnd(ValuesOf(nodes))), i + StopAt(nodes)))
    decreases |nodes|
  {
    hide DecodeList, DecodeValue, NodeBytes, ValueOf, ObjectEndAt, Encodable, LooksLikeEnd, Nulled;
    assert before + [] == before;
    if nodes == [] {
      ListEnds(data, i, before);
    } else {
      var n := nodes[0];
      var b, rest := NodeBytes(n), NodesBytes(nodes[1..]);
      assert data[i..] == b + rest;
      assert data[i..i + |b|] == data[i..][..|b|] == b;
      assert data[i + |b|..] == data[i..][|b|..] == rest;
      EndIffNumber(n, data, i);
      ValueRoundTrip(n, data, i);
      assert AllEncodable(nodes[1..]);
      hide AllEncodable, NodesBytes, At;
      ValuesCons(nodes);
      if LooksLikeEnd(ValueOf(n)) {
        ListEnds(data, i, before);
      } else {
        var more := NulledAll(BeforeEnd(ValuesOf(nodes[1..])));
        ListStep(data, i, before, Nulled(ValueOf(n)), i + |b|);
        ListRoundTrip(nodes[1..], data, i + |b|, before + [Nulled(ValueOf(n))]);
        Assoc(before, [Nulled(ValueOf(n))], more);
        NulledCons(ValueOf(n), BeforeEnd(ValuesOf(nodes[1..])));
      }
    }
  }

  /** Encoded values that stand in the data, none of which looks like an object end, are read one by one, whatever
      follows them. */
  lemma {:induction false} ListThrough(nodes: seq<Node>, data: seq<byte>, i: nat, before: seq<Value>)
    requires AllEncodable(nodes) && At(data, i, NodesBytes(nodes))
    requires forall k :: 0 <= k < |nodes| ==> !LooksLikeEnd(ValueOf(nodes[k]))
    ensures i + |NodesBytes(nodes)| <= |data|
    ensures DecodeList(data, i, before)
         == DecodeList(data, i + |NodesBytes(nodes)|, before + NulledAll(ValuesOf(nodes)))
    decreases |nodes|
  {
    hide DecodeList, DecodeValue, NodeBytes, ValueOf, ObjectEndAt, Encodable, LooksLikeEnd, Nulled;
    if nodes == [] {
      assert before + [] == before;
    } else {
      var n := nodes[0];
      AtParts(data, i, NodeBytes(n), NodesBytes(nodes[1..]));
      EndIffNumber(n, data, i);
      ValueRoundTrip(n, data, i);
      assert AllEncodable(nodes[1..]);
      assert NodesBytes(nodes) == NodeBytes(n) + NodesBytes(nodes[1..]);
      hide AllEncodable, NodesBytes, At, BeforeEnd;
      ValuesCons(nodes);
      hide ValuesOf, NulledAll;
      ListStep(data, i, before, Nulled(ValueOf(n)), i + |NodeBytes(n)|);
      ListThrough(nodes[1..], data, i + |NodeBytes(n)|, before + [Nulled(ValueOf(n))]);
      Assoc(before, [Nulled(ValueOf(n))], NulledAll(ValuesOf(nodes[1..])));
      NulledCons(ValueOf(n), ValuesOf(nodes[1..]));
    }
  }

  /** How a list may end: with the data, or at the three bytes 00 00 09, which are read; anything else that is no value
      ends it where reading stopped, and makes it an error if there was no value before. */
  lemma ListMayEnd(nodes: seq<Node>, data: seq<byte>)
    requires AllEncodable(nodes) && At(data, 0, NodesBytes(nodes))
    requires forall k :: 0 <= k < |nodes| ==> !LooksLikeEnd(ValueOf(nodes[k]))
    ensures |NodesBytes(nodes)| <= |data|
    ensures var (end, values, got) := (|NodesBytes(nodes)|, NulledAll(ValuesOf(nodes)), DecodeList(data, 0, []));
      if end == |data| then got == Some((values, end))
      else if |data| - end >= 3 && data[end] == 0 && data[end + 1] == 0 && data[end + 2] == 0x09
      then got == Some((values, end + 3))
      else DecodeValue(data, end).Err? ==>
        got == if values == [] then None else Some((values, DecodeValue(data, end).offset))
  {
    hide AllEncodable, NodesBytes, At, ValuesOf, NulledAll, LooksLikeEnd, ValueOf;
    ListThrough(nodes, data, 0, []);
    assert [] + NulledAll(ValuesOf(nodes)) == NulledAll(ValuesOf(nodes));
    hide DecodeValue;
  }

  lemma ValuesCons(nodes: seq<Node>)
    requires nodes != []
    ensures ValuesOf(nodes) == [ValueOf(nodes[0])] + ValuesOf(nodes[1..])
    ensures BeforeEnd(ValuesOf(nodes)) ==
      if LooksLikeEnd(ValueOf(nodes[0])) then [] else [ValueOf(nodes[0])] + BeforeEnd(ValuesOf(nodes[1..]))
  {
    hide ValueOf, LooksLikeEnd;
    assert ValuesOf(nodes)[1..] == ValuesOf(nodes[1..]);
  }

  lemma ListEnds(data: seq<byte>, i: nat, values: seq<Value>)
    requires i <= |data| && (i == |data| || ObjectEndAt(data, i))
    ensures DecodeList(data, i, values) == Some((values, if i == |data| then i else i + 3))
  {
  }

  lemma ListStep(data: seq<byte>, i: nat, values: seq<Value>, value: Value, end: nat)
    requires i < |data| && !ObjectEndAt(data, i) && DecodeValue(data, i) == Ok(value, end)
    ensures DecodeList(data, i, values) == DecodeList(data, end, values + [value])
  {
    hide DecodeValue;
  }

  lemma NulledCons(v: Value, rest: seq<Value>)
    ensures NulledAll([v] + rest) == [Nulled(v)] + NulledAll(rest)
  {
    assert ([v] + rest)[1..] == rest;
    hide Nulled;
  }

  lemma {:induction false} NothingLooksLikeEnd(nodes: seq<Node>)
    ensures |NulledAll(BeforeEnd(ValuesOf(nodes)))| == |nodes| <==>
      forall i :: 0 <= i < |nodes| ==> !LooksLikeEnd(ValueOf(nodes[i]))
    ensures (forall i :: 0 <= i < |nodes| ==> !LooksLikeEnd(ValueOf(nodes[i]))) ==>
      BeforeEnd(ValuesOf(nodes)) == ValuesOf(nodes) && StopAt(nodes) == |NodesBytes(nodes)|
    ensures |NulledAll(BeforeEnd(ValuesOf(nodes)))| <= |nodes|
    decreases |nodes|
  {
    hide ValueOf, NodeBytes, LooksLikeEnd, Nulled;
    if nodes != [] {
      NothingLooksLikeEnd(nodes[1..]);
      var rest := BeforeEnd(ValuesOf(nodes[1..]));
      NulledCons(ValueOf(nodes[0]), rest);
      assert ValuesOf(nodes) == [ValueOf(nodes[0])] + ValuesOf(nodes[1..]);
      assert ValuesOf(nodes)[1..] == ValuesOf(nodes[1..]);
      assert forall i :: 0 <= i < |nodes[1..]| ==> nodes[1..][i] == nodes[i + 1];
      hide BeforeEnd, NulledAll, ValuesOf;
      if !LooksLikeEnd(ValueOf(nodes[0]))
         && (forall i :: 0 <= i < |nodes[1..]| ==> !LooksLikeEnd(ValueOf(nodes[1..][i]))) {
        forall i | 0 <= i < |nodes| ensures !LooksLikeEnd(ValueOf(nodes[i])) {
          assert i > 0 ==> nodes[i] == nodes[1..][i - 1];
        }
      }
    }
  }

  /**
    * The exact condition for whole lists: decoding the encoded values returns all of them, Undefined as
    * Null, and consumes every byte, iff no top-level Number looks like an object end.
    */
  lemma DecodeEncodeIff(nodes: seq<Node>)
    requires forall i :: 0 <= i < |nodes| ==> Shaped(nodes[i]) && SizesOk(ValueOf(nodes[i]))
    ensures DecodeList(NodesBytes(nodes), 0, []) == Some((NulledAll(ValuesOf(nodes)), |NodesBytes(nodes)|))
      <==> forall i :: 0 <= i < |nodes| ==> !LooksLikeEnd(ValueOf(nodes[i]))
  {
    assert AllEncodable(nodes) by {
      forall i | 0 <= i < |nodes| ensures Encodable(nodes[i]) {
        NodeOfSizesOk(nodes[i]);
      }
    }
    var data := NodesBytes(nodes);
    assert data[0..] == data;
    hide DecodeList, Shaped, SizesOk, Encodable, ValueOf, AllEncodable, LooksLikeEnd;
    ListRoundTrip(nodes, data, 0, []);
    NothingLooksLikeEnd(nodes);
    var got := NulledAll(BeforeEnd(ValuesOf(nodes)));
    assert [] + got == got;
    NulledLength(ValuesOf(nodes));
  }

  /** Whatever order the encoder's maps come in: what `Encode` may return decodes to the values, Undefined as Null, with
      every byte consumed, iff no top-level Number looks like an object end. */
  lemma AnyEncodingDecodesIff(bytes: seq<byte>, values: seq<Value>)
    requires IsEncoding(bytes, values) && forall i :: 0 <= i < |values| ==> SizesOk(values[i])
    ensures DecodeList(bytes, 0, []) == Some((NulledAll(values), |bytes|))
      <==> forall i :: 0 <= i < |values| ==> !LooksLikeEnd(values[i])
  {
    var nodes :| NodesOf(nodes, values) && bytes == NodesBytes(nodes);
    hide DecodeList, Shaped, SizesOk, LooksLikeEnd, ValueOf;
    assert ValuesOf(nodes) == values;
    DecodeEncodeIff(nodes);
    assert forall i :: 0 <= i < |nodes| ==> ValueOf(nodes[i]) == values[i];
  }

  lemma {:induction false} NulledLength(values: seq<Value>)
    ensures |NulledAll(values)| == |values|
  {
    if values != [] {
      NulledLength(values[1..]);
    }
  }
}
