/**
  * AMF0 values (sections 2.2 to 2.11 of the AMF0 specification). Numbers are eight opaque bytes and
  * strings are the bytes of UTF-8 text. A map has no order; a `Node` is a value together with the order in which
  * the encoder happened to walk its maps.
  */
module Amf0 {
  import opened Bytes
  import opened Utf8

  type Bits = s: seq<byte> | |s| == 8 witness [0, 0, 0, 0, 0, 0, 0, 0]
  type Str = s: seq<byte> | IsText(s)

  datatype Value =
    | Number(bits: Bits)
    | Boolean(b: bool)
    | String(s: Str)
    | Object(fields: map<Str, Value>)
    | Null
    | Undefined
    | EcmaArray(fields: map<Str, Value>)

  const AMF0_NUMBER := 0
  const AMF0_BOOLEAN := 1
  const AMF0_STRING := 2
  const AMF0_OBJECT := 3
  const AMF0_NULL := 5
  const AMF0_UNDEFINED := 6
  const AMF0_ECMA_ARRAY := 8
  const AMF0_OBJECT_END := 9

  // ---------------------------------------------------------------- decoding

  /** A decoded value, or an error; either way the offset where decoding stopped. */
  datatype Decoded = Ok(value: Value, offset: nat) | Err(offset: nat)

  datatype DecodedMap = MapOk(fields: map<Str, Value>, offset: nat) | MapErr(offset: nat)

  predicate ObjectEndAt(data: seq<byte>, i: nat) {
    i + 3 <= |data| && data[i] == 0 && data[i + 1] == 0 && data[i + 2] == AMF0_OBJECT_END
  }

  /** Bytes read as text, whatever they are. */
  function AsText(b: seq<byte>): (s: Str)
    ensures IsText(b) ==> s == b
  {
    LossyKeepsIff(b);
    Lossy(b)
  }

  function DecodeString(data: seq<byte>, i: nat): (r: Decoded)
    requires i <= |data|
    ensures i <= r.offset <= |data|
  {
    if i + 2 > |data| then Err(i)
    else
      var len := FromBe16(data[i], data[i + 1]);
      if i + 2 + len > |data| then Err(i + 2) else Ok(String(AsText(data[i + 2..i + 2 + len])), i + 2 + len)
  }

  function DecodeValue(data: seq<byte>, i: nat): (r: Decoded)
    requires i <= |data|
    ensures i <= r.offset <= |data|
    ensures i < |data| ==> i < r.offset
    decreases |data| - i, 0
  {
    if i >= |data| then Err(i)
    else
      var o := i + 1;
      var marker := data[i];
      if marker == AMF0_NUMBER then
        if o + 8 > |data| then Err(o) else Ok(Number(data[o..o + 8]), o + 8)
      else if marker == AMF0_BOOLEAN then
        if o + 1 > |data| then Err(o) else Ok(Boolean(data[o] != 0), o + 1)
      else if marker == AMF0_STRING then DecodeString(data, o)
      else if marker == AMF0_OBJECT then AsValue(false, DecodeFields(data, o, map[]))
      else if marker == AMF0_NULL || marker == AMF0_UNDEFINED then Ok(Null, o)
      else if marker == AMF0_ECMA_ARRAY then
        if o + 4 > |data| then Err(o) else AsValue(true, DecodeFields(data, o + 4, map[]))
      else Err(o)
  }

  function AsValue(isEcma: bool, r: DecodedMap): Decoded {
    match r
    case MapErr(o) => Err(o)
    case MapOk(fields, o) => Ok(if isEcma then EcmaArray(fields) else Object(fields), o)
  }

  /** Properties from i on, added to those already read. */
  function DecodeFields(data: seq<byte>, i: nat, fields: map<Str, Value>): (r: DecodedMap)
    requires i <= |data|
    ensures i <= r.offset <= |data|
    decreases |data| - i, 1
  {
    if ObjectEndAt(data, i) then MapOk(fields, i + 3)
    else if i + 2 > |data| then MapErr(i)
    else
      var len := FromBe16(data[i], data[i + 1]);
      var o := i + 2;
      if len == 0 then MapOk(fields, if o < |data| && data[o] == AMF0_OBJECT_END then o + 1 else o)
      else if o + len > |data| then MapErr(o)
      else
        match DecodeValue(data, o + len)
        case Err(end) => MapOk(fields, end)
        case Ok(value, end) => DecodeFields(data, end, fields[AsText(data[o..o + len]) := value])
  }

  /** Values up to an object end, an error or the end of the data; an error with no value yet is an error. */
  function DecodeList(data: seq<byte>, i: nat, values: seq<Value>): Option<(seq<Value>, nat)>
    requires i <= |data|
    decreases |data| - i
  {
    if i >= |data| then Some((values, i))
    else if ObjectEndAt(data, i) then Some((values, i + 3))
    else
      match DecodeValue(data, i)
      case Ok(value, end) => DecodeList(data, end, values + [value])
      case Err(end) => if values == [] then None else Some((values, end))
  }

  method Decode(data: seq<byte>) returns (r: Option<(seq<Value>, nat)>)
    ensures r == DecodeList(data, 0, [])
  {
    hide DecodeValue;
    var values: seq<Value> := [];
    var offset := 0;
    while offset < |data|
      invariant offset <= |data|
      invariant DecodeList(data, 0, []) == DecodeList(data, offset, values)
      decreases |data| - offset
    {
      if ObjectEndAt(data, offset) {
        offset := offset + 3;
        return Some((values, offset));
      }
      var d := DecodeValueAt(data, offset);
      match d {
        case Ok(value, end) =>
          values := values + [value];
          offset := end;
        case Err(end) =>
          if values == [] {
            return None;
          }
          return Some((values, end));
      }
    }
    return Some((values, offset));
  }

  method DecodeValueAt(data: seq<byte>, start: nat) returns (r: Decoded)
    requires start <= |data|
    ensures r == DecodeValue(data, start)
    decreases |data| - start, 0
  {
    hide DecodeFields, DecodeString;
    if start >= |data| {
      return Err(start);
    }
    var marker := data[start];
    var offset := start + 1;
    if marker == AMF0_NUMBER {
      if offset + 8 > |data| {
        return Err(offset);
      }
      return Ok(Number(data[offset..offset + 8]), offset + 8);
    } else if marker == AMF0_BOOLEAN {
      if offset + 1 > |data| {
        return Err(offset);
      }
      return Ok(Boolean(data[offset] != 0), offset + 1);
    } else if marker == AMF0_STRING {
      return DecodeString(data, offset);
    } else if marker == AMF0_OBJECT {
      r := DecodeObjectInner(data, offset, false);
    } else if marker == AMF0_NULL || marker == AMF0_UNDEFINED {
      return Ok(Null, offset);
    } else if marker == AMF0_ECMA_ARRAY {
      if offset + 4 > |data| {
        return Err(offset);
      }
      offset := offset + 4;
      r := DecodeObjectInner(data, offset, true);
    } else {
      return Err(offset);
    }
  }

  method DecodeObjectInner(data: seq<byte>, start: nat, isEcma: bool) returns (r: Decoded)
    requires start <= |data|
    ensures r == AsValue(isEcma, DecodeFields(data, start, map[]))
    decreases |data| - start, 1
  {
    hide DecodeValue, AsValue;
    var fields: map<Str, Value> := map[];
    var offset := start;
    while true
      invariant start <= offset <= |data|
      invariant DecodeFields(data, start, map[]) == DecodeFields(data, offset, fields)
      decreases |data| - offset
    {
      if ObjectEndAt(data, offset) {
        return AsValue(isEcma, MapOk(fields, offset + 3));
      }
      if offset + 2 > |data| {
        return AsValue(isEcma, MapErr(offset));
      }
      var len := FromBe16(data[offset], data[offset + 1]);
      var keyAt := offset + 2;
      if len == 0 {
        var end := if keyAt < |data| && data[keyAt] == AMF0_OBJECT_END then keyAt + 1 else keyAt;
        return AsValue(isEcma, MapOk(fields, end));
      }
      if keyAt + len > |data| {
        return AsValue(isEcma, MapErr(keyAt));
      }
      var key := AsText(data[keyAt..keyAt + len]);
      var d := DecodeValueAt(data, keyAt + len);
      match d {
        case Ok(value, end) =>
          fields := fields[key := value];
          offset := end;
        case Err(end) =>
          return AsValue(isEcma, MapOk(fields, end));
      }
    }
  }

  // ---------------------------------------------------------------- encoding

  /** A value with its maps laid out in the order the encoder walks them. */
  datatype Node = Flat(value: Value) | Listed(isEcma: bool, props: seq<Prop>)

  datatype Prop = Prop(key: Str, node: Node)

  function ValueOf(n: Node): Value
    decreases n
  {
    match n
    case Flat(v) => v
    case Listed(isEcma, props) => if isEcma then EcmaArray(FieldsOf(props)) else Object(FieldsOf(props))
  }

  /** The map with these properties; keys are meant to be distinct. */
  function FieldsOf(props: seq<Prop>): map<Str, Value>
    decreases props
  {
    if props == [] then map[]
    else
      assert props[|props| - 1] in props;
      FieldsOf(props[..|props| - 1])[props[|props| - 1].key := ValueOf(props[|props| - 1].node)]
  }

  function StringBytes(s: Str): seq<byte> {
    Be16(|s| % 0x1_0000) + s
  }

  const ObjectEnd: seq<byte> := [0, 0, AMF0_OBJECT_END]

  function NodeBytes(n: Node): seq<byte>
    decreases n
  {
    match n
    case Flat(Number(bits)) => [AMF0_NUMBER] + bits
    case Flat(Boolean(b)) => [AMF0_BOOLEAN, if b then 1 else 0]
    case Flat(String(s)) => [AMF0_STRING] + StringBytes(s)
    case Flat(Undefined) => [AMF0_UNDEFINED]
    case Flat(_) => [AMF0_NULL]
    case Listed(isEcma, props) =>
      (if isEcma then [AMF0_ECMA_ARRAY] + Be32(|props| % 0x1_0000_0000) else [AMF0_OBJECT]) + PropsBytes(props)
          + ObjectEnd
  }

  function PropsBytes(props: seq<Prop>): seq<byte>
    decreases props
  {
    if props == [] then []
    else
      assert props[|props| - 1] in props;
      PropsBytes(props[..|props| - 1]) + (StringBytes(props[|props| - 1].key) + NodeBytes(props[|props| - 1].node))
  }

  /** Maps are listed, never flat, and no key is listed twice. */
  ghost predicate Shaped(n: Node)
    decreases n
  {
    match n
    case Flat(v) => !v.Object? && !v.EcmaArray?
    case Listed(_, props) => DistinctKeys(props) && forall p | p in props :: Shaped(p.node)
  }

  ghost predicate DistinctKeys(props: seq<Prop>) {
    forall i, j :: 0 <= i < j < |props| ==> props[i].key != props[j].key
  }

  function NodesBytes(nodes: seq<Node>): seq<byte> {
    if nodes == [] then [] else NodeBytes(nodes[0]) + NodesBytes(nodes[1..])
  }

  /** Some encoding of a value: its maps in some order. */
  ghost predicate IsValueBytes(bytes: seq<byte>, v: Value) {
    exists n :: Shaped(n) && ValueOf(n) == v && bytes == NodeBytes(n)
  }

  ghost predicate NodesOf(nodes: seq<Node>, values: seq<Value>) {
    |nodes| == |values| && forall i :: 0 <= i < |values| ==> Shaped(nodes[i]) && ValueOf(nodes[i]) == values[i]
  }

  /** Some encoding of a list of values. */
  ghost predicate IsEncoding(bytes: seq<byte>, values: seq<Value>) {
    exists nodes :: NodesOf(nodes, values) && bytes == NodesBytes(nodes)
  }

  lemma ValueBytesAre(buf: seq<byte>, n: Node, v: Value)
    requires Shaped(n) && ValueOf(n) == v
    ensures IsValueBytes((buf + NodeBytes(n))[|buf|..], v)
  {
    assert (buf + NodeBytes(n))[|buf|..] == NodeBytes(n);
  }

  /** The encoder: each map in whatever order its iterator yields, reported as the node. */
  method EncodeValue(buf: seq<byte>, v: Value) returns (out: seq<byte>, ghost node: Node)
    ensures Shaped(node) && ValueOf(node) == v
    ensures out == buf + NodeBytes(node)
    ensures buf <= out && IsValueBytes(out[|buf|..], v)
    decreases v, 1
  {
    hide IsValueBytes;
    out := buf;
    match v {
      case Number(bits) =>
        node := Flat(v);
        out := out + [AMF0_NUMBER];
        out := out + bits;
      case Boolean(b) =>
        node := Flat(v);
        out := out + [AMF0_BOOLEAN];
        out := out + [if b then 1 else 0];
      case String(s) =>
        node := Flat(v);
        out := out + [AMF0_STRING];
        out := out + StringBytes(s);
      case Object(fields) =>
        out := out + [AMF0_OBJECT];
        ghost var props;
        out, props := EncodeObjectProperties(out, fields, v);
        out := out + ObjectEnd;
        node := Listed(false, props);
        ListedBytes(buf, [AMF0_OBJECT], props);
      case Null =>
        node := Flat(v);
        out := out + [AMF0_NULL];
      case Undefined =>
        node := Flat(v);
        out := out + [AMF0_UNDEFINED];
      case EcmaArray(fields) =>
        out := out + [AMF0_ECMA_ARRAY];
        out := out + Be32(|fields| % 0x1_0000_0000);
        ghost var props;
        out, props := EncodeObjectProperties(out, fields, v);
        out := out + ObjectEnd;
        node := Listed(true, props);
        ListedBytes(buf, [AMF0_ECMA_ARRAY] + Be32(|fields| % 0x1_0000_0000), props);
        assert buf + [AMF0_ECMA_ARRAY] + Be32(|fields| % 0x1_0000_0000)
            == buf + ([AMF0_ECMA_ARRAY] + Be32(|fields| % 0x1_0000_0000));
    }
    ValueBytesAre(buf, node, v);
  }

  lemma ListedBytes(buf: seq<byte>, head: seq<byte>, props: seq<Prop>)
    ensures buf + head + PropsBytes(props) + ObjectEnd == buf + (head + PropsBytes(props) + ObjectEnd)
  {
  }

  method EncodeObjectProperties(buf: seq<byte>, fields: map<Str, Value>, ghost v: Value)
      returns (out: seq<byte>, ghost props: seq<Prop>)
    requires v == Object(fields) || v == EcmaArray(fields)
    ensures DistinctKeys(props) && (forall p | p in props :: Shaped(p.node))
    ensures FieldsOf(props) == fields && |props| == |fields|
    ensures out == buf + PropsBytes(props)
    decreases v, 0
  {
    hide IsValueBytes, Shaped, NodeBytes, ValueOf, StringBytes;
    out := buf;
    props := [];
    var keys := fields.Keys;
    while keys != {}
      invariant keys <= fields.Keys
      invariant DistinctKeys(props) && (forall p | p in props :: Shaped(p.node))
      invariant forall i :: 0 <= i < |props| ==> props[i].key !in keys
      invariant FieldsOf(props) == Without(fields, keys)
      invariant |props| + |keys| == |fields|
      invariant out == buf + PropsBytes(props)
      decreases |keys|
    {
      var key :| key in keys;
      ghost var node;
      ghost var before := out;
      out := out + StringBytes(key);
      out, node := EncodeValue(out, fields[key]);
      PropsSnoc(props, Prop(key, node));
      Assoc(before, StringBytes(key), NodeBytes(node));
      Assoc(buf, PropsBytes(props), StringBytes(key) + NodeBytes(node));
      WithoutOneLess(fields, keys, key);
      props := props + [Prop(key, node)];
      keys := keys - {key};
    }
  }

  /** The fields whose keys are not still to come. */
  ghost function Without(fields: map<Str, Value>, keys: set<Str>): map<Str, Value> {
    map k | k in fields && k !in keys :: fields[k]
  }

  lemma WithoutOneLess(fields: map<Str, Value>, keys: set<Str>, key: Str)
    requires key in keys && key in fields
    ensures Without(fields, keys - {key}) == Without(fields, keys)[key := fields[key]]
  {
  }

  lemma PropsSnoc(props: seq<Prop>, p: Prop)
    ensures PropsBytes(props + [p]) == PropsBytes(props) + (StringBytes(p.key) + NodeBytes(p.node))
    ensures FieldsOf(props + [p]) == FieldsOf(props)[p.key := ValueOf(p.node)]
  {
    assert (props + [p])[..|props|] == props;
  }

  method Encode(values: seq<Value>) returns (buf: seq<byte>)
    ensures IsEncoding(buf, values)
  {
    hide IsValueBytes;
    buf := [];
    ghost var nodes: seq<Node> := [];
    for i := 0 to |values|
      invariant NodesOf(nodes, values[..i])
      invariant buf == NodesBytes(nodes)
    {
      ghost var node;
      buf, node := EncodeValue(buf, values[i]);
      NodesSnoc(nodes, node);
      nodes := nodes + [node];
    }
    assert values[..|values|] == values;
  }

  lemma {:induction false} NodesSnoc(nodes: seq<Node>, n: Node)
    ensures NodesBytes(nodes + [n]) == NodesBytes(nodes) + NodeBytes(n)
  {
    if nodes == [] {
      assert (nodes + [n])[1..] == [];
    } else {
      assert (nodes + [n])[1..] == nodes[1..] + [n];
      NodesSnoc(nodes[1..], n);
      Assoc(NodeBytes(nodes[0]), NodesBytes(nodes[1..]), NodeBytes(n));
    }
  }
}
