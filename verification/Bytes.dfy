/** Bytes, fixed-width words and the byte-order helpers shared by every codec. */
module Bytes {
  type byte = x: int | 0 <= x < 0x100
  type u16 = x: int | 0 <= x < 0x1_0000
  type u24 = x: int | 0 <= x < 0x100_0000
  type u32 = x: int | 0 <= x < 0x1_0000_0000

  datatype Option<+T> = None | Some(value: T)

  function Min(a: int, b: int): int {
    if a <= b then a else b
  }

  function Max(a: int, b: int): int {
    if a >= b then a else b
  }

  /** Concatenation of a list of byte strings, in order. */
  function Concat(parts: seq<seq<byte>>): seq<byte> {
    if parts == [] then [] else parts[0] + Concat(parts[1..])
  }

  lemma Assoc<T>(a: seq<T>, b: seq<T>, c: seq<T>)
    ensures (a + b) + c == a + (b + c)
  {
  }

  lemma {:induction false} ConcatAppend(a: seq<seq<byte>>, b: seq<seq<byte>>)
    ensures Concat(a + b) == Concat(a) + Concat(b)
  {
    if a == [] {
      assert a + b == b;
    } else {
      ConcatAppend(a[1..], b);
      assert (a + b)[1..] == a[1..] + b;
      Assoc(a[0], Concat(a[1..]), Concat(b));
    }
  }

  /** The same byte repeated n times. */
  function Fill(n: nat, b: byte): seq<byte> {
    seq(n, _ => b)
  }

  // Big-endian fields of two, three and four bytes, as `to_be_bytes` and shifts write them.

  function Be16(x: u16): seq<byte> {
    [x / 0x100, x % 0x100]
  }

  function FromBe16(b0: byte, b1: byte): u16 {
    b0 * 0x100 + b1
  }

  function Be24(x: u24): seq<byte> {
    [x / 0x1_0000] + Be16(x % 0x1_0000)
  }

  function FromBe24(b0: byte, b1: byte, b2: byte): u24 {
    b0 * 0x1_0000 + FromBe16(b1, b2)
  }

  function Be32(x: u32): seq<byte> {
    Be16(x / 0x1_0000) + Be16(x % 0x1_0000)
  }

  function FromBe32(b0: byte, b1: byte, b2: byte, b3: byte): u32 {
    FromBe16(b0, b1) * 0x1_0000 + FromBe16(b2, b3)
  }

  function Le32(x: u32): seq<byte> {
    [x % 0x1_0000 % 0x100, x % 0x1_0000 / 0x100, x / 0x1_0000 % 0x100, x / 0x1_0000 / 0x100]
  }

  function FromLe32(b0: byte, b1: byte, b2: byte, b3: byte): u32 {
    FromBe16(b1, b0) + FromBe16(b3, b2) * 0x1_0000
  }

  lemma Be16RoundTrip(x: u16)
    ensures |Be16(x)| == 2 && FromBe16(Be16(x)[0], Be16(x)[1]) == x
  {
  }

  lemma Be24RoundTrip(x: u24)
    ensures |Be24(x)| == 3 && FromBe24(Be24(x)[0], Be24(x)[1], Be24(x)[2]) == x
  {
  }

  lemma Be32RoundTrip(x: u32)
    ensures |Be32(x)| == 4 && FromBe32(Be32(x)[0], Be32(x)[1], Be32(x)[2], Be32(x)[3]) == x
  {
  }

  lemma Le32RoundTrip(x: u32)
    ensures |Le32(x)| == 4 && FromLe32(Le32(x)[0], Le32(x)[1], Le32(x)[2], Le32(x)[3]) == x
  {
  }
}
