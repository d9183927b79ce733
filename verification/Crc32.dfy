/** CRC-32 of MPEG-2 sections: the table-driven form, and the bit-serial register it must agree with. */
module Crc32 {
  const POLYNOMIAL: bv32 := 0x04C11DB7
  const CRC_START: bv32 := 0xFFFF_FFFF

  // ---------------------------------------------------------------- word operations

  function Xor(a: bv32, b: bv32): bv32 {
    a ^ b
  }

  function Xor8(a: bv8, b: bv8): bv8 {
    a ^ b
  }

  function Dbl(a: bv32): bv32 {
    a << 1
  }

  function Shl8(a: bv32): bv32 {
    a << 8
  }

  /** A byte in the top eight bits. */
  function AtTop(b: bv8): bv32 {
    (b as bv32) << 24
  }

  function TopByte(crc: bv32): bv8 {
    (crc >> 24) as bv8
  }

  function Low24(crc: bv32): bv32 {
    crc & 0x00FF_FFFF
  }

  predicate Top(x: bv32) {
    x & 0x8000_0000 != 0
  }

  // ---------------------------------------------------------------- the table

  /** The register shifted once, reduced by the polynomial. */
  function Shift(crc: bv32): bv32 {
    if Top(crc) then Xor(Dbl(crc), POLYNOMIAL) else Dbl(crc)
  }

  function ShiftBy(crc: bv32, n: nat): bv32
    decreases n
  {
    if n == 0 then crc else ShiftBy(Shift(crc), n - 1)
  }

  /** Entry i of the table: i in the top byte, shifted eight times. */
  function TableEntry(i: bv8): bv32 {
    ShiftBy(AtTop(i), 8)
  }

  ghost predicate IsTable(table: seq<bv32>) {
    |table| == 256 && forall i: bv8 :: table[i as int] == TableEntry(i)
  }

  method BuildTable() returns (table: seq<bv32>)
    ensures IsTable(table)
  {
    hide TableEntry, Xor, Dbl, Top, AtTop, Shift, ShiftBy, IsTable;
    table := [];
    for i := 0 to 256
      invariant |table| == i
      invariant forall k :: 0 <= k < i ==> table[k] == TableEntry(k as bv8)
    {
      var start := AtTop(i as bv8);
      var crc := start;
      for j := 0 to 8
        invariant ShiftBy(start, 8) == ShiftBy(crc, 8 - j)
      {
        ShiftStep(crc, 8 - j);
        crc := if Top(crc) then Xor(Dbl(crc), POLYNOMIAL) else Dbl(crc);
      }
      ShiftStep(crc, 0);
      EntryIs(i as bv8);
      table := table + [crc];
    }
    EveryEntry(table);
  }

  lemma ShiftStep(crc: bv32, n: nat)
    ensures ShiftBy(crc, 0) == crc
    ensures n > 0 ==> ShiftBy(crc, n) == ShiftBy(if Top(crc) then Xor(Dbl(crc), POLYNOMIAL) else Dbl(crc), n - 1)
  {
    hide Top, Xor, Dbl;
  }

  lemma EveryEntry(table: seq<bv32>)
    requires |table| == 256 && forall k :: 0 <= k < 256 ==> table[k] == TableEntry(k as bv8)
    ensures IsTable(table)
  {
    hide TableEntry;
    forall b: bv8 ensures table[b as int] == TableEntry(b) {
      assert (b as int) as bv8 == b;
    }
  }

  lemma EntryIs(i: bv8)
    ensures TableEntry(i) == ShiftBy(AtTop(i), 8)
  {
    hide ShiftBy, AtTop;
  }

  /** One byte through the table. */
  function TableStep(crc: bv32, b: bv8): bv32 {
    Xor(Shl8(crc), TableEntry(Xor8(TopByte(crc), b)))
  }

  /** The register after the data, from the given start. */
  function TableCrc(crc: bv32, data: seq<bv8>): bv32
    decreases |data|
  {
    if data == [] then crc else TableCrc(TableStep(crc, data[0]), data[1..])
  }

  method Crc(table: seq<bv32>, data: seq<bv8>) returns (crc: bv32)
    requires IsTable(table)
    ensures crc == TableCrc(CRC_START, data)
  {
    hide TableEntry, Xor, Xor8, Shl8, TopByte;
    crc := CRC_START;
    assert data[0..] == data;
    for i := 0 to |data|
      invariant TableCrc(CRC_START, data) == TableCrc(crc, data[i..])
    {
      var index := Xor8(TopByte(crc), data[i]);
      assert data[i..][1..] == data[i + 1..];
      crc := Xor(Shl8(crc), table[index as int]);
    }
  }

  // ---------------------------------------------------------------- the bit-serial register

  /** One message bit into the register: feedback when it differs from the bit shifted out. */
  function BitStep(reg: bv32, bit: bool): bv32 {
    if Top(reg) != bit then Xor(Dbl(reg), 0x04C11DB7) else Dbl(reg)
  }

  /** The top n bits of `bits` into the register, most significant first. */
  function BitsIn(reg: bv32, bits: bv32, n: nat): bv32
    decreases n
  {
    if n == 0 then reg else BitsIn(BitStep(reg, Top(bits)), Dbl(bits), n - 1)
  }

  function SerialCrc(reg: bv32, data: seq<bv8>): bv32
    decreases |data|
  {
    if data == [] then reg else SerialCrc(BitsIn(reg, AtTop(data[0]), 8), data[1..])
  }

  // ---------------------------------------------------------------- laws of the word operations

  lemma XorZero(x: bv32)
    ensures Xor(x, 0) == x
  {
  }

  lemma XorSelf(x: bv32)
    ensures Xor(x, x) == 0
  {
  }

  lemma XorCommutes(a: bv32, b: bv32)
    ensures Xor(a, b) == Xor(b, a)
  {
  }

  lemma XorAssoc(a: bv32, b: bv32, c: bv32)
    ensures Xor(Xor(a, b), c) == Xor(a, Xor(b, c))
  {
  }

  lemma XorShuffle(p: bv32, q: bv32, r: bv32, s: bv32)
    ensures Xor(Xor(p, q), Xor(r, s)) == Xor(Xor(p, r), Xor(q, s))
  {
    hide *;
    XorAssoc(p, q, Xor(r, s));
    XorAssoc(q, r, s);
    XorCommutes(q, r);
    XorAssoc(r, q, s);
    XorAssoc(p, r, Xor(q, s));
  }

  lemma XorRotate(p: bv32, q: bv32, r: bv32)
    ensures Xor(Xor(p, q), r) == Xor(Xor(p, r), q)
  {
    hide *;
    XorAssoc(p, q, r);
    XorCommutes(q, r);
    XorAssoc(p, r, q);
  }

  lemma DblXor(a: bv32, b: bv32)
    ensures Dbl(Xor(a, b)) == Xor(Dbl(a), Dbl(b))
  {
  }

  lemma TopXor(a: bv32, b: bv32)
    ensures Top(Xor(a, b)) <==> (Top(a) != Top(b))
  {
  }

  lemma TopByteXor(a: bv8, b: bv8)
    ensures AtTop(Xor8(a, b)) == Xor(AtTop(a), AtTop(b))
  {
  }

  lemma ByteAndRest(crc: bv32)
    ensures crc == Xor(AtTop(TopByte(crc)), Low24(crc))
  {
  }

  function Feedback(b: bool): bv32 {
    if b then POLYNOMIAL else 0
  }

  lemma FeedbackXor(a: bool, b: bool)
    ensures Feedback(a != b) == Xor(Feedback(a), Feedback(b))
  {
    hide Xor;
    XorZero(POLYNOMIAL);
    XorZero(0);
    XorSelf(POLYNOMIAL);
    XorCommutes(0, POLYNOMIAL);
  }

  lemma ShiftForm(x: bv32)
    ensures Shift(x) == Xor(Dbl(x), Feedback(Top(x)))
  {
    hide Xor, Dbl, Top;
    XorZero(Dbl(x));
  }

  lemma BitStepForm(reg: bv32, bit: bool)
    ensures BitStep(reg, bit) == Xor(Dbl(reg), Feedback(Top(reg) != bit))
  {
    hide Xor, Dbl, Top;
    XorZero(Dbl(reg));
  }

  /** x shifted left n places, one at a time. */
  function Doubled(x: bv32, n: nat): bv32
    decreases n
  {
    if n == 0 then x else Doubled(Dbl(x), n - 1)
  }

  function Dbl4(x: bv32): bv32 {
    Dbl(Dbl(Dbl(Dbl(x))))
  }

  lemma DoubledBy4(x: bv32, n: nat)
    requires n >= 4
    ensures Doubled(x, n) == Doubled(Dbl4(x), n - 4)
  {
    hide Dbl;
    assert Doubled(x, n) == Doubled(Dbl(x), n - 1);
    assert Doubled(Dbl(x), n - 1) == Doubled(Dbl(Dbl(x)), n - 2);
    assert Doubled(Dbl(Dbl(x)), n - 2) == Doubled(Dbl(Dbl(Dbl(x))), n - 3);
  }

  lemma Dbl4Twice(x: bv32)
    ensures Dbl4(Dbl4(x)) == Shl8(x)
  {
  }

  lemma Doubled8(x: bv32)
    ensures Doubled(x, 8) == Shl8(x)
  {
    hide Dbl, Dbl4, Shl8;
    DoubledBy4(x, 8);
    DoubledBy4(Dbl4(x), 4);
    Dbl4Twice(x);
  }

  /** The top n bits are clear. */
  ghost predicate TopClear(x: bv32, n: nat)
    decreases n
  {
    n == 0 || (!Top(x) && TopClear(Dbl(x), n - 1))
  }

  predicate HighClear4(x: bv32) {
    x & 0xF000_0000 == 0
  }

  lemma HighClear4Tops(x: bv32)
    requires HighClear4(x)
    ensures !Top(x) && !Top(Dbl(x)) && !Top(Dbl(Dbl(x))) && !Top(Dbl(Dbl(Dbl(x))))
  {
  }

  /** Four clear bits in front of n clear ones. */
  lemma TopClearBy4(x: bv32, n: nat)
    requires HighClear4(x) && TopClear(Dbl4(x), n)
    ensures TopClear(x, n + 4)
  {
    HighClear4Tops(x);
    hide Dbl, Top, HighClear4;
    assert TopClear(Dbl(Dbl(Dbl(x))), n + 1);
    assert TopClear(Dbl(Dbl(x)), n + 2);
    assert TopClear(Dbl(x), n + 3);
  }

  lemma LowHalves(x: bv32)
    ensures HighClear4(Low24(x)) && HighClear4(Dbl4(Low24(x)))
    ensures Shl8(Low24(x)) == Shl8(x)
  {
  }

  // ---------------------------------------------------------------- table and register agree

  lemma ShiftLinear(a: bv32, b: bv32)
    ensures Shift(Xor(a, b)) == Xor(Shift(a), Shift(b))
  {
    hide *;
    ShiftForm(a);
    ShiftForm(b);
    ShiftForm(Xor(a, b));
    DblXor(a, b);
    TopXor(a, b);
    FeedbackXor(Top(a), Top(b));
    XorShuffle(Dbl(a), Feedback(Top(a)), Dbl(b), Feedback(Top(b)));
  }

  lemma {:induction false} ShiftByLinear(a: bv32, b: bv32, n: nat)
    ensures ShiftBy(Xor(a, b), n) == Xor(ShiftBy(a, n), ShiftBy(b, n))
    decreases n
  {
    hide Shift, Xor;
    if n > 0 {
      ShiftLinear(a, b);
      ShiftByLinear(Shift(a), Shift(b), n - 1);
    }
  }

  lemma BitStepIsShift(reg: bv32, bits: bv32)
    ensures Xor(BitStep(reg, Top(bits)), Dbl(bits)) == Shift(Xor(reg, bits))
  {
    hide *;
    BitStepForm(reg, Top(bits));
    ShiftForm(Xor(reg, bits));
    TopXor(reg, bits);
    DblXor(reg, bits);
    XorRotate(Dbl(reg), Feedback(Top(reg) != Top(bits)), Dbl(bits));
  }

  lemma {:induction false} BitsInIsShiftBy(reg: bv32, bits: bv32, n: nat)
    requires Doubled(bits, n) == 0
    ensures BitsIn(reg, bits, n) == ShiftBy(Xor(reg, bits), n)
    decreases n
  {
    hide Shift, BitStep, Xor, Top, Dbl;
    if n == 0 {
      XorZero(reg);
    } else {
      BitStepIsShift(reg, bits);
      BitsInIsShiftBy(BitStep(reg, Top(bits)), Dbl(bits), n - 1);
    }
  }

  /** Shifts of a value whose top bits are clear need no reduction. */
  lemma {:induction false} ClearShifts(x: bv32, n: nat)
    requires TopClear(x, n)
    ensures ShiftBy(x, n) == Doubled(x, n)
    decreases n
  {
    hide Top, Xor, Dbl;
    if n > 0 {
      ClearShifts(Dbl(x), n - 1);
    }
  }

  lemma LowShifts(crc: bv32)
    ensures ShiftBy(Low24(crc), 8) == Shl8(crc)
  {
    hide Low24, Dbl4, HighClear4, Shl8, ShiftBy, Doubled, Top, Dbl;
    var low := Low24(crc);
    LowHalves(crc);
    assert TopClear(Dbl4(Dbl4(low)), 0);
    TopClearBy4(Dbl4(low), 0);
    TopClearBy4(low, 4);
    hide TopClear;
    ClearShifts(low, 8);
    Doubled8(low);
  }

  lemma ByteShiftedOut(b: bv8)
    ensures Shl8(AtTop(b)) == 0
  {
  }

  lemma SplitTopByte(crc: bv32, b: bv8)
    ensures Xor(crc, AtTop(b)) == Xor(AtTop(Xor8(TopByte(crc), b)), Low24(crc))
  {
    hide *;
    ByteAndRest(crc);
    TopByteXor(TopByte(crc), b);
    XorRotate(AtTop(TopByte(crc)), Low24(crc), AtTop(b));
  }

  lemma TableStepIs(crc: bv32, b: bv8, index: bv8)
    requires index == Xor8(TopByte(crc), b)
    ensures TableStep(crc, b) == Xor(Shl8(crc), ShiftBy(AtTop(index), 8))
  {
    hide ShiftBy, Xor, Shl8, AtTop, TopByte, Xor8;
  }

  /** One byte through the table is eight bits through the register. */
  lemma StepsAgree(crc: bv32, b: bv8)
    ensures TableStep(crc, b) == BitsIn(crc, AtTop(b), 8)
  {
    hide *;
    var index := Xor8(TopByte(crc), b);
    ByteShiftedOut(b);
    Doubled8(AtTop(b));
    BitsInIsShiftBy(crc, AtTop(b), 8);
    SplitTopByte(crc, b);
    ShiftByLinear(AtTop(index), Low24(crc), 8);
    LowShifts(crc);
    TableStepIs(crc, b, index);
    XorCommutes(ShiftBy(AtTop(index), 8), Shl8(crc));
  }

  /** The table-driven CRC is the bit-serial one, for every byte string and every start. */
  lemma {:induction false} TableCrcIsSerial(crc: bv32, data: seq<bv8>)
    ensures TableCrc(crc, data) == SerialCrc(crc, data)
    decreases |data|
  {
    hide TableStep, BitsIn, AtTop;
    if data != [] {
      StepsAgree(crc, data[0]);
      TableCrcIsSerial(TableStep(crc, data[0]), data[1..]);
    }
  }

  // ---------------------------------------------------------------- residue

  /** The four bytes of a CRC, most significant first. */
  function CrcBytes(crc: bv32): seq<bv8> {
    [TopByte(crc), ((crc >> 16) & 0xFF) as bv8, ((crc >> 8) & 0xFF) as bv8, (crc & 0xFF) as bv8]
  }

  lemma {:induction false} TableCrcAppend(crc: bv32, a: seq<bv8>, b: seq<bv8>)
    ensures TableCrc(crc, a + b) == TableCrc(TableCrc(crc, a), b)
    decreases |a|
  {
    hide TableStep;
    if a == [] {
      assert a + b == b;
    } else {
      assert (a + b)[1..] == a[1..] + b;
      TableCrcAppend(TableStep(crc, a[0]), a[1..], b);
    }
  }

  lemma ZeroIndex(b: bv8)
    ensures Xor8(b, b) == 0
  {
  }

  lemma Zeros()
    ensures AtTop(0) == 0 && Low24(0) == 0 && Shl8(0) == 0
  {
  }

  /** Feeding the register its own top byte just shifts it. */
  lemma OwnTopByte(crc: bv32, b: bv8)
    requires b == TopByte(crc)
    ensures TableStep(crc, b) == Shl8(crc)
  {
    hide *;
    ZeroIndex(b);
    Zeros();
    TableStepIs(crc, b, 0);
    LowShifts(0);
    XorZero(Shl8(crc));
  }

  lemma LaterBytes(crc: bv32)
    ensures var b := CrcBytes(crc);
      && |b| == 4
      && b[0] == TopByte(crc) && b[1] == TopByte(Shl8(crc)) && b[2] == TopByte(Shl8(Shl8(crc)))
      && b[3] == TopByte(Shl8(Shl8(Shl8(crc))))
    ensures Shl8(Shl8(Shl8(Shl8(crc)))) == 0
  {
  }

  lemma CrcOne(crc: bv32, data: seq<bv8>)
    requires data != [] && data[0] == TopByte(crc)
    ensures TableCrc(crc, data) == TableCrc(Shl8(crc), data[1..])
  {
    hide TableStep, TopByte, Shl8;
    OwnTopByte(crc, data[0]);
  }

  lemma CrcNothing(crc: bv32)
    ensures TableCrc(crc, []) == crc
  {
  }

  lemma OwnBytes(crc: bv32)
    ensures TableCrc(crc, CrcBytes(crc)) == 0
  {
    hide *;
    var b := CrcBytes(crc);
    LaterBytes(crc);
    assert b[1..][1..] == b[2..] && b[2..][1..] == b[3..] && b[3..][1..] == [];
    CrcOne(crc, b);
    CrcOne(Shl8(crc), b[1..]);
    CrcOne(Shl8(Shl8(crc)), b[2..]);
    CrcOne(Shl8(Shl8(Shl8(crc))), b[3..]);
    CrcNothing(0);
  }

  /** Any data followed by its CRC leaves a zero register. */
  lemma ResidueZero(data: seq<bv8>)
    ensures TableCrc(CRC_START, data + CrcBytes(TableCrc(CRC_START, data))) == 0
  {
    hide *;
    TableCrcAppend(CRC_START, data, CrcBytes(TableCrc(CRC_START, data)));
    OwnBytes(TableCrc(CRC_START, data));
  }
}
