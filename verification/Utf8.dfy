/**
  * Byte strings as text: UTF-8 (section 3 of RFC 3629), and the lossy reading that puts U+FFFD for what is not.
  */
module Utf8 {
  import opened Bytes

  /** How many bytes the character has that starts with b; 0 if none does. */
  function Width(b: byte): (n: nat)
    ensures n <= 4
  {
    if b < 0x80 then 1
    else if 0xC2 <= b < 0xE0 then 2
    else if 0xE0 <= b < 0xF0 then 3
    else if 0xF0 <= b < 0xF5 then 4
    else 0
  }

  predicate Continues(b: byte) {
    0x80 <= b < 0xC0
  }

  /** The second byte of a character: no overlong form, no surrogate, nothing past U+10FFFF. */
  predicate Second(first: byte, b: byte) {
    && Continues(b)
    && (first == 0xE0 ==> b >= 0xA0)
    && (first == 0xED ==> b < 0xA0)
    && (first == 0xF0 ==> b >= 0x90)
    && (first == 0xF4 ==> b < 0x90)
  }

  /** How far the bytes agree with one character; one byte at least. */
  function Agreeing(s: seq<byte>): (n: nat)
    requires s != []
    ensures 1 <= n <= |s| && n <= Max(1, Width(s[0]))
  {
    var w := Width(s[0]);
    if w <= 1 || |s| < 2 || !Second(s[0], s[1]) then 1
    else if w == 2 || |s| < 3 || !Continues(s[2]) then 2
    else if w == 3 || |s| < 4 || !Continues(s[3]) then 3
    else 4
  }

  /** UTF-8 text. */
  predicate IsText(s: seq<byte>)
    decreases |s|
  {
    s == [] || (Agreeing(s) == Width(s[0]) && IsText(s[Width(s[0])..]))
  }

  const Replacement: seq<byte> := [0xEF, 0xBF, 0xBD]

  /** Every longest start of a character that does not become one is replaced. */
  function Lossy(s: seq<byte>): (r: seq<byte>)
    decreases |s|
  {
    if s == [] then []
    else
      var n := Agreeing(s);
      (if n == Width(s[0]) then s[..n] else Replacement) + Lossy(s[n..])
  }

  /** Whole characters in front of text are text. */
  lemma CharacterText(c: seq<byte>, rest: seq<byte>)
    requires c != [] && Agreeing(c) == Width(c[0]) == |c| && IsText(rest)
    ensures IsText(c + rest)
  {
    assert (c + rest)[|c|..] == rest;
  }

  lemma {:induction false} LossyIsText(s: seq<byte>)
    ensures IsText(Lossy(s))
    decreases |s|
  {
    if s != [] {
      var n := Agreeing(s);
      LossyIsText(s[n..]);
      var c := if n == Width(s[0]) then s[..n] else Replacement;
      assert Agreeing(Replacement) == Width(Replacement[0]) == |Replacement|;
      CharacterText(c, Lossy(s[n..]));
    }
  }

  lemma {:induction false} TextKept(s: seq<byte>)
    requires IsText(s)
    ensures Lossy(s) == s
    decreases |s|
  {
    if s != [] {
      TextKept(s[Width(s[0])..]);
      assert s[..Width(s[0])] + s[Width(s[0])..] == s;
    }
  }

  /** The lossy reading always gives text, and changes exactly what was not text. */
  lemma {:induction false} LossyKeepsIff(s: seq<byte>)
    ensures IsText(Lossy(s))
    ensures Lossy(s) == s <==> IsText(s)
  {
    LossyIsText(s);
    if IsText(s) {
      TextKept(s);
    }
  }

  // ---------------------------------------------------------------- characters

  /** Unicode scalar values. */
  type Scalar = c: int | 0 <= c < 0xD800 || 0xE000 <= c < 0x11_0000

  function CharBytes(c: Scalar): (r: seq<byte>)
    ensures 1 <= |r| <= 4
  {
    if c < 0x80 then [c]
    else if c < 0x800 then [0xC0 + c / 0x40, 0x80 + c % 0x40]
    else if c < 0x1_0000 then [0xE0 + c / 0x1000, 0x80 + c / 0x40 % 0x40, 0x80 + c % 0x40]
    else [0xF0 + c / 0x4_0000, 0x80 + c / 0x1000 % 0x40, 0x80 + c / 0x40 % 0x40, 0x80 + c % 0x40]
  }

  function CharsBytes(chars: seq<Scalar>): seq<byte> {
    if chars == [] then [] else CharBytes(chars[0]) + CharsBytes(chars[1..])
  }

  lemma CharIsWhole(c: Scalar)
    ensures Agreeing(CharBytes(c)) == Width(CharBytes(c)[0]) == |CharBytes(c)|
  {
  }

  lemma WholeChar(s: seq<byte>) returns (c: Scalar)
    requires s != [] && Agreeing(s) == Width(s[0]) == |s|
    ensures CharBytes(c) == s
  {
    var a: int := s[0];
    if |s| == 1 {
      c := a;
    } else {
      var b: int := s[1] - 0x80;
      if |s| == 2 {
        c := (a - 0xC0) * 0x40 + b;
        Split(a - 0xC0, b);
      } else {
        var d: int := s[2] - 0x80;
        if |s| == 3 {
          c := ((a - 0xE0) * 0x40 + b) * 0x40 + d;
          Split((a - 0xE0) * 0x40 + b, d);
          Split(a - 0xE0, b);
          assert c / 0x1000 == a - 0xE0;
        } else {
          var e: int := s[3] - 0x80;
          c := (((a - 0xF0) * 0x40 + b) * 0x40 + d) * 0x40 + e;
          Split(((a - 0xF0) * 0x40 + b) * 0x40 + d, e);
          Split((a - 0xF0) * 0x40 + b, d);
          Split(a - 0xF0, b);
          assert c / 0x1000 == (a - 0xF0) * 0x40 + b;
          assert c / 0x4_0000 == a - 0xF0;
        }
      }
    }
  }

  lemma Split(high: int, low: int)
    requires 0 <= low < 0x40
    ensures (high * 0x40 + low) / 0x40 == high && (high * 0x40 + low) % 0x40 == low
  {
  }

  lemma {:induction false} CharsAreText(chars: seq<Scalar>)
    ensures IsText(CharsBytes(chars))
  {
    if chars != [] {
      CharsAreText(chars[1..]);
      CharIsWhole(chars[0]);
      hide CharBytes, Agreeing, Width;
      CharacterText(CharBytes(chars[0]), CharsBytes(chars[1..]));
    }
  }

  lemma {:induction false} CharsOf(s: seq<byte>) returns (chars: seq<Scalar>)
    requires IsText(s)
    ensures CharsBytes(chars) == s
    decreases |s|
  {
    if s == [] {
      chars := [];
    } else {
      var w := Width(s[0]);
      var more := CharsOf(s[w..]);
      var first := WholeChar(s[..w]);
      chars := [first] + more;
      assert chars[1..] == more && s[..w] + s[w..] == s;
    }
  }

  /** Text is exactly what lists of scalar values are written as. */
  lemma TextIffChars(s: seq<byte>)
    ensures IsText(s) <==> exists chars :: s == CharsBytes(chars)
  {
    if IsText(s) {
      var chars := CharsOf(s);
    }
    forall chars | s == CharsBytes(chars) ensures IsText(s) {
      CharsAreText(chars);
    }
  }
}
