/** What starts a GOP: access units whose NALs stand behind four-byte or three-byte start codes. */
module Gops {
  import opened Bytes
  import opened Media

  /** No 00 00 01 inside, and at least one byte. */
  ghost predicate Clean(nal: seq<byte>) {
    nal != [] && forall j :: 0 <= j && j + 2 < |nal| ==> !(nal[j] == 0 && nal[j + 1] == 0 && nal[j + 2] == 1)
  }

  ghost predicate AllClean(nals: seq<seq<byte>>) {
    forall n :: 0 <= n < |nals| ==> Clean(nals[n])
  }

  /** Each NAL behind this start code. */
  function Coded(code: seq<byte>, nals: seq<seq<byte>>): seq<byte> {
    if nals == [] then [] else code + nals[0] + Coded(code, nals[1..])
  }

  const LongCode: seq<byte> := [0, 0, 0, 1]
  const ThreeByteCode: seq<byte> := [0, 0, 1]

  predicate EndsInZero(nal: seq<byte>) {
    nal != [] && nal[|nal| - 1] == 0
  }

  /** The first NAL and what is behind it. */
  lemma HeadParts(data: seq<byte>, i: nat, code: seq<byte>, nals: seq<seq<byte>>)
    requires i <= |data| && data[i..] == Coded(code, nals) && nals != []
    ensures var (a, b) := (i + |code|, i + |code| + |nals[0]|);
      && b <= |data| && data[i..a] == code && data[a..b] == nals[0] && data[b..] == Coded(code, nals[1..])
  {
    var rest := Coded(code, nals[1..]);
    var tail := data[i..];
    assert tail == code + nals[0] + rest;
    var (a, b) := (i + |code|, i + |code| + |nals[0]|);
    assert data[i..a] == tail[..|code|] && data[a..b] == tail[|code|..|code| + |nals[0]|];
    assert data[b..] == tail[|code| + |nals[0]|..];
  }

  /** Between the first byte of a NAL and the code of the next there is no other code. */
  lemma NoneInside(data: seq<byte>, a: nat, nal: seq<byte>, rest: seq<byte>, k: nat)
    requires a + |nal| <= |data| && data[a..a + |nal|] == nal && data[a + |nal|..] == rest && Clean(nal)
    requires rest == [] || (|rest| >= 3 && rest[0] == 0 && rest[1] == 0)
    requires a <= k < a + |nal|
    ensures !IdrBehind(data, k)
  {
  }

  lemma CodedStarts(code: seq<byte>, nals: seq<seq<byte>>)
    requires code == LongCode || code == ThreeByteCode
    ensures var rest := Coded(code, nals); rest == [] || (|rest| >= 3 && rest[0] == 0 && rest[1] == 0)
    ensures nals == [] <==> Coded(code, nals) == []
  {
  }

  predicate IsIdr(nal: seq<byte>) {
    nal != [] && nal[0] % 0x20 == 5
  }

  /** An IDR among NALs behind such codes: as the very last byte of the data it counts only with a zero in front of its
      00 00 01, which is in the code or ends the NAL before. */
  predicate HasIdr(nals: seq<seq<byte>>, long: bool, zero: bool) {
    nals != []
    && ((IsIdr(nals[0]) && (|nals| > 1 || |nals[0]| > 1 || long || zero))
        || HasIdr(nals[1..], long, EndsInZero(nals[0])))
  }

  /** Somewhere from i on, up to b. */
  ghost predicate IdrWithin(data: seq<byte>, i: nat, b: nat) {
    exists k :: i <= k < b && IdrBehind(data, k)
  }

  lemma WithinJoin(data: seq<byte>, i: nat, a: nat, b: nat)
    requires i <= a <= b
    ensures IdrWithin(data, i, b) <==> IdrWithin(data, i, a) || IdrWithin(data, a, b)
  {
    hide IdrBehind;
  }

  lemma CodeBytes(data: seq<byte>, i: nat, code: seq<byte>)
    requires code == LongCode || code == ThreeByteCode
    requires i + |code| <= |data| && data[i..i + |code|] == code
    ensures data[i] == 0 && data[i + 1] == 0 && data[i + |code| - 1] == 1 && data[i + |code| - 2] == 0
  {
    var c := data[i..i + |code|];
    assert c[0] == data[i] && c[1] == data[i + 1];
    assert c[|code| - 1] == data[i + |code| - 1] && c[|code| - 2] == data[i + |code| - 2];
  }

  /** The code in front: one place in it where an IDR can be behind. */
  lemma HeadCode(data: seq<byte>, i: nat, code: seq<byte>, nal: seq<byte>, rest: seq<byte>)
    requires code == LongCode || code == ThreeByteCode
    requires nal != []
    requires var (a, b) := (i + |code|, i + |code| + |nal|);
      b <= |data| && data[i..a] == code && data[a..b] == nal && data[b..] == rest
    ensures IdrWithin(data, i, i + |code|)
       <==> IsIdr(nal) && (rest != [] || |nal| > 1 || code == LongCode || (i > 0 && data[i - 1] == 0))
  {
    var a := i + |code|;
    var at := a - 3;
    assert data[a] == data[a..a + |nal|][0] == nal[0];
    assert |data| == a + |nal| + |rest|;
    CodeBytes(data, i, code);
    forall k | i <= k < a && k != at ensures !IdrBehind(data, k) {
    }
    assert IdrBehind(data, at) ==> IdrWithin(data, i, a);
  }

  /** Of NALs that stand from i on, each behind the same code, an IDR is found if and only if one is there. */
  lemma {:induction false} CodedIdr(data: seq<byte>, i: nat, code: seq<byte>, nals: seq<seq<byte>>)
    requires code == LongCode || code == ThreeByteCode
    requires i <= |data| && data[i..] == Coded(code, nals) && AllClean(nals)
    ensures IdrWithin(data, i, |data|) <==> HasIdr(nals, code == LongCode, i > 0 && data[i - 1] == 0)
    decreases |nals|
  {
    if nals != [] {
      HeadParts(data, i, code, nals);
      CodedStarts(code, nals[1..]);
      var nal, rest := nals[0], Coded(code, nals[1..]);
      var (a, b) := (i + |code|, i + |code| + |nal|);
      assert Clean(nal) && AllClean(nals[1..]);
      CodedIdr(data, b, code, nals[1..]);
      HeadCode(data, i, code, nal, rest);
      forall k | a <= k < b ensures !IdrBehind(data, k) {
        NoneInside(data, a, nal, rest, k);
      }
      assert data[b - 1] == data[a..b][|nal| - 1];
      WithinJoin(data, i, a, |data|);
      WithinJoin(data, a, b, |data|);
      assert !IdrWithin(data, a, b);
      hide IdrBehind, Clean, AllClean, Coded, IdrWithin, IsIdr;
      assert rest != [] <==> |nals| > 1;
    }
  }

  /** Behind four-byte codes every IDR counts. */
  lemma {:induction false} LongHasIdr(nals: seq<seq<byte>>, zero: bool)
    ensures HasIdr(nals, true, zero) <==> exists n :: 0 <= n < |nals| && IsIdr(nals[n])
  {
    hide IsIdr;
    if nals != [] {
      LongHasIdr(nals[1..], EndsInZero(nals[0]));
      assert forall n :: 0 < n < |nals| ==> nals[n] == nals[1..][n - 1];
      if n :| 0 <= n < |nals| && IsIdr(nals[n]) {
        assert n > 0 ==> IsIdr(nals[1..][n - 1]);
      }
    }
  }

  /** Behind three-byte codes too, unless it is a last NAL of one byte. */
  lemma {:induction false} ShortHasIdr(nals: seq<seq<byte>>, zero: bool)
    requires nals != [] ==> |nals[|nals| - 1]| > 1
    ensures HasIdr(nals, false, zero) <==> exists n :: 0 <= n < |nals| && IsIdr(nals[n])
  {
    hide IsIdr;
    if nals != [] {
      ShortHasIdr(nals[1..], EndsInZero(nals[0]));
      assert forall n :: 0 < n < |nals| ==> nals[n] == nals[1..][n - 1];
      if n :| 0 <= n < |nals| && IsIdr(nals[n]) {
        assert n > 0 ==> IsIdr(nals[1..][n - 1]);
      }
    }
  }

  /** A frame of H.264 or H.265, its NALs behind four-byte codes, starts a GOP if and only if it is flagged or one of
      them has type 5. */
  lemma StartsGopIff(frame: MediaFrame, nals: seq<seq<byte>>)
    requires frame.codec in {H264, H265} && AllClean(nals) && frame.data == Coded(LongCode, nals)
    ensures StartsGop(frame) <==> frame.isKeyframe || exists n :: 0 <= n < |nals| && nals[n][0] % 0x20 == 5
  {
    assert frame.data[0..] == frame.data;
    CodedIdr(frame.data, 0, LongCode, nals);
    LongHasIdr(nals, false);
    WithinAll(frame.data);
    hide IdrBehind, HasIdr, Coded, IdrWithin;
  }

  /** Behind three-byte codes as well, if the last NAL has more than one byte. */
  lemma StartsGopShortIff(frame: MediaFrame, nals: seq<seq<byte>>)
    requires frame.codec in {H264, H265} && AllClean(nals) && frame.data == Coded(ThreeByteCode, nals)
    requires nals != [] ==> |nals[|nals| - 1]| > 1
    ensures StartsGop(frame) <==> frame.isKeyframe || exists n :: 0 <= n < |nals| && nals[n][0] % 0x20 == 5
  {
    assert frame.data[0..] == frame.data;
    CodedIdr(frame.data, 0, ThreeByteCode, nals);
    ShortHasIdr(nals, false);
    WithinAll(frame.data);
    hide IdrBehind, HasIdr, Coded, IdrWithin;
  }

  lemma WithinAll(data: seq<byte>)
    ensures (exists k :: IdrBehind(data, k)) <==> IdrWithin(data, 0, |data|)
  {
  }
}
