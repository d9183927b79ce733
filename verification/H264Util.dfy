/** Annex B helpers: splitting an access unit on four-byte start codes, and NAL type tests. */
module H264Util {
  import opened Bytes

  const StartCode: seq<byte> := [0, 0, 0, 1]

  /** Annex B access unit with a four-byte start code before every NAL. */
  function Join(nals: seq<seq<byte>>): seq<byte> {
    if nals == [] then [] else StartCode + nals[0] + Join(nals[1..])
  }

  predicate CodeAt(data: seq<byte>, i: nat) {
    i + 4 <= |data| && data[i] == 0 && data[i + 1] == 0 && data[i + 2] == 0 && data[i + 3] == 1
  }

  predicate ShortCodeAt(data: seq<byte>, i: nat) {
    i + 3 <= |data| && data[i] == 0 && data[i + 1] == 0 && data[i + 2] == 1
  }

  /** No four-byte start code inside. */
  ghost predicate CodeFree(nal: seq<byte>) {
    forall j :: 0 <= j < |nal| ==> !CodeAt(nal, j)
  }

  /** Every NAL is there and free of start codes. */
  ghost predicate CodeFreeNals(nals: seq<seq<byte>>) {
    forall k :: 0 <= k < |nals| ==> nals[k] != [] && CodeFree(nals[k])
  }

  function NalType(nal: seq<byte>): nat
    requires nal != []
  {
    nal[0] % 0x20
  }

  /** Position of the first start code at or after i, or the end of the data. */
  function NextCode(data: seq<byte>, i: nat): (e: nat)
    requires i <= |data|
    ensures i <= e <= |data|
    ensures forall j :: i <= j < e ==> !CodeAt(data, j)
    ensures e < |data| ==> CodeAt(data, e)
    decreases |data| - i
  {
    if i == |data| || CodeAt(data, i) then i else NextCode(data, i + 1)
  }

  /** NAL ranges found by scanning for start codes from i on; empty NALs are left out. */
  function Scan(data: seq<byte>, i: nat): (r: seq<(nat, nat)>)
    requires i <= |data|
    ensures forall k :: 0 <= k < |r| ==> i <= r[k].0 < r[k].1 <= |data|
    decreases |data| - i
  {
    var at := NextCode(data, i);
    if at == |data| then []
    else
      var end := NextCode(data, at + 4);
      (if at + 4 < end then [(at + 4, end)] else []) + Scan(data, end)
  }

  /** With no NAL found, all data after a leading start code counts as one NAL. */
  function Ranges(data: seq<byte>): (r: seq<(nat, nat)>)
    ensures forall k :: 0 <= k < |r| ==> r[k].0 < r[k].1 <= |data|
  {
    var r := Scan(data, 0);
    if r != [] || data == [] then r
    else
      var start := if CodeAt(data, 0) then 4 else if ShortCodeAt(data, 0) then 3 else 0;
      if start < |data| then [(start, |data|)] else []
  }

  function Slices(data: seq<byte>, r: seq<(nat, nat)>): (s: seq<seq<byte>>)
    requires forall k :: 0 <= k < |r| ==> r[k].0 <= r[k].1 <= |data|
    ensures |s| == |r| && forall k :: 0 <= k < |r| ==> s[k] == data[r[k].0..r[k].1]
  {
    if r == [] then [] else [data[r[0].0..r[0].1]] + Slices(data, r[1..])
  }

  /** The NALs of an Annex B buffer. */
  function NalsOf(data: seq<byte>): (s: seq<seq<byte>>)
    ensures forall k :: 0 <= k < |s| ==> s[k] != []
  {
    Slices(data, Ranges(data))
  }

  predicate HasNalType(nals: seq<seq<byte>>, t: nat) {
    exists k :: 0 <= k < |nals| && nals[k] != [] && NalType(nals[k]) == t
  }

  predicate ContainsNaluType(data: seq<byte>, target: nat) {
    HasNalType(NalsOf(data), target)
  }

  /** A coded slice, IDR or not. */
  predicate ContainsVcl(data: seq<byte>) {
    HasNalType(NalsOf(data), 1) || HasNalType(NalsOf(data), 5)
  }

  /** SPS, PPS or access unit delimiter. */
  predicate IsParameterSet(nal: seq<byte>) {
    nal != [] && NalType(nal) in {7, 8, 9}
  }

  predicate AllParameterSets(nals: seq<seq<byte>>) {
    forall k :: 0 <= k < |nals| ==> IsParameterSet(nals[k])
  }

  predicate IsParameterSetOnly(data: seq<byte>) {
    NalsOf(data) != [] && AllParameterSets(NalsOf(data))
  }

  predicate IsKeyframeAnnexB(data: seq<byte>) {
    || (var at := if CodeAt(data, 0) then 4 else if ShortCodeAt(data, 0) then 3 else 0;
        at < |data| && data[at] % 0x20 == 5)
    || ContainsNaluType(data, 5)
  }

  /** Every NAL has one of the types 1 to 23 of section 5.2 of RFC 6184, so its first byte is not 0. */
  ghost predicate SingleNalTypes(nals: seq<seq<byte>>) {
    forall k :: 0 <= k < |nals| ==> nals[k] != [] && 1 <= NalType(nals[k]) <= 23
  }

  // ---------------------------------------------------------------- the scanning loop

  lemma ScanSkips(data: seq<byte>, i: nat)
    requires i < |data| && !CodeAt(data, i)
    ensures Scan(data, i) == Scan(data, i + 1)
  {
  }

  lemma ScanFinds(data: seq<byte>, i: nat)
    requires CodeAt(data, i)
    ensures var end := NextCode(data, i + 4);
      Scan(data, i) == (if i + 4 < end then [(i + 4, end)] else []) + Scan(data, end)
  {
  }

  lemma ScanEnds(data: seq<byte>, i: nat)
    requires i <= |data| < i + 4
    ensures Scan(data, i) == []
  {
    assert forall k :: i <= k < |data| ==> !CodeAt(data, k);
  }

  method FindNextCode(data: seq<byte>, start: nat) returns (end: nat)
    requires start <= |data|
    ensures end == NextCode(data, start)
  {
    end := |data|;
    var j := start;
    while j + 4 <= |data|
      invariant start <= j <= |data|
      invariant NextCode(data, start) == NextCode(data, j)
    {
      if data[j..j + 4] == [0, 0, 0, 1] {
        return j;
      }
      j := j + 1;
    }
    assert forall k :: j <= k < |data| ==> !CodeAt(data, k);
  }

  method IterAnnexBNalRanges(data: seq<byte>) returns (ranges: seq<(nat, nat)>)
    ensures ranges == Ranges(data)
  {
    hide Scan, NextCode;
    ranges := [];
    var i := 0;
    while i + 4 <= |data|
      invariant i <= |data|
      invariant ranges + Scan(data, i) == Scan(data, 0)
      decreases |data| - i
    {
      if data[i..i + 4] != [0, 0, 0, 1] {
        ScanSkips(data, i);
        i := i + 1;
        continue;
      }
      var start := i + 4;
      var end := FindNextCode(data, start);
      ScanFinds(data, i);
      var found: seq<(nat, nat)> := if start < end then [(start, end)] else [];
      Assoc(ranges, found, Scan(data, end));
      ranges := ranges + found;
      i := end;
    }
    ScanEnds(data, i);
    if ranges == [] && data != [] {
      var start := if CodeAt(data, 0) then 4 else if ShortCodeAt(data, 0) then 3 else 0;
      if start < |data| {
        ranges := ranges + [(start, |data|)];
      }
    }
  }

  // ---------------------------------------------------------------- splitting a joined access unit

  lemma {:induction false} NextCodeIs(data: seq<byte>, i: nat, e: nat)
    requires i <= e <= |data|
    requires forall j :: i <= j < e ==> !CodeAt(data, j)
    requires e < |data| ==> CodeAt(data, e)
    ensures NextCode(data, i) == e
    decreases e - i
  {
    if i < e {
      NextCodeIs(data, i + 1, e);
    }
  }

  /** A code-free NAL followed by a start code or nothing has no start code at any of its bytes. */
  lemma NoCodeAcross(data: seq<byte>, start: nat, nal: seq<byte>, rest: seq<byte>, j: nat)
    requires start <= |data| && data[start..] == nal + rest
    requires CodeFree(nal)
    requires rest == [] || CodeAt(rest, 0)
    requires start <= j < start + |nal|
    ensures !CodeAt(data, j)
  {
    var k := j - start;
    forall p | j <= p < |data| ensures data[p] == (nal + rest)[p - start] {
      assert data[start..][p - start] == data[p];
    }
    if k + 4 <= |nal| {
      assert !CodeAt(nal, k);
    } else if rest != [] {
      assert (nal + rest)[k + 3] == rest[k + 3 - |nal|] == 0;
    }
  }

  lemma JoinStartsWithCode(nals: seq<seq<byte>>)
    ensures Join(nals) == [] || CodeAt(Join(nals), 0)
    ensures nals != [] ==> Join(nals) != []
  {
  }

  /** The first NAL of a joined tail is found whole. */
  lemma HeadFound(data: seq<byte>, i: nat, nal: seq<byte>, rest: seq<byte>)
    requires i <= |data| && data[i..] == StartCode + nal + rest
    requires CodeFree(nal)
    requires rest == [] || CodeAt(rest, 0)
    ensures CodeAt(data, i)
    ensures NextCode(data, i + 4) == i + 4 + |nal|
    ensures data[i + 4..i + 4 + |nal|] == nal
    ensures data[i + 4 + |nal|..] == rest
  {
    var start, end := i + 4, i + 4 + |nal|;
    assert data[i..][0..4] == StartCode;
    assert data[i] == data[i..][0] && data[i + 1] == data[i..][1] && data[i + 2] == data[i..][2]
        && data[i + 3] == data[i..][3];
    assert data[start..] == data[i..][4..] == nal + rest;
    assert data[end..] == data[start..][|nal|..] == rest;
    assert data[start..end] == data[start..][..|nal|] == nal;
    forall j | start <= j < end ensures !CodeAt(data, j) {
      NoCodeAcross(data, start, nal, rest, j);
    }
    if end < |data| {
      assert forall d :: 0 <= d < 4 ==> data[end + d] == data[end..][d];
    }
    NextCodeIs(data, start, end);
  }

  /** Where joined NALs lie when the first start code is at i. */
  function Offsets(nals: seq<seq<byte>>, i: nat): (r: seq<(nat, nat)>)
    ensures |r| == |nals|
  {
    if nals == [] then [] else [(i + 4, i + 4 + |nals[0]|)] + Offsets(nals[1..], i + 4 + |nals[0]|)
  }

  lemma OffsetsCons(nals: seq<seq<byte>>, i: nat)
    ensures Offsets(nals, i) ==
      if nals == [] then [] else [(i + 4, i + 4 + |nals[0]|)] + Offsets(nals[1..], i + 4 + |nals[0]|)
  {
  }

  lemma {:induction false} ScanJoined(data: seq<byte>, i: nat, nals: seq<seq<byte>>)
    requires i <= |data| && data[i..] == Join(nals)
    requires CodeFreeNals(nals)
    ensures Scan(data, i) == Offsets(nals, i)
    decreases |nals|
  {
    hide Scan, NextCode, CodeAt, CodeFree, Offsets;
    OffsetsCons(nals, i);
    if nals == [] {
      ScanEnds(data, i);
    } else {
      assert data[i..] == StartCode + nals[0] + Join(nals[1..]);
      assert CodeFreeNals(nals[1..]);
      JoinStartsWithCode(nals[1..]);
      hide Join;
      HeadFound(data, i, nals[0], Join(nals[1..]));
      hide CodeFreeNals;
      ScanFinds(data, i);
      ScanJoined(data, i + 4 + |nals[0]|, nals[1..]);
    }
  }

  /** The slices at the offsets of joined NALs are those NALs. */
  lemma {:induction false} OffsetsCut(data: seq<byte>, i: nat, nals: seq<seq<byte>>)
    requires i <= |data| && data[i..] == Join(nals)
    ensures forall k :: 0 <= k < |nals| ==> Offsets(nals, i)[k].0 <= Offsets(nals, i)[k].1 <= |data|
    ensures Slices(data, Offsets(nals, i)) == nals
    decreases |nals|
  {
    hide Slices, Offsets;
    OffsetsCons(nals, i);
    if nals != [] {
      var nal, rest := nals[0], Join(nals[1..]);
      var end := i + 4 + |nal|;
      assert data[i..] == StartCode + nal + rest;
      assert data[end..] == data[i..][4 + |nal|..] == rest;
      assert data[i + 4..end] == data[i..][4..4 + |nal|] == nal;
      hide Join;
      OffsetsCut(data, end, nals[1..]);
      var tail := Offsets(nals[1..], end);
      forall k | 0 <= k < |nals| ensures Offsets(nals, i)[k].0 <= Offsets(nals, i)[k].1 <= |data| {
        assert Offsets(nals, i)[k] == if k == 0 then (i + 4, end) else tail[k - 1];
      }
      SlicesCons(data, (i + 4, end), tail);
    }
  }

  lemma SlicesCons(data: seq<byte>, r: (nat, nat), tail: seq<(nat, nat)>)
    requires r.0 <= r.1 <= |data|
    requires forall k :: 0 <= k < |tail| ==> tail[k].0 <= tail[k].1 <= |data|
    ensures forall k :: 0 <= k < |[r] + tail| ==> ([r] + tail)[k].0 <= ([r] + tail)[k].1 <= |data|
    ensures Slices(data, [r] + tail) == [data[r.0..r.1]] + Slices(data, tail)
  {
    assert ([r] + tail)[1..] == tail;
  }

  /** Every scanned NAL is free of start codes. */
  lemma {:induction false} ScannedCodeFree(data: seq<byte>, i: nat)
    requires i <= |data|
    ensures forall k :: 0 <= k < |Scan(data, i)| ==> CodeFree(data[Scan(data, i)[k].0..Scan(data, i)[k].1])
    decreases |data| - i
  {
    var at := NextCode(data, i);
    if at < |data| {
      var end := NextCode(data, at + 4);
      ScannedCodeFree(data, end);
      var nal := data[at + 4..end];
      forall j | 0 <= j < |nal| ensures !CodeAt(nal, j) {
        assert !CodeAt(data, at + 4 + j);
      }
    }
  }

  lemma SplitJoined(nals: seq<seq<byte>>)
    requires CodeFreeNals(nals)
    ensures NalsOf(Join(nals)) == nals
  {
    hide Scan, CodeFree;
    var data := Join(nals);
    assert data[0..] == data;
    JoinStartsWithCode(nals);
    ScanJoined(data, 0, nals);
    OffsetsCut(data, 0, nals);
    assert Ranges(data) == Offsets(nals, 0);
    hide Ranges, Join, Offsets, Slices;
  }

  lemma ScannedNals(data: seq<byte>)
    requires Scan(data, 0) != []
    ensures CodeFreeNals(NalsOf(data))
  {
    hide Scan, CodeFree, Slices;
    ScannedCodeFree(data, 0);
    forall k | 0 <= k < |NalsOf(data)| ensures CodeFree(NalsOf(data)[k]) {
      assert NalsOf(data)[k] == data[Scan(data, 0)[k].0..Scan(data, 0)[k].1];
    }
  }

  /** An access unit splits back into the NALs it was joined from iff none has a start code inside. */
  lemma SplitJoinIff(nals: seq<seq<byte>>)
    requires SingleNalTypes(nals)
    ensures NalsOf(Join(nals)) == nals <==> CodeFreeNals(nals)
  {
    hide *;
    if nals == [] {
      EmptyIsCodeFree();
    }
    if CodeFreeNals(nals) {
      SplitJoined(nals);
    } else {
      ScanStartsAtOnce(nals);
      ScannedNals(Join(nals));
    }
  }

  lemma EmptyIsCodeFree()
    ensures CodeFreeNals([])
  {
  }

  lemma ScanStartsAtOnce(nals: seq<seq<byte>>)
    requires nals != [] && SingleNalTypes(nals)
    ensures Scan(Join(nals), 0) != []
  {
    var data := Join(nals);
    assert data == StartCode + nals[0] + Join(nals[1..]);
    assert data[4] == nals[0][0] != 0;
    hide Join, SingleNalTypes, Scan;
    assert !CodeAt(data, 4);
    ScanFinds(data, 0);
  }
}
