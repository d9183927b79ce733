/** What the NAL type tests see, in bytes: the first byte behind each four-byte start code, whatever the data. */
module NalTypes {
  import opened Bytes
  import opened H264Util
  import opened Media
  import opened HlsSession

  /** At k the bytes 00 00 00 01, and behind them one whose low five bits are t. */
  predicate TypeBehind(data: seq<byte>, k: nat, t: nat) {
    && k + 4 < |data| && data[k] == 0 && data[k + 1] == 0 && data[k + 2] == 0 && data[k + 3] == 1
    && data[k + 4] % 0x20 == t
  }

  /** The first byte, or the one behind a start code right at the front. */
  predicate LeadType(data: seq<byte>, t: nat) {
    || (|data| > 4 && data[0] == 0 && data[1] == 0 && data[2] == 0 && data[3] == 1 && data[4] % 0x20 == t)
    || (|data| > 3 && data[0] == 0 && data[1] == 0 && data[2] == 1 && data[3] % 0x20 == t)
    || (|data| > 0 && !(data[0] == 0 && |data| >= 3 && data[1] == 0
                        && (data[2] == 1 || (data[2] == 0 && |data| >= 4 && data[3] == 1)))
        && data[0] % 0x20 == t)
  }

  /** Some start code from i on, up to b, with type t behind it. */
  ghost predicate SomeBehind(data: seq<byte>, i: nat, b: nat, t: nat) {
    exists k :: i <= k < b && TypeBehind(data, k, t)
  }

  ghost predicate SomeRange(data: seq<byte>, rs: seq<(nat, nat)>, t: nat) {
    exists r <- rs :: r.0 < |data| && data[r.0] % 0x20 == t
  }

  lemma SplitBehind(data: seq<byte>, i: nat, a: nat, b: nat, t: nat)
    requires i <= a <= b
    ensures SomeBehind(data, i, b, t) <==> SomeBehind(data, i, a, t) || SomeBehind(data, a, b, t)
  {
    hide TypeBehind;
  }

  lemma SplitRange(data: seq<byte>, a: seq<(nat, nat)>, b: seq<(nat, nat)>, t: nat)
    ensures SomeRange(data, a + b, t) <==> SomeRange(data, a, t) || SomeRange(data, b, t)
  {
    assert forall r :: r in a + b <==> r in a || r in b;
  }

  /** Up to the next start code and the one after it there is one place to look. */
  lemma HeadBehind(data: seq<byte>, i: nat, t: nat)
    requires i <= |data| && 0 < t < 0x20
    ensures var at := NextCode(data, i);
      if at == |data| then !SomeBehind(data, i, |data|, t)
      else var end := NextCode(data, at + 4);
        SomeBehind(data, i, end, t) <==> at + 4 < end && data[at + 4] % 0x20 == t
  {
    var at := NextCode(data, i);
    forall k | i <= k < at ensures !TypeBehind(data, k, t) {
      assert !CodeAt(data, k);
    }
    if at < |data| {
      var end := NextCode(data, at + 4);
      forall k | at < k < end ensures !TypeBehind(data, k, t) {
        if k >= at + 4 {
          assert !CodeAt(data, k);
        }
      }
      if at + 4 == end && at + 4 < |data| {
        assert CodeAt(data, end);
      }
      assert TypeBehind(data, at, t) <==> at + 4 < end && data[at + 4] % 0x20 == t;
    }
    hide NextCode;
  }

  /** Scanned NALs, from i on: one of type t if and only if t is behind a start code there. */
  lemma {:induction false} ScanTypes(data: seq<byte>, i: nat, t: nat)
    requires i <= |data| && 0 < t < 0x20
    ensures SomeRange(data, Scan(data, i), t) <==> SomeBehind(data, i, |data|, t)
    decreases |data| - i
  {
    hide SomeBehind, SomeRange, NextCode, Scan, CodeAt, TypeBehind;
    HeadBehind(data, i, t);
    ScanCase(data, i, t);
    var at := NextCode(data, i);
    if at < |data| {
      var end := NextCode(data, at + 4);
      ScanTypes(data, end, t);
      SplitBehind(data, i, end, |data|, t);
    }
  }

  lemma ScanCase(data: seq<byte>, i: nat, t: nat)
    requires i <= |data|
    ensures var at := NextCode(data, i);
      if at == |data| then !SomeRange(data, Scan(data, i), t)
      else
        var end := NextCode(data, at + 4);
        && i < at + 4 <= end <= |data|
        && (SomeRange(data, Scan(data, i), t)
            <==> (at + 4 < end && data[at + 4] % 0x20 == t) || SomeRange(data, Scan(data, end), t))
  {
    ScanIs(data, i);
    hide Scan, NextCode, CodeAt;
    var at := NextCode(data, i);
    if at < |data| {
      var end := NextCode(data, at + 4);
      var head := if at + 4 < end then [(at + 4, end)] else [];
      SplitRange(data, head, Scan(data, end), t);
      HeadRange(data, at + 4, end, t);
    }
  }

  lemma ScanIs(data: seq<byte>, i: nat)
    requires i <= |data|
    ensures var at := NextCode(data, i);
      if at == |data| then Scan(data, i) == []
      else
        var end := NextCode(data, at + 4);
        Scan(data, i) == (if at + 4 < end then [(at + 4, end)] else []) + Scan(data, end)
  {
    hide NextCode, CodeAt;
  }

  lemma HeadRange(data: seq<byte>, start: nat, end: nat, t: nat)
    requires end <= |data|
    ensures SomeRange(data, if start < end then [(start, end)] else [], t)
       <==> start < end && data[start] % 0x20 == t
  {
    if start < end {
      assert (start, end) in [(start, end)];
    }
  }

  /** With no NAL behind a start code there is a lone one, from the first byte or behind the code in front. */
  lemma RangesTypes(data: seq<byte>, t: nat)
    requires 0 < t < 0x20
    ensures SomeRange(data, Ranges(data), t) <==>
      SomeBehind(data, 0, |data|, t) || (Scan(data, 0) == [] && LeadType(data, t))
  {
    ScanTypes(data, 0, t);
    hide Scan, SomeBehind;
    if Scan(data, 0) == [] {
      assert !SomeRange(data, [], t);
    }
  }

  lemma NalsOfTypes(data: seq<byte>, t: nat)
    ensures HasNalType(NalsOf(data), t) <==> SomeRange(data, Ranges(data), t)
  {
    var rs, nals := Ranges(data), NalsOf(data);
    hide Ranges;
    assert forall n :: 0 <= n < |rs| ==> nals[n] != [] && nals[n][0] == data[rs[n].0];
    if SomeRange(data, rs, t) {
      var r :| r in rs && r.0 < |data| && data[r.0] % 0x20 == t;
      var n :| 0 <= n < |rs| && rs[n] == r;
      assert NalType(nals[n]) == t;
    }
    if HasNalType(nals, t) {
      var n :| 0 <= n < |nals| && nals[n] != [] && NalType(nals[n]) == t;
      assert rs[n] in rs;
    }
  }

  /** Whether data has a NAL of type t. */
  lemma ContainsIff(data: seq<byte>, t: nat)
    requires 0 < t < 0x20
    ensures ContainsNaluType(data, t) <==>
      SomeBehind(data, 0, |data|, t) || (Scan(data, 0) == [] && LeadType(data, t))
  {
    RangesTypes(data, t);
    NalsOfTypes(data, t);
    hide Ranges, SomeRange, SomeBehind, Scan, LeadType, NalsOf, HasNalType;
  }

  /** Annex B data is taken for a key frame if and only if type 5 is in front or behind a four-byte start code. */
  lemma KeyframeIff(data: seq<byte>)
    ensures IsKeyframeAnnexB(data) <==> LeadType(data, 5) || SomeBehind(data, 0, |data|, 5)
  {
    ContainsIff(data, 5);
    hide SomeBehind, Scan, ContainsNaluType;
  }

  /** A key frame of a session, and an IDR that a reader may send: H.264 or H.265, flagged or such data. */
  lemma KeyFramesIff(frame: MediaFrame)
    ensures IsHlsKeyframe(frame)
       <==> frame.codec in {H264, H265}
            && (frame.isKeyframe || LeadType(frame.data, 5) || SomeBehind(frame.data, 0, |frame.data|, 5))
    ensures IsPlayableIdr(frame) <==> IsHlsKeyframe(frame) && frame.data != []
  {
    KeyframeIff(frame.data);
    hide SomeBehind, LeadType, IsKeyframeAnnexB;
  }
}
