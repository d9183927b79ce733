/** Aggregation packets of H.264 over RTP (STAP-A, section 5.7.1 of RFC 6184), and which payloads show an IDR. */
module Aggregates {
  import opened Bytes
  import opened H264Util
  import opened RtpH264
  import opened NalTypes
  import H264RtpIngest

  /** NALs of 1 to 65535 bytes. */
  ghost predicate Sized(nals: seq<seq<byte>>) {
    forall n :: 0 <= n < |nals| ==> 0 < |nals[n]| < 65536
  }

  /** Each NAL behind its length in two bytes, most significant first. */
  function Aggregate(nals: seq<seq<byte>>): seq<byte>
    requires Sized(nals)
  {
    if nals == [] then [] else [|nals[0]| / 256, |nals[0]| % 256] + nals[0] + Aggregate(nals[1..])
  }

  /** What is aggregated from byte i on, with at most one byte behind it, is read. */
  lemma {:induction false} AggregateRead(p: seq<byte>, i: nat, nals: seq<seq<byte>>, tail: seq<byte>)
    requires i <= |p| && Sized(nals) && |tail| <= 1 && p[i..] == Aggregate(nals) + tail
    ensures StapA(p, i) == Some(nals)
    decreases |nals|
  {
    if nals != [] {
      var nal, rest := nals[0], Aggregate(nals[1..]) + tail;
      var end := i + 2 + |nal|;
      var q := p[i..];
      assert q == [|nal| / 256, |nal| % 256] + nal + rest;
      assert p[i] == q[0] && p[i + 1] == q[1];
      assert p[i + 2..end] == q[2..2 + |nal|] == nal && p[end..] == q[2 + |nal|..] == rest;
      hide Aggregate;
      AggregateRead(p, end, nals[1..], tail);
      assert FromBe16(p[i], p[i + 1]) == |nal| && nals == [nal] + nals[1..];
    }
  }

  /** And nothing else is: whatever is read was aggregated there. */
  lemma {:induction false} ReadAggregate(p: seq<byte>, i: nat, nals: seq<seq<byte>>) returns (tail: seq<byte>)
    requires i <= |p| && StapA(p, i) == Some(nals)
    ensures Sized(nals) && |tail| <= 1 && p[i..] == Aggregate(nals) + tail
    decreases |nals|
  {
    if i + 2 > |p| {
      tail := p[i..];
    } else {
      var len := FromBe16(p[i], p[i + 1]);
      var end := i + 2 + len;
      tail := ReadAggregate(p, end, nals[1..]);
      SizedCons(nals);
      assert p[i..] == [len / 256, len % 256] + p[i + 2..end] + p[end..];
      hide StapA;
      AggregateCons(nals);
      var a := [len / 256, len % 256] + nals[0];
      Assoc(a, Aggregate(nals[1..]), tail);
    }
  }

  lemma SizedCons(nals: seq<seq<byte>>)
    requires nals != [] && 0 < |nals[0]| < 65536 && Sized(nals[1..])
    ensures Sized(nals)
  {
    assert forall n :: 0 < n < |nals| ==> nals[n] == nals[1..][n - 1];
  }

  lemma AggregateCons(nals: seq<seq<byte>>)
    requires nals != [] && Sized(nals)
    ensures Aggregate(nals) == [|nals[0]| / 256, |nals[0]| % 256] + nals[0] + Aggregate(nals[1..])
  {
  }

  /** An aggregation packet comes out as Annex B of its NALs, in order, but for a byte behind them. */
  lemma AggregatePushed(fuBuffer: Option<seq<byte>>, header: byte, nals: seq<seq<byte>>, tail: seq<byte>)
    requires header % 32 == 24 && Sized(nals) && |tail| <= 1
    ensures var p := [header] + (Aggregate(nals) + tail);
      Push(fuBuffer, p) == Depacketized(fuBuffer, Complete(Join(nals))) && ParseRtpH264(p) == nals
  {
    var p := [header] + (Aggregate(nals) + tail);
    assert p[1..] == Aggregate(nals) + tail;
    AggregateRead(p, 1, nals, tail);
    hide StapA, Aggregate, Join, Sized;
  }

  /** One that is no such packet is refused. */
  lemma AggregateRefused(fuBuffer: Option<seq<byte>>, p: seq<byte>)
    requires p != [] && p[0] % 32 == 24
    requires forall nals, tail :: Sized(nals) && |tail| <= 1 ==> p[1..] != Aggregate(nals) + tail
    ensures Push(fuBuffer, p) == Depacketized(fuBuffer, Failed(StapASizeLargerThanBuffer)) && ParseRtpH264(p) == []
  {
    if StapA(p, 1).Some? {
      var tail := ReadAggregate(p, 1, StapA(p, 1).value);
      assert false;
    }
    hide StapA, Aggregate, Join, Sized;
  }

  /** A payload in which the ingest sees an IDR: one of type 5, an aggregate with a NAL of that type, or a fragment of
      such a NAL. */
  ghost predicate ShowsIdr(p: seq<byte>) {
    || (|p| >= 1 && p[0] % 32 == 5)
    || (|p| >= 1 && p[0] % 32 == 24 && exists nals, tail ::
          Sized(nals) && |tail| <= 1 && p[1..] == Aggregate(nals) + tail
          && exists n :: 0 <= n < |nals| && nals[n][0] % 32 == 5)
    || (|p| >= 2 && p[0] % 32 == 28 && p[1] % 32 == 5)
  }

  /** A part is marked as key if and only if its payload shows an IDR, or its bytes are a key frame. */
  lemma PartKeyIff(fuBuffer: Option<seq<byte>>, p: seq<byte>)
    ensures var part := H264RtpIngest.PartOf(fuBuffer, p).1;
      part.Some? ==>
        (part.value.isKeyframe <==> ShowsIdr(p) || LeadType(part.value.data, 5)
                                    || SomeBehind(part.value.data, 0, |part.value.data|, 5))
  {
    var part := H264RtpIngest.PartOf(fuBuffer, p).1;
    if part.Some? {
      KeyframeIff(part.value.data);
      ShownIff(p);
    }
    hide Push, ParseRtpH264, LeadType, SomeBehind, IsKeyframeAnnexB, ContainsIdr, IsIdrRtpPayload, ShowsIdr, Join;
  }

  lemma ShownIff(p: seq<byte>)
    ensures ContainsIdr(ParseRtpH264(p)) || IsIdrRtpPayload(p) <==> ShowsIdr(p)
  {
    if p != [] && p[0] % 32 == 24 {
      if StapA(p, 1).Some? {
        var nals := StapA(p, 1).value;
        var tail := ReadAggregate(p, 1, nals);
        forall more, end | Sized(more) && |end| <= 1 && p[1..] == Aggregate(more) + end ensures more == nals {
          AggregateRead(p, 1, more, end);
        }
      } else {
        forall more, end | Sized(more) && |end| <= 1 ensures p[1..] != Aggregate(more) + end {
          if p[1..] == Aggregate(more) + end {
            AggregateRead(p, 1, more, end);
          }
        }
      }
    }
    hide StapA, Aggregate;
  }
}
