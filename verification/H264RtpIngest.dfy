/** RTP to Annex B access units: sequence check, depacketizer and access-unit batch. */
module H264RtpIngest {
  import opened Bytes
  import opened H264Util
  import opened Rtp
  import opened RtpH264

  /** Depacketized parts collected for one access unit. */
  datatype Group = Group(timestamp: u32, parts: seq<seq<byte>>, isKeyframe: bool) {
    function Data(): seq<byte> {
      Concat(parts)
    }
  }

  /** A published H.264 frame. */
  datatype AccessUnit = AccessUnit(timestamp: u32, data: seq<byte>, isKeyframe: bool)

  /** Ingest state, with every group it has flushed so far. */
  datatype State = State(fuBuffer: Option<seq<byte>>, batch: Group, expectedSeq: Option<u16>, flushed: seq<Group>)

  const Fresh := State(None, Group(0, [], false), None, [])

  datatype Part = Part(data: seq<byte>, isKeyframe: bool)

  /** A part leaves the depacketizer, unless the payload fails or completes nothing. */
  function PartOf(fuBuffer: Option<seq<byte>>, payload: seq<byte>): (Option<seq<byte>>, Option<Part>) {
    var keyRtp := ContainsIdr(ParseRtpH264(payload)) || IsIdrRtpPayload(payload);
    var d := Push(fuBuffer, payload);
    match d.result
    case Complete(annexB) => (d.fuBuffer, Some(Part(annexB, keyRtp || IsKeyframeAnnexB(annexB))))
    case Pending => (d.fuBuffer, None)
    case Failed(_) =>
      var nals := ParseRtpH264(payload);
      (d.fuBuffer, if nals == [] then None else Some(Part(Join(nals), keyRtp || IsKeyframeAnnexB(Join(nals)))))
  }

  /** A group becomes a frame only if it holds a coded slice. */
  function Published(flushed: seq<Group>): seq<AccessUnit> {
    if flushed == [] then []
    else
      var g := flushed[0];
      (if ContainsVcl(g.Data()) then [AccessUnit(g.timestamp, g.Data(), g.isKeyframe || IsKeyframeAnnexB(g.Data()))]
       else [])
      + Published(flushed[1..])
  }

  function Flush(st: State): State {
    if st.batch.parts == [] then st
    else st.(batch := st.batch.(parts := [], isKeyframe := false), flushed := st.flushed + [st.batch])
  }

  /** The batch takes one more part, closing the previous access unit when the timestamp moves. */
  function AddPart(st: State, part: Part, timestamp: u32): State {
    var st1 := if st.batch.parts != [] && st.batch.timestamp != timestamp then Flush(st) else st;
    var b := if st1.batch.parts == [] then st1.batch.(timestamp := timestamp) else st1.batch;
    st1.(batch := Group(b.timestamp, b.parts + [part.data], b.isKeyframe || part.isKeyframe))
  }

  function IngestPayload(st: State, payload: seq<byte>, timestamp: u32, marker: bool): State {
    if payload == [] then st
    else
      var (fuBuffer, part) := PartOf(st.fuBuffer, payload);
      var st1 := st.(fuBuffer := fuBuffer);
      if part.None? || IsParameterSetOnly(part.value.data) then st1
      else
        var st2 := AddPart(st1, part.value, timestamp);
        if marker then Flush(st2) else st2
  }

  predicate IsGap(st: State, info: RtpInfo) {
    st.expectedSeq.Some? && info.sequenceNumber != st.expectedSeq.value
  }

  function Discard(st: State): State {
    st.(fuBuffer := None, batch := st.batch.(parts := [], isKeyframe := false))
  }

  /** One RTP packet: the sequence check, then the payload unless it continues a lost fragment. */
  function IngestInfo(st: State, info: RtpInfo): State {
    var st1 := st.(expectedSeq := Some((info.sequenceNumber + 1) % 0x1_0000));
    if !IsGap(st, info) then IngestPayload(st1, info.payload, info.timestamp, info.marker)
    else
      var st2 := Discard(st1);
      if IsFuAContinuation(info.payload) then st2
      else IngestPayload(st2, info.payload, info.timestamp, info.marker)
  }

  function IngestPacket(st: State, rtp: seq<byte>): State {
    match RtpPacketInfo(rtp)
    case None => st
    case Some(info) => IngestInfo(st, info)
  }

  function Run(st: State, infos: seq<RtpInfo>): State
    decreases |infos|
  {
    if infos == [] then st else Run(IngestInfo(st, infos[0]), infos[1..])
  }

  // ---------------------------------------------------------------- the ingest object

  lemma {:induction false} PublishedAppend(a: seq<Group>, b: seq<Group>)
    ensures Published(a + b) == Published(a) + Published(b)
  {
    hide ContainsVcl, IsKeyframeAnnexB;
    if a == [] {
      assert a + b == b;
    } else {
      PublishedAppend(a[1..], b);
      assert (a + b)[1..] == a[1..] + b;
      assert Published([a[0]]) == Published([a[0]]) + [];
      var head := if ContainsVcl(a[0].Data())
        then [AccessUnit(a[0].timestamp, a[0].Data(), a[0].isKeyframe || IsKeyframeAnnexB(a[0].Data()))] else [];
      Assoc(head, Published(a[1..]), Published(b));
    }
  }

  class Ingest {
    const depacketizer: H264RtpDepacketizer
    var timestamp: u32
    var parts: seq<seq<byte>>
    var isKeyframe: bool
    var expectedSeq: Option<u16>
    var units: nat
    /** Frames handed to the stream manager. */
    var published: seq<AccessUnit>
    ghost var flushed: seq<Group>

    ghost predicate Valid()
      reads this
    {
      published == Published(flushed) && units == |published|
    }

    ghost function Current(): State
      reads this, depacketizer
    {
      State(depacketizer.fuBuffer, Group(timestamp, parts, isKeyframe), expectedSeq, flushed)
    }

    constructor ()
      ensures Valid() && fresh(depacketizer)
      ensures Current() == Fresh
    {
      depacketizer := new H264RtpDepacketizer();
      timestamp, parts, isKeyframe := 0, [], false;
      expectedSeq, units, published, flushed := None, 0, [], [];
    }

    method FlushAccessUnit() returns (done: bool)
      requires Valid()
      modifies this
      ensures Valid()
      ensures Current() == Flush(old(Current()))
      ensures units == old(units) + if done then 1 else 0
    {
      hide IsKeyframeAnnexB, ContainsVcl;
      if parts == [] {
        return false;
      }
      var combined: seq<byte> := [];
      for i := 0 to |parts|
        invariant unchanged(this)
        invariant combined + Concat(parts[i..]) == Concat(parts)
      {
        assert parts[i..][1..] == parts[i + 1..];
        Assoc(combined, parts[i], Concat(parts[i + 1..]));
        combined := combined + parts[i];
      }
      assert combined == Concat(parts);
      var key := isKeyframe || IsKeyframeAnnexB(combined);
      ghost var group := Group(timestamp, parts, isKeyframe);
      PublishedAppend(flushed, [group]);
      assert Published([group][1..]) == [];
      flushed := flushed + [group];
      if !ContainsVcl(combined) {
        parts, isKeyframe := [], false;
        return false;
      }
      units := units + 1;
      published := published + [AccessUnit(timestamp, combined, key)];
      parts, isKeyframe := [], false;
      return true;
    }

    method IngestRtpPayload(payload: seq<byte>, ts: u32, marker: bool) returns (done: bool)
      requires Valid()
      modifies this, depacketizer
      ensures Valid()
      ensures Current() == IngestPayload(old(Current()), payload, ts, marker)
      ensures done <==> units > old(units)
    {
      hide IsKeyframeAnnexB, ContainsVcl, Push, ParseRtpH264, IsIdrRtpPayload, ContainsIdr, Join, IsParameterSetOnly;
      hide Published, Concat;
      done := false;
      if payload == [] {
        return false;
      }
      var keyRtp := ContainsIdr(ParseRtpH264(payload)) || IsIdrRtpPayload(payload);
      var pushed := depacketizer.PushPayload(payload);
      var annexB;
      match pushed {
        case Complete(bytes) => annexB := bytes;
        case Pending => return false;
        case Failed(_) =>
          var nals := ParseRtpH264(payload);
          if nals == [] {
            return false;
          }
          annexB := Join(nals);
      }
      var key := keyRtp || IsKeyframeAnnexB(annexB);
      assert PartOf(old(depacketizer.fuBuffer), payload) == (depacketizer.fuBuffer, Some(Part(annexB, key)));
      if IsParameterSetOnly(annexB) {
        return false;
      }
      hide PartOf, Flush, AddPart;
      done := Collect(Part(annexB, key), ts);
      if marker {
        var last := FlushAccessUnit();
        done := done || last;
      }
    }

    method Collect(part: Part, ts: u32) returns (done: bool)
      requires Valid()
      modifies this
      ensures Valid()
      ensures Current() == AddPart(old(Current()), part, ts)
      ensures units == old(units) + if done then 1 else 0
    {
      hide Published;
      done := false;
      if parts != [] && timestamp != ts {
        done := FlushAccessUnit();
      }
      if parts == [] {
        timestamp := ts;
      }
      parts := parts + [part.data];
      isKeyframe := isKeyframe || part.isKeyframe;
    }

    method AcceptSequence(sequence: u16, payload: seq<byte>) returns (ok: bool)
      requires Valid()
      modifies this, depacketizer
      ensures Valid() && units == old(units)
      ensures var info := RtpInfo(sequence, 0, false, payload);
        var next := old(Current()).(expectedSeq := Some((sequence + 1) % 0x1_0000));
        && Current() == (if IsGap(old(Current()), info) then Discard(next) else next)
        && (ok <==> !(IsGap(old(Current()), info) && IsFuAContinuation(payload)))
    {
      var gap := expectedSeq.Some? && sequence != expectedSeq.value;
      expectedSeq := Some((sequence + 1) % 0x1_0000);
      if !gap {
        return true;
      }
      depacketizer.Reset();
      parts, isKeyframe := [], false;
      return !IsFuAContinuation(payload);
    }

    method IngestRtpPacket(rtp: seq<byte>) returns (done: bool)
      requires Valid()
      modifies this, depacketizer
      ensures Valid()
      ensures Current() == IngestPacket(old(Current()), rtp)
      ensures done <==> units > old(units)
    {
      hide IngestPayload, RtpPacketInfo;
      var info := RtpPacketInfo(rtp);
      if info.None? {
        return false;
      }
      var ok := AcceptSequence(info.value.sequenceNumber, info.value.payload);
      if !ok {
        return false;
      }
      done := IngestRtpPayload(info.value.payload, info.value.timestamp, info.value.marker);
    }
  }
}
