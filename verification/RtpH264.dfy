/** H.264 RTP depacketizer: single NAL units, STAP-A and FU-A (sections 5.6 to 5.8 of RFC 6184). */
module RtpH264 {
  import opened Bytes
  import opened H264Util

  const STAP_A := 24
  const FU_A := 28

  datatype DepacketizeError = ShortPacket | StapASizeLargerThanBuffer | MissingFuStart | UnsupportedNaluType

  /** Annex B bytes when a NAL is complete, nothing while a fragmented one is pending. */
  datatype Pushed = Complete(annexB: seq<byte>) | Pending | Failed(error: DepacketizeError)

  /** The fragment buffer after a payload, and what the payload completed. */
  datatype Depacketized = Depacketized(fuBuffer: Option<seq<byte>>, result: Pushed)

  /** NAL units of an aggregation packet from byte i on. */
  function StapA(payload: seq<byte>, i: nat): Option<seq<seq<byte>>>
    decreases |payload| - i
  {
    if i + 2 > |payload| then Some([])
    else
      var len := FromBe16(payload[i], payload[i + 1]);
      if len == 0 || i + 2 + len > |payload| then None
      else
        var rest := StapA(payload, i + 2 + len);
        if rest.None? then None else Some([payload[i + 2..i + 2 + len]] + rest.value)
  }

  function PushFuA(fuBuffer: Option<seq<byte>>, payload: seq<byte>): Depacketized
    requires payload != []
  {
    if |payload| < 2 then Depacketized(None, Failed(ShortPacket))
    else
      var start := payload[1] >= 0x80;
      var end := payload[1] / 0x40 % 2 == 1;
      var buffer :=
        if start then Some(StartCode + [payload[0] / 0x20 * 0x20 + payload[1] % 0x20] + payload[2..])
        else if fuBuffer.Some? then Some(fuBuffer.value + payload[2..])
        else None;
      if buffer.None? then Depacketized(fuBuffer, Failed(MissingFuStart))
      else if end then Depacketized(None, Complete(buffer.value))
      else Depacketized(buffer, Pending)
  }

  function Push(fuBuffer: Option<seq<byte>>, payload: seq<byte>): Depacketized {
    if payload == [] then Depacketized(fuBuffer, Pending)
    else
      var nalType := payload[0] % 0x20;
      if 1 <= nalType <= 23 then Depacketized(fuBuffer, Complete(Join([payload])))
      else if nalType == STAP_A then
        match StapA(payload, 1)
        case None => Depacketized(fuBuffer, Failed(StapASizeLargerThanBuffer))
        case Some(nals) => Depacketized(fuBuffer, Complete(Join(nals)))
      else if nalType == FU_A then PushFuA(fuBuffer, payload)
      else Depacketized(fuBuffer, Failed(UnsupportedNaluType))
  }

  /** Complete NAL units of one payload taken alone; fragments yield none. */
  function ParseRtpH264(payload: seq<byte>): seq<seq<byte>> {
    if payload == [] then []
    else
      var nalType := payload[0] % 0x20;
      if 1 <= nalType <= 23 then [payload]
      else if nalType == STAP_A && StapA(payload, 1).Some? then StapA(payload, 1).value
      else []
  }

  predicate ContainsIdr(nals: seq<seq<byte>>) {
    HasNalType(nals, 5)
  }

  predicate IsIdrRtpPayload(payload: seq<byte>) {
    payload != [] &&
    var nalType := payload[0] % 0x20;
    || nalType == 5
    || (nalType == STAP_A && ContainsIdr(ParseRtpH264(payload)))
    || (nalType == FU_A && |payload| >= 2 && payload[1] % 0x20 == 5)
  }

  /** A fragment other than the first of its NAL. */
  predicate IsFuAContinuation(payload: seq<byte>) {
    |payload| >= 2 && payload[0] % 0x20 == FU_A && payload[1] < 0x80
  }

  class H264RtpDepacketizer {
    var fuBuffer: Option<seq<byte>>

    constructor ()
      ensures fuBuffer == None
    {
      fuBuffer := None;
    }

    method Reset()
      modifies this
      ensures fuBuffer == None
    {
      fuBuffer := None;
    }

    method ParseStapA(payload: seq<byte>) returns (nals: Option<seq<seq<byte>>>)
      requires payload != []
      ensures nals == StapA(payload, 1)
    {
      var out: seq<seq<byte>> := [];
      var i := 1;
      assert StapA(payload, 1).Some? ==> out + StapA(payload, 1).value == StapA(payload, 1).value;
      while i + 2 <= |payload|
        invariant i <= |payload|
        invariant StapA(payload, 1) == match StapA(payload, i) case None => None case Some(rest) => Some(out + rest)
        decreases |payload| - i
      {
        var len := FromBe16(payload[i], payload[i + 1]);
        if len == 0 || i + 2 + len > |payload| {
          return None;
        }
        var nal := payload[i + 2..i + 2 + len];
        ghost var rest := StapA(payload, i + 2 + len);
        if rest.Some? {
          Assoc(out, [nal], rest.value);
        }
        out := out + [nal];
        i := i + 2 + len;
      }
      assert out + [] == out;
      return Some(out);
    }

    method PushPayload(payload: seq<byte>) returns (r: Pushed)
      modifies this
      ensures Depacketized(fuBuffer, r) == Push(old(fuBuffer), payload)
    {
      if payload == [] {
        return Pending;
      }
      var nalType := payload[0] % 0x20;
      if 1 <= nalType <= 23 {
        return Complete(Join([payload]));
      } else if nalType == STAP_A {
        var nals := ParseStapA(payload);
        if nals.None? {
          return Failed(StapASizeLargerThanBuffer);
        }
        return Complete(Join(nals.value));
      } else if nalType == FU_A {
        r := PushFragment(payload);
      } else {
        return Failed(UnsupportedNaluType);
      }
    }

    method PushFragment(payload: seq<byte>) returns (r: Pushed)
      requires payload != []
      modifies this
      ensures Depacketized(fuBuffer, r) == PushFuA(old(fuBuffer), payload)
    {
      if |payload| < 2 {
        Reset();
        return Failed(ShortPacket);
      }
      var start := payload[1] >= 0x80;
      var end := payload[1] / 0x40 % 2 == 1;
      if start {
        var buffer := StartCode;
        buffer := buffer + [payload[0] / 0x20 * 0x20 + payload[1] % 0x20];
        buffer := buffer + payload[2..];
        fuBuffer := Some(buffer);
      } else if fuBuffer.None? {
        return Failed(MissingFuStart);
      } else {
        fuBuffer := Some(fuBuffer.value + payload[2..]);
      }
      if end {
        r := Complete(fuBuffer.value);
        fuBuffer := None;
        return;
      }
      return Pending;
    }
  }
}
