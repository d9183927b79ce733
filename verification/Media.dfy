/** Media frames and the tests the hub applies to them. */
module Media {
  import opened Bytes
  import opened H264Util

  datatype CodecType = H264 | H265 | AAC | Opus | G711 | Unknown

  datatype MediaFrame = MediaFrame(
    trackId: nat,
    timestamp: nat,
    clockRate: Option<nat>,
    codec: CodecType,
    isKeyframe: bool,
    data: seq<byte>)

  predicate IsVideo(codec: CodecType) {
    codec == H264 || codec == H265
  }

  /** An IDR NAL behind a three- or four-byte start code that has at least one byte to spare. */
  predicate AnnexBContainsIdr(data: seq<byte>, i: nat)
    decreases |data| - i
  {
    if i + 4 >= |data| then false
    else if CodeAt(data, i) then data[i + 4] % 0x20 == 5 || AnnexBContainsIdr(data, i + 4)
    else if ShortCodeAt(data, i) then data[i + 3] % 0x20 == 5 || AnnexBContainsIdr(data, i + 3)
    else AnnexBContainsIdr(data, i + 1)
  }

  /** Starts a GOP when pushed: flagged as key frame, or holding an IDR. */
  predicate IsVideoKeyframe(frame: MediaFrame) {
    IsVideo(frame.codec) && (frame.isKeyframe || AnnexBContainsIdr(frame.data, 0))
  }

  /** What front eviction takes for a key frame: the flag alone. */
  predicate IsFlaggedKeyframe(frame: MediaFrame) {
    IsVideo(frame.codec) && frame.isKeyframe
  }

  predicate IsPlayableVideo(frame: MediaFrame) {
    IsVideo(frame.codec) && frame.data != []
  }

  predicate IsPlayableIdr(frame: MediaFrame) {
    IsPlayableVideo(frame) && (frame.isKeyframe || IsKeyframeAnnexB(frame.data))
  }

  // ---------------------------------------------------------------- what starts a GOP

  /** At k the bytes 00 00 01, and behind them the first byte of an IDR: its low five bits are 5. With three zeros and a
      one that byte may be the last of the data, with two zeros and a one it may not. */
  predicate IdrBehind(data: seq<byte>, k: nat) {
    && k + 3 < |data| && data[k] == 0 && data[k + 1] == 0 && data[k + 2] == 1 && data[k + 3] % 0x20 == 5
    && (k + 4 < |data| || (k > 0 && data[k - 1] == 0))
  }

  /** From a place that no start code straddles, the scan finds an IDR if and only if one is behind a code there. */
  lemma {:induction false} ScanFindsIdr(data: seq<byte>, i: nat)
    requires i > 0 && i < |data| ==> data[i - 1] != 0 || !ShortCodeAt(data, i)
    ensures AnnexBContainsIdr(data, i) <==> exists k :: k >= i && IdrBehind(data, k)
    decreases |data| - i
  {
    if i + 4 >= |data| {
      assert forall k :: k > i ==> !IdrBehind(data, k);
    } else if CodeAt(data, i) {
      ScanFindsIdr(data, i + 4);
      assert IdrBehind(data, i + 1) <==> data[i + 4] % 0x20 == 5;
      assert forall k :: i <= k < i + 4 && IdrBehind(data, k) ==> k == i + 1;
    } else if ShortCodeAt(data, i) {
      ScanFindsIdr(data, i + 3);
      assert IdrBehind(data, i) <==> data[i + 3] % 0x20 == 5;
      assert forall k :: i <= k < i + 3 && IdrBehind(data, k) ==> k == i;
    } else {
      ScanFindsIdr(data, i + 1);
      assert !IdrBehind(data, i);
    }
  }

  /** H.264 or H.265, and flagged as key frame or with an IDR behind a start code. */
  ghost predicate StartsGop(frame: MediaFrame) {
    frame.codec in {H264, H265} && (frame.isKeyframe || exists k :: IdrBehind(frame.data, k))
  }

  /** What the ring takes for a GOP start is one. */
  lemma GopStartIff(frame: MediaFrame)
    ensures IsVideoKeyframe(frame) <==> StartsGop(frame)
  {
    ScanFindsIdr(frame.data, 0);
    hide AnnexBContainsIdr, IdrBehind;
  }
}
