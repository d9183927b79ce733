/** Segment timing: the video mux clock, the split decision and the closed duration. */
module HlsTiming {
  import opened Bytes
  import opened Timestamp

  const MIN_SEGMENT_MS: nat := 250
  const MIN_VIDEO_MUX_STEP_MS: nat := 40
  const MIN_SEGMENT_BYTES: nat := 512
  const FIRST_SEGMENT_MUX_SECS: real := 0.35
  const SPLIT_THRESHOLD_RATIO: real := 0.85

  function SatSub(a: nat, b: nat): nat {
    if a >= b then a - b else 0
  }

  function Secs(ms: nat): real {
    ms as real / 1000.0
  }

  /** The EXTINF of a closed segment, in milliseconds. */
  function ClosedSegmentMs(lastMux: nat, openMux: nat): nat {
    Max(SatSub(lastMux, openMux), MIN_SEGMENT_MS)
  }

  /** The program date of a segment that is closed now, in milliseconds: when it began. */
  function LivePdt(durationMs: nat, now: int): int {
    now - durationMs
  }

  function SplitThreshold(target: real, committed: nat): real {
    if committed == 0 then FIRST_SEGMENT_MUX_SECS else target
  }

  datatype SplitEval = SplitEval(isKeyframe: bool, muxSecs: real, publisherSecs: real, threshold: real, committed: nat,
                                 hasMuxedMedia: bool, bufferLen: nat)

  predicate ShouldSplit(e: SplitEval) {
    if !e.isKeyframe || !e.hasMuxedMedia || e.bufferLen <= MIN_SEGMENT_BYTES then false
    else
      var readyByTime := e.muxSecs >= e.threshold * SPLIT_THRESHOLD_RATIO
                         || e.publisherSecs >= e.threshold * SPLIT_THRESHOLD_RATIO;
      var forceOnLongGop := e.muxSecs >= e.threshold * 1.5 || e.publisherSecs >= e.threshold * 1.5;
      var firstSegment := e.committed == 0 && e.muxSecs >= FIRST_SEGMENT_MUX_SECS;
      readyByTime || forceOnLongGop || firstSegment
  }

  /** For a target that is not negative the split rule is one comparison: on a key frame, with media and bytes behind
      it, exactly when the mux or the publisher span reaches 85% of the threshold. */
  lemma SplitIff(e: SplitEval, target: real)
    requires target >= 0.0 && e.threshold == SplitThreshold(target, e.committed)
    ensures e.threshold == if e.committed == 0 then 0.35 else target
    ensures ShouldSplit(e)
       <==> e.isKeyframe && e.hasMuxedMedia && e.bufferLen > 512
            && (e.muxSecs >= e.threshold * 0.85 || e.publisherSecs >= e.threshold * 0.85)
  {
    assert e.threshold * 1.5 >= e.threshold * 0.85;
  }

  /** The publisher's new raw time stamp and the video mux clock after it. */
  function AdvanceVideoMux(lastRaw: nat, mux: nat, ts: nat, rate: Option<nat>): (nat, nat) {
    var step :=
      if lastRaw > 0 && ts > lastRaw then
        var delta := DeltaMs(lastRaw, ts, rate);
        if 0 < delta < 500 then delta else MIN_VIDEO_MUX_STEP_MS
      else if mux == 0 then 0
      else MIN_VIDEO_MUX_STEP_MS;
    (ts, if mux == 0 && step == 0 then 0 else mux + (if step == 0 then MIN_VIDEO_MUX_STEP_MS else step))
  }

  /** Once off zero the video clock strictly advances with every frame, by less than half a second. */
  lemma AdvanceMoves(lastRaw: nat, mux: nat, ts: nat, rate: Option<nat>)
    ensures var next := AdvanceVideoMux(lastRaw, mux, ts, rate);
      && next.0 == ts && mux <= next.1 < mux + 500
      && (next.1 == mux ==> mux == 0 && (lastRaw == 0 || ts <= lastRaw))
  {
    hide DeltaMs;
  }
}
