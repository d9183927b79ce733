/** Media time stamps converted to milliseconds, and the monotonic FLV tag timeline built on them. */
module Timestamp {
  import opened Bytes
  import opened Media

  const MILLISECOND_CLOCK_RATE: nat := 1_000
  const VIDEO_RTP_TICKS_PER_MS: nat := 90
  const AAC_DEFAULT_CLOCK_RATE: nat := 44_100
  const FLV_MUX_MIN_STEP_MS: nat := 1

  predicate LooksLikeRtpVideoDelta(delta: nat) {
    900 <= delta <= 90_000 && (delta % VIDEO_RTP_TICKS_PER_MS == 0 || delta in {1_501, 1_502, 3_003, 3_753, 3_754})
  }

  /** The step from one raw time stamp to the next, in whole milliseconds; without a clock rate the unit is guessed. */
  function DeltaMs(prev: nat, curr: nat, clockRate: Option<nat>): nat {
    if curr <= prev then 0
    else
      var delta := curr - prev;
      match clockRate
      case Some(rate) =>
        if rate == 0 then 0 else if rate == MILLISECOND_CLOCK_RATE then delta else delta * 1_000 / rate
      case None =>
        if delta > 2000 || LooksLikeRtpVideoDelta(delta) then delta / VIDEO_RTP_TICKS_PER_MS else delta
  }

  /** A known clock loses less than a millisecond in a step, and never gains. */
  lemma DeltaTruncates(prev: nat, curr: nat, rate: nat)
    requires prev <= curr && rate > 0
    ensures var ms := DeltaMs(prev, curr, Some(rate));
      rate * ms <= (curr - prev) * 1_000 < rate * ms + rate
  {
    if prev < curr && rate != MILLISECOND_CLOCK_RATE {
      var n := (curr - prev) * 1_000;
      assert n == rate * (n / rate) + n % rate;
    }
  }

  /** Without a clock rate a step is taken as milliseconds if and only if it is short, or below two seconds and not one
      that a 90 kHz video clock makes. */
  lemma MsReadIff(prev: nat, step: nat)
    requires step > 0
    ensures DeltaMs(prev, prev + step, None) == step
       <==> step < 900 || (step <= 2000 && step % 90 != 0 && step != 1501 && step != 1502)
  {
  }

  /** And ten milliseconds or more of a 90 kHz clock are read as such. */
  lemma TicksReadIff(prev: nat, ms: nat)
    requires ms > 0
    ensures DeltaMs(prev, prev + 90 * ms, None) == ms <==> ms >= 10
  {
  }

  function OrElse(a: Option<nat>, b: Option<nat>): Option<nat> {
    if a.Some? then a else b
  }

  // ---------------------------------------------------------------- one frame

  datatype Clocks = Clocks(
    lastEmit: nat,
    videoMs: nat, lastRawVideo: Option<nat>, lastVideoRate: Option<nat>,
    audioMs: nat, lastRawAudio: Option<nat>, lastAudioRate: Option<nat>, audioFrames: nat)

  const Start := Clocks(0, 0, None, None, 0, None, None, 0)

  /** The program divides by the clock rate of an AAC frame. */
  predicate Mappable(frame: MediaFrame) {
    frame.codec == AAC ==> frame.clockRate != Some(0)
  }

  function AudioStep(frame: MediaFrame): nat
    requires frame.clockRate != Some(0)
  {
    1024 * 1000 / (if frame.clockRate.Some? then frame.clockRate.value else AAC_DEFAULT_CLOCK_RATE)
  }

  function VideoAdvance(c: Clocks, frame: MediaFrame): nat {
    match c.lastRawVideo
    case None => 0
    case Some(last) =>
      var delta := DeltaMs(last, frame.timestamp, OrElse(frame.clockRate, c.lastVideoRate));
      if 0 < delta < 2000 then delta else FLV_MUX_MIN_STEP_MS
  }

  function AudioAdvance(c: Clocks, frame: MediaFrame): nat
    requires frame.clockRate != Some(0)
  {
    match c.lastRawAudio
    case None => 0
    case Some(last) =>
      var delta := DeltaMs(last, frame.timestamp, OrElse(frame.clockRate, c.lastAudioRate));
      if 0 < delta < 2000 then delta else AudioStep(frame)
  }

  /** The clocks once the frame's own clock has been advanced. */
  function Ticked(c: Clocks, frame: MediaFrame): Clocks
    requires Mappable(frame)
  {
    if IsVideo(frame.codec) then
      c.(videoMs := c.videoMs + VideoAdvance(c, frame), lastRawVideo := Some(frame.timestamp),
         lastVideoRate := frame.clockRate)
    else if frame.codec == AAC then
      c.(audioMs := c.audioMs + AudioAdvance(c, frame), lastRawAudio := Some(frame.timestamp),
         lastAudioRate := frame.clockRate, audioFrames := c.audioFrames + 1)
    else c
  }

  function Ideal(c: Clocks, frame: MediaFrame): nat {
    if IsVideo(frame.codec) then c.videoMs else if frame.codec == AAC then c.audioMs else c.lastEmit
  }

  function Emit(last: nat, ideal: nat): nat {
    if ideal > last then ideal else if last == 0 then 0 else last + FLV_MUX_MIN_STEP_MS
  }

  function Mapped(c: Clocks, frame: MediaFrame): Clocks
    requires Mappable(frame)
  {
    var t := Ticked(c, frame);
    t.(lastEmit := Emit(c.lastEmit, Ideal(t, frame)))
  }

  /** No audio frame yet means no audio time yet. */
  predicate Consistent(c: Clocks) {
    c.lastRawAudio == None ==> c.audioMs == 0 && c.audioFrames == 0
  }

  class FlvPlayTimeline {
    var lastEmitMs: nat
    var videoMs: nat
    var lastRawVideoTs: Option<nat>
    var lastRawVideoClockRate: Option<nat>
    var audioMs: nat
    var lastRawAudioTs: Option<nat>
    var lastRawAudioClockRate: Option<nat>
    var audioFrames: nat

    ghost function Now(): Clocks
      reads this
    {
      Clocks(lastEmitMs, videoMs, lastRawVideoTs, lastRawVideoClockRate, audioMs, lastRawAudioTs,
             lastRawAudioClockRate, audioFrames)
    }

    constructor ()
      ensures Now() == Start && Consistent(Now())
    {
      lastEmitMs, videoMs, audioMs, audioFrames := 0, 0, 0, 0;
      lastRawVideoTs, lastRawVideoClockRate, lastRawAudioTs, lastRawAudioClockRate := None, None, None, None;
    }

    /** The tag of a frame; none where the division by its clock rate panics. */
    method Map(frame: MediaFrame) returns (tag: Option<u32>)
      requires Consistent(Now())
      modifies this
      ensures Consistent(Now()) && Now() == if Mappable(frame) then Mapped(old(Now()), frame) else old(Now())
      ensures tag == if Mappable(frame) then Some(Now().lastEmit % 0x1_0000_0000) else None
    {
      hide DeltaMs;
      if frame.codec == AAC && frame.clockRate == Some(0) {
        return None;
      }
      var ideal: nat;
      if IsVideo(frame.codec) {
        if lastRawVideoTs.Some? {
          var last := lastRawVideoTs.value;
          if frame.timestamp > last {
            var delta := DeltaMs(last, frame.timestamp, OrElse(frame.clockRate, lastRawVideoClockRate));
            if delta > 0 && delta < 2000 {
              videoMs := videoMs + delta;
            } else {
              videoMs := videoMs + FLV_MUX_MIN_STEP_MS;
            }
          } else {
            NoStep(last, frame.timestamp, OrElse(frame.clockRate, lastRawVideoClockRate));
            videoMs := videoMs + FLV_MUX_MIN_STEP_MS;
          }
        }
        lastRawVideoTs := Some(frame.timestamp);
        lastRawVideoClockRate := frame.clockRate;
        ideal := videoMs;
      } else if frame.codec == AAC {
        var stepMs := AudioStep(frame);
        if lastRawAudioTs.Some? {
          var last := lastRawAudioTs.value;
          if frame.timestamp > last {
            var delta := DeltaMs(last, frame.timestamp, OrElse(frame.clockRate, lastRawAudioClockRate));
            audioMs := audioMs + (if delta > 0 && delta < 2000 then delta else stepMs);
          } else {
            NoStep(last, frame.timestamp, OrElse(frame.clockRate, lastRawAudioClockRate));
            audioMs := audioMs + stepMs;
          }
        } else {
          audioMs := audioFrames * stepMs;
        }
        lastRawAudioTs := Some(frame.timestamp);
        lastRawAudioClockRate := frame.clockRate;
        audioFrames := audioFrames + 1;
        ideal := audioMs;
      } else {
        ideal := lastEmitMs;
      }
      var ts := if ideal > lastEmitMs then ideal
                else if ideal == lastEmitMs && lastEmitMs == 0 then 0
                else lastEmitMs + FLV_MUX_MIN_STEP_MS;
      lastEmitMs := ts;
      tag := Some(ts % 0x1_0000_0000);
    }
  }

  lemma NoStep(prev: nat, curr: nat, rate: Option<nat>)
    requires curr <= prev
    ensures DeltaMs(prev, curr, rate) == 0
  {
  }

  // ---------------------------------------------------------------- runs

  ghost predicate AllMappable(frames: seq<MediaFrame>) {
    forall f <- frames :: Mappable(f)
  }

  function Run(c: Clocks, frames: seq<MediaFrame>): Clocks
    requires AllMappable(frames)
    decreases |frames|
  {
    if frames == [] then c else Run(Mapped(c, frames[0]), frames[1..])
  }

  /** The time stamps emitted, before the 32-bit mask. */
  function Tags(c: Clocks, frames: seq<MediaFrame>): (r: seq<nat>)
    requires AllMappable(frames)
    ensures |r| == |frames|
    decreases |frames|
  {
    if frames == [] then []
    else
      var next := Mapped(c, frames[0]);
      [next.lastEmit] + Tags(next, frames[1..])
  }

  predicate Ahead(c: Clocks) {
    Max(c.videoMs, c.audioMs) <= c.lastEmit
  }

  /** One frame: neither clock runs backwards, the emission covers both, exceeds them by at most one more than before,
      and repeats the previous one only at zero. */
  lemma StepBounds(c: Clocks, frame: MediaFrame, slack: nat)
    requires Mappable(frame) && Ahead(c) && c.lastEmit <= Max(c.videoMs, c.audioMs) + slack
    ensures var d := Mapped(c, frame);
      && Ahead(d) && d.lastEmit <= Max(d.videoMs, d.audioMs) + slack + 1
      && d.videoMs >= c.videoMs && d.audioMs >= c.audioMs
      && d.lastEmit >= c.lastEmit && (d.lastEmit == c.lastEmit ==> d.lastEmit == 0)
  {
    hide VideoAdvance, AudioAdvance;
  }

  /** Over any interleaving of n frames the last emission covers both clocks and exceeds them by at most n. */
  lemma {:induction false} RunBounds(c: Clocks, frames: seq<MediaFrame>, slack: nat)
    requires AllMappable(frames) && Ahead(c) && c.lastEmit <= Max(c.videoMs, c.audioMs) + slack
    ensures var d := Run(c, frames);
      && Max(d.videoMs, d.audioMs) <= d.lastEmit <= Max(d.videoMs, d.audioMs) + slack + |frames|
      && d.videoMs >= c.videoMs && d.audioMs >= c.audioMs
    decreases |frames|
  {
    hide Mapped;
    if frames != [] {
      StepBounds(c, frames[0], slack);
      RunBounds(Mapped(c, frames[0]), frames[1..], slack + 1);
    }
  }

  predicate Follows(tag: nat, before: nat) {
    tag >= before && (tag == before ==> tag == 0)
  }

  /** Each tag follows the one before it, the first one the given one. */
  ghost predicate Monotone(last: nat, tags: seq<nat>) {
    (tags != [] ==> Follows(tags[0], last)) && forall k :: 0 < k < |tags| ==> Follows(tags[k], tags[k - 1])
  }

  lemma MonotoneCons(last: nat, first: nat, rest: seq<nat>)
    requires Follows(first, last) && Monotone(first, rest)
    ensures Monotone(last, [first] + rest)
  {
    hide Follows;
    var tags := [first] + rest;
    forall k | 0 < k < |tags| ensures Follows(tags[k], tags[k - 1]) {
      assert tags[k] == rest[k - 1];
      assert k > 1 ==> tags[k - 1] == rest[k - 2];
    }
  }

  /** Emissions never decrease, and strictly increase once positive. */
  lemma {:induction false} RunMonotone(c: Clocks, frames: seq<MediaFrame>)
    requires AllMappable(frames) && Ahead(c)
    ensures Monotone(c.lastEmit, Tags(c, frames))
    decreases |frames|
  {
    hide Mapped, Monotone;
    if frames == [] {
      assert Monotone(c.lastEmit, []) by { MonotoneEmpty(c.lastEmit); }
    } else {
      StepBounds(c, frames[0], c.lastEmit);
      var next := Mapped(c, frames[0]);
      RunMonotone(next, frames[1..]);
      MonotoneCons(c.lastEmit, next.lastEmit, Tags(next, frames[1..]));
    }
  }

  lemma MonotoneEmpty(last: nat)
    ensures Monotone(last, [])
  {
  }

  // ---------------------------------------------------------------- one kind of media, on a known clock

  datatype Kind = Video | Audio

  predicate OfKind(f: MediaFrame, kind: Kind) {
    match kind
    case Video => f.codec == H264 || f.codec == H265
    case Audio => f.codec == AAC
  }

  /** The clock of this kind of media, and the raw time stamp and rate it last saw. */
  function ClockOf(c: Clocks, kind: Kind): nat {
    if kind == Video then c.videoMs else c.audioMs
  }

  function LastRaw(c: Clocks, kind: Kind): Option<nat> {
    if kind == Video then c.lastRawVideo else c.lastRawAudio
  }

  function LastRate(c: Clocks, kind: Kind): Option<nat> {
    if kind == Video then c.lastVideoRate else c.lastAudioRate
  }

  function Other(kind: Kind): Kind {
    if kind == Video then Audio else Video
  }

  /** The whole milliseconds in some ticks of a clock. */
  predicate WholeMs(ms: nat, ticks: nat, rate: nat) {
    rate * ms <= ticks * 1_000 < rate * ms + rate
  }

  /** What a frame does to the clock of its kind. The first one leaves it. A step of 1 to 1999 ms, by the rate of the
      frame or else of the one before it, moves it by just that step. Any other step moves it by a millisecond for
      video, and for audio by the length of 1024 samples at the rate of the frame, or at 44100 Hz. The other clock
      stands. */
  lemma ClockStep(c: Clocks, f: MediaFrame, kind: Kind, last: nat, rate: nat)
    requires OfKind(f, kind) && Mappable(f)
    ensures var d := Mapped(c, f);
      && ClockOf(d, Other(kind)) == ClockOf(c, Other(kind)) && LastRaw(d, Other(kind)) == LastRaw(c, Other(kind))
      && LastRaw(d, kind) == Some(f.timestamp) && LastRate(d, kind) == f.clockRate
      && (LastRaw(c, kind) == None ==> ClockOf(d, kind) == ClockOf(c, kind))
    ensures var d := Mapped(c, f);
      LastRaw(c, kind) == Some(last) && rate > 0
      && (f.clockRate == Some(rate) || (f.clockRate == None && LastRate(c, kind) == Some(rate))) ==>
        && ClockOf(d, kind) >= ClockOf(c, kind)
        && var step: nat := ClockOf(d, kind) - ClockOf(c, kind);
        if f.timestamp > last && rate <= (f.timestamp - last) * 1_000 < 2_000 * rate
        then 0 < step < 2000 && WholeMs(step, f.timestamp - last, rate)
        else if kind == Video then step == 1
        else WholeMs(step, 1024, if f.clockRate == None then 44_100 else f.clockRate.value)
  {
    if LastRaw(c, kind) == Some(last) && rate > 0 {
      if f.timestamp > last {
        DeltaTruncates(last, f.timestamp, rate);
        DeltaBetween(last, f.timestamp, rate, 2_000);
      }
      if kind == Audio {
        SamplesLast(if f.clockRate == None then 44_100 else f.clockRate.value);
      }
      hide DeltaMs;
      if f.timestamp <= last {
        NoStep(last, f.timestamp, Some(rate));
      }
    }
  }

  lemma DeltaBetween(last: nat, now: nat, rate: nat, bound: nat)
    requires last < now && rate > 0
    ensures 0 < DeltaMs(last, now, Some(rate)) < bound <==> rate <= (now - last) * 1_000 < bound * rate
  {
    DeltaTruncates(last, now, rate);
    var (ms, n) := (DeltaMs(last, now, Some(rate)), (now - last) * 1_000);
    hide DeltaMs;
    if ms >= bound {
      AtLeast(rate, bound, ms);
    } else {
      AtLeast(rate, ms + 1, bound);
    }
    if ms > 0 {
      AtLeast(rate, 1, ms);
    }
    assert rate * (ms + 1) == rate * ms + rate;
  }

  lemma AtLeast(rate: nat, a: nat, b: nat)
    requires a <= b
    ensures rate * a <= rate * b
  {
  }

  lemma SamplesLast(rate: nat)
    requires rate > 0
    ensures WholeMs(1024 * 1000 / rate, 1024, rate)
  {
    var n := 1024 * 1000;
    assert n == rate * (n / rate) + n % rate;
  }

  /** Frames of one kind on one clock, each 1 to 1999 whole milliseconds after the one before it. */
  predicate Steady(kind: Kind, last: nat, frames: seq<MediaFrame>, rate: nat)
    decreases |frames|
  {
    frames == []
    || (var f := frames[0];
        && OfKind(f, kind) && f.clockRate == Some(rate) && f.timestamp > last
        && rate <= (f.timestamp - last) * 1_000 < 2_000 * rate
        && Steady(kind, f.timestamp, frames[1..], rate))
  }

  lemma {:induction false} SteadyMappable(kind: Kind, last: nat, frames: seq<MediaFrame>, rate: nat)
    requires rate > 0 && Steady(kind, last, frames, rate)
    ensures AllMappable(frames)
    decreases |frames|
  {
    if frames != [] {
      SteadyMappable(kind, frames[0].timestamp, frames[1..], rate);
    }
  }

  function LastStamp(last: nat, frames: seq<MediaFrame>): nat {
    if frames == [] then last else frames[|frames| - 1].timestamp
  }

  lemma SteadyStep(c: Clocks, kind: Kind, last: nat, f: MediaFrame, rate: nat)
    requires rate > 0 && OfKind(f, kind) && f.clockRate == Some(rate) && f.timestamp > last
    requires rate <= (f.timestamp - last) * 1_000 < 2_000 * rate
    requires LastRaw(c, kind) == Some(last) && c.lastEmit == ClockOf(c, kind) && ClockOf(c, Other(kind)) <= c.lastEmit
    ensures var next := Mapped(c, f);
      && LastRaw(next, kind) == Some(f.timestamp) && next.lastEmit == ClockOf(next, kind)
      && ClockOf(next, Other(kind)) <= next.lastEmit
      && c.lastEmit <= next.lastEmit && WholeMs(next.lastEmit - c.lastEmit, f.timestamp - last, rate)
  {
    ClockStep(c, f, kind, last, rate);
    EmitsClock(c, f, kind);
    hide Mapped;
  }

  /** Some milliseconds fall short of some ticks, but by less than one in each of n steps. */
  predicate Lags(rate: nat, ms: int, ticks: nat, n: nat) {
    rate * ms <= ticks * 1_000 <= rate * ms + n * (rate - 1)
  }

  lemma NoLag(rate: nat)
    ensures Lags(rate, 0, 0, 0)
  {
  }

  /** Video or audio alone: emissions follow its clock exactly and lag the true elapsed time by less than a millisecond
      a frame. */
  lemma {:induction false} SteadyLag(c: Clocks, kind: Kind, last: nat, frames: seq<MediaFrame>, rate: nat)
    requires rate > 0 && Steady(kind, last, frames, rate)
    requires LastRaw(c, kind) == Some(last) && c.lastEmit == ClockOf(c, kind) && ClockOf(c, Other(kind)) <= c.lastEmit
    ensures AllMappable(frames) && LastStamp(last, frames) >= last
    ensures var d := Run(c, frames);
      d.lastEmit == ClockOf(d, kind) && Lags(rate, d.lastEmit - c.lastEmit, LastStamp(last, frames) - last, |frames|)
    decreases |frames|
  {
    SteadyMappable(kind, last, frames, rate);
    if frames != [] {
      var f := frames[0];
      var next := Mapped(c, f);
      SteadyStep(c, kind, last, f, rate);
      var ms := next.lastEmit - c.lastEmit;
      SteadyLag(next, kind, f.timestamp, frames[1..], rate);
      assert LastStamp(last, frames) == LastStamp(f.timestamp, frames[1..]);
      hide Mapped, ClockOf, LastRaw, OfKind, Steady, LastStamp, WholeMs, Lags;
      var d := Run(next, frames[1..]);
      var (now, end) := (f.timestamp, LastStamp(last, frames));
      LagAdds(rate, ms, d.lastEmit - next.lastEmit, now - last, end - now, |frames| - 1);
    }
  }

  lemma LagAdds(rate: nat, a: nat, b: int, x: nat, y: nat, n: nat)
    requires rate > 0 && WholeMs(a, x, rate) && Lags(rate, b, y, n)
    ensures Lags(rate, a + b, x + y, n + 1)
  {
    Distribute(rate, a, b);
    Distribute(rate - 1, n, 1);
  }

  /** A clock that moves past the last emission is emitted. */
  lemma EmitsClock(c: Clocks, f: MediaFrame, kind: Kind)
    requires OfKind(f, kind) && Mappable(f)
    ensures ClockOf(Mapped(c, f), kind) > c.lastEmit ==> Mapped(c, f).lastEmit == ClockOf(Mapped(c, f), kind)
  {
    hide VideoAdvance, AudioAdvance;
  }

  lemma Distribute(rate: nat, a: int, b: int)
    ensures rate * (a + b) == rate * a + rate * b
  {
  }

  /** From a fresh timeline, video alone or audio alone: after n frames the tag is within n - 1 milliseconds of the
      elapsed time. */
  lemma AloneKeepsTime(kind: Kind, frames: seq<MediaFrame>, rate: nat)
    requires rate > 0 && frames != []
    requires OfKind(frames[0], kind) && frames[0].clockRate == Some(rate)
    requires Steady(kind, frames[0].timestamp, frames[1..], rate)
    ensures AllMappable(frames)
    ensures var elapsed := (LastStamp(0, frames) - frames[0].timestamp) as real * 1000.0 / rate as real;
      var tag := Run(Start, frames).lastEmit as real;
      tag <= elapsed <= tag + (|frames| - 1) as real
  {
    SteadyMappable(kind, frames[0].timestamp, frames[1..], rate);
    var first := Mapped(Start, frames[0]);
    assert first.lastEmit == 0 == ClockOf(first, kind) && LastRaw(first, kind) == Some(frames[0].timestamp);
    hide Mapped;
    SteadyLag(first, kind, frames[0].timestamp, frames[1..], rate);
    hide Steady;
    var tag, n := Run(Start, frames).lastEmit, |frames| - 1;
    var ticks := (LastStamp(0, frames) - frames[0].timestamp) * 1_000;
    assert LastStamp(0, frames) == LastStamp(frames[0].timestamp, frames[1..]);
    hide LastStamp, Run;
    InReals(rate, tag, ticks, n);
  }

  /** Audio whose time stamps stand still goes on by the length of 1024 samples a frame, rounded down. */
  lemma {:induction false} StalledAudio(c: Clocks, frames: seq<MediaFrame>, stamp: nat, rate: nat) returns (step: nat)
    requires rate > 0 && LastRaw(c, Audio) == Some(stamp)
    requires forall f <- frames :: f.codec == AAC && f.timestamp == stamp && f.clockRate == Some(rate)
    ensures AllMappable(frames) && WholeMs(step, 1024, rate)
    ensures Run(c, frames).audioMs == c.audioMs + |frames| * step
    decreases |frames|
  {
    step := 1024 * 1000 / rate;
    SamplesLast(rate);
    if frames != [] {
      ClockStep(c, frames[0], Audio, stamp, rate);
      WholeIs(Mapped(c, frames[0]).audioMs - c.audioMs, step, 1024, rate);
      hide Mapped;
      var again := StalledAudio(Mapped(c, frames[0]), frames[1..], stamp, rate);
      WholeIs(again, step, 1024, rate);
      assert |frames| * step == step + (|frames| - 1) * step;
    }
  }

  lemma WholeIs(a: nat, b: nat, ticks: nat, rate: nat)
    requires rate > 0 && WholeMs(a, ticks, rate) && WholeMs(b, ticks, rate)
    ensures a == b
  {
    if a < b {
      AtLeast(rate, a + 1, b);
      Distribute(rate, a, 1);
    } else if b < a {
      AtLeast(rate, b + 1, a);
      Distribute(rate, b, 1);
    }
  }

  lemma InReals(rate: nat, tag: nat, ticks: nat, n: nat)
    requires rate > 0 && rate * tag <= ticks <= rate * tag + n * (rate - 1)
    ensures tag as real <= ticks as real / rate as real <= tag as real + n as real
  {
    var r, t, x := rate as real, tag as real, ticks as real;
    RealProduct(rate, tag);
    RealProduct(rate, tag + n);
    AtMost(rate, tag, ticks, n);
    DivideBy(r, t, x);
    DivideUpTo(r, (tag + n) as real, x);
  }

  lemma RealProduct(a: nat, b: nat)
    ensures a as real * b as real == (a * b) as real
  {
  }

  lemma AtMost(rate: nat, tag: nat, ticks: nat, n: nat)
    requires rate > 0 && ticks <= rate * tag + n * (rate - 1)
    ensures ticks <= rate * (tag + n)
  {
    assert n * (rate - 1) + n == n * rate;
  }

  lemma DivideBy(r: real, t: real, x: real)
    requires r > 0.0 && r * t <= x
    ensures t <= x / r
  {
    var q := x / r;
    assert q * r == x;
    assert q < t ==> q * r < t * r;
  }

  lemma DivideUpTo(r: real, t: real, x: real)
    requires r > 0.0 && x <= r * t
    ensures x / r <= t
  {
    var q := x / r;
    assert q * r == x;
    assert t < q ==> t * r < q * r;
  }
}
