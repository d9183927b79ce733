/** When an HLS segment is closed: by which frame, and after how much of the session's time or of the publisher's. */
module HlsSplits {
  import opened Bytes
  import opened Media
  import opened HlsTiming
  import opened HlsSession
  import opened HlsRuns
  import opened TsMuxer
  import Timestamp
  import M3u8

  /** A video frame as it was published. */
  datatype Stamp = Stamp(raw: nat, rate: Option<nat>)

  function NextStamps(w: World, e: Event, stamps: seq<Stamp>): seq<Stamp> {
    match e
    case Lag => []
    case Arrive(f, _, _) =>
      if !Accepted(w.session, f) || !IsVideo(f.codec) then stamps
      else if FrameStep(w.session, ViewOf(w.playlist), f).1.Some? then []
      else stamps + [Stamp(f.timestamp, f.clockRate)]
  }

  /** The video frames accepted since the last cut; the key frame of a split is not among them. */
  function Stamps(w: World, es: seq<Event>, stamps: seq<Stamp>): seq<Stamp>
    decreases |es|
  {
    if es == [] then stamps else Stamps(Step(w, es[0]), es[1..], NextStamps(w, es[0], stamps))
  }

  /** The time from the first of them to the last, leaving out steps of two seconds or more, and steps back. */
  function Published(stamps: seq<Stamp>): nat {
    var n := |stamps|;
    if n < 2 then 0
    else
      var (a, b) := (stamps[n - 2].raw, stamps[n - 1].raw);
      var delta := if 0 < a < b then Timestamp.DeltaMs(a, b, stamps[n - 1].rate) else 0;
      Published(stamps[..n - 1]) + if delta < 2000 then delta else 0
  }

  /** What the session remembers of them. */
  predicate Remembers(s: Session, stamps: seq<Stamp>) {
    s.accMs == Published(stamps) && s.lastVideoTs == if stamps == [] then 0 else stamps[|stamps| - 1].raw
  }

  lemma PublishedMore(stamps: seq<Stamp>, f: MediaFrame)
    ensures var last := if stamps == [] then 0 else stamps[|stamps| - 1].raw;
      var delta := if 0 < last < f.timestamp then Timestamp.DeltaMs(last, f.timestamp, f.clockRate) else 0;
      Published(stamps + [Stamp(f.timestamp, f.clockRate)]) == Published(stamps) + if delta < 2000 then delta else 0
  {
    assert (stamps + [Stamp(f.timestamp, f.clockRate)])[..|stamps|] == stamps;
    hide Timestamp.DeltaMs;
  }

  lemma ReceivedRemembers(s: Session, f: MediaFrame, stamps: seq<Stamp>)
    requires Remembers(s, stamps)
    ensures Remembers(Received(s, f), if IsVideo(f.codec) then stamps + [Stamp(f.timestamp, f.clockRate)] else stamps)
  {
    PublishedMore(stamps, f);
    hide Timestamp.DeltaMs, Published;
  }

  lemma StepRemembers(w: World, e: Event, stamps: seq<Stamp>)
    requires Remembers(w.session, stamps)
    ensures Remembers(Step(w, e).session, NextStamps(w, e, stamps))
  {
    if e.Arrive? && Accepted(w.session, e.frame) {
      var r := Received(w.session, e.frame);
      ReceivedRemembers(w.session, e.frame, stamps);
      SplitOnKeyframe(r, ViewOf(w.playlist), e.frame);
      MuxedKeeps(r, e.frame);
      MuxedKeeps(Reopened(r), e.frame);
      KeyIsVideo(e.frame);
      hide Received, Muxed, ShouldSplit, Evaluated, IsHlsKeyframe, Published, RunState, M3u8.Added;
      assert Published([]) == 0 by {
        NothingPublished();
      }
    } else {
      hide Published, RunState, IsHlsKeyframe;
      NothingPublished();
    }
  }

  lemma KeyIsVideo(f: MediaFrame)
    ensures IsHlsKeyframe(f) ==> IsVideo(f.codec)
  {
  }

  lemma NothingPublished()
    ensures Published([]) == 0
  {
  }

  lemma MuxedKeeps(s: Session, f: MediaFrame)
    ensures Muxed(s, f).accMs == s.accMs && Muxed(s, f).lastVideoTs == s.lastVideoTs
  {
    hide MuxTime, IsHlsKeyframe;
  }

  lemma {:induction false} RunRemembers(w: World, es: seq<Event>, stamps: seq<Stamp>)
    requires Remembers(w.session, stamps)
    ensures Remembers(Run(w, es).session, Stamps(w, es, stamps))
    decreases |es|
  {
    hide Step, NextStamps, Remembers;
    if es != [] {
      StepRemembers(w, es[0], stamps);
      RunRemembers(Step(w, es[0]), es[1..], NextStamps(w, es[0], stamps));
    }
  }

  lemma {:induction false} RunClocked(w: World, es: seq<Event>)
    requires Clocks(w.session)
    ensures Clocks(Run(w, es).session)
    decreases |es|
  {
    hide Step, Clocks;
    if es != [] {
      StepClocks(w, es[0]);
      RunClocked(Step(w, es[0]), es[1..]);
    }
  }

  /** In every run, for a target that is not negative: a frame closes the open segment if and only if it is an accepted
      key frame that finds video time and more than 512 bytes in it, and the session's time since it was opened, or the
      publisher's time over its frames and this one, reaches 85% of the target, or of 0.35 s while none is listed. */
  lemma ClosesIff(target: real, maxSegments: nat, es: seq<Event>, f: MediaFrame)
    requires target >= 0.0
    ensures var w0 := NewWorld(target, maxSegments);
      var (w, stamps) := (Run(w0, es), Stamps(w0, es, []));
      var (s, goal) := (w.session, if |w.playlist.segments| == 0 then 0.35 else target);
      FrameStep(s, ViewOf(w.playlist), f).1.Some?
      <==> Accepted(s, f) && IsHlsKeyframe(f) && s.openAtSplit < s.videoMux && 188 * |RunPackets(s.base, s.ops)| > 512
           && ((s.videoMux - s.openAtSplit) as real / 1000.0 >= goal * 0.85
               || Published(stamps + [Stamp(f.timestamp, f.clockRate)]) as real / 1000.0 >= goal * 0.85)
  {
    var w0 := NewWorld(target, maxSegments);
    RunRemembers(w0, es, []);
    RunClocked(w0, es);
    KeepsTarget(w0, es);
    var (w, stamps) := (Run(w0, es), Stamps(w0, es, []));
    var s := w.session;
    KeyIsVideo(f);
    if Accepted(s, f) {
      ReceivedClocks(s, f);
      ReceivedRemembers(s, f, stamps);
      var e := Evaluated(Received(s, f), ViewOf(w.playlist), f);
      SplitIff(e, target);
      hide Run, Stamps, Received, ShouldSplit, Published, RunPackets, IsHlsKeyframe, NoFrames, Muxed, Reopened;
    }
    hide Accepted, Run, Stamps, IsHlsKeyframe, Published, RunPackets;
  }

  lemma {:induction false} KeepsTarget(w: World, es: seq<Event>)
    ensures Run(w, es).playlist.target == w.playlist.target
    decreases |es|
  {
    hide FrameStep;
    if es != [] {
      KeepsTarget(Step(w, es[0]), es[1..]);
    }
  }
}
