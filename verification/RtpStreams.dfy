/**
  * Streams of access units, sent one after the other by the RTSP packetizer and received by the RTP ingest. A unit that
  * ends in a parameter set waits in the batch until the next unit moves the timestamp; one that keeps it joins it.
  */
module RtpStreams {
  import opened Bytes
  import opened H264Util
  import opened RtspPacketizer
  import opened H264RtpIngest
  import opened IngestDelivery
  import opened RtpEndToEnd

  /** An access unit as sent: its NALs and its timestamp. */
  datatype Unit = Unit(nals: seq<seq<byte>>, timestamp: u32)

  ghost predicate SendableUnits(units: seq<Unit>) {
    forall u <- units :: u.nals != [] && SendableNals(u.nals)
  }

  /** The packets of the units, one after the other under consecutive sequence numbers. */
  function Sent(payloadType: byte, ssrc: u32, sequence: u16, units: seq<Unit>): seq<seq<byte>>
    decreases |units|
  {
    if units == [] then []
    else
      var u := units[0];
      var packets := Packets(Flow(payloadType, u.timestamp, ssrc), sequence, true, AuPayloads(NalsOf(Join(u.nals))));
      packets + Sent(payloadType, ssrc, Later(sequence, |packets|), units[1..])
  }

  // ---------------------------------------------------------------- what a stream publishes

  /** Kept NALs that wait for their frame to be closed, if there are any. */
  datatype Waiting = Waiting(kept: seq<seq<byte>>, timestamp: u32)

  const Nothing := Waiting([], 0)

  /** The frame of kept NALs, if there is a slice among them. */
  function FrameOf(w: Waiting): seq<AccessUnit> {
    if HasNalType(w.kept, 1) || HasNalType(w.kept, 5)
    then [AccessUnit(w.timestamp, Join(w.kept), HasNalType(w.kept, 5))] else []
  }

  /** What waits belongs to another timestamp. */
  predicate Overtaken(w: Waiting, u: Unit) {
    w.kept != [] && w.timestamp != u.timestamp && KeptNals(u.nals) != []
  }

  /** The frames a unit closes, and what waits behind it. */
  function UnitStep(w: Waiting, u: Unit): (seq<AccessUnit>, Waiting)
    requires u.nals != []
  {
    var kept := KeptNals(u.nals);
    var (closed, before) := if Overtaken(w, u) then (FrameOf(w), []) else ([], w.kept);
    var now := if kept == [] then w else Waiting(before + kept, u.timestamp);
    if Dropped(u.nals[|u.nals| - 1]) then (closed, now) else (closed + FrameOf(now), Nothing)
  }

  function AllFrames(w: Waiting, units: seq<Unit>): (seq<AccessUnit>, Waiting)
    requires forall u <- units :: u.nals != []
    decreases |units|
  {
    if units == [] then ([], w)
    else
      var (frames, w1) := UnitStep(w, units[0]);
      var (more, w2) := AllFrames(w1, units[1..]);
      (frames + more, w2)
  }

  // ---------------------------------------------------------------- one unit

  /** The batch holds exactly what waits. */
  ghost predicate Holds(st: State, w: Waiting) {
    && SendableNals(w.kept) && w.kept == KeptNals(w.kept)
    && if w.kept == [] then Idle(st)
       else st.batch == Group(w.timestamp, PartPerNal(w.kept), HasNalType(w.kept, 5))
  }

  /** The first kept NAL of a new timestamp closes the batch. */
  function Cleared(st: State, u: Unit): State {
    if !SameUnit(st.batch, u.timestamp) && KeptNals(u.nals) != [] then Flush(st) else st
  }

  lemma ClearedFirst(st: State, nal: seq<byte>, timestamp: u32, marker: bool)
    requires nal != [] && !Dropped(nal) && !SameUnit(st.batch, timestamp)
    ensures Kept(st, nal, timestamp, marker) == Kept(Flush(st), nal, timestamp, marker)
    ensures SameUnit(Flush(st).batch, timestamp)
  {
    hide Join;
  }

  /** The packets of an access unit, whatever waits in the batch. */
  lemma {:induction false} UnitIngested(st: State, nals: seq<seq<byte>>, sequence: u16, timestamp: u32)
    requires SendableNals(nals) && nals != [] && Ready(st, sequence)
    ensures SameWork(Run(st, Infos(sequence, timestamp, true, AuPayloads(nals))),
                     AuWork(Cleared(st, Unit(nals, timestamp)), nals, timestamp))
    decreases |nals|
  {
    hide Sendable, NalPayloads, Run, Infos, Kept, Later, Flush, Grown, Dropped, AuWork;
    SendableFacts(nals);
    var nal, rest := nals[0], nals[1..];
    if SameUnit(st.batch, timestamp) {
      AccessUnitIngested(st, nals, sequence, timestamp);
    } else {
      NalIngested(st, nal, sequence, timestamp, rest == []);
      assert rest == [] ==> nals == [nal] && AuPayloads(nals) == NalPayloads(nal) + [] == NalPayloads(nal);
      if rest == [] {
        OneUnit(st, nal, timestamp);
      } else {
        var next := Run(st, Infos(sequence, timestamp, false, NalPayloads(nal)));
        var behind := Later(sequence, |NalPayloads(nal)|);
        AuPayloadsNonEmpty(rest);
        InfosAppend(sequence, timestamp, true, NalPayloads(nal), AuPayloads(rest));
        RunAppend(st, Infos(sequence, timestamp, false, NalPayloads(nal)),
                  Infos(behind, timestamp, true, AuPayloads(rest)));
        UnitIngested(next, rest, behind, timestamp);
        ClearedCons(st, next, nals, timestamp);
      }
    }
  }

  lemma OneUnit(st: State, nal: seq<byte>, timestamp: u32)
    requires Sendable(nal) && !SameUnit(st.batch, timestamp)
    ensures nal != [] && SameWork(Kept(st, nal, timestamp, true),
                                  AuWork(Cleared(st, Unit([nal], timestamp)), [nal], timestamp))
  {
    assert nal != [];
    hide Sendable, HasNalType, Join;
    assert [nal][1..] == [];
    if Dropped(nal) {
      assert KeptNals([nal]) == [] + KeptNals([]) == [];
    } else {
      assert KeptNals([nal]) == [nal] + KeptNals([]) == [nal];
      ClearedFirst(st, nal, timestamp, true);
      LastGrows(Flush(st), nal, timestamp);
    }
  }

  lemma ClearedCons(st: State, next: State, nals: seq<seq<byte>>, timestamp: u32)
    requires |nals| > 1 && Sendable(nals[0]) && nals[0] != [] && !SameUnit(st.batch, timestamp)
    requires SameWork(next, Kept(st, nals[0], timestamp, false))
    ensures SameWork(AuWork(Cleared(next, Unit(nals[1..], timestamp)), nals[1..], timestamp),
                     AuWork(Cleared(st, Unit(nals, timestamp)), nals, timestamp))
  {
    var nal, rest := nals[0], nals[1..];
    hide Sendable, HasNalType, Join;
    assert rest[|rest| - 1] == nals[|nals| - 1];
    if Dropped(nal) {
      assert KeptNals(nals) == [] + KeptNals(rest) == KeptNals(rest);
      ClearedWork(next, st, rest, nals, timestamp);
    } else {
      assert KeptNals(nals) == [nal] + KeptNals(rest) != [];
      ClearedFirst(st, nal, timestamp, false);
      KeptGrows(Flush(st), nal, timestamp);
      AuWorkCons(Flush(st), next, nals, timestamp);
    }
  }

  lemma ClearedWork(s: State, t: State, a: seq<seq<byte>>, b: seq<seq<byte>>, timestamp: u32)
    requires SameWork(s, t) && a != [] && b != [] && KeptNals(a) == KeptNals(b) && a[|a| - 1] == b[|b| - 1]
    ensures SameWork(AuWork(Cleared(s, Unit(a, timestamp)), a, timestamp),
                     AuWork(Cleared(t, Unit(b, timestamp)), b, timestamp))
  {
    hide KeptNals, HasNalType, Dropped;
  }

  lemma {:induction false} KeptJoin(a: seq<seq<byte>>, b: seq<seq<byte>>)
    ensures KeptNals(a + b) == KeptNals(a) + KeptNals(b)
    ensures PartPerNal(a + b) == PartPerNal(a) + PartPerNal(b)
  {
    hide Dropped, Join;
    if a == [] {
      assert a + b == b;
    } else {
      assert (a + b)[1..] == a[1..] + b;
      KeptJoin(a[1..], b);
      Assoc(if Dropped(a[0]) then [] else [a[0]], KeptNals(a[1..]), KeptNals(b));
      Assoc([Join([a[0]])], PartPerNal(a[1..]), PartPerNal(b));
    }
  }

  lemma {:induction false} KeptTwice(nals: seq<seq<byte>>)
    ensures KeptNals(KeptNals(nals)) == KeptNals(nals)
  {
    hide Dropped;
    if nals != [] {
      KeptTwice(nals[1..]);
      var one := if Dropped(nals[0]) then [] else [nals[0]];
      KeptJoin(one, KeptNals(nals[1..]));
      assert one != [] ==> one[1..] == [] && KeptNals(one) == one + [] == one;
    }
  }

  lemma SendableJoin(a: seq<seq<byte>>, b: seq<seq<byte>>)
    requires SendableNals(a) && SendableNals(b)
    ensures SendableNals(a + b)
  {
    hide Sendable;
  }

  /** More kept NALs of the same timestamp join what waits. */
  lemma WaitingGrows(st: State, w: Waiting, kept: seq<seq<byte>>, timestamp: u32)
    requires Holds(st, w) && kept != [] && SendableNals(kept) && kept == KeptNals(kept)
    ensures var all := w.kept + kept;
      && Grown(st.batch, kept, timestamp) == Group(timestamp, PartPerNal(all), HasNalType(all, 5))
      && SendableNals(all) && KeptNals(all) == all
  {
    KeptJoin(w.kept, kept);
    SendableJoin(w.kept, kept);
    TypeInEither(w.kept, kept, 5);
    NoTypes(5);
    hide KeptNals, HasNalType, SendableNals;
    if w.kept == [] {
      assert PartPerNal(w.kept) == [];
      assert [] + PartPerNal(kept) == PartPerNal(kept);
    }
  }

  /** A closed batch comes out as the frame of its NALs. */
  lemma GroupPublished(flushed: seq<Group>, w: Waiting)
    requires w.kept != [] && SendableNals(w.kept)
    ensures var group := Group(w.timestamp, PartPerNal(w.kept), HasNalType(w.kept, 5));
      Published(flushed + [group]) == Published(flushed) + FrameOf(w)
  {
    var group := Group(w.timestamp, PartPerNal(w.kept), HasNalType(w.kept, 5));
    PartsConcat(w.kept);
    SendableFacts(w.kept);
    JoinedTypes(w.kept);
    PublishedAppend(flushed, [group]);
    PublishedOne(group);
    hide HasNalType, Join, ContainsVcl, IsKeyframeAnnexB, Published, PartPerNal, SendableNals;
  }

  lemma NothingWaits(st: State)
    requires Idle(st)
    ensures Holds(st, Nothing) && FrameOf(Nothing) == []
  {
    NoTypes(1);
    NoTypes(5);
    assert KeptNals([]) == [];
  }

  lemma {:induction false} LastKept(nals: seq<seq<byte>>)
    requires nals != [] && KeptNals(nals) == []
    ensures Dropped(nals[|nals| - 1])
  {
    hide Dropped;
    if |nals| > 1 {
      assert KeptNals(nals[1..]) == [];
      LastKept(nals[1..]);
    }
  }

  /** The batch as the unit finds it: what waited is published first if the unit overtakes it. */
  lemma ClearedHolds(st: State, w: Waiting, u: Unit)
    requires Holds(st, w)
    ensures Overtaken(w, u) ==>
      Holds(Cleared(st, u), Nothing) && Published(Cleared(st, u).flushed) == Published(st.flushed) + FrameOf(w)
    ensures !Overtaken(w, u) ==> Cleared(st, u) == st
  {
    hide KeptNals, HasNalType, Published, FrameOf;
    if Overtaken(w, u) {
      PartsExist(w.kept);
      GroupPublished(st.flushed, w);
      NothingWaits(Flush(st));
    } else if w.kept == [] {
      assert SameUnit(st.batch, u.timestamp);
    }
  }

  lemma KeptPublished(st: State, next: State, w: Waiting, u: Unit)
    requires Holds(st, w) && u.nals != [] && SendableNals(u.nals) && KeptNals(u.nals) != []
    requires SameWork(next, AuWork(st, u.nals, u.timestamp))
    ensures var now := Waiting(w.kept + KeptNals(u.nals), u.timestamp);
      if Dropped(u.nals[|u.nals| - 1]) then next.flushed == st.flushed && Holds(next, now)
      else Published(next.flushed) == Published(st.flushed) + FrameOf(now) && Holds(next, Nothing)
  {
    var kept := KeptNals(u.nals);
    KeptFacts(u.nals);
    KeptTwice(u.nals);
    WaitingGrows(st, w, kept, u.timestamp);
    var now := Waiting(w.kept + kept, u.timestamp);
    PartsExist(now.kept);
    GroupPublished(st.flushed, now);
    hide KeptNals, HasNalType, Published, FrameOf, PartPerNal, SendableNals, Dropped, Grown;
    if !Dropped(u.nals[|u.nals| - 1]) {
      NothingWaits(next);
    }
  }

  lemma UnitPublished(st: State, next: State, w: Waiting, u: Unit)
    requires Holds(st, w) && u.nals != [] && SendableNals(u.nals)
    requires SameWork(next, AuWork(Cleared(st, u), u.nals, u.timestamp))
    ensures var (frames, w') := UnitStep(w, u);
      Published(next.flushed) == Published(st.flushed) + frames && Holds(next, w')
  {
    hide HasNalType, Published, FrameOf, PartPerNal, SendableNals, Dropped;
    assert Published(st.flushed) + [] == Published(st.flushed);
    if KeptNals(u.nals) == [] {
      LastKept(u.nals);
    } else {
      ClearedHolds(st, w, u);
      hide KeptNals, AuWork, Cleared, Holds, SameWork;
      var before := if Overtaken(w, u) then Nothing else w;
      KeptPublished(Cleared(st, u), next, before, u);
      var closed := if Overtaken(w, u) then FrameOf(w) else [];
      var now := Waiting(before.kept + KeptNals(u.nals), u.timestamp);
      Assoc(Published(st.flushed), closed, FrameOf(now));
    }
  }

  // ---------------------------------------------------------------- the stream

  /** The packets of one unit, from a batch in which anything may wait. */
  lemma UnitDelivered(st: State, w: Waiting, u: Unit, payloadType: byte, ssrc: u32, sequence: u16)
    requires payloadType < 0x80 && u.nals != [] && SendableNals(u.nals)
    requires Ready(st, sequence) && Holds(st, w)
    ensures var packets := Packets(Flow(payloadType, u.timestamp, ssrc), sequence, true,
                                   AuPayloads(NalsOf(Join(u.nals))));
      var next := IngestAll(st, packets);
      var (frames, w') := UnitStep(w, u);
      && Published(next.flushed) == Published(st.flushed) + frames && Holds(next, w')
      && Ready(next, Later(sequence, |packets|))
  {
    hide *;
    SendableFacts(u.nals);
    SplitJoined(u.nals);
    SentPayloadsNonEmpty(u.nals);
    PacketsAsInfos(st, Flow(payloadType, u.timestamp, ssrc), sequence, true, AuPayloads(u.nals));
    UnitIngested(st, u.nals, sequence, u.timestamp);
    AuPayloadsNonEmpty(u.nals);
    ExpectsBehind(st, sequence, u.timestamp, AuPayloads(u.nals));
    var next := IngestAll(st, Packets(Flow(payloadType, u.timestamp, ssrc), sequence, true, AuPayloads(u.nals)));
    assert u == Unit(u.nals, u.timestamp);
    UnitPublished(st, next, w, u);
    NowReady(next, Later(sequence, |AuPayloads(u.nals)|));
  }

  lemma NowReady(st: State, sequence: u16)
    requires st.expectedSeq == Some(sequence)
    ensures Ready(st, sequence)
  {
  }

  lemma {:induction false} IngestAppend(st: State, a: seq<seq<byte>>, b: seq<seq<byte>>)
    ensures IngestAll(st, a + b) == IngestAll(IngestAll(st, a), b)
    decreases |a|
  {
    hide IngestPacket;
    if a == [] {
      assert a + b == b;
    } else {
      assert (a + b)[1..] == a[1..] + b;
      IngestAppend(IngestPacket(st, a[0]), a[1..], b);
    }
  }

  /** Any stream of access units comes out as `AllFrames` says, whatever waited before, and the ingest is left waiting
      for the rest and for the next packet. */
  lemma {:induction false} UnitsDelivered(st: State, w: Waiting, units: seq<Unit>, payloadType: byte, ssrc: u32,
                                          sequence: u16)
    requires payloadType < 0x80 && SendableUnits(units) && Ready(st, sequence) && Holds(st, w)
    ensures forall u <- units :: u.nals != []
    ensures var packets := Sent(payloadType, ssrc, sequence, units);
      var next := IngestAll(st, packets);
      var (frames, w') := AllFrames(w, units);
      && Published(next.flushed) == Published(st.flushed) + frames
      && Ready(next, Later(sequence, |packets|)) && Holds(next, w')
    decreases |units|
  {
    hide Published, FrameOf, Packets, IngestPacket, SendableNals, Holds, NalsOf, AuPayloads, Later, UnitStep;
    if units == [] {
      LaterZero(sequence);
      assert Published(st.flushed) + [] == Published(st.flushed);
    } else {
      var u := units[0];
      var packets := Packets(Flow(payloadType, u.timestamp, ssrc), sequence, true, AuPayloads(NalsOf(Join(u.nals))));
      UnitDelivered(st, w, u, payloadType, ssrc, sequence);
      var next, behind := IngestAll(st, packets), Later(sequence, |packets|);
      var (frames, w1) := UnitStep(w, u);
      assert SendableUnits(units[1..]);
      UnitsDelivered(next, w1, units[1..], payloadType, ssrc, behind);
      var rest := Sent(payloadType, ssrc, behind, units[1..]);
      IngestAppend(st, packets, rest);
      LaterLater(sequence, |packets|, |rest|);
      Assoc(Published(st.flushed), frames, AllFrames(w1, units[1..]).0);
    }
  }

  // ---------------------------------------------------------------- one frame per unit, at once or one unit later

  /** A new timestamp for every unit that keeps anything. */
  predicate Moves(w: Waiting, units: seq<Unit>)
    requires forall u <- units :: u.nals != []
    decreases |units|
  {
    units == []
    || ((KeptNals(units[0].nals) != [] && w.kept != [] ==> w.timestamp != units[0].timestamp)
        && Moves(UnitStep(w, units[0]).1, units[1..]))
  }

  /** The frames of the units, each from its own kept NALs. */
  function OwnFrames(units: seq<Unit>): seq<AccessUnit> {
    if units == [] then [] else FramesOf(units[0].nals, units[0].timestamp) + OwnFrames(units[1..])
  }

  lemma NoFrame(w: Waiting)
    requires w.kept == []
    ensures FrameOf(w) == []
  {
  }

  /** A unit that keeps something and moves the timestamp closes what waited, and itself unless it ends in a parameter
      set. */
  lemma StepFrames(w: Waiting, u: Unit)
    requires u.nals != [] && KeptNals(u.nals) != [] && (w.kept != [] ==> w.timestamp != u.timestamp)
    ensures var (frames, w') := UnitStep(w, u);
      var own := FramesOf(u.nals, u.timestamp);
      if Dropped(u.nals[|u.nals| - 1]) then frames == FrameOf(w) && FrameOf(w') == own && w'.kept != []
      else frames == FrameOf(w) + own && w' == Nothing
  {
    hide KeptNals, HasNalType, Dropped;
    var kept := KeptNals(u.nals);
    NoFrame(Nothing);
    assert FramesOf(u.nals, u.timestamp) == FrameOf(Waiting(kept, u.timestamp));
    hide FramesOf;
    assert [] + kept == kept;
    if w.kept == [] {
      NoFrame(w);
      assert w.kept + kept == kept;
    }
    hide FrameOf;
  }

  lemma StepConserves(w: Waiting, u: Unit)
    requires u.nals != [] && (KeptNals(u.nals) != [] && w.kept != [] ==> w.timestamp != u.timestamp)
    ensures var (frames, w') := UnitStep(w, u);
      frames + FrameOf(w') == FrameOf(w) + FramesOf(u.nals, u.timestamp)
  {
    NoFrame(Nothing);
    if KeptNals(u.nals) == [] {
      LastKept(u.nals);
      NoFrame(Waiting(KeptNals(u.nals), u.timestamp));
      assert FramesOf(u.nals, u.timestamp) == FrameOf(Waiting(KeptNals(u.nals), u.timestamp));
      hide FrameOf, FramesOf;
      assert [] + FrameOf(w) == FrameOf(w) + [];
    } else {
      StepFrames(w, u);
      hide UnitStep, FrameOf, FramesOf, KeptNals, Dropped;
      var own := FramesOf(u.nals, u.timestamp);
      assert (FrameOf(w) + own) + [] == FrameOf(w) + own;
    }
  }

  /** With a new timestamp for every unit no frame is lost, merged or reordered: what is published and then what waits
      are the units' own frames, in order. So a unit that ends in a parameter set comes out one unit later. */
  lemma {:induction false} FramesInOrder(w: Waiting, units: seq<Unit>)
    requires (forall u <- units :: u.nals != []) && Moves(w, units)
    ensures var (frames, w') := AllFrames(w, units);
      frames + FrameOf(w') == FrameOf(w) + OwnFrames(units)
    decreases |units|
  {
    hide UnitStep, FrameOf, FramesOf, KeptNals;
    if units == [] {
      assert [] + FrameOf(w) == FrameOf(w) + [];
    } else {
      var (frames, w1) := UnitStep(w, units[0]);
      StepConserves(w, units[0]);
      FramesInOrder(w1, units[1..]);
      var (more, w2) := AllFrames(w1, units[1..]);
      var own, rest := FramesOf(units[0].nals, units[0].timestamp), OwnFrames(units[1..]);
      assert (frames + more) + FrameOf(w2) == frames + (more + FrameOf(w2)) == frames + (FrameOf(w1) + rest)
          == (frames + FrameOf(w1)) + rest == (FrameOf(w) + own) + rest == FrameOf(w) + (own + rest);
    }
  }

  /** Of two units that keep something, the first comes out as it is sent if it does not end in a parameter set, and
      only with the second if it does. */
  lemma OneUnitLater(u: Unit, v: Unit)
    requires u.nals != [] && v.nals != [] && KeptNals(u.nals) != [] && KeptNals(v.nals) != []
        && u.timestamp != v.timestamp
    ensures AllFrames(Nothing, [u]).0 ==
      if Dropped(u.nals[|u.nals| - 1]) then [] else FramesOf(u.nals, u.timestamp)
    ensures AllFrames(Nothing, [u, v]).0 == FramesOf(u.nals, u.timestamp)
      + if Dropped(v.nals[|v.nals| - 1]) then [] else FramesOf(v.nals, v.timestamp)
  {
    var (frames, w1) := UnitStep(Nothing, u);
    var (more, w2) := UnitStep(w1, v);
    FirstTimestamp(u);
    StepFrames(Nothing, u);
    StepFrames(w1, v);
    NoFrame(Nothing);
    hide UnitStep, FrameOf, FramesOf, Dropped, KeptNals;
    assert [u][1..] == [] && [u, v][1..] == [v] && [v][1..] == [];
    var own := FramesOf(u.nals, u.timestamp);
    assert [] + own == own && own + [] == own;
    assert AllFrames(w1, []) == ([], w1) && AllFrames(w2, []) == ([], w2);
    assert AllFrames(w1, [v]).0 == more + [] == more;
    assert AllFrames(Nothing, [u]).0 == frames + [] == frames;
    assert AllFrames(Nothing, [u, v]).0 == frames + more;
  }

  lemma FirstTimestamp(u: Unit)
    requires u.nals != [] && KeptNals(u.nals) != []
    ensures var w := UnitStep(Nothing, u).1; w.kept != [] ==> w.timestamp == u.timestamp
  {
    hide KeptNals, FrameOf, Dropped;
  }
}
