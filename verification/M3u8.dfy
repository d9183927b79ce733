/** The live playlist: a sliding window over the committed segments, numbered as RFC 8216 requires. */
module M3u8 {
  import opened Bytes

  // ---------------------------------------------------------------- file names

  function Digit(d: nat): char
    requires d < 10
  {
    '0' + d as char
  }

  function Decimal(n: nat): string {
    if n < 10 then [Digit(n)] else Decimal(n / 10) + [Digit(n % 10)]
  }

  predicate IsDigit(c: char) {
    '0' <= c <= '9'
  }

  /** The number of a string of digits. */
  function Digits(s: string): Option<nat> {
    if s == "" then None
    else
      var n := |s| - 1;
      if !IsDigit(s[n]) then None
      else
        var low := (s[n] - '0') as int;
        if n == 0 then Some(low)
        else
          match Digits(s[..n])
          case None => None
          case Some(high) => Some(10 * high + low)
  }

  /** As the standard library parses an unsigned number: one leading plus sign is allowed. */
  function ParseNumber(s: string): Option<nat> {
    if s != "" && s[0] == '+' then Digits(s[1..]) else Digits(s)
  }

  function SegmentFilename(sequence: nat): string {
    "segment_" + Decimal(sequence) + ".ts"
  }

  /** The sequence number in a file name, if it is a segment's. */
  function SequenceOf(name: string): Option<nat> {
    if |name| < 11 || name[..8] != "segment_" || name[|name| - 3..] != ".ts" then None
    else ParseNumber(name[8..|name| - 3])
  }

  lemma {:induction false} DecimalParsed(n: nat)
    ensures Digits(Decimal(n)) == Some(n) && Decimal(n) != "" && IsDigit(Decimal(n)[0])
  {
    var s := Decimal(n);
    if n >= 10 {
      DecimalParsed(n / 10);
      assert s[..|s| - 1] == Decimal(n / 10) && s[0] == Decimal(n / 10)[0];
    }
  }

  /** Every segment's name gives its number back, so no two segments share a name. */
  lemma NameRoundTrip(n: nat)
    ensures SequenceOf(SegmentFilename(n)) == Some(n)
  {
    DecimalParsed(n);
    hide Decimal, Digits;
    var name := SegmentFilename(n);
    assert name[..8] == "segment_" && name[|name| - 3..] == ".ts" && name[8..|name| - 3] == Decimal(n);
  }

  /** Three of the names. */
  lemma NamesAre()
    ensures SegmentFilename(0) == "segment_0.ts" && SegmentFilename(9) == "segment_9.ts"
    ensures SegmentFilename(120) == "segment_120.ts"
  {
    assert Decimal(1) == "1";
    assert Decimal(12) == Decimal(1) + "2" == "12";
    assert Decimal(120) == Decimal(12) + "0" == "120";
  }

  // ---------------------------------------------------------------- the playlist

  /** A committed segment. Durations are in seconds; the date is in milliseconds. */
  datatype Segment = Segment(sequence: nat, duration: real, filename: string, programDateTime: int, discontinuity: bool)

  datatype Playlist = Playlist(
    target: real, maxSegments: nat, mediaSequence: nat, segments: seq<Segment>, nextSequence: nat,
    discontinuitySequence: nat)

  function New(target: real, maxSegments: nat): Playlist {
    Playlist(target, if maxSegments < 1 then 1 else maxSegments, 0, [], 0, 0)
  }

  /** Segments marked as starting after a discontinuity. */
  function Discontinuities(segments: seq<Segment>): nat {
    if segments == [] then 0
    else Discontinuities(segments[..|segments| - 1]) + (if segments[|segments| - 1].discontinuity then 1 else 0)
  }

  /** They are counted one by one. */
  lemma {:induction false} DiscontinuitiesAre(segments: seq<Segment>)
    ensures Discontinuities(segments) == |set k | 0 <= k < |segments| && segments[k].discontinuity|
  {
    var n := |segments|;
    var marked := set k | 0 <= k < n && segments[k].discontinuity;
    if n == 0 {
      assert marked == {};
    } else {
      var front := segments[..n - 1];
      DiscontinuitiesAre(front);
      var before := set k | 0 <= k < |front| && front[k].discontinuity;
      assert marked == if segments[n - 1].discontinuity then before + {n - 1} else before;
    }
  }

  lemma {:induction false} DiscontinuitiesAppend(a: seq<Segment>, b: seq<Segment>)
    ensures Discontinuities(a + b) == Discontinuities(a) + Discontinuities(b)
    decreases |b|
  {
    if b == [] {
      assert a + b == a;
    } else {
      assert (a + b)[..|a + b| - 1] == a + b[..|b| - 1];
      DiscontinuitiesAppend(a, b[..|b| - 1]);
    }
  }

  /** What a commit leaves: the new segment at the end, and as many dropped in front as exceed the window. */
  function Added(p: Playlist, s: Segment): Playlist {
    var all := p.segments + [s];
    var drop := if |all| > p.maxSegments then |all| - p.maxSegments else 0;
    p.(segments := all[drop..], nextSequence := s.sequence + 1, mediaSequence := p.mediaSequence + drop,
       discontinuitySequence := p.discontinuitySequence + Discontinuities(all[..drop]))
  }

  /** The least whole number of seconds, but one, that covers the target and every listed duration. */
  function TargetDuration(p: Playlist): int {
    var observed := Longest(p.target, p.segments);
    var up := Ceil(observed);
    if up < 1 then 1 else up
  }

  function Ceil(x: real): int {
    -((-x).Floor)
  }

  function Longest(soFar: real, segments: seq<Segment>): real
    decreases |segments|
  {
    if segments == [] then soFar
    else Longest(if segments[0].duration > soFar then segments[0].duration else soFar, segments[1..])
  }

  class M3u8Generator {
    const targetDuration: real
    const maxSegments: nat
    var mediaSequence: nat
    var segments: seq<Segment>
    var nextSequence: nat
    var discontinuitySequence: nat

    ghost function Now(): Playlist
      reads this
    {
      Playlist(targetDuration, maxSegments, mediaSequence, segments, nextSequence, discontinuitySequence)
    }

    constructor (target: real, max: nat)
      ensures Now() == New(target, max)
    {
      targetDuration := target;
      maxSegments := if max < 1 then 1 else max;
      mediaSequence := 0;
      segments := [];
      nextSequence := 0;
      discontinuitySequence := 0;
    }

    method AddSegment(duration: real, sequence: nat, programDateTime: int, discontinuity: bool)
      modifies this
      ensures var segment := Segment(sequence, duration, SegmentFilename(sequence), programDateTime, discontinuity);
        Now() == Added(old(Now()), segment)
    {
      hide SegmentFilename;
      var segment := Segment(sequence, duration, SegmentFilename(sequence), programDateTime, discontinuity);
      ghost var all := segments + [segment];
      ghost var media, gone := mediaSequence, discontinuitySequence;
      segments := segments + [segment];
      nextSequence := sequence + 1;
      ghost var drop := 0;
      while |segments| > maxSegments
        invariant drop <= |all| && segments == all[drop..]
        invariant drop > 0 ==> |all| - maxSegments >= drop
        invariant mediaSequence == media + drop
        invariant discontinuitySequence == gone + Discontinuities(all[..drop])
        invariant nextSequence == sequence + 1
        decreases |segments|
      {
        var removed := segments[0];
        assert all[..drop + 1][..drop] == all[..drop] && all[..drop + 1][drop] == removed;
        segments := segments[1..];
        mediaSequence := mediaSequence + 1;
        if removed.discontinuity {
          discontinuitySequence := discontinuitySequence + 1;
        }
        drop := drop + 1;
      }
    }

    /** The fold over the listed durations. */
    method PlaylistTargetDuration() returns (seconds: int)
      ensures seconds == TargetDuration(Now())
    {
      var observed := targetDuration;
      assert segments[0..] == segments;
      for i := 0 to |segments|
        invariant Longest(observed, segments[i..]) == Longest(targetDuration, segments)
      {
        assert segments[i..][1..] == segments[i + 1..];
        if segments[i].duration > observed {
          observed := segments[i].duration;
        }
      }
      seconds := Ceil(observed);
      if seconds < 1 {
        seconds := 1;
      }
    }
  }

  // ---------------------------------------------------------------- target duration

  lemma {:induction false} LongestCovers(soFar: real, segments: seq<Segment>)
    ensures var m := Longest(soFar, segments);
      && m >= soFar && (forall s <- segments :: s.duration <= m)
      && (m == soFar || exists s <- segments :: s.duration == m)
    decreases |segments|
  {
    if segments != [] {
      var next := if segments[0].duration > soFar then segments[0].duration else soFar;
      LongestCovers(next, segments[1..]);
      var m := Longest(soFar, segments);
      forall s <- segments ensures s.duration <= m {
        assert s == segments[0] || s in segments[1..];
      }
      if m == next {
        assert m == soFar || segments[0].duration == m;
      } else {
        var s :| s in segments[1..] && s.duration == m;
        assert s in segments;
      }
    }
  }

  ghost predicate Covers(p: Playlist, seconds: int) {
    seconds >= 1 && seconds as real >= p.target && forall s <- p.segments :: s.duration <= seconds as real
  }

  /** The announced target duration covers every listed EXTINF, the configured target and one second, and any other
      whole number that does is at least as large. */
  lemma TargetDurationLeast(p: Playlist, other: int)
    ensures Covers(p, TargetDuration(p))
    ensures Covers(p, other) ==> TargetDuration(p) <= other
  {
    LongestCovers(p.target, p.segments);
    hide Longest;
    var m, t := Longest(p.target, p.segments), TargetDuration(p);
    assert t as real >= m;
    forall s <- p.segments ensures s.duration <= t as real {
    }
    if Covers(p, other) {
      assert other as real >= m;
    }
  }

  /** What a commit leaves of the playlist, and the segment it adds. */
  function Remaining(p: Playlist, s: Segment): seq<Segment> {
    Added(p, s).segments
  }

  lemma CoversIff(p: Playlist, seconds: int)
    ensures Covers(p, seconds) <==> seconds >= TargetDuration(p)
  {
    TargetDurationLeast(p, seconds);
    hide TargetDuration;
    var t := TargetDuration(p);
    assert Covers(p, t);
    if seconds >= t {
      forall s <- p.segments ensures s.duration <= seconds as real {
        assert s.duration <= t as real;
      }
    }
  }

  lemma RemainingCovered(p: Playlist, s: Segment, seconds: int)
    requires Covers(p, seconds) && s.duration <= seconds as real
    ensures Covers(Added(p, s), seconds)
  {
    forall x <- Added(p, s).segments ensures x.duration <= seconds as real {
      assert x in p.segments + [s];
      assert x in p.segments || x == s;
    }
  }

  /** The announced target duration is required never to change. A commit leaves it as it is exactly when the new
      segment does not exceed it and one second less would not do for what stays listed. */
  lemma TargetKeptIff(p: Playlist, s: Segment)
    requires p.maxSegments >= 1
    ensures var t := TargetDuration(p);
      TargetDuration(Added(p, s)) == t
      <==> s.duration <= t as real
           && (t == 1 || p.target > (t - 1) as real || exists x <- Remaining(p, s) :: x.duration > (t - 1) as real)
  {
    var t := TargetDuration(p);
    CoversIff(p, t);
    CoversIff(Added(p, s), t);
    CoversIff(Added(p, s), t - 1);
    if s.duration <= t as real {
      RemainingCovered(p, s, t);
    }
    NewestListed(p, s);
    hide TargetDuration, Added;
    assert Added(p, s).target == p.target by {
      SameTarget(p, s);
    }
  }

  lemma SameTarget(p: Playlist, s: Segment)
    ensures Added(p, s).target == p.target
  {
  }

  lemma NewestListed(p: Playlist, s: Segment)
    requires p.maxSegments >= 1
    ensures s in Added(p, s).segments
  {
    var all := p.segments + [s];
    var drop := if |all| > p.maxSegments then |all| - p.maxSegments else 0;
    assert all[drop..][|all| - 1 - drop] == s;
  }

  // ---------------------------------------------------------------- histories of commits

  /** Commits numbered one after the other from 0, under the names of their numbers. */
  ghost predicate InOrder(history: seq<Segment>) {
    forall k :: 0 <= k < |history| ==> history[k].sequence == k && history[k].filename == SegmentFilename(k)
  }

  function Commit(p: Playlist, history: seq<Segment>): Playlist
    decreases |history|
  {
    if history == [] then p
    else Added(Commit(p, history[..|history| - 1]), history[|history| - 1])
  }

  /** How many commits have slid out of a window after n of them. */
  function Slid(n: nat, max: nat): nat {
    if n > max then n - max else 0
  }

  /** The window a history leaves. */
  function Window(target: real, max: nat, history: seq<Segment>): Playlist
    requires max >= 1
  {
    var first := Slid(|history|, max);
    Playlist(target, max, first, history[first..], |history|, Discontinuities(history[..first]))
  }

  /** One more commit moves the window by at most one. */
  lemma WindowSlides(target: real, max: nat, history: seq<Segment>, s: Segment)
    requires max >= 1 && s.sequence == |history|
    ensures Added(Window(target, max, history), s) == Window(target, max, history + [s])
  {
    var first := Slid(|history|, max);
    if |history| < max {
      StaysOpen(history, s);
    } else {
      DropsOne(history, first, s);
    }
    hide Discontinuities;
  }

  lemma StaysOpen(history: seq<Segment>, s: Segment)
    ensures (history[0..] + [s])[0..] == (history + [s])[0..]
    ensures (history[0..] + [s])[..0] == history[..0] == (history + [s])[..0]
    ensures Discontinuities([]) == 0
  {
  }

  lemma DropsOne(history: seq<Segment>, first: nat, s: Segment)
    requires first < |history|
    ensures (history[first..] + [s])[1..] == (history + [s])[first + 1..]
    ensures Discontinuities((history + [s])[..first + 1])
         == Discontinuities(history[..first]) + Discontinuities((history[first..] + [s])[..1])
  {
    var one := [history[first]];
    assert (history[first..] + [s])[..1] == one;
    assert (history + [s])[..first + 1] == history[..first] + one;
    DiscontinuitiesAppend(history[..first], one);
  }

  /** The playlist served after a history of commits. */
  function Served(target: real, maxSegments: nat, history: seq<Segment>): Playlist {
    Commit(New(target, maxSegments), history)
  }

  /** The next commit, numbered and named as the next. */
  lemma CommitsOn(target: real, maxSegments: nat, history: seq<Segment>, s: Segment)
    requires InOrder(history) && s.sequence == |history| && s.filename == SegmentFilename(s.sequence)
    ensures InOrder(history + [s])
    ensures Served(target, maxSegments, history + [s]) == Added(Served(target, maxSegments, history), s)
  {
    hide Added, SegmentFilename, New;
    assert (history + [s])[..|history|] == history;
  }

  lemma {:induction false} CommitIsWindow(target: real, maxSegments: nat, history: seq<Segment>)
    requires InOrder(history)
    ensures Served(target, maxSegments, history) == Window(target, New(target, maxSegments).maxSegments, history)
    decreases |history|
  {
    hide Added, Window;
    var max := New(target, maxSegments).maxSegments;
    if history == [] {
      WindowOfNone(target, max);
    } else {
      var n := |history| - 1;
      CommitIsWindow(target, maxSegments, history[..n]);
      WindowSlides(target, max, history[..n], history[n]);
      assert history == history[..n] + [history[n]];
    }
  }

  lemma WindowOfNone(target: real, max: nat)
    requires max >= 1
    ensures Window(target, max, []) == New(target, max)
  {
    var none: seq<Segment> := [];
    assert none[..0] == [] && none[0..] == [];
  }

  /** After any in-order history the playlist lists its last segments, at most the maximum of them, numbered
      consecutively from the media sequence to just below the next sequence. */
  lemma HistoryIsWindow(target: real, maxSegments: nat, history: seq<Segment>)
    requires InOrder(history)
    ensures var p := Served(target, maxSegments, history);
      && p.mediaSequence == Slid(|history|, p.maxSegments) && p.nextSequence == |history|
      && p.segments == history[p.mediaSequence..] && |p.segments| <= p.maxSegments
      && p.maxSegments == (if maxSegments == 0 then 1 else maxSegments)
      && p.discontinuitySequence == Discontinuities(history[..p.mediaSequence])
      && forall k :: 0 <= k < |p.segments| ==>
           && p.segments[k].sequence == p.mediaSequence + k
           && p.segments[k].filename == SegmentFilename(p.mediaSequence + k)
  {
    CommitIsWindow(target, maxSegments, history);
    hide Served, Discontinuities, SegmentFilename;
  }

  /** The target duration of a stream never changes, over all its commits, if and only if none of its segments is longer
      than the configured target, rounded up, or one second. */
  lemma TargetNeverChangesIff(target: real, maxSegments: nat, history: seq<Segment>)
    requires InOrder(history)
    ensures var t := TargetDuration(New(target, maxSegments));
      (forall n :: 0 <= n <= |history| ==> TargetDuration(Served(target, maxSegments, history[..n])) == t)
      <==> forall s <- history :: s.duration <= t as real
  {
    var start := New(target, maxSegments);
    var t := TargetDuration(start);
    if forall s <- history :: s.duration <= t as real {
      forall n | 0 <= n <= |history| ensures TargetDuration(Served(target, maxSegments, history[..n])) == t {
        ShortSegments(target, maxSegments, history, n, t);
      }
    } else {
      var k :| 0 <= k < |history| && history[k].duration > t as real;
      LongSegment(target, maxSegments, history, k, t);
    }
  }

  lemma ShortSegments(target: real, maxSegments: nat, history: seq<Segment>, n: nat, t: int)
    requires InOrder(history) && n <= |history| && t == TargetDuration(New(target, maxSegments))
    requires forall s <- history :: s.duration <= t as real
    ensures TargetDuration(Served(target, maxSegments, history[..n])) == t
  {
    var p := Served(target, maxSegments, history[..n]);
    CommitIsWindow(target, maxSegments, history[..n]);
    CoversIff(New(target, maxSegments), t);
    CoversIff(New(target, maxSegments), TargetDuration(p));
    CoversIff(p, t);
    CoversIff(p, TargetDuration(p));
    hide TargetDuration, Served, Discontinuities, InOrder;
    forall s <- p.segments ensures s.duration <= t as real {
      assert s in history[..n];
      assert s in history;
    }
  }

  lemma LongSegment(target: real, maxSegments: nat, history: seq<Segment>, k: nat, t: int)
    requires InOrder(history) && k < |history| && history[k].duration > t as real
    ensures TargetDuration(Served(target, maxSegments, history[..k + 1])) > t
  {
    var before, p := Served(target, maxSegments, history[..k]), Served(target, maxSegments, history[..k + 1]);
    assert history[..k + 1][..k] == history[..k] && history[..k + 1][k] == history[k];
    assert p == Added(before, history[k]);
    CommitIsWindow(target, maxSegments, history[..k]);
    NewestListed(before, history[k]);
    CoversIff(p, TargetDuration(p));
    hide TargetDuration, Served, Added;
  }

  /** The absolute discontinuity number of a listed segment: those before the window and those up to it. */
  function DiscontinuityNumber(p: Playlist, k: nat): nat
    requires k < |p.segments|
  {
    p.discontinuitySequence + Discontinuities(p.segments[..k + 1])
  }

  /** A listed segment is the commit of its number, and its discontinuity number counts the commits up to it. */
  lemma NumberFromHistory(target: real, maxSegments: nat, history: seq<Segment>, k: nat)
    requires InOrder(history) && k < |Served(target, maxSegments, history).segments|
    ensures var p := Served(target, maxSegments, history);
      && p.mediaSequence + k < |history| && p.segments[k] == history[p.mediaSequence + k]
      && DiscontinuityNumber(p, k) == Discontinuities(history[..p.mediaSequence + k + 1])
  {
    hide Served, Discontinuities, DiscontinuityNumber, InOrder, New;
    var p := Served(target, maxSegments, history);
    HistoryIsWindow(target, maxSegments, history);
    var first := p.mediaSequence;
    assert first <= |history| && p.segments == history[first..];
    assert p.segments[k] == history[first + k];
    CountedUpTo(history, first, k);
    NumberIs(p, k);
  }

  lemma NumberIs(p: Playlist, k: nat)
    requires k < |p.segments|
    ensures DiscontinuityNumber(p, k) == p.discontinuitySequence + Discontinuities(p.segments[..k + 1])
  {
    hide Discontinuities;
  }

  lemma CountedUpTo(history: seq<Segment>, first: nat, k: nat)
    requires first + k < |history|
    ensures Discontinuities(history[..first + k + 1])
         == Discontinuities(history[..first]) + Discontinuities(history[first..][..k + 1])
  {
    hide Discontinuities;
    DiscontinuitiesAppend(history[..first], history[first..][..k + 1]);
    assert history[..first] + history[first..][..k + 1] == history[..first + k + 1];
  }

  /** While the window slides over later commits, a segment that stays listed stays what it was and keeps its number. */
  lemma NumbersNeverChange(target: real, maxSegments: nat, history: seq<Segment>, later: seq<Segment>, j: nat, k: nat)
    requires InOrder(history + later)
    requires j < |Served(target, maxSegments, history).segments|
    requires k < |Served(target, maxSegments, history + later).segments|
    requires Served(target, maxSegments, history).mediaSequence + j
          == Served(target, maxSegments, history + later).mediaSequence + k
    ensures var p, q := Served(target, maxSegments, history), Served(target, maxSegments, history + later);
      && p.segments[j] == q.segments[k] && DiscontinuityNumber(p, j) == DiscontinuityNumber(q, k)
  {
    InOrderPrefix(history, later);
    NumberFromHistory(target, maxSegments, history, j);
    NumberFromHistory(target, maxSegments, history + later, k);
    hide Served, Discontinuities, DiscontinuityNumber, InOrder;
    var n := Served(target, maxSegments, history).mediaSequence + j;
    assert (history + later)[..n + 1] == history[..n + 1] && (history + later)[n] == history[n];
  }

  lemma InOrderPrefix(history: seq<Segment>, later: seq<Segment>)
    requires InOrder(history + later)
    ensures InOrder(history)
  {
    forall k | 0 <= k < |history| ensures history[k].sequence == k && history[k].filename == SegmentFilename(k) {
      assert (history + later)[k] == history[k];
    }
  }

  // ---------------------------------------------------------------- pruning

  /** The files a commit prunes: those numbered below this; none when it is 0. */
  function PruneBefore(sequence: nat, max: nat): nat {
    if sequence >= max + 2 then sequence - (max + 2) else 0
  }

  /** The files of the output directory that the commit removes. */
  predicate Pruned(name: string, latest: nat, max: nat) {
    SequenceOf(name).Some? && SequenceOf(name).value < PruneBefore(latest, max)
  }

  /** The commit that ends a history removes exactly the segment files older than the playlist that stood three commits
      before, so never one that is listed. */
  lemma PruneSparesWindowIff(target: real, maxSegments: nat, history: seq<Segment>, sequence: nat)
    requires InOrder(history) && history != []
    ensures var p, latest := Served(target, maxSegments, history), history[|history| - 1].sequence;
      && (Pruned(SegmentFilename(sequence), latest, p.maxSegments)
          <==> sequence < Served(target, maxSegments, history[..Slid(|history|, 3)]).mediaSequence)
      && (forall k :: 0 <= k < |p.segments| ==> !Pruned(p.segments[k].filename, latest, p.maxSegments))
  {
    PruneMark(target, maxSegments, history);
    HistoryIsWindow(target, maxSegments, history);
    hide Served, Discontinuities, SegmentFilename, Pruned, InOrder, New, PruneBefore;
    var p, latest := Served(target, maxSegments, history), history[|history| - 1].sequence;
    PrunedIff(sequence, latest, p.maxSegments);
    forall k | 0 <= k < |p.segments| ensures !Pruned(p.segments[k].filename, latest, p.maxSegments) {
      PrunedIff(p.mediaSequence + k, latest, p.maxSegments);
    }
  }

  lemma PruneMark(target: real, maxSegments: nat, history: seq<Segment>)
    requires InOrder(history) && history != []
    ensures var p := Served(target, maxSegments, history);
      PruneBefore(history[|history| - 1].sequence, p.maxSegments)
      == Served(target, maxSegments, history[..Slid(|history|, 3)]).mediaSequence <= p.mediaSequence
  {
    var before := history[..Slid(|history|, 3)];
    HistoryIsWindow(target, maxSegments, history);
    HistoryIsWindow(target, maxSegments, before);
    assert history[|history| - 1].sequence == |history| - 1;
    hide Served, Discontinuities, SegmentFilename, InOrder, New;
  }

  lemma PrunedIff(sequence: nat, latest: nat, max: nat)
    ensures Pruned(SegmentFilename(sequence), latest, max) <==> sequence < PruneBefore(latest, max)
  {
    NameRoundTrip(sequence);
    hide SegmentFilename, SequenceOf;
  }
}
