/** Route epochs and their adjudication: the metadata-only coherence report of one session. */
module Coherence {
  import opened Prelude
  import opened SessionIds
  import opened Records
  import opened SlidingWindow
  import opened Retransmits
  import opened HealthPolicy
  import opened PeerTracking
  import opened Sorting
  import opened Registry
  import opened RecordLog
  import opened RegistryRuns
  import opened RegistryProperties
  import Text

  /** The redacting digest of an endpoint value, about which nothing is assumed. */
  type Digest = string -> string

  /** Blank endpoints have no label. */
  function EndpointLabel(digest: Digest, value: Option<string>): Option<string> {
    if value.None? || Text.Trim(value.value) == [] then None else Some(digest(value.value))
  }

  /** One sample of the route. The original also notes whether latency was measured, and never reads it. */
  datatype Point = Point(at: int, endpoint: Option<string>, liveness: bool, packets: bool)

  datatype Snapshot = Snapshot(summary: Summary, total: nat, truncated: nat, history: seq<MetricPoint>)

  datatype Epoch = Epoch(index: nat, start: int, end: int, count: nat, endpoint: Option<string>)

  datatype Continuity = Continuity(
    stableIdentity: bool, epochCount: nat, shiftCount: nat, historyCount: nat, maxGapMs: Option<int>,
    recovery: bool, liveness: bool, packets: bool, retransmits: bool)

  datatype Decision = RoamingObserved | ObservedWithoutRoaming | InsufficientSignal

  datatype Report = Report(epochs: seq<Epoch>, continuity: Continuity, score: real, decision: Decision)

  function HistoryPoint(digest: Digest, p: MetricPoint): Point {
    Point(p.unixMs, EndpointLabel(digest, p.clientAddr), p.remoteStateAgeMs.Some?, false)
  }

  /** What stands in for an empty history. */
  function SummaryPoint(digest: Digest, s: Summary): Point {
    Point(s.lastObserved,
          EndpointLabel(digest, OrElse(OrElse(s.peer.current, s.peer.last), s.clientAddr)),
          s.metrics.reading.lastHeardAgeMs.Some? || s.metrics.reading.remoteStateAgeMs.Some?,
          s.metrics.reading.counters.packetsTx.Some? || s.metrics.reading.counters.packetsRx.Some?)
  }

  function Points(digest: Digest, snapshot: Snapshot): (r: seq<Point>)
    ensures r != []
  {
    if snapshot.history == [] then [SummaryPoint(digest, snapshot.summary)]
    else seq(|snapshot.history|, i requires 0 <= i < |snapshot.history| => HistoryPoint(digest, snapshot.history[i]))
  }

  // ----- The stable sort by time -----

  predicate NoLater(a: Point, b: Point) { a.at <= b.at }

  function SortedPoints(digest: Digest, snapshot: Snapshot): seq<Point> { Sorted(Points(digest, snapshot), NoLater) }

  /** The points of one instant, in the order given. */
  function AtTime(s: seq<Point>, t: int): seq<Point> {
    if s == [] then []
    else if s[0].at == t then [s[0]] + AtTime(s[1..], t) else AtTime(s[1..], t)
  }

  lemma {:induction false} AtTimeSnoc(s: seq<Point>, x: Point, t: int)
    ensures AtTime(s + [x], t) == AtTime(s, t) + (if x.at == t then [x] else [])
  {
    if s == [] {
      assert s + [x] == [x];
    } else {
      assert (s + [x])[1..] == s[1..] + [x];
      AtTimeSnoc(s[1..], x, t);
    }
  }

  lemma {:induction false} NothingAtEarlierTime(s: seq<Point>, t: int)
    requires forall p :: p in s ==> p.at > t
    ensures AtTime(s, t) == []
  {
    if s != [] {
      assert s[0] in s;
      NothingAtEarlierTime(s[1..], t);
    }
  }

  lemma {:induction false} InsertedStable(x: Point, s: seq<Point>, t: int)
    requires InOrder(s, NoLater)
    ensures var r := Inserted(x, s, NoLater);
            && InOrder(r, NoLater)
            && AtTime(r, t) == AtTime(s, t) + (if x.at == t then [x] else [])
  {
    var r := Inserted(x, s, NoLater);
    if s != [] {
      if NoLater(s[0], x) {
        InsertedStable(x, s[1..], t);
        InsertedContents(x, s[1..], NoLater);
        assert forall p :: p in r[1..] ==> NoLater(s[0], p);
      } else {
        assert forall p :: p in s ==> s[0].at <= p.at;
        assert r[1..] == s;
        if x.at == t {
          NothingAtEarlierTime(s, t);
        }
      }
    }
  }

  /** Sorting orders by time and keeps the given order among points of the same instant. */
  lemma {:induction false} SortStable(s: seq<Point>, t: int)
    ensures InOrder(Sorted(s, NoLater), NoLater)
    ensures AtTime(Sorted(s, NoLater), t) == AtTime(s, t)
  {
    if s != [] {
      var front := s[..|s| - 1];
      SortStable(front, t);
      InsertedStable(Last(s), Sorted(front, NoLater), t);
      assert s == front + [Last(s)];
      AtTimeSnoc(front, Last(s), t);
    }
  }

  lemma {:induction false} SomethingAtTime(s: seq<Point>, p: Point)
    requires p in s
    ensures AtTime(s, p.at) != []
  {
    if s[0].at != p.at {
      SomethingAtTime(s[1..], p);
    }
  }

  lemma {:induction false} AtTimeMember(s: seq<Point>, t: int)
    requires AtTime(s, t) != []
    ensures AtTime(s, t)[0] in s && AtTime(s, t)[0].at == t
  {
    if s[0].at != t {
      AtTimeMember(s[1..], t);
    }
  }

  lemma {:induction false} FirstAgrees(a: seq<Point>, b: seq<Point>)
    requires InOrder(a, NoLater) && InOrder(b, NoLater) && a != []
    requires forall t :: AtTime(a, t) == AtTime(b, t)
    ensures b != [] && a[0] == b[0]
  {
    SomethingAtTime(a, a[0]);
    AtTimeMember(b, a[0].at);
    SomethingAtTime(b, b[0]);
    AtTimeMember(a, b[0].at);
    assert NoLater(a[0], AtTime(a, b[0].at)[0]) && NoLater(b[0], AtTime(b, a[0].at)[0]);
  }

  /** Those two requirements leave only one result, so any stable sort computes it. */
  lemma {:induction false} StableSortUnique(a: seq<Point>, b: seq<Point>)
    requires InOrder(a, NoLater) && InOrder(b, NoLater)
    requires forall t :: AtTime(a, t) == AtTime(b, t)
    ensures a == b
  {
    if a == [] {
      if b != [] {
        FirstAgrees(b, a);
      }
    } else {
      FirstAgrees(a, b);
      forall t
        ensures AtTime(a[1..], t) == AtTime(b[1..], t)
      {
        assert AtTime(a, t) == AtTime(b, t);
        if a[0].at == t {
          assert AtTime(a, t)[1..] == AtTime(a[1..], t) && AtTime(b, t)[1..] == AtTime(b[1..], t);
        }
      }
      StableSortUnique(a[1..], b[1..]);
    }
  }

  lemma {:induction false} SortedMembers(s: seq<Point>)
    ensures |Sorted(s, NoLater)| == |s|
    ensures forall p :: p in Sorted(s, NoLater) <==> p in s
  {
    if s != [] {
      var front := s[..|s| - 1];
      SortedMembers(front);
      InsertedContents(Last(s), Sorted(front, NoLater), NoLater);
      assert s == front + [Last(s)];
    }
  }

  // ----- Route epochs -----

  /** `epochs` describes `points` run by run; each run is as long as it can be. */
  ghost predicate Encodes(epochs: seq<Epoch>, points: seq<Point>)
    decreases |epochs|
  {
    if epochs == [] then points == []
    else
      var e, n := Last(epochs), |points|;
      && 0 < e.count <= n
      && e.index == |epochs| - 1
      && e.start == points[n - e.count].at && e.end == points[n - 1].at
      && (forall i :: n - e.count <= i < n ==> points[i].endpoint == e.endpoint)
      && (|epochs| > 1 ==> epochs[|epochs| - 2].endpoint != e.endpoint)
      && Encodes(epochs[..|epochs| - 1], points[..n - e.count])
  }

  lemma {:induction false} ExtendRun(epochs: seq<Epoch>, points: seq<Point>, p: Point)
    requires Encodes(epochs, points) && epochs != [] && Last(epochs).endpoint == p.endpoint
    ensures Encodes(epochs[|epochs| - 1 := Last(epochs).(end := p.at, count := Last(epochs).count + 1)], points + [p])
  {
    var e, longer := Last(epochs), points + [p];
    var next := epochs[|epochs| - 1 := e.(end := p.at, count := e.count + 1)];
    assert next[..|next| - 1] == epochs[..|epochs| - 1];
    assert longer[..|points| - e.count] == points[..|points| - e.count];
  }

  lemma {:induction false} StartRun(epochs: seq<Epoch>, points: seq<Point>, p: Point)
    requires Encodes(epochs, points) && (epochs == [] || Last(epochs).endpoint != p.endpoint)
    ensures Encodes(epochs + [Epoch(|epochs|, p.at, p.at, 1, p.endpoint)], points + [p])
  {
    var next := epochs + [Epoch(|epochs|, p.at, p.at, 1, p.endpoint)];
    assert next[..|epochs|] == epochs;
    assert (points + [p])[..|points|] == points;
  }

  /** One pass that lengthens the last epoch in place or opens a new one. */
  method RouteEpochs(points: seq<Point>) returns (epochs: seq<Epoch>)
    ensures Encodes(epochs, points)
  {
    hide Encodes;
    epochs := [];
    NoEpochs();
    assert points[..0] == [];
    for i := 0 to |points|
      invariant Encodes(epochs, points[..i])
    {
      var p := points[i];
      assert points[..i + 1] == points[..i] + [p];
      if epochs != [] && Last(epochs).endpoint == p.endpoint {
        ExtendRun(epochs, points[..i], p);
        var last := Last(epochs);
        epochs := epochs[|epochs| - 1 := last.(end := p.at, count := last.count + 1)];
      } else {
        StartRun(epochs, points[..i], p);
        epochs := epochs + [Epoch(|epochs|, p.at, p.at, 1, p.endpoint)];
      }
    }
    assert points[..|points|] == points;
  }

  lemma NoEpochs()
    ensures Encodes([], [])
  {
  }

  /** A run does not start later than it could. */
  lemma {:induction false} RunBoundary(epochs: seq<Epoch>, points: seq<Point>)
    requires Encodes(epochs, points) && epochs != []
    ensures var before := |points| - Last(epochs).count;
            before > 0 ==> points[before - 1].endpoint != Last(epochs).endpoint
  {
    var front, before := epochs[..|epochs| - 1], points[..|points| - Last(epochs).count];
    assert front != [] ==> Last(front).endpoint == Last(before).endpoint == points[|before| - 1].endpoint;
  }

  lemma {:induction false} LastRun(a: seq<Epoch>, b: seq<Epoch>, points: seq<Point>)
    requires Encodes(a, points) && Encodes(b, points) && a != [] && b != []
    ensures Last(a).count >= Last(b).count
  {
    RunBoundary(a, points);
    assert Last(a).endpoint == points[|points| - 1].endpoint == Last(b).endpoint;
  }

  /** The encoding by maximal runs is unique. */
  lemma {:induction false} EncodingUnique(a: seq<Epoch>, b: seq<Epoch>, points: seq<Point>)
    requires Encodes(a, points) && Encodes(b, points)
    ensures a == b
    decreases |points|
  {
    if points == [] {
      assert a == [] && b == [];
    } else {
      LastRun(a, b, points);
      LastRun(b, a, points);
      EncodingUnique(a[..|a| - 1], b[..|b| - 1], points[..|points| - Last(a).count]);
      assert a == a[..|a| - 1] + [Last(a)] && b == b[..|b| - 1] + [Last(b)];
    }
  }

  function Expanded(epochs: seq<Epoch>): seq<Option<string>> {
    if epochs == [] then []
    else Expanded(epochs[..|epochs| - 1]) + seq(Last(epochs).count, _ => Last(epochs).endpoint)
  }

  function Labels(points: seq<Point>): (r: seq<Option<string>>)
    ensures |r| == |points| && forall i :: 0 <= i < |r| ==> r[i] == points[i].endpoint
  {
    seq(|points|, i requires 0 <= i < |points| => points[i].endpoint)
  }

  function SampleTotal(epochs: seq<Epoch>): nat {
    if epochs == [] then 0 else SampleTotal(epochs[..|epochs| - 1]) + Last(epochs).count
  }

  /** How often the label differs from the one just before. */
  function Changes(points: seq<Point>): nat {
    if |points| < 2 then 0
    else Changes(points[..|points| - 1]) + (if Last(points).endpoint != points[|points| - 2].endpoint then 1 else 0)
  }

  lemma {:induction false} SteadyTail(points: seq<Point>, n: nat)
    requires 0 < n <= |points| && forall i :: n <= i < |points| ==> points[i].endpoint == points[n - 1].endpoint
    ensures Changes(points) == Changes(points[..n])
    decreases |points|
  {
    if n == |points| {
      assert points[..n] == points;
    } else {
      var front := points[..|points| - 1];
      assert front[..n] == points[..n];
      SteadyTail(front, n);
    }
  }

  /** Expanding the epochs gives the labels back; every point is counted once; and shifts are label changes. */
  lemma {:induction false} EpochsFaithful(epochs: seq<Epoch>, points: seq<Point>)
    requires Encodes(epochs, points)
    ensures Expanded(epochs) == Labels(points)
    ensures SampleTotal(epochs) == |points|
    ensures |epochs| == if points == [] then 0 else Changes(points) + 1
    ensures forall k :: 0 <= k < |epochs| ==> epochs[k].index == k && epochs[k].count > 0
    ensures forall k :: 0 < k < |epochs| ==> epochs[k].endpoint != epochs[k - 1].endpoint
    decreases |epochs|
  {
    if epochs != [] {
      var e, n, front := Last(epochs), |points|, epochs[..|epochs| - 1];
      var m := n - e.count;
      EpochsFaithful(front, points[..m]);
      assert Labels(points) == Labels(points[..m]) + seq(e.count, _ => e.endpoint);
      SteadyTail(points, m + 1);
      assert points[..m + 1][..m] == points[..m];
      forall k | 0 <= k < |epochs|
        ensures epochs[k].index == k && epochs[k].count > 0 && (k > 0 ==> epochs[k].endpoint != epochs[k - 1].endpoint)
      {
        if k < |front| {
          assert front[k] == epochs[k] && (k > 0 ==> front[k - 1] == epochs[k - 1]);
        }
      }
    }
  }

  ghost predicate TwoLabels(points: seq<Point>) {
    exists p, q :: p in points && q in points && p.endpoint != q.endpoint
  }

  lemma {:induction false} NoChangeOneLabel(points: seq<Point>)
    requires Changes(points) == 0
    ensures forall p :: p in points ==> p.endpoint == points[0].endpoint
  {
    if |points| > 1 {
      var front := points[..|points| - 1];
      NoChangeOneLabel(front);
      assert points == front + [Last(points)];
      assert points[|points| - 2] in front;
    }
  }

  lemma {:induction false} ChangeTwoLabels(points: seq<Point>)
    requires Changes(points) > 0
    ensures TwoLabels(points)
  {
    if Last(points).endpoint != points[|points| - 2].endpoint {
      assert Last(points) in points && points[|points| - 2] in points;
    } else {
      ChangeTwoLabels(points[..|points| - 1]);
      var p, q :| p in points[..|points| - 1] && q in points[..|points| - 1] && p.endpoint != q.endpoint;
      assert p in points && q in points;
    }
  }

  /** There is a route shift exactly when two points carry different labels, whatever their order. */
  lemma ShiftIffTwoLabels(digest: Digest, snapshot: Snapshot)
    ensures Changes(SortedPoints(digest, snapshot)) > 0 <==> TwoLabels(Points(digest, snapshot))
  {
    var points, sorted := Points(digest, snapshot), SortedPoints(digest, snapshot);
    SortedMembers(points);
    hide Points, Sorted;
    if Changes(sorted) > 0 {
      ChangeTwoLabels(sorted);
    } else {
      NoChangeOneLabel(sorted);
      assert forall p :: p in points ==> p in sorted;
    }
  }

  // ----- Adjudication -----

  const I64_MAX := I64_LIMIT - 1

  /** Subtraction that stops at the ends of the 64-bit range. */
  function SaturatingGap(later: int, earlier: int): int { Max(-I64_LIMIT, Min(later - earlier, I64_MAX)) }

  lemma GapExactly(later: int, earlier: int)
    requires earlier <= later
    ensures SaturatingGap(later, earlier) == Min(later - earlier, 0x7FFF_FFFF_FFFF_FFFF)
  {
  }

  function MaxGap(points: seq<Point>): Option<int> {
    if |points| < 2 then None
    else
      var rest, gap := MaxGap(points[..|points| - 1]), SaturatingGap(Last(points).at, points[|points| - 2].at);
      Some(if rest.None? then gap else Max(rest.value, gap))
  }

  /** The reported gap is attained between neighbours and exceeded by none. */
  lemma {:induction false} MaxGapExact(points: seq<Point>)
    ensures MaxGap(points).None? <==> |points| < 2
    ensures forall i :: 0 < i < |points| ==> SaturatingGap(points[i].at, points[i - 1].at) <= MaxGap(points).value
    ensures |points| >= 2 ==>
              exists i :: 0 < i < |points| && SaturatingGap(points[i].at, points[i - 1].at) == MaxGap(points).value
  {
    hide SaturatingGap;
    if |points| >= 2 {
      var front := points[..|points| - 1];
      MaxGapExact(front);
      var gap := SaturatingGap(Last(points).at, points[|points| - 2].at);
      if MaxGap(points).value == gap {
        assert SaturatingGap(points[|points| - 1].at, points[|points| - 1 - 1].at) == MaxGap(points).value;
      } else {
        var i :| 0 < i < |front| && SaturatingGap(front[i].at, front[i - 1].at) == MaxGap(front).value;
        assert SaturatingGap(points[i].at, points[i - 1].at) == MaxGap(points).value;
      }
    }
  }

  predicate Live(points: seq<Point>, s: Summary) {
    || (exists i :: 0 <= i < |points| && points[i].liveness)
    || s.metrics.reading.lastHeardAgeMs.Some? || s.metrics.reading.remoteStateAgeMs.Some?
  }

  predicate PacketsCounted(points: seq<Point>, s: Summary) {
    || (exists i :: 0 <= i < |points| && points[i].packets)
    || s.metrics.reading.counters.packetsTx.Some? || s.metrics.reading.counters.packetsRx.Some?
  }

  predicate RetransmitsSeen(snapshot: Snapshot) {
    || snapshot.summary.metrics.window10s.pct.Some? || snapshot.summary.metrics.window60s.pct.Some?
    || exists i :: 0 <= i < |snapshot.history| && snapshot.history[i].retransmitPct10s.Some?
  }

  predicate StableIdentity(s: Summary) { Text.Trim(s.sessionId) != [] && s.kind == Instrumented }

  function Score(c: Continuity, udpPortObserved: bool): real {
    (if c.stableIdentity then 20.0 else 0.0)
    + (if udpPortObserved then 10.0 else 0.0)
    + (if c.epochCount >= 1 then 10.0 else 0.0)
    + (if c.shiftCount >= 1 then 20.0 else 0.0)
    + (if c.recovery then 20.0 else 0.0)
    + (if c.liveness then 10.0 else 0.0)
    + (if c.packets then 10.0 else 0.0)
  }

  /** Recovery as it can be read off the snapshot, for a session whose label changed. */
  predicate Recovered(digest: Digest, snapshot: Snapshot) {
    && Live(Points(digest, snapshot), snapshot.summary)
    && (PacketsCounted(Points(digest, snapshot), snapshot.summary)
        || snapshot.summary.metrics.reading.counters.stateUpdatesRx.Some?)
  }

  /** The evidence a roaming claim stands for. */
  ghost predicate RoamingEvidence(digest: Digest, snapshot: Snapshot) {
    && StableIdentity(snapshot.summary)
    && TwoLabels(Points(digest, snapshot))
    && Recovered(digest, snapshot)
    && (snapshot.summary.udpPort.Some? || PacketsCounted(Points(digest, snapshot), snapshot.summary))
  }

  function Tally(b: bool): nat { if b then 1 else 0 }

  /** Two points each for identity, shift and recovery, one for the rest, and one that every report has. */
  function ScorePoints(identity: bool, port: bool, shift: bool, recovery: bool, liveness: bool, packets: bool): nat {
    1 + 2 * Tally(identity) + 2 * Tally(shift) + 2 * Tally(recovery) + Tally(port) + Tally(liveness) + Tally(packets)
  }

  /** The signals a report weighs, read off the summary and the history. */
  lemma SignalsExactly(digest: Digest, snapshot: Snapshot)
    ensures var s, history := snapshot.summary, snapshot.history;
            && (Live(Points(digest, snapshot), s) <==>
                  || s.metrics.reading.lastHeardAgeMs.Some? || s.metrics.reading.remoteStateAgeMs.Some?
                  || exists i :: 0 <= i < |history| && history[i].remoteStateAgeMs.Some?)
            && (PacketsCounted(Points(digest, snapshot), s) <==>
                  s.metrics.reading.counters.packetsTx.Some? || s.metrics.reading.counters.packetsRx.Some?)
            && (StableIdentity(s) <==> s.kind == Instrumented && !Text.Blank(s.sessionId))
            && (RetransmitsSeen(snapshot) <==>
                  || s.metrics.window10s.pct.Some? || s.metrics.window60s.pct.Some?
                  || exists i :: 0 <= i < |history| && history[i].retransmitPct10s.Some?)
  {
    Text.TrimmedBlank(snapshot.summary.sessionId);
    hide Text.Trim, Text.Blank, EndpointLabel;
    var points, history := Points(digest, snapshot), snapshot.history;
    assert forall i :: 0 <= i < |history| ==> points[i].liveness == history[i].remoteStateAgeMs.Some?;
  }

  /** The points of a report: one for each history point, or one for the summary when there is none. */
  lemma PointsExactly(digest: Digest, snapshot: Snapshot, i: nat)
    ensures var points, history, s := Points(digest, snapshot), snapshot.history, snapshot.summary;
            && |points| == (if history == [] then 1 else |history|)
            && (i < |history| ==>
                  points[i].at == history[i].unixMs && LabelOf(digest, history[i].clientAddr, points[i].endpoint))
            && (history == [] ==>
                  && points[0].at == s.lastObserved
                  && LabelOf(
                       digest,
                       if s.peer.current.Some? then s.peer.current
                       else if s.peer.last.Some? then s.peer.last else s.clientAddr,
                       points[0].endpoint))
  {
    LabelExactly(digest, snapshot.summary.peer.current);
    LabelExactly(digest, snapshot.summary.peer.last);
    LabelExactly(digest, snapshot.summary.clientAddr);
    if i < |snapshot.history| {
      LabelExactly(digest, snapshot.history[i].clientAddr);
    }
    hide EndpointLabel, LabelOf;
  }

  /** An endpoint that is absent or blank has no label, any other its digest. */
  predicate LabelOf(digest: Digest, endpoint: Option<string>, tag: Option<string>) {
    tag == if endpoint.None? || Text.Blank(endpoint.value) then None else Some(digest(endpoint.value))
  }

  lemma LabelExactly(digest: Digest, endpoint: Option<string>)
    ensures LabelOf(digest, endpoint, EndpointLabel(digest, endpoint))
  {
    if endpoint.Some? {
      Text.TrimmedBlank(endpoint.value);
      hide Text.Trim, Text.Blank;
    }
  }

  /** The weaker evidence that still counts as a coherent session. Note that it, too, needs a label change. */
  ghost predicate WeakEvidence(digest: Digest, snapshot: Snapshot) {
    var points, s := Points(digest, snapshot), snapshot.summary;
    && TwoLabels(points)
    && ((StableIdentity(s) && Recovered(digest, snapshot))
        || (StableIdentity(s)
            && Tally(s.udpPort.Some?) + Tally(Live(points, s)) + Tally(PacketsCounted(points, s)) >= 2)
        || (Recovered(digest, snapshot) && (s.udpPort.Some? || PacketsCounted(points, s))))
  }

  lemma SignalsOrderFree(digest: Digest, snapshot: Snapshot)
    ensures var points, sorted, s := Points(digest, snapshot), SortedPoints(digest, snapshot), snapshot.summary;
            Live(sorted, s) == Live(points, s) && PacketsCounted(sorted, s) == PacketsCounted(points, s)
  {
    var points, sorted := Points(digest, snapshot), SortedPoints(digest, snapshot);
    SortedMembers(points);
    assert (exists i :: 0 <= i < |points| && points[i].liveness) <==> exists p :: p in points && p.liveness;
    assert (exists i :: 0 <= i < |sorted| && sorted[i].liveness) <==> exists p :: p in sorted && p.liveness;
    assert (exists i :: 0 <= i < |points| && points[i].packets) <==> exists p :: p in points && p.packets;
    assert (exists i :: 0 <= i < |sorted| && sorted[i].packets) <==> exists p :: p in sorted && p.packets;
  }

  /** The report for a snapshot; its decision depends on the evidence alone. */
  method BuildReport(digest: Digest, snapshot: Snapshot) returns (r: Report)
    ensures Encodes(r.epochs, SortedPoints(digest, snapshot))
    ensures r.continuity.epochCount == |r.epochs| >= 1
    ensures r.continuity.shiftCount == Changes(SortedPoints(digest, snapshot))
    ensures r.continuity.historyCount == |snapshot.history|
    ensures r.continuity.maxGapMs == MaxGap(SortedPoints(digest, snapshot))
    ensures r.continuity.stableIdentity == StableIdentity(snapshot.summary)
    ensures r.continuity.recovery <==> TwoLabels(Points(digest, snapshot)) && Recovered(digest, snapshot)
    ensures r.continuity.retransmits == RetransmitsSeen(snapshot)
    ensures r.continuity.liveness == Live(Points(digest, snapshot), snapshot.summary)
    ensures r.continuity.packets == PacketsCounted(Points(digest, snapshot), snapshot.summary)
    ensures r.score == (10 * ScorePoints(
              r.continuity.stableIdentity, snapshot.summary.udpPort.Some?, TwoLabels(Points(digest, snapshot)),
              r.continuity.recovery, r.continuity.liveness, r.continuity.packets)) as real
    ensures r.decision == RoamingObserved <==> RoamingEvidence(digest, snapshot)
    ensures r.decision == ObservedWithoutRoaming <==>
              WeakEvidence(digest, snapshot) && !RoamingEvidence(digest, snapshot)
  {
    hide Encodes, Points, SortedPoints, TwoLabels, Live, PacketsCounted, RetransmitsSeen, StableIdentity, MaxGap,
      Changes;
    var summary, points := snapshot.summary, SortedPoints(digest, snapshot);
    var epochs := RouteEpochs(points);
    EpochsFaithful(epochs, points);
    SortedNotEmpty(digest, snapshot);
    ShiftIffTwoLabels(digest, snapshot);
    SignalsOrderFree(digest, snapshot);
    var shiftCount := if |epochs| >= 1 then |epochs| - 1 else 0;
    var liveness, packets := Live(points, summary), PacketsCounted(points, summary);
    var recovery :=
      shiftCount > 0 && liveness && (packets || summary.metrics.reading.counters.stateUpdatesRx.Some?);
    var continuity := Continuity(
      StableIdentity(summary), |epochs|, shiftCount, |snapshot.history|, MaxGap(points), recovery, liveness, packets,
      RetransmitsSeen(snapshot));
    var score := Score(continuity, summary.udpPort.Some?);
    var decision :=
      if score >= 85.0 && shiftCount > 0 then RoamingObserved
      else if score >= 70.0 then ObservedWithoutRoaming
      else InsufficientSignal;
    r := Report(epochs, continuity, score, decision);
  }

  lemma SortedNotEmpty(digest: Digest, snapshot: Snapshot)
    ensures SortedPoints(digest, snapshot) != []
  {
    SortedMembers(Points(digest, snapshot));
  }

  /**
   Even with every other signal, a session that keeps its one address meets neither condition: no shift, no coherence.
   */
  lemma SteadySessionInsufficient(digest: Digest, addr: string, s: Summary)
    requires Text.Trim(addr) != [] && StableIdentity(s) && s.udpPort.Some?
    requires s.metrics.reading.lastHeardAgeMs.Some? && s.metrics.reading.counters.packetsRx.Some?
    ensures var first := MetricPoint(1_000, None, None, None, Some(addr));
            var second := MetricPoint(2_000, None, None, None, Some(addr));
            var snapshot := Snapshot(s, 2, 0, [first, second]);
            && Recovered(digest, snapshot)
            && !WeakEvidence(digest, snapshot) && !RoamingEvidence(digest, snapshot)
  {
    var first := MetricPoint(1_000, None, None, None, Some(addr));
    var points := Points(digest, Snapshot(s, 2, 0, [first, first.(unixMs := 2_000)]));
    assert points == [HistoryPoint(digest, first), HistoryPoint(digest, first.(unixMs := 2_000))];
  }

  // ----- What a label change says about addresses -----

  predicate Addressed(p: MetricPoint) { p.clientAddr.Some? && Text.Trim(p.clientAddr.value) != [] }

  /** Two points of the history name different endpoints. */
  ghost predicate AddressChanged(history: seq<MetricPoint>) {
    exists p, q :: p in history && q in history && Addressed(p) && Addressed(q) && p.clientAddr != q.clientAddr
  }

  /** Two points of the history have endpoints with different digests. */
  ghost predicate DigestChanged(digest: Digest, history: seq<MetricPoint>) {
    exists p, q :: p in history && q in history && DigestsDiffer(digest, p, q)
  }

  /** Some points of the history have an endpoint and others do not. */
  ghost predicate CameOrWent(history: seq<MetricPoint>) {
    exists p, q :: p in history && q in history && Addressed(p) && !Addressed(q)
  }

  /** No two different endpoints of this history share a digest. */
  ghost predicate NoCollision(digest: Digest, history: seq<MetricPoint>) {
    forall p, q | p in history && q in history && Addressed(p) && Addressed(q) ::
      digest(p.clientAddr.value) == digest(q.clientAddr.value) ==> p.clientAddr == q.clientAddr
  }

  lemma PointsAreHistory(digest: Digest, snapshot: Snapshot)
    requires snapshot.history != []
    ensures forall p :: p in snapshot.history ==> HistoryPoint(digest, p) in Points(digest, snapshot)
    ensures forall x :: x in Points(digest, snapshot) ==>
              exists p :: p in snapshot.history && HistoryPoint(digest, p) == x
  {
    hide HistoryPoint;
    var points, history := Points(digest, snapshot), snapshot.history;
    forall p | p in history
      ensures HistoryPoint(digest, p) in points
    {
      var i :| 0 <= i < |history| && history[i] == p;
      assert points[i] == HistoryPoint(digest, p);
    }
    forall x | x in points
      ensures exists p :: p in history && HistoryPoint(digest, p) == x
    {
      var i :| 0 <= i < |points| && points[i] == x;
      assert history[i] in history;
    }
  }

  predicate DigestsDiffer(digest: Digest, p: MetricPoint, q: MetricPoint) {
    Addressed(p) && Addressed(q) && digest(p.clientAddr.value) != digest(q.clientAddr.value)
  }

  lemma LabelsDiffer(digest: Digest, p: MetricPoint, q: MetricPoint)
    ensures HistoryPoint(digest, p).endpoint != HistoryPoint(digest, q).endpoint <==>
              DigestsDiffer(digest, p, q) || Addressed(p) != Addressed(q)
  {
    hide Text.Trim;
  }

  lemma LabelsFromHistory(digest: Digest, snapshot: Snapshot)
    requires snapshot.history != []
    ensures TwoLabels(Points(digest, snapshot)) <==>
              exists p, q ::
                && p in snapshot.history && q in snapshot.history
                && HistoryPoint(digest, p).endpoint != HistoryPoint(digest, q).endpoint
  {
    PointsAreHistory(digest, snapshot);
    hide Points, HistoryPoint;
    var points, history := Points(digest, snapshot), snapshot.history;
    if TwoLabels(points) {
      var x, y :| x in points && y in points && x.endpoint != y.endpoint;
      var p :| p in history && HistoryPoint(digest, p) == x;
      var q :| q in history && HistoryPoint(digest, q) == y;
      assert HistoryPoint(digest, p).endpoint != HistoryPoint(digest, q).endpoint;
    }
    if p, q :|
      && p in history && q in history
      && HistoryPoint(digest, p).endpoint != HistoryPoint(digest, q).endpoint
    {
      assert HistoryPoint(digest, p) in points && HistoryPoint(digest, q) in points;
    }
  }

  /** What a shift means, for any digest: a change of digest, or an endpoint that came or went. */
  lemma ShiftExactly(digest: Digest, snapshot: Snapshot)
    ensures TwoLabels(Points(digest, snapshot)) <==>
              DigestChanged(digest, snapshot.history) || CameOrWent(snapshot.history)
  {
    var history := snapshot.history;
    if history != [] {
      LabelsFromHistory(digest, snapshot);
      hide Points, TwoLabels, HistoryPoint, Addressed;
      forall p, q | p in history && q in history
        ensures HistoryPoint(digest, p).endpoint != HistoryPoint(digest, q).endpoint <==>
                  DigestsDiffer(digest, p, q) || Addressed(p) != Addressed(q)
      {
        LabelsDiffer(digest, p, q);
      }
      if DigestChanged(digest, history) {
        var p, q :| p in history && q in history && DigestsDiffer(digest, p, q);
        assert HistoryPoint(digest, p).endpoint != HistoryPoint(digest, q).endpoint;
      }
      if CameOrWent(history) {
        var p, q :| p in history && q in history && Addressed(p) && !Addressed(q);
        assert HistoryPoint(digest, p).endpoint != HistoryPoint(digest, q).endpoint;
      }
    }
  }

  /**
   Without a collision among its endpoints, a history is reported as shifted exactly when its address changed, unless
   the address stayed the same while some of its points had an endpoint and others had none.
   */
  lemma ShiftIsAddressChange(digest: Digest, snapshot: Snapshot)
    requires NoCollision(digest, snapshot.history)
    ensures (TwoLabels(Points(digest, snapshot)) <==> AddressChanged(snapshot.history)) <==>
              AddressChanged(snapshot.history) || !CameOrWent(snapshot.history)
    ensures !CameOrWent(snapshot.history) <==>
              || (forall p :: p in snapshot.history ==> Addressed(p))
              || (forall p :: p in snapshot.history ==> !Addressed(p))
  {
    hide Text.Trim;
    ShiftExactly(digest, snapshot);
    hide TwoLabels, Points;
    var history := snapshot.history;
    if AddressChanged(history) {
      var p, q :| p in history && q in history && Addressed(p) && Addressed(q) && p.clientAddr != q.clientAddr;
      assert DigestsDiffer(digest, p, q);
    }
    if DigestChanged(digest, history) {
      var p, q :| p in history && q in history && DigestsDiffer(digest, p, q);
      assert p.clientAddr != q.clientAddr;
    }
  }

  // ----- On what the registry exports -----

  /** A session's summary with the newest part of its history. */
  function SessionDetail(cfg: Config, r: Record, now: int): Snapshot {
    var total := |r.history|;
    var kept := Min(total, cfg.maxSessionDetailPoints);
    Snapshot(Materialized(r.summary, cfg.thresholds, now), total, total - kept, r.history[total - kept..])
  }

  /** The newest points are exported, as many as configured, and the rest is counted. */
  lemma SessionDetailExactly(cfg: Config, r: Record, now: int)
    ensures var detail := SessionDetail(cfg, r, now);
            && detail.total == |r.history| == detail.truncated + |detail.history|
            && |detail.history| <= cfg.maxSessionDetailPoints
            && (detail.truncated > 0 ==> |detail.history| == cfg.maxSessionDetailPoints)
            && (forall i :: 0 <= i < |detail.history| ==> detail.history[i] == r.history[detail.truncated + i])
            && detail.summary == Materialized(r.summary, cfg.thresholds, now)
  {
    hide Materialized;
  }

  /** On the history of any reachable record, however much of it is exported, the sort changes nothing. */
  lemma RegistryHistoryInOrder(cfg: Config, steps: seq<Step>, k: string, now: int, digest: Digest)
    requires forall i :: 0 <= i < |steps| ==> Permitted(steps[i])
    requires k in Run(cfg, steps).state.sessions
    ensures var detail := SessionDetail(cfg, Run(cfg, steps).state.sessions[k], now);
            SortedPoints(digest, detail) == Points(digest, detail)
  {
    hide Run, Materialized, EndpointLabel, Agrees;
    ReachableRecord(cfg, steps, k);
    var detail := SessionDetail(cfg, Run(cfg, steps).state.sessions[k], now);
    OrderedHistoryInOrder(digest, detail);
  }

  lemma OrderedHistoryInOrder(digest: Digest, snapshot: Snapshot)
    requires StrictlyChronological(snapshot.history, PointTime)
    ensures SortedPoints(digest, snapshot) == Points(digest, snapshot)
  {
    var points := Points(digest, snapshot);
    assert forall i, j :: 0 <= i < j < |points| && snapshot.history != [] ==>
             PointTime(snapshot.history[i]) < PointTime(snapshot.history[j]);
    SortedFixed(points, NoLater);
  }

  /** The compact status: whether the peer record shows a shift, and the confidence in it. */
  function CompactStatus(s: Summary): (bool, real) {
    var shifted := RouteShiftObserved(s.peer);
    (shifted, if s.kind == Instrumented then (if shifted then 90.0 else 72.0) else 25.0)
  }

  /** For every reachable record the compact status reports a shift exactly when the address log ever changed. */
  lemma CompactStatusExact(cfg: Config, steps: seq<Step>, k: string, now: int)
    requires forall i :: 0 <= i < |steps| ==> Permitted(steps[i])
    requires k in Run(cfg, steps).state.sessions
    ensures var w := Run(cfg, steps);
            && k in w.logs
            && var r := w.state.sessions[k];
            var status := CompactStatus(Materialized(r.summary, cfg.thresholds, now));
            && (status.0 <==> AddressEverChanged(Sightings(w.logs[k])))
            && status.1 == (if r.summary.kind == Legacy then 25.0
                            else if AddressEverChanged(Sightings(w.logs[k])) then 90.0 else 72.0)
  {
    hide Run, Sightings, AddressEverChanged, RouteShiftObserved, Agrees;
    ReachableRecord(cfg, steps, k);
  }
}
