/**
 A session record as a function of everything ever reported about the session.
 The record is bounded; the log is not. Every field the record derives is read off the log here,
 without reference to how the registry maintains it.
 */
module RecordLog {
  import opened Prelude
  import opened SessionIds
  import opened Records
  import opened SlidingWindow
  import opened Retransmits
  import opened HealthPolicy
  import opened PeerTracking
  import opened Registry
  import Text

  /** An absorbed event and the time it was recorded under. */
  datatype Observation = Observation(at: int, event: TelemetryEvent)

  function ObservedAt(o: Observation): int { o.at }

  function CountersIn(o: Observation): Counters { o.event.reading.counters }

  function ClientIn(o: Observation): Option<string> { Text.SanitizedEndpoint(o.event.clientAddr) }

  /** Position of the latest event whose counters went below those of the event before it, or 0. */
  function ResetIndex(log: seq<Observation>): (r: nat)
    ensures r == 0 || r < |log|
    ensures r > 0 ==> Regressed(CountersIn(log[r - 1]), CountersIn(log[r]))
    ensures forall i :: r < i < |log| ==> !Regressed(CountersIn(log[i - 1]), CountersIn(log[i]))
  {
    if |log| < 2 then 0
    else if Regressed(CountersIn(log[|log| - 2]), CountersIn(Last(log))) then |log| - 1
    else
      var front := log[..|log| - 1];
      assert forall i :: 0 <= i < |front| ==> front[i] == log[i];
      ResetIndex(front)
  }

  function Samples(log: seq<Observation>): (s: seq<CounterSample>)
    ensures |s| == |log| && forall i :: 0 <= i < |s| ==> s[i] == SampleOf(log[i].event, log[i].at)
  {
    seq(|log|, i requires 0 <= i < |log| => SampleOf(log[i].event, log[i].at))
  }

  function Sightings(log: seq<Observation>): (s: seq<Sighting>)
    ensures |s| == |log| && forall i :: 0 <= i < |s| ==> s[i] == Sighting(ClientIn(log[i]), log[i].at)
  {
    seq(|log|, i requires 0 <= i < |log| => Sighting(ClientIn(log[i]), log[i].at))
  }

  /** The counter samples in the window: since the last reset, last write per instant, not too old. */
  function CountersOf(cfg: Config, log: seq<Observation>): seq<CounterSample> {
    Retained(Samples(log[ResetIndex(log)..]), SampleTime, WindowMs(cfg))
  }

  function MetricsOf(cfg: Config, log: seq<Observation>): Metrics {
    if log == [] then NO_METRICS
    else
      var counters := CountersOf(cfg, log);
      Metrics(Last(log).event.reading, WindowOf(counters, SHORT_WINDOW_MS), WindowOf(counters, LONG_WINDOW_MS))
  }

  /** The history point of the last event of a log: its percentage is the one known at that moment. */
  function NewestPoint(cfg: Config, log: seq<Observation>): MetricPoint
    requires log != []
  {
    PointOf(Last(log).event, Last(log).at, MetricsOf(cfg, log).window10s.pct, ClientIn(Last(log)))
  }

  function PointsFrom(cfg: Config, log: seq<Observation>, start: nat): (p: seq<MetricPoint>)
    requires start <= |log|
    ensures |p| == |log| - start
    ensures forall i :: 0 <= i < |p| ==> p[i] == NewestPoint(cfg, log[..start + i + 1])
  {
    seq(|log| - start, i requires 0 <= i < |log| - start => NewestPoint(cfg, log[..start + i + 1]))
  }

  function HistoryOf(cfg: Config, log: seq<Observation>): seq<MetricPoint> {
    Retained(PointsFrom(cfg, log, ResetIndex(log)), PointTime, WindowMs(cfg))
  }

  function ResetTime(log: seq<Observation>): Option<int> {
    if ResetIndex(log) == 0 then None else Some(log[ResetIndex(log)].at)
  }

  /** The record says exactly what the log implies. An empty log is a session known from discovery only. */
  ghost predicate Agrees(cfg: Config, r: Record, log: seq<Observation>) {
    && Chronological(log, ObservedAt)
    && r.counters == CountersOf(cfg, log)
    && r.history == HistoryOf(cfg, log)
    && r.summary.metrics == MetricsOf(cfg, log)
    && r.summary.peer == PeerOf(Sightings(log))
    && r.summary.clientAddr == r.summary.peer.last
    && r.summary.counterResetAt == ResetTime(log)
    && (log != [] ==> r.summary.lastObserved == Last(log).at)
    && (log != [] ==> r.shutdown == ShutdownStored(Last(log).event))
  }

  lemma SamplesSnoc(log: seq<Observation>, o: Observation, start: nat)
    requires start <= |log|
    ensures Samples((log + [o])[start..]) == Samples(log[start..]) + [SampleOf(o.event, o.at)]
  {
    assert (log + [o])[start..] == log[start..] + [o];
  }

  lemma SightingsSnoc(log: seq<Observation>, o: Observation)
    ensures Sightings(log + [o]) == Sightings(log) + [Sighting(ClientIn(o), o.at)]
  {
  }

  lemma {:induction false} PointsSnoc(cfg: Config, log: seq<Observation>, o: Observation, start: nat)
    requires start <= |log|
    ensures PointsFrom(cfg, log + [o], start) == PointsFrom(cfg, log, start) + [NewestPoint(cfg, log + [o])]
  {
    hide NewestPoint;
    var longer := log + [o];
    var points, more := PointsFrom(cfg, log, start), PointsFrom(cfg, longer, start);
    assert longer[..|longer|] == longer;
    forall i | 0 <= i < |points|
      ensures more[i] == points[i]
    {
      assert longer[..start + i + 1] == log[..start + i + 1];
    }
  }

  lemma LastPoint(cfg: Config, log: seq<Observation>, start: nat)
    requires start < |log|
    ensures Last(PointsFrom(cfg, log, start)) == NewestPoint(cfg, log)
  {
    assert log[..|log|] == log;
  }

  /** A session known from discovery only has no derived data at all. */
  lemma EmptyLog(cfg: Config, r: Record)
    ensures Agrees(cfg, r, []) <==>
            && r.history == [] && r.counters == []
            && r.summary.metrics == NO_METRICS && r.summary.peer == NO_PEER
            && r.summary.clientAddr == None && r.summary.counterResetAt == None
  {
    assert PeerOf(Sightings([])) == NO_PEER;
    assert CountersOf(cfg, []) == [] && HistoryOf(cfg, []) == [];
  }

  lemma ResetIndexSnoc(log: seq<Observation>, o: Observation)
    ensures ResetIndex(log + [o]) ==
            if log != [] && Regressed(CountersIn(Last(log)), CountersIn(o)) then |log| else ResetIndex(log)
  {
    assert (log + [o])[..|log|] == log;
  }

  lemma PointTimes(cfg: Config, log: seq<Observation>, start: nat)
    requires start <= |log|
    ensures SameTimes(Samples(log[start..]), PointsFrom(cfg, log, start), SampleTime, PointTime)
    ensures Chronological(log, ObservedAt) ==>
              && Chronological(Samples(log[start..]), SampleTime)
              && Chronological(PointsFrom(cfg, log, start), PointTime)
  {
    var points, tail := PointsFrom(cfg, log, start), log[start..];
    forall i | 0 <= i < |points|
      ensures PointTime(points[i]) == log[start + i].at
    {
      var prefix := log[..start + i + 1];
      assert Last(prefix) == log[start + i];
    }
    assert forall i :: 0 <= i < |tail| ==> SampleTime(Samples(tail)[i]) == log[start + i].at;
    if Chronological(log, ObservedAt) {
      forall i, j | 0 <= i <= j < |points|
        ensures PointTime(points[i]) <= PointTime(points[j])
        ensures SampleTime(Samples(tail)[i]) <= SampleTime(Samples(tail)[j])
      {
        assert ObservedAt(log[start + i]) <= ObservedAt(log[start + j]);
      }
    }
  }

  /** In a record that agrees with its log, history and counters carry the same strictly increasing times. */
  lemma {:induction false} WindowsAligned(cfg: Config, r: Record, log: seq<Observation>)
    requires Agrees(cfg, r, log)
    ensures SameTimes(r.counters, r.history, SampleTime, PointTime)
    ensures StrictlyChronological(r.history, PointTime) && StrictlyChronological(r.counters, SampleTime)
    ensures r.history == [] <==> log == []
    ensures log != [] ==> PointTime(Last(r.history)) == r.summary.lastObserved
  {
    var start := ResetIndex(log);
    var points, samples := PointsFrom(cfg, log, start), Samples(log[start..]);
    PointTimes(cfg, log, start);
    RetainedSameTimes(samples, points, SampleTime, PointTime, WindowMs(cfg));
    RetainedShape(samples, SampleTime, WindowMs(cfg));
    RetainedShape(points, PointTime, WindowMs(cfg));
    if log != [] {
      LastPoint(cfg, log, start);
    }
  }

  /** Filling in the newest point's percentage afterwards is the same as inserting it complete. */
  lemma {:induction false} LatePercentage(
    history: seq<MetricPoint>, p: MetricPoint, pct: Option<real>, window: int)
    requires StrictlyChronological(history, PointTime) && window >= 0
    requires history != [] ==> PointTime(Last(history)) <= p.unixMs
    ensures WithNewestPct(Trimmed(Upserted(history, PointTime, p), PointTime, window), pct) ==
            Trimmed(Upserted(history, PointTime, p.(retransmitPct10s := pct)), PointTime, window)
  {
    hide Trimmed, NoOlderThan, WithNewestPct, StrictlyChronological;
    var q := p.(retransmitPct10s := pct);
    TrimmedUpserted(history, PointTime, p, window);
    TrimmedUpserted(history, PointTime, q, window);
    var cutoff := p.unixMs - window;
    var front := if history != [] && PointTime(Last(history)) == p.unixMs then history[..|history| - 1] else history;
    assert Upserted(history, PointTime, p) == front + [p];
    assert Upserted(history, PointTime, q) == front + [q];
    FilterConcat(front, [p], PointTime, cutoff);
    FilterConcat(front, [q], PointTime, cutoff);
    NewestKept(p, cutoff);
    NewestKept(q, cutoff);
    NewestReplaced(NoOlderThan(front, PointTime, cutoff), p, pct);
  }

  lemma NewestKept(p: MetricPoint, cutoff: int)
    requires p.unixMs >= cutoff
    ensures NoOlderThan([p], PointTime, cutoff) == [p]
  {
  }

  lemma NewestReplaced(kept: seq<MetricPoint>, p: MetricPoint, pct: Option<real>)
    ensures WithNewestPct(kept + [p], pct) == kept + [p.(retransmitPct10s := pct)]
  {
    assert (kept + [p])[..|kept|] == kept;
  }

  lemma {:induction false} LateRetainedStep(
    points: seq<MetricPoint>, p: MetricPoint, pct: Option<real>, window: int)
    requires Follows(points, PointTime, p) && window >= 0
    ensures WithNewestPct(Trimmed(Upserted(Retained(points, PointTime, window), PointTime, p), PointTime, window), pct)
            == Retained(points + [p.(retransmitPct10s := pct)], PointTime, window)
  {
    RetainedShape(points, PointTime, window);
    LatePercentage(Retained(points, PointTime, window), p, pct, window);
    RetainedStep(points, PointTime, window, p.(retransmitPct10s := pct));
  }

  lemma PointsFollowed(cfg: Config, log: seq<Observation>, start: nat, p: MetricPoint)
    requires start <= |log| && Chronological(log, ObservedAt)
    requires log != [] ==> Last(log).at <= p.unixMs
    ensures Follows(PointsFrom(cfg, log, start), PointTime, p)
  {
    PointTimes(cfg, log, start);
    if start < |log| {
      LastPoint(cfg, log, start);
    }
  }

  lemma AppendChronological(log: seq<Observation>, o: Observation)
    requires Chronological(log, ObservedAt) && (log != [] ==> Last(log).at <= o.at)
    ensures Chronological(log + [o], ObservedAt)
  {
    forall i, j | 0 <= i <= j < |log + [o]|
      ensures ObservedAt((log + [o])[i]) <= ObservedAt((log + [o])[j])
    {
      if i < |log| {
        assert ObservedAt(log[i]) <= ObservedAt(Last(log));
      }
    }
  }

  /** What the windows held before the event, after any reset, is the view of the log since that reset. */
  lemma {:induction false} KeptWindows(cfg: Config, r: Record, log: seq<Observation>, o: Observation)
    requires Agrees(cfg, r, log)
    requires log != [] ==> Last(log).at <= o.at
    ensures !TimeRegressed(r, o.at)
    ensures var start := ResetIndex(log + [o]);
            && start <= |log|
            && (if CountersReset(r, o.event) then [] else r.counters)
                 == Retained(Samples(log[start..]), SampleTime, WindowMs(cfg))
            && (if CountersReset(r, o.event) then [] else r.history)
                 == Retained(PointsFrom(cfg, log, start), PointTime, WindowMs(cfg))
  {
    WindowsAligned(cfg, r, log);
    ResetIndexSnoc(log, o);
  }

  lemma {:induction false} CountersStep(cfg: Config, r: Record, log: seq<Observation>, o: Observation)
    requires Agrees(cfg, r, log)
    requires log != [] ==> Last(log).at <= o.at
    ensures AbsorbedCounters(cfg, r, o.event, o.at) == CountersOf(cfg, log + [o])
  {
    KeptWindows(cfg, r, log, o);
    var start := ResetIndex(log + [o]);
    var samples := Samples(log[start..]);
    PointTimes(cfg, log, start);
    SamplesSnoc(log, o, start);
    assert samples != [] ==> SampleTime(Last(samples)) == Last(log).at;
    RetainedStep(samples, SampleTime, WindowMs(cfg), SampleOf(o.event, o.at));
  }

  lemma {:induction false} HistoryStep(cfg: Config, r: Record, log: seq<Observation>, o: Observation)
    requires Agrees(cfg, r, log)
    requires log != [] ==> Last(log).at <= o.at
    ensures WithNewestPct(AbsorbedHistory(cfg, r, o.event, o.at, ClientIn(o)),
                          MetricsOf(cfg, log + [o]).window10s.pct)
            == HistoryOf(cfg, log + [o])
  {
    hide CountersOf, MetricsOf, WithNewestPct, ResetIndex, Retained, Trimmed, Upserted, PointsFrom, CountersReset,
      TimeRegressed, PeerOf, Sightings, ResetTime, Chronological;
    KeptWindows(cfg, r, log, o);
    var start, pct := ResetIndex(log + [o]), MetricsOf(cfg, log + [o]).window10s.pct;
    var p := PointOf(o.event, o.at, None, ClientIn(o));
    PointsFollowed(cfg, log, start, p);
    LateRetainedStep(PointsFrom(cfg, log, start), p, pct, WindowMs(cfg));
    PointsSnoc(cfg, log, o, start);
  }

  /**
   Absorbing an event keeps the record in agreement with the log extended by that event,
   and never takes the time-regression branch.
   */
  lemma {:induction false} AbsorbAgrees(
    cfg: Config, r: Record, id: string, event: TelemetryEvent, receivedAt: int, log: seq<Observation>)
    requires Agrees(cfg, r, log)
    ensures var at := NormalizedTime(r.summary.lastObserved, event.unixMs, receivedAt);
            && !TimeRegressed(r, at)
            && Agrees(cfg, Absorbed(cfg, r, id, event, receivedAt), log + [Observation(at, event)])
  {
    hide CountersOf, HistoryOf, AbsorbedCounters, AbsorbedHistory, PeerAfter, PeerOf, Sightings, ResetTime, ResetIndex,
      Retained, Samples, PointsFrom, WithNewestPct, TimeRegressed, CountersReset, NewCmdline, ShutdownStored,
      Chronological, WindowOf, Classify, StartOf, OrElse, Text.SanitizedEndpoint, Text.SanitizedDisplayId;
    var at := NormalizedTime(r.summary.lastObserved, event.unixMs, receivedAt);
    var o := Observation(at, event);
    AppendChronological(log, o);
    KeptWindows(cfg, r, log, o);
    CountersStep(cfg, r, log, o);
    HistoryStep(cfg, r, log, o);
    PeerAgrees(r, log, o);
    ResetTimeStep(cfg, r, log, o);
  }

  lemma PeerAgrees(r: Record, log: seq<Observation>, o: Observation)
    requires r.summary.peer == PeerOf(Sightings(log))
    ensures PeerAfter(r.summary.peer, ClientIn(o), o.at) == PeerOf(Sightings(log + [o]))
    ensures PeerAfter(r.summary.peer, ClientIn(o), o.at).current == ClientIn(o)
  {
    hide Attached, LastChange;
    SightingsSnoc(log, o);
    PeerStep(Sightings(log), Sighting(ClientIn(o), o.at));
  }

  lemma ResetTimeStep(cfg: Config, r: Record, log: seq<Observation>, o: Observation)
    requires r.summary.metrics == MetricsOf(cfg, log) && r.summary.counterResetAt == ResetTime(log)
    ensures ResetTime(log + [o]) == if CountersReset(r, o.event) then Some(o.at) else r.summary.counterResetAt
  {
    ResetIndexSnoc(log, o);
    hide CountersOf;
    assert ResetIndex(log) < |log| ==> (log + [o])[ResetIndex(log)] == log[ResetIndex(log)];
  }

  // ----- What the retransmit windows measure -----

  /** The three counters behind the retransmit windows were all reported. */
  predicate ReportsAll(o: Observation) {
    FullyReported(SampleOf(o.event, o.at))
  }

  /** Every event since the last reset reports all three counters. */
  ghost predicate AllReported(log: seq<Observation>) {
    forall k :: ResetIndex(log) <= k < |log| ==> ReportsAll(log[k])
  }

  lemma {:induction false} SinceResetAdvances(log: seq<Observation>, i: nat, j: nat)
    requires ResetIndex(log) <= i < j < |log|
    requires AllReported(log)
    ensures Advances(SampleOf(log[i].event, log[i].at), SampleOf(log[j].event, log[j].at))
    decreases j
  {
    assert ReportsAll(log[i]) && ReportsAll(log[j]) && ReportsAll(log[j - 1]);
    assert !Regressed(CountersIn(log[j - 1]), CountersIn(log[j]));
    if i < j - 1 {
      SinceResetAdvances(log, i, j - 1);
    }
  }

  lemma SampleAt(log: seq<Observation>, start: nat, i: nat)
    requires start + i < |log|
    ensures Samples(log[start..])[i] == SampleOf(log[start + i].event, log[start + i].at)
  {
  }

  lemma SamplesAdvance(log: seq<Observation>)
    requires AllReported(log)
    ensures Pairwise(Samples(log[ResetIndex(log)..]), Advances)
  {
    hide Advances, ResetIndex, AllReported, SampleOf;
    var start := ResetIndex(log);
    var samples := Samples(log[start..]);
    forall i, j | 0 <= i < j < |samples|
      ensures Advances(samples[i], samples[j])
    {
      SinceResetAdvances(log, start + i, start + j);
      SampleAt(log, start, i);
      SampleAt(log, start, j);
    }
  }

  /** No window reaches across a counter reset: every sample in it was reported at or after the last one. */
  lemma {:induction false} WindowSinceReset(cfg: Config, r: Record, log: seq<Observation>, s: CounterSample)
    requires Agrees(cfg, r, log) && s in r.counters
    ensures exists j :: ResetIndex(log) <= j < |log| && s == SampleOf(log[j].event, log[j].at)
  {
    hide HistoryOf, MetricsOf, PeerOf, Sightings, ResetTime, Retained;
    var start := ResetIndex(log);
    var samples := Samples(log[start..]);
    RetainedPairwise(samples, SampleTime, WindowMs(cfg), (a, b) => true);
    var i :| 0 <= i < |samples| && samples[i] == s;
    assert s == SampleOf(log[start + i].event, log[start + i].at);
  }

  /**
   When every event since the last reset reports all three counters, both windows show exact differences,
   and the long window never shows less than the short one.
   */
  lemma {:induction false} WindowsExact(cfg: Config, r: Record, log: seq<Observation>)
    returns (bLong: int, bShort: int)
    requires Agrees(cfg, r, log) && log != []
    requires AllReported(log)
    requires r.summary.metrics.window60s.complete
    ensures 0 <= bLong <= bShort < |r.counters| - 1
    ensures r.summary.metrics.window10s.complete
    ensures Advances(r.counters[bLong], Last(r.counters)) && Advances(r.counters[bShort], Last(r.counters))
    ensures ExactBreakdown(r.summary.metrics.window60s.breakdown, Last(r.counters), r.counters[bLong])
    ensures ExactBreakdown(r.summary.metrics.window10s.breakdown, Last(r.counters), r.counters[bShort])
    ensures AtLeast(r.summary.metrics.window60s.breakdown, r.summary.metrics.window10s.breakdown)
  {
    WindowsAligned(cfg, r, log);
    SamplesAdvance(log);
    hide HistoryOf, PeerOf, Sightings, ResetTime, Retained, Advances, WindowOf, ResetIndex;
    RetainedPairwise(Samples(log[ResetIndex(log)..]), SampleTime, WindowMs(cfg), Advances);
    LongerWindowCompleteImpliesShorter(r.counters, LONG_WINDOW_MS, SHORT_WINDOW_MS);
    bLong, bShort := ExactDeltas(r.counters, LONG_WINDOW_MS, SHORT_WINDOW_MS);
  }

  /** The times in the peer record are ordered: last change, last sighting, last observation. */
  predicate PeerTimesInOrder(s: Summary) {
    && (s.peer.lastSeenAt.Some? ==> s.peer.lastSeenAt.value <= s.lastObserved)
    && (s.peer.changedAt.Some? ==> s.peer.lastSeenAt.Some? && s.peer.changedAt.value <= s.peer.lastSeenAt.value)
  }

  lemma {:induction false} RecordPeerTimes(cfg: Config, r: Record, log: seq<Observation>)
    requires Agrees(cfg, r, log)
    ensures PeerTimesInOrder(r.summary)
  {
    hide CountersOf, HistoryOf, MetricsOf, ResetTime;
    var sightings := Sightings(log);
    if log != [] {
      assert forall i, j :: 0 <= i <= j < |log| ==> ObservedAt(log[i]) <= ObservedAt(log[j]);
      PeerTimesOrdered(sightings, Last(log).at);
    }
  }

  function UpdatesOnly(updates: Option<u64>, at: int): Observation {
    var counters := NO_COUNTERS.(stateUpdatesTx := updates, retransmits := Some(0));
    Observation(at, TelemetryEvent(SessionTick, None, 1, at, Some(0), None, None, None, None, None,
                                   NO_READING.(counters := counters)))
  }

  /** An unreported counter hides a regression: no reset is seen and the window shows no updates at all. */
  lemma HiddenRegression(cfg: Config)
    requires cfg.historySecs >= 10
    ensures var log := [UpdatesOnly(Some(100), 0), UpdatesOnly(None, 5_000), UpdatesOnly(Some(5), 10_000)];
            && ResetIndex(log) == 0
            && MetricsOf(cfg, log).window10s.complete
            && MetricsOf(cfg, log).window10s.breakdown.stateUpdates == Some(0)
  {
    var log := [UpdatesOnly(Some(100), 0), UpdatesOnly(None, 5_000), UpdatesOnly(Some(5), 10_000)];
    assert log[..2] == [UpdatesOnly(Some(100), 0), UpdatesOnly(None, 5_000)];
    assert ResetIndex(log[..2]) == 0;
    var s0 := SampleOf(log[0].event, 0);
    var s1 := SampleOf(log[1].event, 5_000);
    var s2 := SampleOf(log[2].event, 10_000);
    assert log[0..] == log;
    assert Samples(log) == [s0, s1, s2];
    assert StrictlyChronological([s0, s1, s2], SampleTime);
    assert [s0, s1, s2][1..] == [s1, s2] && [s1, s2][1..] == [s2] && [s2][1..] == [];
    assert LastWrites([s2], SampleTime) == [s2];
    assert LastWrites([s1, s2], SampleTime) == [s1, s2];
    assert LastWrites([s0, s1, s2], SampleTime) == [s0, s1, s2];
    KeepsAll([s0, s1, s2], SampleTime, 10_000 - WindowMs(cfg));
    assert CountersOf(cfg, log) == [s0, s1, s2];
    assert [s0, s1, s2][..2] == [s0, s1] && [s0, s1][..1] == [s0];
    assert Baseline([s0], 10_000, 10_000) == Some(s0);
    assert Baseline([s0, s1], 10_000, 10_000) == Some(s0);
    assert Baseline([s0, s1, s2], 10_000, 10_000) == Some(s0);
  }
}
