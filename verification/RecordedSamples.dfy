/** Which samples of tracked sessions come back from the read-time sanitiser as they were recorded. */
module RecordedSamples {
  import opened Prelude
  import opened Decimal
  import opened SessionIds
  import opened Records
  import opened Retransmits
  import opened HealthPolicy
  import opened PeerTracking
  import opened Eviction
  import opened Registry
  import RecordLog
  import opened RegistryRuns
  import opened RegistryProperties
  import opened Samples
  import opened TelemetryStream
  import Text

  /** Absent, or a text the sanitiser returns as it is. */
  predicate Presented(v: Option<string>) { v.Some? ==> Text.Presentable(v.value, 128) }

  predicate IsPercentage(v: Option<real>) { v.Some? ==> 0.0 <= v.value <= 100.0 }

  predicate PlausibleReading(r: Reading) {
    NotNegative(r.srttMs) && NotNegative(r.rttvarMs) && NotNegative(r.lastRttMs)
  }

  /** A summary whose texts and measurements the sanitiser has nothing to object to. */
  predicate Storable(s: Summary) {
    && Presented(s.displayId) && Presented(s.bindAddr) && Presented(s.peer.current) && Presented(s.peer.last)
    && PlausibleReading(s.metrics.reading)
    && IsPercentage(s.metrics.window10s.pct) && IsPercentage(s.metrics.window60s.pct)
  }

  /** Round-trip times as the stream handler lets them through, and addresses as the kernel formats them. */
  predicate PlausibleStep(step: Step) {
    match step
    case Telemetry(_, event, _) => PlausibleReading(event.reading)
    case Discovery(found, _) => forall d :: d in found ==> Presented(d.bindAddr)
  }

  /** Everything a telemetry connection applies is such a step. */
  lemma TrustworthyIsPlausible(event: TelemetryEvent, peer: VerifiedPeer, at: int)
    requires Trustworthy(event, peer)
    ensures Permitted(Telemetry(PeerId(peer), event, at)) && PlausibleStep(Telemetry(PeerId(peer), event, at))
  {
    hide InstrumentedId;
  }

  // ----- Every tracked summary is storable -----

  ghost predicate AllStorable(m: Sessions) {
    forall k :: k in m ==> Storable(m[k].summary)
  }

  lemma SanitizedPresented(v: Option<string>)
    ensures Presented(Text.SanitizedOptional(v, 128))
  {
    if v.Some? {
      Text.SanitizedIsPresentable(v.value, 128);
    }
  }

  lemma AbsorbedStorable(cfg: Config, r: Record, id: string, event: TelemetryEvent, at: int)
    requires Storable(r.summary) && PlausibleReading(event.reading)
    ensures Storable(Absorbed(cfg, r, id, event, at).summary)
  {
    hide Text.SanitizedOptional, Text.Presentable, AbsorbedCounters, AbsorbedHistory, WindowOf, Classify, NewCmdline;
    SanitizedPresented(event.displayId);
    SanitizedPresented(event.bindAddr);
    SanitizedPresented(event.clientAddr);
    var counters := AbsorbedCounters(cfg, r, event, NormalizedTime(r.summary.lastObserved, event.unixMs, at));
    PercentageInRange(counters, SHORT_WINDOW_MS);
    PercentageInRange(counters, LONG_WINDOW_MS);
  }

  lemma EventStorable(cfg: Config, m: Sessions, id: string, event: TelemetryEvent, at: int)
    requires AllStorable(m) && PlausibleReading(event.reading)
    ensures AllStorable(AfterEvent(cfg, m, id, event, at))
  {
    var twin := LegacyId(event.pid, StartOf(event, at));
    SanitizedPresented(event.displayId);
    SanitizedPresented(event.bindAddr);
    hide LegacyId, StartOf, Absorbed, Text.SanitizedOptional, Text.Presentable;
    var upgraded := Upgraded(m, id, twin);
    assert AllStorable(upgraded);
    var entry := if id in upgraded then upgraded[id] else NewRecord(id, event, at);
    AbsorbedStorable(cfg, entry, id, event, at);
    hide Storable;
  }

  lemma {:induction false} ScanStorable(cfg: Config, m: Sessions, found: seq<DiscoveredSession>, now: int)
    requires AllStorable(m) && forall d :: d in found ==> Presented(d.bindAddr)
    ensures AllStorable(AfterScan(cfg, m, found, now))
  {
    if found != [] {
      var front := found[..|found| - 1];
      ScanStorable(cfg, m, front, now);
      assert Last(found) in found;
      SightingStorable(cfg, AfterScan(cfg, m, front, now), Last(found), now);
    }
  }

  lemma SightingStorable(cfg: Config, m: Sessions, d: DiscoveredSession, now: int)
    requires AllStorable(m) && Presented(d.bindAddr)
    ensures AllStorable(AfterSighting(cfg, m, d, now))
  {
    hide SeenId, Text.Presentable, Classify;
  }

  lemma CapStorable(m: Sessions, cap: nat)
    requires AllStorable(m) && Keyed(m)
    ensures AllStorable(Capped(m, cap))
  {
    CappedIsTop(m, cap);
    hide Capped, Storable;
  }

  lemma StepStorable(cfg: Config, w: World, step: Step)
    requires Keyed(w.state.sessions) && AllStorable(w.state.sessions) && PlausibleStep(step)
    ensures AllStorable(Next(cfg, w, step).state.sessions)
  {
    hide Next, AfterEvent, AfterScan, SeenIds, Refused, Capped, Storable, PlausibleReading, Presented, Fresh;
    NextIsRegistryStep(cfg, w, step);
    var m := w.state.sessions;
    match step
    case Telemetry(id, event, at) =>
      EventStorable(cfg, m, id, event, at);
      EventKeyed(cfg, m, id, event, at);
      CapStorable(AfterEvent(cfg, m, id, event, at), cfg.maxTrackedSessions);
    case Discovery(found, at) =>
      ScanStorable(cfg, m, found, at);
      ScanKeyed(cfg, m, found, at);
      CapStorable(AfterDiscovery(cfg, m, found, at), cfg.maxTrackedSessions);
  }

  lemma {:induction false} RunStorable(cfg: Config, steps: seq<Step>)
    requires forall i :: 0 <= i < |steps| ==> PlausibleStep(steps[i])
    ensures AllStorable(Run(cfg, steps).state.sessions)
  {
    hide PlausibleStep, Next, AllStorable;
    if steps != [] {
      var front := steps[..|steps| - 1];
      RunStorable(cfg, front);
      assert PlausibleStep(Last(steps));
      StepStorable(cfg, Run(cfg, front), Last(steps));
    } else {
      EmptyStorable();
    }
  }

  lemma EmptyStorable()
    ensures AllStorable(EMPTY_WORLD.state.sessions)
  {
  }

  // ----- Session ids are presentable -----

  function Power(k: nat): nat { if k == 0 then 1 else 10 * Power(k - 1) }

  lemma {:induction false} DigitsShort(n: nat, k: nat)
    requires k > 0 && n < Power(k)
    ensures |Digits(n)| <= k
  {
    if n >= 10 {
      assert k > 1;
      DigitsShort(n / 10, k - 1);
    }
  }

  /** Printable without spaces. */
  predicate IsToken(s: string) {
    forall i :: 0 <= i < |s| ==> '!' <= s[i] <= '~'
  }

  lemma FormatToken(n: int)
    requires -I64_LIMIT <= n < I64_LIMIT
    ensures IsToken(Format(n)) && 0 < |Format(n)| <= 20
  {
    assert I64_LIMIT < Power(19) by {
      assert Power(19) == 1_000_000_000 * Power(10) == 10_000_000_000_000_000_000;
    }
    DigitsShort(if n < 0 then -n else n, 19);
  }

  lemma TokenPresentable(s: string, maxChars: nat)
    requires IsToken(s) && 0 < |s| <= maxChars
    ensures Text.Presentable(s, maxChars)
  {
  }

  lemma IdPresentable(pid: int, start: int)
    requires -I64_LIMIT <= pid < I64_LIMIT && -I64_LIMIT <= start < I64_LIMIT
    ensures Text.Presentable(InstrumentedId(pid, start), 128)
  {
    FormatToken(pid);
    FormatToken(start);
    hide Format, Text.Presentable;
    TokenPresentable(InstrumentedId(pid, start), 128);
  }

  // ----- What the sanitiser does to a recorded sample -----

  predicate ObserverPresentable(o: ObserverInfo) {
    Text.Presentable(o.nodeName, 255) && Text.Presentable(o.systemId, 255)
  }

  lemma ObserverKept(o: ObserverInfo)
    ensures SanitizedObserver(Some(o)) == Some(o) <==> ObserverPresentable(o)
  {
    Text.ExactAcceptsImage(o.nodeName, 255);
    Text.ExactAcceptsImage(o.systemId, 255);
    hide Text.Sanitized, Text.Presentable, Text.InImage;
  }

  lemma PresentedKept(v: Option<string>)
    requires Presented(v)
    ensures Text.SanitizedOptional(v, 128) == v
  {
    if v.Some? {
      Text.PresentableIsFixed(v.value, 128);
    }
  }

  lemma StorableMetricsKept(s: Summary)
    requires Storable(s)
    ensures SanitizedMetrics(SampleMetricsOf(s.metrics)) == SampleMetricsOf(s.metrics)
  {
    hide Presented;
  }

  lemma MaterializedStorable(s: Summary, t: Thresholds, now: int)
    requires Storable(s)
    ensures Storable(Materialized(s, t, now))
  {
    hide Presented, Classify;
  }

  lemma SampleKept(observer: ObserverInfo, at: int, s: Summary)
    requires Storable(s) && s.kind == Instrumented && Text.Presentable(s.sessionId, 128)
    ensures SanitizedSample(SampleFrom(observer, at, s)) == Some(SampleFrom(observer, at, s)) <==>
              s.pid > 0 && ObserverPresentable(observer)
  {
    PresentedKept(s.displayId);
    PresentedKept(s.bindAddr);
    PresentedKept(s.peer.last);
    PresentedKept(s.peer.current);
    StorableMetricsKept(s);
    ObserverKept(observer);
    Text.ExactAcceptsImage(s.sessionId, 128);
    hide Text.Sanitized, Text.SanitizedOptional, Text.Presentable, Text.InImage, Text.IsExactAndBounded,
      SanitizedMetrics, SampleMetricsOf, SanitizedObserver, ObserverPresentable;
  }

  /**
   For every instrumented record of every run of plausible steps: the sample recorded for it comes back from the
   sanitiser exactly as it was written, if and only if its process id is positive and the observer's names are
   presentable.
   */
  lemma RecordedSampleSurvivesExactly(
    cfg: Config, steps: seq<Step>, k: string, observer: ObserverInfo, now: int)
    requires forall i :: 0 <= i < |steps| ==> Permitted(steps[i]) && PlausibleStep(steps[i])
    requires k in Run(cfg, steps).state.sessions
    requires var s := Run(cfg, steps).state.sessions[k].summary;
             && s.kind == Instrumented
             && -I64_LIMIT <= s.pid < I64_LIMIT && -I64_LIMIT <= s.startedAt < I64_LIMIT
    ensures var s := Run(cfg, steps).state.sessions[k].summary;
            var sample := SampleFrom(observer, now, Materialized(s, cfg.thresholds, now));
            SanitizedSample(sample) == Some(sample) <==> s.pid > 0 && ObserverPresentable(observer)
  {
    hide Run, SanitizedSample, SampleFrom, Storable, InstrumentedId, LegacyId, ObserverPresentable, Text.Presentable,
      PlausibleStep, Classify;
    RunStorable(cfg, steps);
    IdOfRecord(cfg, steps, k);
    var s := Run(cfg, steps).state.sessions[k].summary;
    IdPresentable(s.pid, s.startedAt);
    MaterializedStorable(s, cfg.thresholds, now);
    MaterializedFrame(s, cfg.thresholds, now);
    hide Materialized;
    SampleKept(observer, now, Materialized(s, cfg.thresholds, now));
  }

  lemma IdOfRecord(cfg: Config, steps: seq<Step>, k: string)
    requires forall i :: 0 <= i < |steps| ==> Permitted(steps[i])
    requires k in Run(cfg, steps).state.sessions
    ensures var s := Run(cfg, steps).state.sessions[k].summary;
            s.sessionId == k && (s.kind == Instrumented ==> k == InstrumentedId(s.pid, s.startedAt))
  {
    hide Run, RecordLog.Agrees;
    ReachableRecord(cfg, steps, k);
  }
}
