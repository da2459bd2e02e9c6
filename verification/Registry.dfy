/** The session registry: the effect of one telemetry event and of one discovery scan. */
module Registry {
  import opened Prelude
  import opened SessionIds
  import opened Records
  import opened SlidingWindow
  import opened Retransmits
  import opened HealthPolicy
  import opened PeerTracking
  import opened Eviction
  import Text

  const SHORT_WINDOW_MS := 10_000
  const LONG_WINDOW_MS := 60_000

  datatype State = State(sessions: Sessions, dropped: u64)

  // ----- One telemetry event -----

  function PointTime(p: MetricPoint): int { p.unixMs }

  function WindowMs(cfg: Config): int { cfg.historySecs * 1000 }

  function InitialObserved(event: TelemetryEvent, receivedAt: int): int { Min(event.unixMs, receivedAt) }

  function StartOf(event: TelemetryEvent, receivedAt: int): int {
    UnwrapOr(event.startedAt, InitialObserved(event, receivedAt))
  }

  predicate ShutdownRequested(event: TelemetryEvent) {
    UnwrapOr(event.shutdown, false) || event.kind == SessionClose
  }

  /** The shutdown flag left in the record; an explicit flag overrides the event kind. */
  predicate ShutdownStored(event: TelemetryEvent) {
    UnwrapOr(event.shutdown, event.kind == SessionClose)
  }

  /** A legacy placeholder for the same process becomes the instrumented record. */
  function Upgraded(m: Sessions, id: string, legacyId: string): Sessions {
    if id != legacyId && id !in m && legacyId in m then
      var legacy := m[legacyId];
      (m - {legacyId})[id := legacy.(summary := legacy.summary.(sessionId := id, kind := Instrumented))]
    else m
  }

  function NewRecord(id: string, event: TelemetryEvent, receivedAt: int): Record {
    Record(
      Summary(id, Text.SanitizedDisplayId(event.displayId), event.pid, Instrumented, Healthy,
              StartOf(event, receivedAt), InitialObserved(event, receivedAt), None,
              Text.SanitizedEndpoint(event.bindAddr), event.udpPort, None, NO_PEER,
              if event.cmdline.None? then "mosh-server-real" else Text.SanitizedCmdline(event.cmdline.value),
              NO_METRICS),
      [], [], false)
  }

  /** Event time clamped to the receive time and to the session's own past. */
  function NormalizedTime(lastObserved: int, eventMs: int, receivedAt: int): int {
    Max(Min(eventMs, receivedAt), lastObserved)
  }

  function PointOf(event: TelemetryEvent, at: int, pct: Option<real>, client: Option<string>): MetricPoint {
    MetricPoint(at, event.reading.srttMs, pct, event.reading.remoteStateAgeMs, client)
  }

  function SampleOf(event: TelemetryEvent, at: int): CounterSample {
    CounterSample(at, event.reading.counters.stateUpdatesTx, event.reading.counters.retransmits,
                  event.reading.counters.emptyAcksTx)
  }

  function WithNewestPct(history: seq<MetricPoint>, pct: Option<real>): seq<MetricPoint> {
    if history == [] then [] else history[..|history| - 1] + [Last(history).(retransmitPct10s := pct)]
  }

  predicate CountersReset(r: Record, event: TelemetryEvent) {
    Regressed(r.summary.metrics.reading.counters, event.reading.counters)
  }

  predicate TimeRegressed(r: Record, at: int) {
    r.history != [] && at < Last(r.history).unixMs
  }

  function NewCmdline(known: string, event: TelemetryEvent): string {
    if event.cmdline.None? then known
    else
      var shown := Text.SanitizedCmdline(event.cmdline.value);
      if Text.Trim(shown) == [] then known else shown
  }

  function AbsorbedCounters(cfg: Config, r: Record, event: TelemetryEvent, at: int): seq<CounterSample> {
    var kept := if CountersReset(r, event) || TimeRegressed(r, at) then [] else r.counters;
    Trimmed(Upserted(kept, SampleTime, SampleOf(event, at)), SampleTime, WindowMs(cfg))
  }

  function AbsorbedHistory(cfg: Config, r: Record, event: TelemetryEvent, at: int, client: Option<string>)
    : seq<MetricPoint>
  {
    var kept := if CountersReset(r, event) || TimeRegressed(r, at) then [] else r.history;
    Trimmed(Upserted(kept, PointTime, PointOf(event, at, None, client)), PointTime, WindowMs(cfg))
  }

  /** The record after taking in one event. */
  function Absorbed(cfg: Config, r: Record, id: string, event: TelemetryEvent, receivedAt: int): Record {
    var s := r.summary;
    var at := NormalizedTime(s.lastObserved, event.unixMs, receivedAt);
    var peer := PeerAfter(s.peer, Text.SanitizedEndpoint(event.clientAddr), at);
    var counters := AbsorbedCounters(cfg, r, event, at);
    var history := AbsorbedHistory(cfg, r, event, at, peer.current);
    var metrics := Metrics(event.reading, WindowOf(counters, SHORT_WINDOW_MS), WindowOf(counters, LONG_WINDOW_MS));
    Record(
      Summary(id, OrElse(s.displayId, Text.SanitizedDisplayId(event.displayId)), event.pid, Instrumented,
              Classify(Instrumented, metrics, cfg.thresholds),
              StartOf(event, receivedAt), at,
              if CountersReset(r, event) then Some(at) else s.counterResetAt,
              OrElse(Text.SanitizedEndpoint(event.bindAddr), s.bindAddr), OrElse(event.udpPort, s.udpPort),
              peer.last, peer, NewCmdline(s.cmdline, event), metrics),
      WithNewestPct(history, metrics.window10s.pct), counters, ShutdownStored(event))
  }

  /** A new active session is refused when the table is full of active instrumented sessions. */
  ghost predicate Rejects(cfg: Config, m: Sessions, shutdown: bool) {
    && !shutdown
    && |m| >= cfg.maxTrackedSessions
    && m != map[]
    && forall k :: k in m ==> EvictionClass(m[k]) == 2
  }

  ghost function CapStep(st: State, cap: nat): State
    requires Keyed(st.sessions)
  {
    CappedIsTop(st.sessions, cap);
    var r := Capped(st.sessions, cap);
    State(r, Min(st.dropped + (|st.sessions| - |r|), U64_MAX))
  }

  /** The table after the event, before the cap is enforced. */
  function AfterEvent(cfg: Config, m: Sessions, id: string, event: TelemetryEvent, receivedAt: int): Sessions {
    var upgraded := Upgraded(m, id, LegacyId(event.pid, StartOf(event, receivedAt)));
    var entry := if id in upgraded then upgraded[id] else NewRecord(id, event, receivedAt);
    upgraded[id := Absorbed(cfg, entry, id, event, receivedAt)]
  }

  ghost predicate Refused(cfg: Config, m: Sessions, id: string, event: TelemetryEvent, receivedAt: int) {
    && id !in Upgraded(m, id, LegacyId(event.pid, StartOf(event, receivedAt)))
    && Rejects(cfg, m, ShutdownRequested(event))
  }

  lemma EventKeyed(cfg: Config, m: Sessions, id: string, event: TelemetryEvent, receivedAt: int)
    requires Keyed(m)
    ensures Keyed(AfterEvent(cfg, m, id, event, receivedAt))
  {
  }

  ghost function TelemetryStep(cfg: Config, st: State, id: string, event: TelemetryEvent, receivedAt: int): State
    requires Keyed(st.sessions)
  {
    if Refused(cfg, st.sessions, id, event, receivedAt) then st.(dropped := SaturatingAdd(st.dropped, 1))
    else
      EventKeyed(cfg, st.sessions, id, event, receivedAt);
      CapStep(st.(sessions := AfterEvent(cfg, st.sessions, id, event, receivedAt)), cfg.maxTrackedSessions)
  }

  // ----- One discovery scan -----

  /** The key a discovered process is tracked under. */
  function SeenId(m: Sessions, d: DiscoveredSession): string {
    var instrumentedId := InstrumentedId(d.pid, d.startedAt);
    if instrumentedId in m then instrumentedId else LegacyId(d.pid, d.startedAt)
  }

  function NewLegacyRecord(id: string, d: DiscoveredSession, now: int): Record {
    Record(
      Summary(id, None, d.pid, Legacy, LegacyHealth, d.startedAt, now, None, d.bindAddr, d.udpPort, None,
              NO_PEER, d.cmdline, NO_METRICS),
      [], [], false)
  }

  function Rediscovered(cfg: Config, r: Record, d: DiscoveredSession, now: int): Record {
    var s := r.summary;
    r.(summary :=
      if s.kind == Legacy then
        s.(pid := d.pid, startedAt := d.startedAt, lastObserved := now,
           bindAddr := OrElse(d.bindAddr, s.bindAddr), udpPort := OrElse(d.udpPort, s.udpPort),
           cmdline := d.cmdline, health := LegacyHealth)
      else s.(pid := d.pid, health := Classify(s.kind, s.metrics, cfg.thresholds)))
  }

  function AfterSighting(cfg: Config, m: Sessions, d: DiscoveredSession, now: int): Sessions {
    var id := SeenId(m, d);
    var entry := if id in m then m[id] else NewLegacyRecord(id, d, now);
    m[id := Rediscovered(cfg, entry, d, now)]
  }

  function AfterScan(cfg: Config, m: Sessions, found: seq<DiscoveredSession>, now: int): Sessions {
    if found == [] then m
    else AfterSighting(cfg, AfterScan(cfg, m, found[..|found| - 1], now), Last(found), now)
  }

  function SeenIds(cfg: Config, m: Sessions, found: seq<DiscoveredSession>, now: int): set<string> {
    if found == [] then {}
    else
      var front := found[..|found| - 1];
      SeenIds(cfg, m, front, now) + {SeenId(AfterScan(cfg, m, front, now), Last(found))}
  }

  /** A u64 reinterpreted as an i64. */
  function AsI64(n: u64): int { if n < I64_LIMIT then n else n - 2 * I64_LIMIT }

  /** `(cleanup_interval_ms * 3).max(30_000) as i64`, with the product wrapping at 64 bits. */
  function StaleCutoffMs(cfg: Config): int {
    AsI64(Max((cfg.cleanupIntervalMs * 3) % (U64_MAX + 1), 30_000))
  }

  function GraceMs(cfg: Config): int { AsI64(Max(cfg.discoveryIntervalMs, 5_000)) }

  predicate Fresh(cfg: Config, r: Record, now: int) {
    var age := now - r.summary.lastObserved;
    if r.summary.kind == Instrumented && !r.shutdown then age < StaleCutoffMs(cfg) else age < GraceMs(cfg)
  }

  function AfterAgeing(cfg: Config, m: Sessions, seen: set<string>, now: int): Sessions {
    map k | k in m && (k in seen || Fresh(cfg, m[k], now)) :: m[k]
  }

  /** The table after the scan and the ageing pass, before the cap is enforced. */
  function AfterDiscovery(cfg: Config, m: Sessions, found: seq<DiscoveredSession>, now: int): Sessions {
    AfterAgeing(cfg, AfterScan(cfg, m, found, now), SeenIds(cfg, m, found, now), now)
  }

  lemma {:induction false} ScanKeyed(cfg: Config, m: Sessions, found: seq<DiscoveredSession>, now: int)
    requires Keyed(m)
    ensures Keyed(AfterScan(cfg, m, found, now))
  {
    if found != [] {
      ScanKeyed(cfg, m, found[..|found| - 1], now);
    }
  }

  ghost function DiscoveryStep(cfg: Config, st: State, found: seq<DiscoveredSession>, now: int): State
    requires Keyed(st.sessions)
  {
    ScanKeyed(cfg, st.sessions, found, now);
    CapStep(st.(sessions := AfterDiscovery(cfg, st.sessions, found, now)), cfg.maxTrackedSessions)
  }

  // ----- The mutable registry -----

  class ServiceState {
    const config: Config
    var sessions: Sessions
    var dropped: u64

    ghost predicate Valid()
      reads this
    {
      Keyed(sessions)
    }

    ghost function Current(): State
      reads this
    {
      State(sessions, dropped)
    }

    constructor (config: Config)
      ensures Valid() && this.config == config && Current() == State(map[], 0)
    {
      this.config := config;
      sessions, dropped := map[], 0;
    }

    /** Evict until the cap holds, counting each eviction. */
    method EnforceSessionCap()
      requires Valid()
      modifies this
      ensures Valid() && Current() == CapStep(old(Current()), config.maxTrackedSessions)
    {
      ghost var cap := config.maxTrackedSessions;
      CappedIsTop(sessions, cap);
      while |sessions| > config.maxTrackedSessions
        invariant Keyed(sessions) && |sessions| >= Min(|old(sessions)|, cap)
        invariant Capped(sessions, cap) == Capped(old(sessions), cap)
        invariant dropped == Min(old(dropped) + (|old(sessions)| - |sessions|), U64_MAX)
        decreases |sessions|
      {
        var found := FindWorst(sessions);
        assert sessions != map[];
        var worst := found.value;
        WorstUnique(sessions, worst, Worst(sessions));
        ghost var before := sessions;
        sessions := sessions - {worst};
        assert sessions.Keys == before.Keys - {worst};
        dropped := SaturatingAdd(dropped, 1);
      }
    }

    method RejectNewActiveInstrumentedSession(shutdown: bool) returns (rejected: bool)
      requires Valid()
      modifies this`dropped
      ensures rejected <==> Rejects(config, sessions, shutdown)
      ensures dropped == if rejected then SaturatingAdd(old(dropped), 1) else old(dropped)
    {
      if shutdown || |sessions| < config.maxTrackedSessions {
        return false;
      }
      var worst := FindWorst(sessions);
      if worst.None? {
        return false;
      }
      if EvictionClass(sessions[worst.value]) == 2 {
        dropped := SaturatingAdd(dropped, 1);
        return true;
      }
      return false;
    }

    /** The in-place update of one record by one event. */
    method Absorb(r: Record, id: string, event: TelemetryEvent, receivedAt: int) returns (updated: Record)
      ensures updated == Absorbed(config, r, id, event, receivedAt)
    {
      var summary, history, counters := r.summary, r.history, r.counters;
      var at := NormalizedTime(summary.lastObserved, event.unixMs, receivedAt);
      if Regressed(summary.metrics.reading.counters, event.reading.counters) {
        summary := summary.(counterResetAt := Some(at));
        history, counters := [], [];
      } else if history != [] && at < Last(history).unixMs {
        history, counters := [], [];
      }
      summary := summary.(
        sessionId := id, pid := event.pid, kind := Instrumented,
        startedAt := StartOf(event, receivedAt), lastObserved := at);
      if summary.displayId.None? {
        summary := summary.(displayId := Text.SanitizedDisplayId(event.displayId));
      }
      var peer := PeerAfter(summary.peer, Text.SanitizedEndpoint(event.clientAddr), at);
      summary := summary.(
        bindAddr := OrElse(Text.SanitizedEndpoint(event.bindAddr), summary.bindAddr),
        udpPort := OrElse(event.udpPort, summary.udpPort),
        peer := peer, clientAddr := peer.last, cmdline := NewCmdline(summary.cmdline, event));
      history := Upserted(history, PointTime, PointOf(event, at, None, peer.current));
      counters := Upserted(counters, SampleTime, SampleOf(event, at));
      history := TrimHistory(history, PointTime, WindowMs(config));
      counters := TrimHistory(counters, SampleTime, WindowMs(config));
      var short := RetransmitPct(counters, SHORT_WINDOW_MS);
      var long := RetransmitPct(counters, LONG_WINDOW_MS);
      summary := summary.(metrics := Metrics(event.reading, short, long));
      history := WithNewestPct(history, short.pct);
      summary := summary.(health := Classify(summary.kind, summary.metrics, config.thresholds));
      var shutdown := r.shutdown;
      if event.kind == SessionClose {
        shutdown := true;
      }
      shutdown := if event.shutdown.Some? then event.shutdown.value else ShutdownRequested(event);
      updated := Record(summary, history, counters, shutdown);
    }

    method ApplyTelemetryAt(id: string, event: TelemetryEvent, receivedAt: int)
      requires Valid()
      modifies this
      ensures Valid() && Current() == TelemetryStep(config, old(Current()), id, event, receivedAt)
    {
      hide Absorbed, NewRecord, StartOf, LegacyId, Capped, Rejects, Keyed;
      var legacyId := LegacyId(event.pid, StartOf(event, receivedAt));
      if id != legacyId && id !in sessions && legacyId in sessions {
        var legacy := sessions[legacyId];
        sessions := sessions - {legacyId};
        sessions := sessions[id := legacy.(summary := legacy.summary.(sessionId := id, kind := Instrumented))];
      }
      if id !in sessions {
        var rejected := RejectNewActiveInstrumentedSession(ShutdownRequested(event));
        if rejected {
          return;
        }
      }
      var entry := if id in sessions then sessions[id] else NewRecord(id, event, receivedAt);
      entry := Absorb(entry, id, event, receivedAt);
      sessions := sessions[id := entry];
      assert sessions == AfterEvent(config, old(sessions), id, event, receivedAt);
      EventKeyed(config, old(sessions), id, event, receivedAt);
      EnforceSessionCap();
    }

    method RefreshDiscovery(found: seq<DiscoveredSession>, now: int)
      requires Valid()
      modifies this
      ensures Valid() && Current() == DiscoveryStep(config, old(Current()), found, now)
    {
      hide Rediscovered, NewLegacyRecord, SeenId, Fresh, Capped;
      var seen: set<string> := {};
      var i := 0;
      assert found[..0] == [];
      while i < |found|
        invariant 0 <= i <= |found|
        invariant dropped == old(dropped)
        invariant sessions == AfterScan(config, old(sessions), found[..i], now)
        invariant seen == SeenIds(config, old(sessions), found[..i], now)
      {
        assert found[..i + 1][..i] == found[..i];
        var d := found[i];
        var id := SeenId(sessions, d);
        seen := seen + {id};
        var entry := if id in sessions then sessions[id] else NewLegacyRecord(id, d, now);
        sessions := sessions[id := Rediscovered(config, entry, d, now)];
        i := i + 1;
      }
      assert found[..i] == found;
      ScanKeyed(config, old(sessions), found, now);
      sessions := map k | k in sessions && (k in seen || Fresh(config, sessions[k], now)) :: sessions[k];
      assert sessions == AfterDiscovery(config, old(sessions), found, now);
      EnforceSessionCap();
    }
  }
}
