/** The registry's data: configuration, telemetry events, and per-session records. */
module Records {
  import opened Prelude
  import opened SessionIds

  datatype Health = Healthy | Degraded | Critical | LegacyHealth

  datatype EventKind = SessionOpen | SessionTick | SessionClose

  /** The monotonic totals reported by telemetry; `None` means not reported. */
  datatype Counters = Counters(
    packetsTx: Option<u64>, packetsRx: Option<u64>, retransmits: Option<u64>, emptyAcksTx: Option<u64>,
    stateUpdatesTx: Option<u64>, stateUpdatesRx: Option<u64>,
    duplicateStatesRx: Option<u64>, outOfOrderStatesRx: Option<u64>)

  /** The measurements an event carries and a record copies verbatim. */
  datatype Reading = Reading(
    srttMs: Option<real>, rttvarMs: Option<real>, lastRttMs: Option<real>,
    lastHeardAgeMs: Option<u64>, remoteStateAgeMs: Option<u64>, counters: Counters)

  datatype Breakdown = Breakdown(
    transmissions: Option<u64>, retransmits: Option<u64>, stateUpdates: Option<u64>, emptyAcks: Option<u64>)

  datatype RetransmitWindow = RetransmitWindow(pct: Option<real>, complete: bool, breakdown: Breakdown)

  datatype Metrics = Metrics(reading: Reading, window10s: RetransmitWindow, window60s: RetransmitWindow)

  datatype TelemetryEvent = TelemetryEvent(
    kind: EventKind, displayId: Option<string>, pid: int, unixMs: int, startedAt: Option<int>,
    bindAddr: Option<string>, udpPort: Option<int>, clientAddr: Option<string>, cmdline: Option<string>,
    shutdown: Option<bool>, reading: Reading)

  datatype DiscoveredSession = DiscoveredSession(
    pid: int, startedAt: int, bindAddr: Option<string>, udpPort: Option<int>, cmdline: string)

  datatype Peer = Peer(
    current: Option<string>, last: Option<string>, previous: Option<string>,
    lastSeenAt: Option<int>, changedAt: Option<int>)

  datatype Summary = Summary(
    sessionId: string, displayId: Option<string>, pid: int, kind: SessionKind, health: Health,
    startedAt: int, lastObserved: int, counterResetAt: Option<int>,
    bindAddr: Option<string>, udpPort: Option<int>, clientAddr: Option<string>, peer: Peer,
    cmdline: string, metrics: Metrics)

  datatype MetricPoint = MetricPoint(
    unixMs: int, srttMs: Option<real>, retransmitPct10s: Option<real>,
    remoteStateAgeMs: Option<u64>, clientAddr: Option<string>)

  datatype CounterSample = CounterSample(
    unixMs: int, stateUpdatesTx: Option<u64>, retransmits: Option<u64>, emptyAcksTx: Option<u64>)

  datatype Record = Record(
    summary: Summary, history: seq<MetricPoint>, counters: seq<CounterSample>, shutdown: bool)

  datatype Thresholds = Thresholds(
    warnRttMs: u64, criticalRttMs: u64, warnRetransmitPct: real, criticalRetransmitPct: real,
    warnSilenceMs: u64, criticalSilenceMs: u64)

  datatype Config = Config(
    discoveryIntervalMs: u64, cleanupIntervalMs: u64, historySecs: u64,
    maxTrackedSessions: nat, maxSessionDetailPoints: nat, thresholds: Thresholds)

  /** The part of configuration validation the registry relies on. */
  predicate ValidConfig(cfg: Config) {
    && cfg.discoveryIntervalMs >= 500
    && cfg.cleanupIntervalMs >= 1_000
    && cfg.cleanupIntervalMs >= cfg.discoveryIntervalMs
    && 0 < cfg.historySecs <= 24 * 60 * 60
    && 0 < cfg.maxTrackedSessions <= 10_000
    && 0 < cfg.maxSessionDetailPoints <= 20_000
    && cfg.thresholds.warnRttMs <= cfg.thresholds.criticalRttMs
    && 0.0 <= cfg.thresholds.warnRetransmitPct <= cfg.thresholds.criticalRetransmitPct
    && cfg.thresholds.warnSilenceMs <= cfg.thresholds.criticalSilenceMs
  }

  const NO_BREAKDOWN := Breakdown(None, None, None, None)
  const NO_WINDOW := RetransmitWindow(None, false, NO_BREAKDOWN)
  const NO_COUNTERS := Counters(None, None, None, None, None, None, None, None)
  const NO_READING := Reading(None, None, None, None, None, NO_COUNTERS)
  const NO_METRICS := Metrics(NO_READING, NO_WINDOW, NO_WINDOW)
  const NO_PEER := Peer(None, None, None, None, None)
}
