/**
 What the registry's policies come to, in terms of the fields of records, events and configuration only: the health of
 a session, who ages out, who is evicted, who is refused, and what an event or a sighting leaves in a record.
 */
module RegistryPolicy {
  import opened Prelude
  import opened SessionIds
  import opened Records
  import opened SlidingWindow
  import opened Retransmits
  import opened HealthPolicy
  import opened PeerTracking
  import opened Eviction
  import opened Registry
  import opened RecordLog
  import opened RegistryRuns
  import opened RegistryProperties
  import Text

  // ----- Health -----

  /** Smoothed RTT, sustained loss or silence is at or above its critical threshold. */
  predicate CriticalSignal(m: Metrics, t: Thresholds) {
    || (m.reading.srttMs.Some? && m.reading.srttMs.value >= t.criticalRttMs as real)
    || (m.window60s.pct.Some? && m.window60s.pct.value >= t.criticalRetransmitPct)
    || (m.reading.lastHeardAgeMs.Some? && m.reading.lastHeardAgeMs.value >= t.criticalSilenceMs)
  }

  /** Every signal that is reported is below its warning threshold. */
  predicate AllQuiet(m: Metrics, t: Thresholds) {
    && (m.reading.srttMs.Some? ==> m.reading.srttMs.value < t.warnRttMs as real)
    && (m.window10s.pct.Some? ==> m.window10s.pct.value < t.warnRetransmitPct)
    && (m.window60s.pct.Some? ==> m.window60s.pct.value < t.warnRetransmitPct)
    && (m.reading.lastHeardAgeMs.Some? ==> m.reading.lastHeardAgeMs.value < t.warnSilenceMs)
  }

  /** The health the documentation promises for these signals. */
  predicate HealthReflects(s: Summary, t: Thresholds) {
    match s.kind
    case Legacy => s.health == LegacyHealth
    case Instrumented =>
      && (s.health == Critical <==> CriticalSignal(s.metrics, t))
      && (s.health == Healthy <==> AllQuiet(s.metrics, t))
      && (s.health == Degraded <==> !CriticalSignal(s.metrics, t) && !AllQuiet(s.metrics, t))
  }

  /** After every run the stored health of every record is what its signals say. */
  lemma StoredHealthExactly(cfg: Config, steps: seq<Step>, k: string)
    requires ValidConfig(cfg) && forall i :: 0 <= i < |steps| ==> Permitted(steps[i])
    requires k in Run(cfg, steps).state.sessions
    ensures HealthReflects(Run(cfg, steps).state.sessions[k].summary, cfg.thresholds)
  {
    hide Run, Agrees, TwinFree;
    RunGood(cfg, steps);
    var w := Run(cfg, steps);
    assert RecordOk(cfg, k, w.state.sessions[k], w.logs[k]);
    ClassifiedHealth(cfg, w.state.sessions[k].summary);
  }

  lemma ClassifiedHealth(cfg: Config, s: Summary)
    requires ValidConfig(cfg) && s.health == Classify(s.kind, s.metrics, cfg.thresholds)
    ensures HealthReflects(s, cfg.thresholds)
  {
  }

  function AgedBy(age: Option<u64>, elapsed: int): Option<int> { Some(Min(UnwrapOr(age, 0) + elapsed, U64_MAX)) }

  /**
   An exported summary carries the two ages advanced by the time since the last observation, nothing else changed, and
   the health those signals say.
   */
  lemma ExportedHealthExactly(cfg: Config, s: Summary, now: int)
    requires ValidConfig(cfg)
    ensures var x, elapsed := Materialized(s, cfg.thresholds, now), now - s.lastObserved;
            && HealthReflects(x, cfg.thresholds)
            && x == s.(health := x.health, metrics := x.metrics)
            && x.metrics == s.metrics.(reading := x.metrics.reading)
            && (s.kind == Legacy || elapsed <= 0 ==> x.metrics == s.metrics)
            && (s.kind == Instrumented && elapsed > 0 ==>
                  && x.metrics.reading.lastHeardAgeMs == AgedBy(s.metrics.reading.lastHeardAgeMs, elapsed)
                  && x.metrics.reading.remoteStateAgeMs == AgedBy(s.metrics.reading.remoteStateAgeMs, elapsed)
                  && x.metrics.reading == s.metrics.reading.(
                       lastHeardAgeMs := x.metrics.reading.lastHeardAgeMs,
                       remoteStateAgeMs := x.metrics.reading.remoteStateAgeMs))
  {
    ClassifiedHealth(cfg, Materialized(s, cfg.thresholds, now));
    hide Classify, HealthReflects;
  }

  // ----- Ageing -----

  /** How long a record that scans no longer see is kept. */
  function KeptFor(cfg: Config, r: Record): int {
    match r.summary.kind
    case Legacy => Max(cfg.discoveryIntervalMs, 5_000)
    case Instrumented =>
      if r.shutdown then Max(cfg.discoveryIntervalMs, 5_000) else Max(3 * cfg.cleanupIntervalMs, 30_000)
  }

  predicate IntervalsFit(cfg: Config) {
    cfg.discoveryIntervalMs < I64_LIMIT && 3 * cfg.cleanupIntervalMs < I64_LIMIT
  }

  /** The scan names this key, in either of its two forms. */
  predicate NamedBy(found: seq<DiscoveredSession>, k: string) {
    exists i :: 0 <= i < |found| &&
      k in {InstrumentedId(found[i].pid, found[i].startedAt), LegacyId(found[i].pid, found[i].startedAt)}
  }

  lemma {:induction false} UnnamedUntouched(
    cfg: Config, m: Sessions, found: seq<DiscoveredSession>, now: int, k: string)
    requires !NamedBy(found, k) && k in m
    ensures k in AfterScan(cfg, m, found, now) && AfterScan(cfg, m, found, now)[k] == m[k]
    ensures k !in SeenIds(cfg, m, found, now)
  {
    hide InstrumentedId, LegacyId, Rediscovered, NewLegacyRecord;
    if found != [] {
      var front := found[..|found| - 1];
      assert forall i :: 0 <= i < |front| ==> front[i] == found[i];
      UnnamedUntouched(cfg, m, front, now, k);
      assert k !in {InstrumentedId(Last(found).pid, Last(found).startedAt),
                    LegacyId(Last(found).pid, Last(found).startedAt)};
    }
  }

  lemma FreshExactly(cfg: Config, r: Record, now: int)
    requires IntervalsFit(cfg)
    ensures Fresh(cfg, r, now) <==> now - r.summary.lastObserved < KeptFor(cfg, r)
  {
    StaleCutoffExact(cfg);
  }

  /** A record the scan does not name survives the ageing pass exactly while younger than its class is kept for. */
  lemma AgeingExactly(cfg: Config, m: Sessions, found: seq<DiscoveredSession>, now: int, k: string)
    requires IntervalsFit(cfg) && k in m && !NamedBy(found, k)
    ensures var reached := AfterDiscovery(cfg, m, found, now);
            && (k in reached <==> now - m[k].summary.lastObserved < KeptFor(cfg, m[k]))
            && (k in reached ==> reached[k] == m[k])
  {
    UnnamedUntouched(cfg, m, found, now, k);
    FreshExactly(cfg, m[k], now);
    hide Fresh, KeptFor, AfterScan, SeenIds;
  }

  /**
   Over every run: a scan drops an instrumented session it does not name exactly when the session has reached the age
   its class is kept for. A legacy session of that age goes as well; a younger one goes only to keep the cap.
   */
  lemma UnnamedLeavesExactly(cfg: Config, steps: seq<Step>, found: seq<DiscoveredSession>, now: int, k: string)
    requires IntervalsFit(cfg) && forall i :: 0 <= i < |steps| ==> Permitted(steps[i])
    requires k in Run(cfg, steps).state.sessions && !NamedBy(found, k)
    ensures var m, m' := Run(cfg, steps).state.sessions, Run(cfg, steps + [Discovery(found, now)]).state.sessions;
            var stale := now - m[k].summary.lastObserved >= KeptFor(cfg, m[k]);
            && (stale ==> k !in m')
            && (m[k].summary.kind == Instrumented ==> (k !in m' <==> stale))
            && (k !in m' && !stale ==> |AfterDiscovery(cfg, m, found, now)| > cfg.maxTrackedSessions)
  {
    hide Run, AfterDiscovery, KeptFor, Good, NamedBy;
    RunGood(cfg, steps);
    RunSnoc(cfg, steps, Discovery(found, now));
    var w := Run(cfg, steps);
    AgeingExactly(cfg, w.state.sessions, found, now, k);
    DiscoveryEvictsOnlyLegacy(cfg, w, found, now, k);
    DiscoverySessions(cfg, w, found, now);
    var reached := AfterDiscovery(cfg, w.state.sessions, found, now);
    hide Next;
    if |reached| <= cfg.maxTrackedSessions {
      WithinCapEvictsNothing(reached, cfg.maxTrackedSessions);
    }
    CappedIsTop(reached, cfg.maxTrackedSessions);
  }

  lemma DiscoverySessions(cfg: Config, w: World, found: seq<DiscoveredSession>, now: int)
    requires Keyed(w.state.sessions)
    ensures Keyed(AfterDiscovery(cfg, w.state.sessions, found, now))
    ensures Next(cfg, w, Discovery(found, now)).state.sessions ==
            Capped(AfterDiscovery(cfg, w.state.sessions, found, now), cfg.maxTrackedSessions)
  {
    ScanKeyed(cfg, w.state.sessions, found, now);
    hide AfterScan, SeenIds, Capped, LogsFor, Fresh;
  }

  lemma {:induction false} SeenAreTracked(cfg: Config, m: Sessions, found: seq<DiscoveredSession>, now: int)
    ensures SeenIds(cfg, m, found, now) <= AfterScan(cfg, m, found, now).Keys
  {
    hide SeenId, Rediscovered, NewLegacyRecord;
    if found != [] {
      SeenAreTracked(cfg, m, found[..|found| - 1], now);
    }
  }

  lemma {:induction false} FoundAreSeen(
    cfg: Config, m: Sessions, found: seq<DiscoveredSession>, now: int, d: DiscoveredSession)
    requires d in found
    ensures var seen := SeenIds(cfg, m, found, now);
            InstrumentedId(d.pid, d.startedAt) in seen || LegacyId(d.pid, d.startedAt) in seen
  {
    hide InstrumentedId, LegacyId, AfterScan;
    if d != Last(found) {
      var front := found[..|found| - 1];
      assert found == front + [Last(found)];
      FoundAreSeen(cfg, m, front, now, d);
    }
  }

  /** Every process a scan finds is tracked when the ageing pass is done, whatever its age. */
  lemma FoundAreTracked(cfg: Config, m: Sessions, found: seq<DiscoveredSession>, now: int, d: DiscoveredSession)
    requires d in found
    ensures var reached := AfterDiscovery(cfg, m, found, now);
            InstrumentedId(d.pid, d.startedAt) in reached || LegacyId(d.pid, d.startedAt) in reached
  {
    SeenAreTracked(cfg, m, found, now);
    FoundAreSeen(cfg, m, found, now, d);
    hide SeenIds, AfterScan, Fresh, InstrumentedId, LegacyId;
  }

  // ----- Eviction -----

  predicate IsLegacy(r: Record) { r.summary.kind == Legacy }

  predicate IsClosed(r: Record) { r.summary.kind == Instrumented && r.shutdown }

  predicate IsActive(r: Record) { r.summary.kind == Instrumented && !r.shutdown }

  predicate SameClass(a: Record, b: Record) {
    (IsLegacy(a) && IsLegacy(b)) || (IsClosed(a) && IsClosed(b)) || (IsActive(a) && IsActive(b))
  }

  /** `e` may go while `k` stays: legacy before closed before active; then older sight, older start, smaller id. */
  predicate MayGoFor(e: Record, k: Record) {
    && (IsLegacy(k) ==> IsLegacy(e))
    && (IsClosed(k) ==> !IsActive(e))
    && (SameClass(e, k) ==>
          && e.summary.lastObserved <= k.summary.lastObserved
          && (e.summary.lastObserved == k.summary.lastObserved ==>
                && e.summary.startedAt <= k.summary.startedAt
                && (e.summary.startedAt == k.summary.startedAt ==>
                      StringLess(e.summary.sessionId, k.summary.sessionId))))
  }

  /** Whoever the cap evicts may go for everyone it keeps. */
  lemma CapEvictsLowest(m: Sessions, cap: nat, e: string, k: string)
    requires Keyed(m) && e in m && e !in Capped(m, cap) && k in Capped(m, cap)
    ensures k in m && MayGoFor(m[e], m[k])
  {
    CappedIsTop(m, cap);
    hide Capped, StringLess;
  }

  /** On every step of every run: the cap keeps what it can and evicts only the lowest. */
  lemma StepEvictsLowest(cfg: Config, steps: seq<Step>, step: Step, e: string, k: string)
    requires (forall i :: 0 <= i < |steps| ==> Permitted(steps[i])) && Permitted(step)
    requires !IsRefused(cfg, Run(cfg, steps), step)
    requires var reached := Reached(cfg, Run(cfg, steps), step).state.sessions;
             var m' := Run(cfg, steps + [step]).state.sessions;
             e in reached && e !in m' && k in m'
    ensures var reached := Reached(cfg, Run(cfg, steps), step).state.sessions;
            && |Run(cfg, steps + [step]).state.sessions| == cfg.maxTrackedSessions < |reached|
            && k in reached && MayGoFor(reached[e], reached[k])
  {
    hide Run, Reached, MayGoFor, LogsFor, IsRefused, Permitted;
    var w := Run(cfg, steps);
    RunSnoc(cfg, steps, step);
    ReachedKeyed(cfg, w, step);
    var reached := Reached(cfg, w, step).state.sessions;
    CapEvictsLowest(reached, cfg.maxTrackedSessions, e, k);
    if |reached| <= cfg.maxTrackedSessions {
      WithinCapEvictsNothing(reached, cfg.maxTrackedSessions);
    }
    CappedIsTop(reached, cfg.maxTrackedSessions);
    hide Capped;
  }

  // ----- Refusal -----

  /** An event is refused exactly when it would bring a new session, not closing, into a full table of active ones. */
  lemma RefusedExactly(cfg: Config, m: Sessions, id: string, event: TelemetryEvent, at: int)
    requires ValidConfig(cfg) && Verified(id, event)
    ensures Refused(cfg, m, id, event, at) <==>
              && id !in m && LegacyId(event.pid, event.startedAt.value) !in m
              && event.kind != SessionClose && event.shutdown != Some(true)
              && |m| >= cfg.maxTrackedSessions && forall k :: k in m ==> IsActive(m[k])
  {
    KindsDiffer(event.pid, event.startedAt.value, event.pid, event.startedAt.value);
    hide InstrumentedId, LegacyId;
  }

  // ----- What an event leaves -----

  /** How a reported text is stored: within 128 characters, as it is when it can be, and not at all when blank. */
  ghost predicate StoredAs(reported: Option<string>, stored: Option<string>) {
    && (stored.Some? ==> reported.Some? && Text.Presentable(stored.value, 128))
    && (reported.Some? && Text.Presentable(reported.value, 128) ==> stored == reported)
    && (stored.None? <==> reported.None? || Text.Blank(reported.value))
  }

  lemma OptionalStored(reported: Option<string>)
    ensures StoredAs(reported, Text.SanitizedEndpoint(reported))
    ensures StoredAs(reported, Text.SanitizedDisplayId(reported))
  {
    if reported.Some? {
      Text.SanitizedIsPresentable(reported.value, 128);
      Text.DroppedExactly(reported.value, 128);
      if Text.Presentable(reported.value, 128) {
        Text.PresentableIsFixed(reported.value, 128);
      }
    }
  }

  /** The record an event finds, under its own key or as a legacy placeholder. */
  function Prior(m: Sessions, id: string, event: TelemetryEvent): Option<Record>
    requires event.startedAt.Some?
  {
    var twin := LegacyId(event.pid, event.startedAt.value);
    if id in m then Some(m[id]) else if twin in m then Some(m[twin]) else None
  }

  /** Identity, time, flags and measurements of the record an event leaves. */
  predicate LeavesCore(prior: Option<Record>, event: TelemetryEvent, at: int, id: string, r: Record)
    requires event.startedAt.Some?
  {
    && r.summary.sessionId == id && r.summary.pid == event.pid && r.summary.kind == Instrumented
    && r.summary.startedAt == event.startedAt.value
    && r.summary.lastObserved ==
       (if prior.Some? then Max(Min(event.unixMs, at), prior.value.summary.lastObserved) else Min(event.unixMs, at))
    && r.summary.metrics.reading == event.reading
    && r.shutdown == (event.shutdown == Some(true) || (event.shutdown == None && event.kind == SessionClose))
    && r.summary.udpPort ==
       (if event.udpPort.None? && prior.Some? then prior.value.summary.udpPort else event.udpPort)
  }

  /** The texts of the record an event leaves: the first label stays, a reported address replaces the known one. */
  ghost predicate LeavesTexts(prior: Option<Record>, event: TelemetryEvent, r: Record) {
    && (if prior.Some? && prior.value.summary.displayId.Some? then
          r.summary.displayId == prior.value.summary.displayId
        else StoredAs(event.displayId, r.summary.displayId))
    && (exists bind ::
          && StoredAs(event.bindAddr, bind)
          && r.summary.bindAddr == if bind.None? && prior.Some? then prior.value.summary.bindAddr else bind)
    && StoredAs(event.clientAddr, r.summary.peer.current)
    && (event.cmdline.None? ==>
          r.summary.cmdline == if prior.Some? then prior.value.summary.cmdline else "mosh-server-real")
    && (event.cmdline.Some? ==> r.summary.cmdline == "unknown" || Text.Presentable(r.summary.cmdline, 1_024))
    && (event.cmdline.Some? && Text.Presentable(event.cmdline.value, 1_024) ==>
          r.summary.cmdline == event.cmdline.value)
  }

  /** The newest history point and counter sample of the record an event leaves. */
  predicate LeavesNewest(event: TelemetryEvent, r: Record) {
    && r.history != [] && r.counters != []
    && Last(r.history) == MetricPoint(
         r.summary.lastObserved, event.reading.srttMs, r.summary.metrics.window10s.pct,
         event.reading.remoteStateAgeMs, r.summary.peer.current)
    && Last(r.counters) == CounterSample(
         r.summary.lastObserved, event.reading.counters.stateUpdatesTx, event.reading.counters.retransmits,
         event.reading.counters.emptyAcksTx)
  }

  /** The eight totals a telemetry event reports. */
  function Totals(c: Counters): seq<Option<u64>> {
    [c.packetsTx, c.packetsRx, c.retransmits, c.emptyAcksTx,
     c.stateUpdatesTx, c.stateUpdatesRx, c.duplicateStatesRx, c.outOfOrderStatesRx]
  }

  /** Some total is reported by both and lower in the later. */
  predicate SomeTotalFalls(before: Counters, after: Counters) {
    exists i :: 0 <= i < 8 &&
      var a, b := Totals(before)[i], Totals(after)[i];
      a.Some? && b.Some? && b.value < a.value
  }

  lemma FallsExactly(before: Counters, after: Counters)
    ensures Regressed(before, after) <==> SomeTotalFalls(before, after)
  {
    var a, b := Totals(before), Totals(after);
    assert Regressed(before, after) ==>
             CounterRegressed(a[0], b[0]) || CounterRegressed(a[1], b[1]) || CounterRegressed(a[2], b[2])
             || CounterRegressed(a[3], b[3]) || CounterRegressed(a[4], b[4]) || CounterRegressed(a[5], b[5])
             || CounterRegressed(a[6], b[6]) || CounterRegressed(a[7], b[7]);
  }

  /** A falling total marks the reset time and leaves only the new point and sample; otherwise the mark stays. */
  predicate LeavesReset(prior: Option<Record>, event: TelemetryEvent, r: Record) {
    var before := if prior.Some? then prior.value.summary.metrics.reading.counters else NO_COUNTERS;
    if SomeTotalFalls(before, event.reading.counters) then
      |r.history| == 1 && |r.counters| == 1 && r.summary.counterResetAt == Some(r.summary.lastObserved)
    else
      r.summary.counterResetAt == if prior.Some? then prior.value.summary.counterResetAt else None
  }

  ghost predicate Leaves(cfg: Config, prior: Option<Record>, event: TelemetryEvent, at: int, id: string, r: Record)
    requires event.startedAt.Some?
  {
    && LeavesCore(prior, event, at, id, r)
    && LeavesTexts(prior, event, r)
    && LeavesNewest(event, r)
    && LeavesReset(prior, event, r)
    && HealthReflects(r.summary, cfg.thresholds)
  }

  /** The record the event starts from, once a placeholder is upgraded or a new record made. */
  lemma EntryFrom(m: Sessions, id: string, event: TelemetryEvent, at: int)
    requires Verified(id, event)
    ensures var prior, entry := Prior(m, id, event), EntryFor(m, id, event, at);
            if prior.Some? then
              entry == if id in m then prior.value
                       else prior.value.(summary := prior.value.summary.(sessionId := id, kind := Instrumented))
            else entry == NewRecord(id, event, at)
  {
    KindsDiffer(event.pid, event.startedAt.value, event.pid, event.startedAt.value);
    hide InstrumentedId, LegacyId, NewRecord;
  }

  lemma CmdlineStored(reported: string)
    ensures var shown := Text.SanitizedCmdline(reported);
            && (shown == "unknown" || Text.Presentable(shown, 1_024)) && Text.Trim(shown) != []
            && (Text.Presentable(reported, 1_024) ==> shown == reported)
  {
    Text.SanitizedIsPresentable(reported, 1_024);
    if Text.Presentable(reported, 1_024) {
      Text.PresentableIsFixed(reported, 1_024);
    }
    var shown := Text.SanitizedCmdline(reported);
    hide Text.Sanitized;
    assert shown != [] && !Text.IsWhitespace(shown[0]);
    Text.NotBlank(shown);
  }

  lemma CoreLeft(cfg: Config, m: Sessions, id: string, event: TelemetryEvent, at: int)
    requires Verified(id, event)
    ensures LeavesCore(Prior(m, id, event), event, at, id, Absorbed(cfg, EntryFor(m, id, event, at), id, event, at))
  {
    EntryFrom(m, id, event, at);
    hide Prior, EntryFor, AbsorbedCounters, AbsorbedHistory, Classify, NewCmdline, InstrumentedId, PeerAfter,
      Text.SanitizedOptional, WithNewestPct, WindowOf;
  }

  lemma TextsLeft(cfg: Config, m: Sessions, id: string, event: TelemetryEvent, at: int)
    requires Verified(id, event)
    ensures LeavesTexts(Prior(m, id, event), event, Absorbed(cfg, EntryFor(m, id, event, at), id, event, at))
  {
    EntryFrom(m, id, event, at);
    OptionalStored(event.displayId);
    OptionalStored(event.bindAddr);
    OptionalStored(event.clientAddr);
    if event.cmdline.Some? {
      CmdlineStored(event.cmdline.value);
    }
    hide Prior, EntryFor, AbsorbedCounters, AbsorbedHistory, Classify, InstrumentedId, Text.SanitizedEndpoint,
      Text.SanitizedDisplayId, Text.SanitizedCmdline, Text.Trim, Text.Presentable, WithNewestPct, WindowOf, StoredAs;
    var bind := Text.SanitizedEndpoint(event.bindAddr);
    assert StoredAs(event.bindAddr, bind);
  }

  lemma UpsertedEnds<T>(s: seq<T>, at: T -> int, x: T, window: int)
    requires window >= 0
    ensures var r := Trimmed(Upserted(s, at, x), at, window);
            r != [] && Last(r) == x && (s == [] ==> r == [x])
  {
    var u := Upserted(s, at, x);
    DropKeepsLast(u, at, at(Last(u)) - window);
  }

  lemma {:induction false} DropKeepsLast<T>(s: seq<T>, at: T -> int, cutoff: int)
    requires s != [] && at(Last(s)) >= cutoff
    ensures var r := DroppedBefore(s, at, cutoff);
            r != [] && Last(r) == Last(s) && (|s| == 1 ==> r == s)
  {
    if at(s[0]) < cutoff {
      DropKeepsLast(s[1..], at, cutoff);
    }
  }

  lemma NewestLeft(cfg: Config, r: Record, id: string, event: TelemetryEvent, at: int)
    ensures LeavesNewest(event, Absorbed(cfg, r, id, event, at))
    ensures CountersReset(r, event) ==>
              |Absorbed(cfg, r, id, event, at).history| == 1 && |Absorbed(cfg, r, id, event, at).counters| == 1
  {
    var time := NormalizedTime(r.summary.lastObserved, event.unixMs, at);
    var client := PeerAfter(r.summary.peer, Text.SanitizedEndpoint(event.clientAddr), time).current;
    var reset := CountersReset(r, event) || TimeRegressed(r, time);
    UpsertedEnds(if reset then [] else r.history, PointTime, PointOf(event, time, None, client), WindowMs(cfg));
    UpsertedEnds(if reset then [] else r.counters, SampleTime, SampleOf(event, time), WindowMs(cfg));
    hide Trimmed, Upserted, CountersReset, TimeRegressed, NormalizedTime, PeerAfter, WindowOf, Classify, NewCmdline,
      Text.SanitizedOptional, StartOf;
  }

  lemma ResetLeft(cfg: Config, m: Sessions, id: string, event: TelemetryEvent, at: int)
    requires Verified(id, event)
    ensures LeavesReset(Prior(m, id, event), event, Absorbed(cfg, EntryFor(m, id, event, at), id, event, at))
  {
    EntryFrom(m, id, event, at);
    var entry := EntryFor(m, id, event, at);
    FallsExactly(entry.summary.metrics.reading.counters, event.reading.counters);
    NewestLeft(cfg, entry, id, event, at);
    hide Prior, EntryFor, AbsorbedCounters, AbsorbedHistory, Classify, NewCmdline, InstrumentedId, PeerAfter,
      Text.SanitizedOptional, WithNewestPct, WindowOf, Regressed, SomeTotalFalls, LeavesNewest, Upserted, Trimmed;
  }

  lemma HealthLeft(cfg: Config, r: Record, id: string, event: TelemetryEvent, at: int)
    requires ValidConfig(cfg)
    ensures HealthReflects(Absorbed(cfg, r, id, event, at).summary, cfg.thresholds)
  {
    hide HealthReflects, AbsorbedCounters, AbsorbedHistory, Classify, NewCmdline, PeerAfter, WithNewestPct, WindowOf,
      Text.SanitizedOptional;
    ClassifiedHealth(cfg, Absorbed(cfg, r, id, event, at).summary);
  }

  /** Over every run: what the record an event belongs to looks like once the event is taken in. */
  lemma EventLeaves(cfg: Config, steps: seq<Step>, id: string, event: TelemetryEvent, at: int)
    requires ValidConfig(cfg) && (forall i :: 0 <= i < |steps| ==> Permitted(steps[i])) && Verified(id, event)
    requires id in Run(cfg, steps + [Telemetry(id, event, at)]).state.sessions
    ensures Leaves(cfg, Prior(Run(cfg, steps).state.sessions, id, event), event, at, id,
                   Run(cfg, steps + [Telemetry(id, event, at)]).state.sessions[id])
  {
    hide Run, Absorbed, EntryFor, Prior, InstrumentedId, LegacyId, LeavesCore, LeavesTexts, LeavesNewest, LeavesReset,
      HealthReflects, Good;
    var w := Run(cfg, steps);
    var m := w.state.sessions;
    RunSnoc(cfg, steps, Telemetry(id, event, at));
    EventSession(cfg, w, id, event, at);
    CoreLeft(cfg, m, id, event, at);
    TextsLeft(cfg, m, id, event, at);
    NewestLeft(cfg, EntryFor(m, id, event, at), id, event, at);
    ResetLeft(cfg, m, id, event, at);
    HealthLeft(cfg, EntryFor(m, id, event, at), id, event, at);
  }

  lemma EventSession(cfg: Config, w: World, id: string, event: TelemetryEvent, at: int)
    requires Keyed(w.state.sessions) && Verified(id, event)
    ensures var m' := Next(cfg, w, Telemetry(id, event, at)).state.sessions;
            id in m' ==> m'[id] == Absorbed(cfg, EntryFor(w.state.sessions, id, event, at), id, event, at)
  {
    var m := w.state.sessions;
    hide Absorbed, NewRecord, InstrumentedId, LegacyId, Capped, LogsFor, LogsAfterEvent, StartOf;
    EventKeyed(cfg, m, id, event, at);
    CappedIsTop(AfterEvent(cfg, m, id, event, at), cfg.maxTrackedSessions);
    TwinDefined(event, at);
  }

  // ----- What a sighting leaves -----

  /** The record a scan leaves for a process it found that has no verified telemetry. */
  predicate LeavesLegacy(prior: Option<Record>, d: DiscoveredSession, now: int, r: Record) {
    var known := prior.Some?;
    && r.summary.kind == Legacy && r.summary.health == LegacyHealth
    && r.summary.pid == d.pid && r.summary.startedAt == d.startedAt && r.summary.lastObserved == now
    && r.summary.cmdline == d.cmdline
    && r.summary.displayId == (if known then prior.value.summary.displayId else None)
    && r.shutdown == (known && prior.value.shutdown)
    && r.summary.bindAddr == (if d.bindAddr.None? && known then prior.value.summary.bindAddr else d.bindAddr)
    && r.summary.udpPort == (if d.udpPort.None? && known then prior.value.summary.udpPort else d.udpPort)
  }

  /** A process is tracked as legacy exactly while no instrumented record of it is. */
  lemma SightingLeaves(cfg: Config, m: Sessions, logs: Logs, d: DiscoveredSession, now: int)
    requires TableOk(cfg, m, logs)
    ensures var instrumented, legacy := InstrumentedId(d.pid, d.startedAt), LegacyId(d.pid, d.startedAt);
            var m' := AfterSighting(cfg, m, d, now);
            && (instrumented in m ==> m'.Keys == m.Keys && m'[instrumented] == m[instrumented])
            && (instrumented !in m ==>
                  && m'.Keys == m.Keys + {legacy}
                  && LeavesLegacy(if legacy in m then Some(m[legacy]) else None, d, now, m'[legacy]))
            && forall k :: k in m && k !in {instrumented, legacy} ==> m'[k] == m[k]
  {
    hide AfterSighting, TableOk, LeavesLegacy, InstrumentedId, LegacyId;
    if InstrumentedId(d.pid, d.startedAt) in m {
      SightingInstrumented(cfg, m, logs, d, now);
    } else {
      SightingLegacy(cfg, m, logs, d, now);
    }
  }

  lemma SightingInstrumented(cfg: Config, m: Sessions, logs: Logs, d: DiscoveredSession, now: int)
    requires TableOk(cfg, m, logs) && InstrumentedId(d.pid, d.startedAt) in m
    ensures AfterSighting(cfg, m, d, now) == m
  {
    hide Agrees, TwinFree, LegacyId;
    InstrumentedSighting(cfg, m, logs, d, now);
  }

  lemma SightingLegacy(cfg: Config, m: Sessions, logs: Logs, d: DiscoveredSession, now: int)
    requires TableOk(cfg, m, logs) && InstrumentedId(d.pid, d.startedAt) !in m
    ensures var legacy := LegacyId(d.pid, d.startedAt);
            var m' := AfterSighting(cfg, m, d, now);
            && m'.Keys == m.Keys + {legacy}
            && LeavesLegacy(if legacy in m then Some(m[legacy]) else None, d, now, m'[legacy])
            && forall k :: k in m && k != legacy ==> m'[k] == m[k]
  {
    hide Agrees, TwinFree;
    var legacy := LegacyId(d.pid, d.startedAt);
    if legacy in m {
      assert RecordOk(cfg, legacy, m[legacy], logs[legacy]);
      var s := m[legacy].summary;
      IdDeterminesIdentity(s.kind, s.pid, s.startedAt, Legacy, d.pid, d.startedAt);
    }
    hide RecordOk, TableOk, InstrumentedId, LegacyId;
  }

  // ----- The windows of a record -----

  /** A record's time window: what was reported since the last reset and not longer ago than the configuration keeps. */
  ghost predicate KeepsWindow(cfg: Config, r: Record, log: seq<Observation>) {
    var cutoff := r.summary.lastObserved - cfg.historySecs * 1_000;
    && (forall p :: p in r.history ==>
          p.unixMs >= cutoff && exists i :: ResetIndex(log) <= i < |log| && log[i].at == p.unixMs)
    && (forall i :: ResetIndex(log) <= i < |log| && log[i].at >= cutoff ==>
          exists p :: p in r.history && p.unixMs == log[i].at)
  }

  /** The 10 s and 60 s figures of a record are those of its samples, known when the oldest of them is that old. */
  predicate HasWindows(r: Record) {
    && r.counters != []
    && r.summary.metrics.window10s == WindowOf(r.counters, 10_000)
    && r.summary.metrics.window60s == WindowOf(r.counters, 60_000)
    && (r.summary.metrics.window10s.complete <==> Last(r.counters).unixMs - r.counters[0].unixMs >= 10_000)
    && (r.summary.metrics.window60s.complete <==> Last(r.counters).unixMs - r.counters[0].unixMs >= 60_000)
  }

  lemma {:induction false} LogPoints(cfg: Config, log: seq<Observation>)
    requires log != []
    ensures var points := PointsFrom(cfg, log, ResetIndex(log));
            && points != [] && Last(points).unixMs == Last(log).at
            && forall i :: 0 <= i < |points| ==> points[i].unixMs == log[ResetIndex(log) + i].at
  {
    hide ResetIndex, NewestPoint;
    var start := ResetIndex(log);
    PointTimes(cfg, log, start);
    LastPoint(cfg, log, start);
    NewestPointTime(cfg, log);
    var points, samples := PointsFrom(cfg, log, start), Samples(log[start..]);
    forall i | 0 <= i < |points|
      ensures points[i].unixMs == log[start + i].at
    {
      SampleAt(log, start, i);
      assert PointTime(points[i]) == SampleTime(samples[i]);
    }
  }

  lemma NewestPointTime(cfg: Config, log: seq<Observation>)
    requires log != []
    ensures NewestPoint(cfg, log).unixMs == Last(log).at
  {
    hide MetricsOf;
  }

  lemma {:induction false} RecordKeepsWindow(cfg: Config, r: Record, log: seq<Observation>)
    requires Agrees(cfg, r, log) && log != []
    ensures KeepsWindow(cfg, r, log)
  {
    hide Agrees, Retained, ResetIndex, PointsFrom;
    var cutoff := r.summary.lastObserved - cfg.historySecs * 1_000;
    forall i | ResetIndex(log) <= i < |log| && log[i].at >= cutoff
      ensures exists p :: p in r.history && p.unixMs == log[i].at
    {
      var p := PointOfEvent(cfg, r, log, i);
    }
    forall p | p in r.history
      ensures p.unixMs >= cutoff && exists i :: ResetIndex(log) <= i < |log| && log[i].at == p.unixMs
    {
      var i := EventOfPoint(cfg, r, log, p);
    }
  }

  lemma {:induction false} PointOfEvent(cfg: Config, r: Record, log: seq<Observation>, i: nat)
    returns (p: MetricPoint)
    requires Agrees(cfg, r, log) && ResetIndex(log) <= i < |log|
    requires log[i].at >= r.summary.lastObserved - cfg.historySecs * 1_000
    ensures p in r.history && p.unixMs == log[i].at
  {
    hide Agrees, Retained, ResetIndex, PointsFrom;
    HistoryKept(cfg, r, log);
    LogPoints(cfg, log);
    var points, x := PointsFrom(cfg, log, ResetIndex(log)), PointsFrom(cfg, log, ResetIndex(log))[i - ResetIndex(log)];
    assert x in points;
    p := RetainedCovers(points, PointTime, WindowMs(cfg), x);
  }

  lemma {:induction false} EventOfPoint(cfg: Config, r: Record, log: seq<Observation>, p: MetricPoint)
    returns (i: nat)
    requires Agrees(cfg, r, log) && log != [] && p in r.history
    ensures p.unixMs >= r.summary.lastObserved - cfg.historySecs * 1_000
    ensures ResetIndex(log) <= i < |log| && log[i].at == p.unixMs
  {
    hide Agrees, Retained, ResetIndex, PointsFrom;
    HistoryKept(cfg, r, log);
    LogPoints(cfg, log);
    var points := PointsFrom(cfg, log, ResetIndex(log));
    RetainedLogged(points, PointTime, WindowMs(cfg), p);
    var j :| 0 <= j < |points| && points[j] == p;
    i := ResetIndex(log) + j;
  }

  lemma HistoryKept(cfg: Config, r: Record, log: seq<Observation>)
    requires Agrees(cfg, r, log) && log != []
    ensures r.history == Retained(PointsFrom(cfg, log, ResetIndex(log)), PointTime, WindowMs(cfg))
    ensures r.summary.lastObserved == Last(log).at
  {
    hide MetricsOf, CountersOf, PeerOf, Sightings, ResetTime, Retained, ResetIndex, PointsFrom, Chronological;
  }

  lemma RecordHasWindows(cfg: Config, r: Record, log: seq<Observation>)
    requires Agrees(cfg, r, log) && log != []
    ensures HasWindows(r)
  {
    WindowsAligned(cfg, r, log);
    hide CountersOf, HistoryOf, PeerOf, Sightings, ResetTime, WindowOf, Chronological;
    var b := WindowBaseline(r.counters, 10_000);
    b := WindowBaseline(r.counters, 60_000);
  }

  /** Over every run: the windows of every session that has ever reported. */
  lemma ReachableWindows(cfg: Config, steps: seq<Step>, k: string)
    requires forall i :: 0 <= i < |steps| ==> Permitted(steps[i])
    requires k in Run(cfg, steps).state.sessions
    ensures var w := Run(cfg, steps);
            && k in w.logs
            && (w.logs[k] != [] ==> KeepsWindow(cfg, w.state.sessions[k], w.logs[k]) && HasWindows(w.state.sessions[k]))
  {
    hide Run, Agrees, KeepsWindow, HasWindows, Sightings, PeerTimesInOrder;
    ReachableRecord(cfg, steps, k);
    var w := Run(cfg, steps);
    if w.logs[k] != [] {
      RecordKeepsWindow(cfg, w.state.sessions[k], w.logs[k]);
      RecordHasWindows(cfg, w.state.sessions[k], w.logs[k]);
    }
  }
}
