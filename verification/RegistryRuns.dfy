/**
 Whole runs of the registry: telemetry events and discovery scans in any order, tracked beside the
 unbounded logs of what each session reported and of every insertion, eviction, age-out and refusal.
 */
module RegistryRuns {
  import opened Prelude
  import opened SessionIds
  import opened Records
  import opened SlidingWindow
  import opened HealthPolicy
  import opened Eviction
  import opened Registry
  import opened RecordLog

  datatype Step =
    | Telemetry(id: string, event: TelemetryEvent, at: int)
    | Discovery(found: seq<DiscoveredSession>, at: int)

  type Logs = map<string, seq<Observation>>

  datatype World = World(
    state: State, logs: Logs, inserted: nat, evicted: nat, agedOut: nat, refused: nat)

  const EMPTY_WORLD := World(State(map[], 0), map[], 0, 0, 0, 0)

  /** The stream handler only ever writes its verified peer's key, with the peer's pid and start time. */
  predicate Verified(id: string, event: TelemetryEvent) {
    event.startedAt.Some? && id == InstrumentedId(event.pid, event.startedAt.value)
  }

  predicate Permitted(step: Step) {
    step.Telemetry? ==> Verified(step.id, step.event)
  }

  // ----- The tracked step -----

  function TwinOf(event: TelemetryEvent, at: int): string { LegacyId(event.pid, StartOf(event, at)) }

  function EntryFor(m: Sessions, id: string, event: TelemetryEvent, at: int): Record {
    var upgraded := Upgraded(m, id, TwinOf(event, at));
    if id in upgraded then upgraded[id] else NewRecord(id, event, at)
  }

  function LogOf(logs: Logs, id: string): seq<Observation> { if id in logs then logs[id] else [] }

  function LogsAfterEvent(m: Sessions, logs: Logs, id: string, event: TelemetryEvent, at: int): Logs {
    var entry := EntryFor(m, id, event, at);
    var o := Observation(NormalizedTime(entry.summary.lastObserved, event.unixMs, at), event);
    (logs - {TwinOf(event, at)})[id := LogOf(logs, id) + [o]]
  }

  function LogsFor(m: Sessions, logs: Logs): Logs { map k | k in m :: LogOf(logs, k) }

  /** The world a step reaches before the cap is enforced. */
  function Reached(cfg: Config, w: World, step: Step): World {
    var m := w.state.sessions;
    match step
    case Telemetry(id, event, at) =>
      var known := id in m || TwinOf(event, at) in m;
      w.(state := w.state.(sessions := AfterEvent(cfg, m, id, event, at)),
         logs := LogsAfterEvent(m, w.logs, id, event, at),
         inserted := w.inserted + (if known then 0 else 1))
    case Discovery(found, at) =>
      var scanned, reached := AfterScan(cfg, m, found, at), AfterDiscovery(cfg, m, found, at);
      w.(state := w.state.(sessions := reached),
         logs := LogsFor(reached, w.logs),
         inserted := w.inserted + |scanned.Keys - m.Keys|,
         agedOut := w.agedOut + |scanned.Keys - reached.Keys|)
  }

  ghost function CapEnforced(cfg: Config, w: World): World
    requires Keyed(w.state.sessions)
  {
    var state := CapStep(w.state, cfg.maxTrackedSessions);
    w.(state := state, logs := LogsFor(state.sessions, w.logs),
       evicted := w.evicted + |w.state.sessions.Keys - state.sessions.Keys|)
  }

  ghost predicate IsRefused(cfg: Config, w: World, step: Step) {
    step.Telemetry? && Refused(cfg, w.state.sessions, step.id, step.event, step.at)
  }

  lemma ReachedKeyed(cfg: Config, w: World, step: Step)
    requires Keyed(w.state.sessions)
    ensures Keyed(Reached(cfg, w, step).state.sessions)
  {
    if step.Discovery? {
      ScanKeyed(cfg, w.state.sessions, step.found, step.at);
    }
  }

  ghost function Next(cfg: Config, w: World, step: Step): (w': World)
    requires Keyed(w.state.sessions)
    ensures Keyed(w'.state.sessions)
  {
    ReachedKeyed(cfg, w, step);
    if IsRefused(cfg, w, step) then
      w.(state := w.state.(dropped := SaturatingAdd(w.state.dropped, 1)), refused := w.refused + 1)
    else CapEnforced(cfg, Reached(cfg, w, step))
  }

  /** Tracking is only bookkeeping: the state moves exactly as the registry's two operations move it. */
  lemma NextIsRegistryStep(cfg: Config, w: World, step: Step)
    requires Keyed(w.state.sessions)
    ensures Next(cfg, w, step).state ==
            match step
            case Telemetry(id, event, at) => TelemetryStep(cfg, w.state, id, event, at)
            case Discovery(found, at) => DiscoveryStep(cfg, w.state, found, at)
  {
    hide AfterEvent, AfterDiscovery, LogsAfterEvent, LogsFor, Refused, Capped;
  }

  ghost function Run(cfg: Config, steps: seq<Step>): (w: World)
    ensures Keyed(w.state.sessions)
  {
    if steps == [] then EMPTY_WORLD else Next(cfg, Run(cfg, steps[..|steps| - 1]), Last(steps))
  }

  // ----- The invariant -----

  /** Identity, agreement with the log, and stored health of one record. */
  ghost predicate RecordOk(cfg: Config, k: string, r: Record, log: seq<Observation>) {
    && r.summary.sessionId == k
    && k == IdOf(r.summary.kind, r.summary.pid, r.summary.startedAt)
    && (r.summary.kind == Legacy <==> log == [])
    && r.summary.health == Classify(r.summary.kind, r.summary.metrics, cfg.thresholds)
    && Agrees(cfg, r, log)
  }

  ghost predicate TwinFree(m: Sessions) {
    forall pid: int, start: int :: !(InstrumentedId(pid, start) in m && LegacyId(pid, start) in m)
  }

  ghost predicate TableOk(cfg: Config, m: Sessions, logs: Logs) {
    && logs.Keys == m.Keys
    && (forall k :: k in m ==> RecordOk(cfg, k, m[k], logs[k]))
    && TwinFree(m)
  }

  ghost predicate Good(cfg: Config, w: World) {
    && TableOk(cfg, w.state.sessions, w.logs)
    && |w.state.sessions| <= cfg.maxTrackedSessions
    && |w.state.sessions| == w.inserted - w.evicted - w.agedOut
    && w.state.dropped == Min(w.refused + w.evicted, U64_MAX)
  }

  lemma TableKeyed(cfg: Config, m: Sessions, logs: Logs)
    requires TableOk(cfg, m, logs)
    ensures Keyed(m)
  {
    forall k | k in m
      ensures m[k].summary.sessionId == k
    {
      assert RecordOk(cfg, k, m[k], logs[k]);
    }
  }

  /** Dropping records keeps a table well formed. */
  lemma TableRestricted(cfg: Config, m: Sessions, logs: Logs, r: Sessions)
    requires TableOk(cfg, m, logs)
    requires r.Keys <= m.Keys && forall k :: k in r ==> r[k] == m[k]
    ensures TableOk(cfg, r, LogsFor(r, logs))
  {
    hide RecordOk, InstrumentedId, LegacyId;
    forall k | k in r
      ensures RecordOk(cfg, k, r[k], LogsFor(r, logs)[k])
    {
      assert RecordOk(cfg, k, m[k], logs[k]);
    }
    forall pid: int, start: int
      ensures !(InstrumentedId(pid, start) in r && LegacyId(pid, start) in r)
    {
      assert !(InstrumentedId(pid, start) in m && LegacyId(pid, start) in m);
    }
  }

  // ----- Telemetry keeps the invariant -----

  /** The entry an event is absorbed into agrees with the log it continues. */
  lemma EntryAgrees(cfg: Config, m: Sessions, logs: Logs, id: string, event: TelemetryEvent, at: int)
    requires TableOk(cfg, m, logs) && Verified(id, event)
    ensures Agrees(cfg, EntryFor(m, id, event, at), LogOf(logs, id))
  {
    var twin := TwinOf(event, at);
    if id in m {
      assert RecordOk(cfg, id, m[id], logs[id]);
    } else if twin in m {
      assert RecordOk(cfg, twin, m[twin], logs[twin]);
      var s := m[twin].summary;
      IdDeterminesIdentity(s.kind, s.pid, s.startedAt, Legacy, event.pid, event.startedAt.value);
      KindsDiffer(event.pid, event.startedAt.value, event.pid, event.startedAt.value);
    }
  }

  lemma EventRecordOk(cfg: Config, m: Sessions, logs: Logs, id: string, event: TelemetryEvent, at: int)
    requires TableOk(cfg, m, logs) && Verified(id, event)
    ensures RecordOk(cfg, id, AfterEvent(cfg, m, id, event, at)[id], LogsAfterEvent(m, logs, id, event, at)[id])
  {
    EntryAgrees(cfg, m, logs, id, event, at);
    AbsorbAgrees(cfg, EntryFor(m, id, event, at), id, event, at, LogOf(logs, id));
  }

  lemma TwinDefined(event: TelemetryEvent, at: int)
    ensures TwinOf(event, at) == LegacyId(event.pid, StartOf(event, at))
  {
  }

  lemma AfterEventShape(cfg: Config, m: Sessions, id: string, event: TelemetryEvent, at: int)
    requires id != TwinOf(event, at) && !(id in m && TwinOf(event, at) in m)
    ensures var m' := AfterEvent(cfg, m, id, event, at);
            && m'.Keys == m.Keys - {TwinOf(event, at)} + {id}
            && (forall k :: k in m' && k != id ==> k in m && m'[k] == m[k])
            && |m'| == |m| + (if id in m || TwinOf(event, at) in m then 0 else 1)
  {
    hide Absorbed, NewRecord, TwinOf;
    var twin, m' := TwinOf(event, at), AfterEvent(cfg, m, id, event, at);
    assert TwinOf(event, at) == LegacyId(event.pid, StartOf(event, at)) by { TwinDefined(event, at); }
    hide LegacyId, StartOf;
    assert m'.Keys == m.Keys - {twin} + {id};
    assert |m| == |m.Keys| && |m'| == |m'.Keys|;
  }

  /** The keys after an event: the event's own, and the others apart from the legacy twin. */
  lemma EventKeys(cfg: Config, m: Sessions, id: string, event: TelemetryEvent, at: int)
    requires TwinFree(m) && Verified(id, event)
    ensures var m' := AfterEvent(cfg, m, id, event, at);
            && id != TwinOf(event, at)
            && m'.Keys == m.Keys - {TwinOf(event, at)} + {id}
            && (forall k :: k in m' && k != id ==> k in m && m'[k] == m[k])
            && |m'| == |m| + (if id in m || TwinOf(event, at) in m then 0 else 1)
  {
    KindsDiffer(event.pid, event.startedAt.value, event.pid, event.startedAt.value);
    AfterEventShape(cfg, m, id, event, at);
  }

  lemma EventTwinFree(cfg: Config, m: Sessions, id: string, event: TelemetryEvent, at: int)
    requires TwinFree(m) && Verified(id, event)
    ensures TwinFree(AfterEvent(cfg, m, id, event, at))
  {
    EventKeys(cfg, m, id, event, at);
    var m', pid0, start0 := AfterEvent(cfg, m, id, event, at), event.pid, event.startedAt.value;
    forall pid: int, start: int
      ensures !(InstrumentedId(pid, start) in m' && LegacyId(pid, start) in m')
    {
      if LegacyId(pid, start) == id {
        IdDeterminesIdentity(Legacy, pid, start, Instrumented, pid0, start0);
      }
      if InstrumentedId(pid, start) == id {
        IdDeterminesIdentity(Instrumented, pid, start, Instrumented, pid0, start0);
      } else {
        assert !(InstrumentedId(pid, start) in m && LegacyId(pid, start) in m);
      }
    }
  }

  lemma TableUpdated(cfg: Config, m: Sessions, logs: Logs, m': Sessions, logs': Logs, id: string)
    requires TableOk(cfg, m, logs)
    requires m'.Keys == logs'.Keys && TwinFree(m')
    requires id in m' && RecordOk(cfg, id, m'[id], logs'[id])
    requires forall k :: k in m' && k != id ==> k in m && m'[k] == m[k] && logs'[k] == logs[k]
    ensures TableOk(cfg, m', logs')
  {
    forall k | k in m'
      ensures RecordOk(cfg, k, m'[k], logs'[k])
    {
      if k != id {
        assert RecordOk(cfg, k, m[k], logs[k]);
      }
    }
  }

  lemma LogsAfterEventShape(m: Sessions, logs: Logs, id: string, event: TelemetryEvent, at: int)
    ensures var logs' := LogsAfterEvent(m, logs, id, event, at);
            && logs'.Keys == logs.Keys - {TwinOf(event, at)} + {id}
            && forall k :: k in logs' && k != id ==> k in logs && logs'[k] == logs[k]
  {
    hide EntryFor, LogOf, NormalizedTime, TwinOf;
  }

  lemma TableBasics(cfg: Config, m: Sessions, logs: Logs)
    requires TableOk(cfg, m, logs)
    ensures logs.Keys == m.Keys && TwinFree(m) && Keyed(m)
  {
    TableKeyed(cfg, m, logs);
  }

  lemma EventTableOk(cfg: Config, m: Sessions, logs: Logs, id: string, event: TelemetryEvent, at: int)
    requires TableOk(cfg, m, logs) && Verified(id, event)
    ensures TableOk(cfg, AfterEvent(cfg, m, id, event, at), LogsAfterEvent(m, logs, id, event, at))
  {
    hide TableOk, AfterEvent, LogsAfterEvent, TwinFree, Verified, TwinOf, RecordOk, Keyed;
    TableBasics(cfg, m, logs);
    EventKeys(cfg, m, id, event, at);
    EventRecordOk(cfg, m, logs, id, event, at);
    EventTwinFree(cfg, m, id, event, at);
    LogsAfterEventShape(m, logs, id, event, at);
    TableUpdated(cfg, m, logs, AfterEvent(cfg, m, id, event, at), LogsAfterEvent(m, logs, id, event, at), id);
  }

  lemma CappedCount(m: Sessions, cap: nat)
    requires Keyed(m)
    ensures var r := Capped(m, cap);
            && r.Keys <= m.Keys && (forall k :: k in r ==> r[k] == m[k])
            && |r| <= cap && |m.Keys - r.Keys| == |m| - |r|
  {
    CappedIsTop(m, cap);
    hide Capped, EvictedBefore;
    var r := Capped(m, cap);
    assert m.Keys == r.Keys + (m.Keys - r.Keys);
    assert |m| == |m.Keys| && |r| == |r.Keys|;
  }

  /** Enforcing the cap keeps the table well formed, and the eviction count is exact. */
  lemma CapEffect(cfg: Config, m: Sessions, logs: Logs, cap: nat)
    requires TableOk(cfg, m, logs)
    ensures Keyed(m)
    ensures var r := Capped(m, cap);
            TableOk(cfg, r, LogsFor(r, logs)) && |r| <= cap && |m.Keys - r.Keys| == |m| - |r|
  {
    hide RecordOk, TwinFree, Capped;
    TableKeyed(cfg, m, logs);
    CappedCount(m, cap);
    TableRestricted(cfg, m, logs, Capped(m, cap));
  }

  /** What holds between a step and the enforcement of the cap. */
  ghost predicate GoodBeforeCap(cfg: Config, w: World) {
    && TableOk(cfg, w.state.sessions, w.logs)
    && |w.state.sessions| == w.inserted - w.evicted - w.agedOut
    && w.state.dropped == Min(w.refused + w.evicted, U64_MAX)
  }

  lemma CappedGood(cfg: Config, w: World)
    requires GoodBeforeCap(cfg, w) && Keyed(w.state.sessions)
    ensures Good(cfg, CapEnforced(cfg, w))
  {
    hide RecordOk, TwinFree, Keyed;
    CapEffect(cfg, w.state.sessions, w.logs, cfg.maxTrackedSessions);
    CappedIsTop(w.state.sessions, cfg.maxTrackedSessions);
    hide TableOk, LogsFor, Capped;
  }

  lemma TelemetryReached(cfg: Config, w: World, id: string, event: TelemetryEvent, at: int)
    requires Good(cfg, w) && Verified(id, event)
    ensures GoodBeforeCap(cfg, Reached(cfg, w, Telemetry(id, event, at)))
  {
    hide TableOk, AfterEvent, LogsAfterEvent, TwinOf, Verified, TwinFree, Keyed;
    var m := w.state.sessions;
    TableBasics(cfg, m, w.logs);
    EventTableOk(cfg, m, w.logs, id, event, at);
    EventKeys(cfg, m, id, event, at);
  }

  // ----- Discovery keeps the invariant -----

  /** Seeing an instrumented session changes nothing at all. */
  lemma InstrumentedSighting(cfg: Config, m: Sessions, logs: Logs, d: DiscoveredSession, now: int)
    requires TableOk(cfg, m, logs) && InstrumentedId(d.pid, d.startedAt) in m
    ensures AfterSighting(cfg, m, d, now) == m
  {
    hide Agrees;
    var id := InstrumentedId(d.pid, d.startedAt);
    assert RecordOk(cfg, id, m[id], logs[id]);
    var s := m[id].summary;
    IdDeterminesIdentity(s.kind, s.pid, s.startedAt, Instrumented, d.pid, d.startedAt);
    assert Rediscovered(cfg, m[id], d, now) == m[id];
  }

  lemma LegacyRecordOk(cfg: Config, r: Record, d: DiscoveredSession, now: int)
    requires RecordOk(cfg, LegacyId(d.pid, d.startedAt), r, []) && r.summary.kind == Legacy
    ensures RecordOk(cfg, LegacyId(d.pid, d.startedAt), Rediscovered(cfg, r, d, now), [])
  {
    EmptyLog(cfg, r);
    EmptyLog(cfg, Rediscovered(cfg, r, d, now));
    hide Agrees;
  }

  lemma NewLegacyRecordOk(cfg: Config, d: DiscoveredSession, now: int)
    ensures var id := LegacyId(d.pid, d.startedAt);
            RecordOk(cfg, id, NewLegacyRecord(id, d, now), [])
  {
    EmptyLog(cfg, NewLegacyRecord(LegacyId(d.pid, d.startedAt), d, now));
    hide Agrees;
  }

  /** Seeing any other process adds or refreshes one legacy record. */
  lemma LegacySighting(cfg: Config, m: Sessions, logs: Logs, d: DiscoveredSession, now: int)
    requires TableOk(cfg, m, logs) && InstrumentedId(d.pid, d.startedAt) !in m
    ensures var m', id := AfterSighting(cfg, m, d, now), LegacyId(d.pid, d.startedAt);
            && m'.Keys == m.Keys + {id}
            && m'[id].summary.kind == Legacy
            && RecordOk(cfg, id, m'[id], [])
            && (id in m ==> m[id].summary.kind == Legacy && logs[id] == [])
            && forall k :: k in m && k != id ==> m'[k] == m[k]
  {
    hide Agrees;
    var id := LegacyId(d.pid, d.startedAt);
    if id in m {
      assert RecordOk(cfg, id, m[id], logs[id]);
      var s := m[id].summary;
      IdDeterminesIdentity(s.kind, s.pid, s.startedAt, Legacy, d.pid, d.startedAt);
    } else {
      NewLegacyRecordOk(cfg, d, now);
    }
    hide RecordOk;
    LegacyRecordOk(cfg, if id in m then m[id] else NewLegacyRecord(id, d, now), d, now);
  }

  lemma SightingTwinFree(m: Sessions, m': Sessions, pid0: int, start0: int)
    requires TwinFree(m) && InstrumentedId(pid0, start0) !in m
    requires m'.Keys == m.Keys + {LegacyId(pid0, start0)}
    ensures TwinFree(m')
  {
    forall pid: int, start: int
      ensures !(InstrumentedId(pid, start) in m' && LegacyId(pid, start) in m')
    {
      assert !(InstrumentedId(pid, start) in m && LegacyId(pid, start) in m);
      KindsDiffer(pid, start, pid0, start0);
      if LegacyId(pid, start) == LegacyId(pid0, start0) {
        IdDeterminesIdentity(Legacy, pid, start, Legacy, pid0, start0);
      }
    }
  }

  lemma SightingTableOk(cfg: Config, m: Sessions, logs: Logs, d: DiscoveredSession, now: int)
    requires TableOk(cfg, m, logs)
    ensures var m' := AfterSighting(cfg, m, d, now);
            && TableOk(cfg, m', LogsFor(m', logs))
            && m.Keys <= m'.Keys
            && (forall k :: k in m && m[k].summary.kind == Instrumented ==> m'[k] == m[k])
            && (forall k :: k in m' && m'[k].summary.kind == Instrumented ==> k in m && m'[k] == m[k])
  {
    var m' := AfterSighting(cfg, m, d, now);
    if InstrumentedId(d.pid, d.startedAt) in m {
      InstrumentedSighting(cfg, m, logs, d, now);
      TableRestricted(cfg, m, logs, m');
    } else {
      LegacySighting(cfg, m, logs, d, now);
      SightingTwinFree(m, m', d.pid, d.startedAt);
      TableUpdated(cfg, m, logs, m', LogsFor(m', logs), LegacyId(d.pid, d.startedAt));
    }
  }

  /** Instrumented keys are those with an instrumented record; a scan neither adds nor removes nor edits them. */
  lemma {:induction false} ScanEffect(cfg: Config, m: Sessions, logs: Logs, found: seq<DiscoveredSession>, now: int)
    requires TableOk(cfg, m, logs)
    ensures var m' := AfterScan(cfg, m, found, now);
            && TableOk(cfg, m', LogsFor(m', logs))
            && m.Keys <= m'.Keys
            && (forall k :: k in m' && m'[k].summary.kind == Instrumented ==> k in m && m'[k] == m[k])
            && (forall k :: k in m && m[k].summary.kind == Instrumented ==> m'[k] == m[k])
  {
    hide RecordOk, TwinFree;
    if found == [] {
      TableRestricted(cfg, m, logs, m);
    } else {
      var front, d := found[..|found| - 1], Last(found);
      ScanEffect(cfg, m, logs, front, now);
      var before := AfterScan(cfg, m, front, now);
      var logs0 := LogsFor(before, logs);
      SightingTableOk(cfg, before, logs0, d, now);
      var after := AfterSighting(cfg, before, d, now);
      assert LogsFor(after, logs0) == LogsFor(after, logs) by {
        assert forall k :: k in logs ==> k in m;
      }
    }
  }

  lemma AgeingEffect(cfg: Config, m: Sessions, seen: set<string>, now: int)
    ensures var r := AfterAgeing(cfg, m, seen, now);
            r.Keys <= m.Keys && (forall k :: k in r ==> r[k] == m[k]) && |m.Keys - r.Keys| == |m| - |r|
  {
    var r := AfterAgeing(cfg, m, seen, now);
    assert m.Keys == r.Keys + (m.Keys - r.Keys);
    assert |m| == |m.Keys| && |r| == |r.Keys|;
  }

  lemma LogsForTwice(m: Sessions, r: Sessions, logs: Logs)
    requires r.Keys <= m.Keys
    ensures LogsFor(r, LogsFor(m, logs)) == LogsFor(r, logs)
  {
  }

  lemma GrowthCount(m: Sessions, grown: Sessions)
    requires m.Keys <= grown.Keys
    ensures |grown| == |m| + |grown.Keys - m.Keys|
  {
    assert grown.Keys == m.Keys + (grown.Keys - m.Keys);
    assert |m| == |m.Keys| && |grown| == |grown.Keys|;
  }

  lemma DiscoveryTable(cfg: Config, m: Sessions, logs: Logs, found: seq<DiscoveredSession>, now: int)
    requires TableOk(cfg, m, logs)
    ensures var scanned, reached := AfterScan(cfg, m, found, now), AfterDiscovery(cfg, m, found, now);
            && TableOk(cfg, reached, LogsFor(reached, logs))
            && m.Keys <= scanned.Keys && reached.Keys <= scanned.Keys
  {
    hide TableOk, AfterScan, AfterAgeing, SeenIds, LogsFor;
    var scanned, reached := AfterScan(cfg, m, found, now), AfterDiscovery(cfg, m, found, now);
    ScanEffect(cfg, m, logs, found, now);
    AgeingEffect(cfg, scanned, SeenIds(cfg, m, found, now), now);
    TableRestricted(cfg, scanned, LogsFor(scanned, logs), reached);
    LogsForTwice(scanned, reached, logs);
  }

  lemma DiscoveryReached(cfg: Config, w: World, found: seq<DiscoveredSession>, now: int)
    requires Good(cfg, w)
    ensures GoodBeforeCap(cfg, Reached(cfg, w, Discovery(found, now)))
  {
    hide TableOk, AfterScan, AfterDiscovery, LogsFor;
    var m := w.state.sessions;
    var scanned, reached := AfterScan(cfg, m, found, now), AfterDiscovery(cfg, m, found, now);
    DiscoveryTable(cfg, m, w.logs, found, now);
    GrowthCount(m, scanned);
    GrowthCount(reached, scanned);
  }

  lemma StepGood(cfg: Config, w: World, step: Step)
    requires Good(cfg, w) && Permitted(step) && Keyed(w.state.sessions)
    ensures Good(cfg, Next(cfg, w, step))
  {
    hide TableOk, CapEnforced, Refused, GoodBeforeCap;
    if !IsRefused(cfg, w, step) {
      if step.Telemetry? {
        TelemetryReached(cfg, w, step.id, step.event, step.at);
      } else {
        DiscoveryReached(cfg, w, step.found, step.at);
      }
      hide Reached;
      ReachedKeyed(cfg, w, step);
      CappedGood(cfg, Reached(cfg, w, step));
    }
  }

  // ----- Every run -----

  /**
   In every reachable state: each record is what its whole event log implies, ids determine identity, legacy and
   instrumented twins never coexist, the cap holds, and the counters account for every session ever admitted.
   */
  lemma {:induction false} RunGood(cfg: Config, steps: seq<Step>)
    requires forall i :: 0 <= i < |steps| ==> Permitted(steps[i])
    ensures Good(cfg, Run(cfg, steps))
  {
    if steps != [] {
      var front, step := steps[..|steps| - 1], Last(steps);
      RunGood(cfg, front);
      assert Permitted(step);
      StepGood(cfg, Run(cfg, front), step);
    }
  }
}
