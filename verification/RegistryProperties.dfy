/** What holds over every run of the registry. */
module RegistryProperties {
  import opened Prelude
  import opened SessionIds
  import opened Records
  import opened SlidingWindow
  import opened Retransmits
  import opened HealthPolicy
  import opened PeerTracking
  import opened Eviction
  import opened Registry
  import opened RecordLog
  import opened RegistryRuns

  // ----- Who can be evicted -----

  ghost predicate AllActive(m: Sessions) {
    forall k :: k in m ==> EvictionClass(m[k]) == 2
  }

  /**
   The one event that costs an active session its place: a close that says `shutdown = false`, for a session
   not tracked yet, when the table is full of active sessions. It is admitted as closing but stored as active.
   */
  ghost predicate CloseStoredActive(cfg: Config, m: Sessions, id: string, event: TelemetryEvent, at: int) {
    && event.kind == SessionClose && event.shutdown == Some(false)
    && id !in m && TwinOf(event, at) !in m
    && |m| >= cfg.maxTrackedSessions && AllActive(m)
  }

  /** The cap step removes an active instrumented record. */
  ghost predicate EvictsActive(reached: Sessions, cap: nat)
    requires Keyed(reached)
  {
    exists k :: k in reached && k !in Capped(reached, cap) && EvictionClass(reached[k]) == 2
  }

  lemma ClassOfEvent(cfg: Config, m: Sessions, id: string, event: TelemetryEvent, at: int)
    requires TwinFree(m) && Verified(id, event)
    ensures var reached := AfterEvent(cfg, m, id, event, at);
            EvictionClass(reached[id]) == if ShutdownStored(event) then 1 else 2
  {
    EventKeys(cfg, m, id, event, at);
  }

  lemma SomeLowerSparesActive(m: Sessions, cap: nat, low: string)
    requires Keyed(m) && |m| <= cap + 1 && low in m && EvictionClass(m[low]) < 2
    ensures !EvictsActive(m, cap)
  {
    var top := OfClassAtLeast(m, 2);
    assert top <= m.Keys - {low};
    SubsetSize(top, m.Keys - {low});
    assert |m.Keys| == |m|;
    forall k | k in m && k !in Capped(m, cap)
      ensures EvictionClass(m[k]) < 2
    {
      EvictsOnlyBelow(m, cap, 2, k);
    }
  }

  lemma WithinCapEvictsNothing(m: Sessions, cap: nat)
    requires Keyed(m) && |m| <= cap
    ensures Capped(m, cap) == m
  {
  }

  lemma OverfullEvictsSome(m: Sessions, cap: nat)
    requires Keyed(m) && |m| > cap
    ensures exists k :: k in m && k !in Capped(m, cap)
  {
    CappedIsTop(m, cap);
    var r := Capped(m, cap);
    assert m.Keys == r.Keys + (m.Keys - r.Keys);
    assert |m.Keys - r.Keys| > 0;
    var k :| k in m.Keys - r.Keys;
    assert k in m && k !in r;
  }

  lemma NotRefusedWhenFull(cfg: Config, m: Sessions, id: string, event: TelemetryEvent, at: int)
    requires !Refused(cfg, m, id, event, at) && ValidConfig(cfg)
    requires id !in m && TwinOf(event, at) !in m && |m| >= cfg.maxTrackedSessions && AllActive(m)
    requires !ShutdownStored(event)
    ensures event.kind == SessionClose && event.shutdown == Some(false)
  {
  }

  lemma CornerDecided(
    cfg: Config, m: Sessions, reached: Sessions, id: string, event: TelemetryEvent, at: int)
    requires ValidConfig(cfg) && Keyed(reached) && |m| <= cfg.maxTrackedSessions
    requires !Refused(cfg, m, id, event, at)
    requires reached.Keys == m.Keys - {TwinOf(event, at)} + {id} && id != TwinOf(event, at)
    requires forall k :: k in reached && k != id ==> k in m && reached[k] == m[k]
    requires |reached| == |m| + (if id in m || TwinOf(event, at) in m then 0 else 1)
    requires EvictionClass(reached[id]) == if ShutdownStored(event) then 1 else 2
    ensures EvictsActive(reached, cfg.maxTrackedSessions) <==> CloseStoredActive(cfg, m, id, event, at)
  {
    hide Keyed, Capped, TwinOf, Refused, EvictionClass, OfClassAtLeast;
    var cap := cfg.maxTrackedSessions;
    if |reached| <= cap {
      WithinCapEvictsNothing(reached, cap);
    } else if ShutdownStored(event) {
      SomeLowerSparesActive(reached, cap, id) by { ClassIsSmall(reached[id]); }
    } else if !AllActive(m) {
      var low :| low in m && EvictionClass(m[low]) != 2;
      assert low in reached && reached[low] == m[low];
      SomeLowerSparesActive(reached, cap, low) by { ClassIsSmall(m[low]); }
    } else {
      NotRefusedWhenFull(cfg, m, id, event, at);
      OverfullEvictsSome(reached, cap);
    }
  }

  lemma ClassIsSmall(r: Record)
    ensures EvictionClass(r) <= 2
  {
  }

  /** An accepted event makes the cap evict an active instrumented session exactly in the one corner case. */
  lemma EventEvictsActiveExactly(cfg: Config, w: World, id: string, event: TelemetryEvent, at: int)
    requires Good(cfg, w) && Verified(id, event) && ValidConfig(cfg)
    requires !Refused(cfg, w.state.sessions, id, event, at)
    ensures Keyed(AfterEvent(cfg, w.state.sessions, id, event, at))
    ensures EvictsActive(AfterEvent(cfg, w.state.sessions, id, event, at), cfg.maxTrackedSessions)
            <==> CloseStoredActive(cfg, w.state.sessions, id, event, at)
  {
    hide RecordOk, AfterEvent, LogsAfterEvent, TwinFree, TwinOf, Refused, Verified, Keyed, EvictsActive,
      CloseStoredActive;
    var m := w.state.sessions;
    var reached := AfterEvent(cfg, m, id, event, at);
    TableBasics(cfg, m, w.logs);
    EventTableOk(cfg, m, w.logs, id, event, at);
    TableBasics(cfg, reached, LogsAfterEvent(m, w.logs, id, event, at));
    EventKeys(cfg, m, id, event, at);
    ClassOfEvent(cfg, m, id, event, at);
    CornerDecided(cfg, m, reached, id, event, at);
  }

  /** The cap evicts only legacy records after a discovery scan. */
  lemma DiscoveryEvictsOnlyLegacy(cfg: Config, w: World, found: seq<DiscoveredSession>, now: int, e: string)
    requires Good(cfg, w)
    ensures Keyed(AfterDiscovery(cfg, w.state.sessions, found, now))
    ensures var reached := AfterDiscovery(cfg, w.state.sessions, found, now);
            e in reached && e !in Capped(reached, cfg.maxTrackedSessions) ==> reached[e].summary.kind == Legacy
  {
    hide RecordOk, TwinFree, AfterScan, SeenIds, Capped, Fresh;
    var m, cap := w.state.sessions, cfg.maxTrackedSessions;
    var scanned, reached := AfterScan(cfg, m, found, now), AfterDiscovery(cfg, m, found, now);
    DiscoveryReached(cfg, w, found, now);
    TableBasics(cfg, reached, LogsFor(reached, w.logs));
    ScanEffect(cfg, m, w.logs, found, now);
    var instrumented := OfClassAtLeast(reached, 1);
    hide TableOk, LogsFor, Keyed;
    assert instrumented <= m.Keys;
    SubsetSize(instrumented, m.Keys);
    assert |m.Keys| == |m|;
    if e in reached && e !in Capped(reached, cap) {
      EvictsOnlyBelow(reached, cap, 1, e);
    }
  }

  // ----- How an active session leaves -----

  ghost predicate Active(m: Sessions, k: string) {
    k in m && EvictionClass(m[k]) == 2
  }

  ghost predicate CornerStep(cfg: Config, w: World, step: Step) {
    step.Telemetry? && CloseStoredActive(cfg, w.state.sessions, step.id, step.event, step.at)
  }

  /** An instrumented session found by the scan counts as seen. */
  lemma {:induction false} FoundIsSeen(
    cfg: Config, m: Sessions, logs: Logs, found: seq<DiscoveredSession>, now: int, d: DiscoveredSession)
    requires TableOk(cfg, m, logs) && d in found && InstrumentedId(d.pid, d.startedAt) in m
    ensures InstrumentedId(d.pid, d.startedAt) in SeenIds(cfg, m, found, now)
  {
    hide TableOk, InstrumentedId, LegacyId;
    var front := found[..|found| - 1];
    if d == Last(found) {
      ScanEffect(cfg, m, logs, front, now);
    } else {
      assert found == front + [Last(found)];
      FoundIsSeen(cfg, m, logs, front, now, d);
    }
  }

  /** Outside the corner case, no telemetry step removes an active session. */
  lemma TelemetryKeepsActive(cfg: Config, w: World, step: Step, k: string)
    requires Good(cfg, w) && Permitted(step) && ValidConfig(cfg) && Keyed(w.state.sessions)
    requires step.Telemetry? && Active(w.state.sessions, k) && !CornerStep(cfg, w, step)
    ensures k in Next(cfg, w, step).state.sessions
  {
    hide RecordOk, TwinFree, Keyed, AfterEvent, LogsAfterEvent, LogsFor, Capped, TwinOf, Refused, Verified;
    var m, cap := w.state.sessions, cfg.maxTrackedSessions;
    if !IsRefused(cfg, w, step) {
      var reached := AfterEvent(cfg, m, step.id, step.event, step.at);
      TableBasics(cfg, m, w.logs);
      EventEvictsActiveExactly(cfg, w, step.id, step.event, step.at);
      TwinIsLegacy(cfg, m, w.logs, step.event, step.at);
      EventKeys(cfg, m, step.id, step.event, step.at);
      if k == step.id && ShutdownStored(step.event) {
        WithinCapEvictsNothing(reached, cap);
      } else {
        ClassOfEvent(cfg, m, step.id, step.event, step.at);
        assert EvictionClass(reached[k]) == 2;
      }
      CappedIsTop(reached, cap);
    }
  }

  lemma OnlyOneEvicted(reached: Sessions, cap: nat, k: string)
    requires Keyed(reached) && |reached| == cap + 1 && k in reached
    ensures k !in Capped(reached, cap) <==> IsWorst(reached, k)
  {
    CappedIsTop(reached, cap);
    CappedCount(reached, cap);
    hide Capped, EvictedBefore;
    var r := Capped(reached, cap);
    var gone := reached.Keys - r.Keys;
    if k !in r {
      forall j | j in reached && j != k
        ensures j in r
      {
        if j !in r {
          SubsetSize({k, j}, gone);
        }
      }
    } else {
      assert |gone| > 0;
      var j :| j in gone;
      OrderTotal(reached[j], reached[k]);
    }
  }

  lemma CornerFills(cfg: Config, w: World, id: string, event: TelemetryEvent, at: int)
    requires Good(cfg, w) && Verified(id, event) && CloseStoredActive(cfg, w.state.sessions, id, event, at)
    ensures var m := w.state.sessions;
            && |AfterEvent(cfg, m, id, event, at)| == cfg.maxTrackedSessions + 1
            && !Refused(cfg, m, id, event, at)
            && forall k :: k in m ==> k in AfterEvent(cfg, m, id, event, at)
  {
    hide RecordOk, EvictionClass, AfterEvent, InstrumentedId, LegacyId;
    TableBasics(cfg, w.state.sessions, w.logs);
    EventKeys(cfg, w.state.sessions, id, event, at);
  }

  /**
   A telemetry step takes an active session out of the table exactly when it is the misclassified close on a full table
   of active sessions and the session is the lowest of them all, the newcomer included.
   */
  lemma TelemetryLosesActiveExactly(cfg: Config, w: World, step: Step, k: string)
    requires Good(cfg, w) && Permitted(step) && ValidConfig(cfg) && Keyed(w.state.sessions)
    requires step.Telemetry? && Active(w.state.sessions, k)
    ensures k !in Next(cfg, w, step).state.sessions <==>
              CornerStep(cfg, w, step)
              && IsWorst(AfterEvent(cfg, w.state.sessions, step.id, step.event, step.at), k)
  {
    hide RecordOk, TwinFree, Keyed, AfterEvent, LogsAfterEvent, LogsFor, Capped, TwinOf, Refused, Verified, IsWorst,
      CloseStoredActive, EvictionClass, TableOk;
    if !CornerStep(cfg, w, step) {
      TelemetryKeepsActive(cfg, w, step, k);
    } else {
      CornerFills(cfg, w, step.id, step.event, step.at);
      EventKeyed(cfg, w.state.sessions, step.id, step.event, step.at);
      OnlyOneEvicted(
        AfterEvent(cfg, w.state.sessions, step.id, step.event, step.at), cfg.maxTrackedSessions, k);
    }
  }

  lemma FirstSessionKept(cfg: Config, id: string, event: TelemetryEvent, at: int)
    requires ValidConfig(cfg) && Verified(id, event) && event.kind == SessionOpen && event.shutdown == None
    ensures var m := Run(cfg, [Telemetry(id, event, at)]).state.sessions;
            m.Keys == {id} && EvictionClass(m[id]) == 2
            && m[id].summary.lastObserved == Min(event.unixMs, at)
  {
    var first: seq<Step> := [Telemetry(id, event, at)];
    assert first[..0] == [];
    var reached := AfterEvent(cfg, map[], id, event, at);
    EventKeys(cfg, map[], id, event, at);
    ClassOfEvent(cfg, map[], id, event, at);
    EventKeyed(cfg, map[], id, event, at);
    WithinCapEvictsNothing(reached, cfg.maxTrackedSessions);
    hide AfterEvent, Capped;
    assert !Refused(cfg, map[], id, event, at);
    assert Run(cfg, []) == EMPTY_WORLD;
    assert Run(cfg, first).state == CapStep(State(reached, 0), cfg.maxTrackedSessions);
  }

  lemma OneSessionCorner(
    cfg: Config, m: Sessions, id: string, pid: int, start: int, other: string,
    closing: TelemetryEvent, at: int)
    requires cfg.maxTrackedSessions == 1 && m.Keys == {id} && EvictionClass(m[id]) == 2
    requires id == InstrumentedId(pid, start) != other
    requires Verified(other, closing) && closing.kind == SessionClose && closing.shutdown == Some(false)
    ensures CloseStoredActive(cfg, m, other, closing, at) && !Refused(cfg, m, other, closing, at)
  {
    KindsDiffer(pid, start, closing.pid, closing.startedAt.value);
    hide EvictionClass, InstrumentedId, LegacyId, Upgraded;
    assert |m| == |m.Keys| == 1;
  }

  lemma EarlierIsWorst(
    cfg: Config, m: Sessions, id: string, other: string, closing: TelemetryEvent, at: int)
    requires TwinFree(m) && Verified(other, closing) && closing.shutdown == Some(false)
    requires m.Keys == {id} && EvictionClass(m[id]) == 2 && id != other && TwinOf(closing, at) != id
    requires m[id].summary.lastObserved < Min(closing.unixMs, at)
    ensures IsWorst(AfterEvent(cfg, m, other, closing, at), id)
  {
    EventKeys(cfg, m, other, closing, at);
    ClassOfEvent(cfg, m, other, closing, at);
    NewObserved(cfg, m, other, closing, at);
    hide AfterEvent, EvictionClass, StringLess, Verified, TwinOf, TwinFree;
  }

  lemma NewObserved(cfg: Config, m: Sessions, id: string, event: TelemetryEvent, at: int)
    requires id !in m && TwinOf(event, at) !in m
    ensures AfterEvent(cfg, m, id, event, at)[id].summary.lastObserved == Min(event.unixMs, at)
  {
    hide Classify, LegacyId;
  }

  /**
   That case is real: with room for one session, an open followed by such a close of another session, observed later,
   takes the established session out.
   */
  lemma CornerReachable(
    cfg: Config, id: string, event: TelemetryEvent, at: int, other: string, closing: TelemetryEvent, later: int)
    requires ValidConfig(cfg) && cfg.maxTrackedSessions == 1
    requires Verified(id, event) && event.kind == SessionOpen && event.shutdown == None
    requires Verified(other, closing) && closing.kind == SessionClose && closing.shutdown == Some(false)
    requires id != other && Min(event.unixMs, at) < Min(closing.unixMs, later)
    ensures var first, second := Telemetry(id, event, at), Telemetry(other, closing, later);
            && Active(Run(cfg, [first]).state.sessions, id)
            && id !in Run(cfg, [first, second]).state.sessions
  {
    hide Run, AfterEvent, EvictionClass, LegacyId, InstrumentedId, CloseStoredActive, Refused, IsWorst, Next, Good,
      Capped, TableOk;
    var one: seq<Step> := [Telemetry(id, event, at)];
    var step := Telemetry(other, closing, later);
    FirstSessionKept(cfg, id, event, at);
    RunGood(cfg, one);
    RunSnoc(cfg, one, step);
    assert one + [step] == [Telemetry(id, event, at), step];
    var w := Run(cfg, one);
    OneSessionCorner(cfg, w.state.sessions, id, event.pid, event.startedAt.value, other, closing, later);
    TwinNotId(id, event, closing, later);
    GoodTwinFree(cfg, w);
    EarlierIsWorst(cfg, w.state.sessions, id, other, closing, later);
    TelemetryLosesActiveExactly(cfg, w, step, id);
  }

  lemma GoodTwinFree(cfg: Config, w: World)
    requires Good(cfg, w)
    ensures TwinFree(w.state.sessions)
  {
  }

  lemma TwinNotId(id: string, event: TelemetryEvent, closing: TelemetryEvent, at: int)
    requires Verified(id, event)
    ensures TwinOf(closing, at) != id
  {
    KindsDiffer(event.pid, event.startedAt.value, closing.pid, StartOf(closing, at));
  }

  lemma TwinIsLegacy(cfg: Config, m: Sessions, logs: Logs, event: TelemetryEvent, at: int)
    requires TableOk(cfg, m, logs)
    ensures TwinOf(event, at) in m ==> m[TwinOf(event, at)].summary.kind == Legacy
  {
    hide Agrees, Classify;
    var twin := TwinOf(event, at);
    if twin in m {
      assert RecordOk(cfg, twin, m[twin], logs[twin]);
      var s := m[twin].summary;
      IdDeterminesIdentity(s.kind, s.pid, s.startedAt, Legacy, event.pid, StartOf(event, at));
    }
  }

  /** A discovery step loses an active session only when it did not see it and it has gone stale. */
  lemma DiscoveryLosesOnlyStale(cfg: Config, w: World, found: seq<DiscoveredSession>, now: int, k: string)
    requires Good(cfg, w) && Keyed(w.state.sessions)
    requires Active(w.state.sessions, k)
    requires k !in Next(cfg, w, Discovery(found, now)).state.sessions
    ensures forall d :: d in found ==> InstrumentedId(d.pid, d.startedAt) != k
    ensures now - w.state.sessions[k].summary.lastObserved >= StaleCutoffMs(cfg)
  {
    hide RecordOk, TwinFree, Keyed, AfterScan, SeenIds, Capped, LogsFor, StaleCutoffMs, InstrumentedId, LegacyId;
    var m, cap := w.state.sessions, cfg.maxTrackedSessions;
    var reached := AfterDiscovery(cfg, m, found, now);
    DiscoveryEvictsOnlyLegacy(cfg, w, found, now, k);
    ScanEffect(cfg, m, w.logs, found, now);
    CappedIsTop(reached, cap);
    assert k !in reached;
    forall d | d in found
      ensures InstrumentedId(d.pid, d.startedAt) != k
    {
      if InstrumentedId(d.pid, d.startedAt) == k {
        FoundIsSeen(cfg, m, w.logs, found, now, d);
      }
    }
  }

  /**
   Over every run: an active instrumented session leaves the table only in a discovery step that did not see it,
   once its age has reached the stale cutoff, or by the one corner-case event.
   */
  lemma {:induction false} ActiveLeavesOnlyWhenStale(cfg: Config, steps: seq<Step>, step: Step, k: string)
    requires ValidConfig(cfg)
    requires (forall i :: 0 <= i < |steps| ==> Permitted(steps[i])) && Permitted(step)
    requires var w := Run(cfg, steps);
             Active(w.state.sessions, k) && !CornerStep(cfg, w, step)
    requires k !in Run(cfg, steps + [step]).state.sessions
    ensures step.Discovery?
    ensures forall d :: d in step.found ==> InstrumentedId(d.pid, d.startedAt) != k
    ensures step.at - Run(cfg, steps).state.sessions[k].summary.lastObserved >= StaleCutoffMs(cfg)
  {
    hide Good, Next, Run, InstrumentedId, Active, StaleCutoffMs, CornerStep;
    RunGood(cfg, steps);
    RunSnoc(cfg, steps, step);
    var w := Run(cfg, steps);
    if step.Telemetry? {
      TelemetryKeepsActive(cfg, w, step, k);
    } else {
      DiscoveryLosesOnlyStale(cfg, w, step.found, step.at, k);
    }
  }

  /** The cutoff is the documented one exactly when tripling the cleanup interval stays within an i64. */
  lemma StaleCutoffExact(cfg: Config)
    ensures StaleCutoffMs(cfg) == Max(3 * cfg.cleanupIntervalMs, 30_000) <==> 3 * cfg.cleanupIntervalMs < I64_LIMIT
  {
  }

  // ----- What a quiet session looks like -----

  /** An interval for which it is not: the cutoff is negative, so one scan that misses a session ages it out. */
  lemma StaleCutoffNegative(cfg: Config, r: Record, now: int)
    requires cfg.cleanupIntervalMs == 0x4000_0000_0000_0000 && now >= r.summary.lastObserved
    requires r.summary.kind == Instrumented && !r.shutdown
    ensures StaleCutoffMs(cfg) < 0 && !Fresh(cfg, r, now)
  {
  }

  /** A discovery scan leaves every surviving instrumented record unchanged, stored health included. */
  lemma DiscoveryPreservesInstrumented(cfg: Config, w: World, found: seq<DiscoveredSession>, now: int, k: string)
    requires Good(cfg, w) && Keyed(w.state.sessions)
    ensures var m' := Next(cfg, w, Discovery(found, now)).state.sessions;
            k in m' && m'[k].summary.kind == Instrumented ==>
              k in w.state.sessions && m'[k] == w.state.sessions[k]
  {
    hide RecordOk, TwinFree, Keyed, AfterScan, SeenIds, Capped, LogsFor, Fresh;
    ScanEffect(cfg, w.state.sessions, w.logs, found, now);
    ReachedKeyed(cfg, w, Discovery(found, now));
    CappedIsTop(AfterDiscovery(cfg, w.state.sessions, found, now), cfg.maxTrackedSessions);
  }

  /** Telemetry for one session leaves every other surviving record unchanged. */
  lemma TelemetryPreservesOthers(cfg: Config, w: World, step: Step, k: string)
    requires Good(cfg, w) && Permitted(step) && step.Telemetry? && k != step.id && Keyed(w.state.sessions)
    ensures var m' := Next(cfg, w, step).state.sessions;
            k in m' ==> k in w.state.sessions && m'[k] == w.state.sessions[k]
  {
    hide RecordOk, TwinFree, Keyed, AfterEvent, LogsAfterEvent, LogsFor, Capped, TwinOf, Refused, Verified;
    var m := w.state.sessions;
    TableBasics(cfg, m, w.logs);
    if !IsRefused(cfg, w, step) {
      EventKeys(cfg, m, step.id, step.event, step.at);
      ReachedKeyed(cfg, w, step);
      CappedIsTop(AfterEvent(cfg, m, step.id, step.event, step.at), cfg.maxTrackedSessions);
    }
  }

  ghost predicate QuietFor(steps: seq<Step>, k: string) {
    forall i :: 0 <= i < |steps| ==> !(steps[i].Telemetry? && steps[i].id == k)
  }

  /** Without telemetry for it, a session that is still instrumented and tracked has an unchanged record. */
  lemma StepPreservesQuiet(cfg: Config, w: World, step: Step, k: string)
    requires Good(cfg, w) && Permitted(step) && Keyed(w.state.sessions)
    requires !(step.Telemetry? && step.id == k)
    ensures var m' := Next(cfg, w, step).state.sessions;
            k in m' && m'[k].summary.kind == Instrumented ==>
              k in w.state.sessions && m'[k] == w.state.sessions[k]
  {
    hide Good, Next, Keyed;
    if step.Telemetry? {
      TelemetryPreservesOthers(cfg, w, step, k);
    } else {
      DiscoveryPreservesInstrumented(cfg, w, step.found, step.at, k);
    }
  }

  lemma RunSnoc(cfg: Config, steps: seq<Step>, step: Step)
    ensures Run(cfg, steps + [step]) == Next(cfg, Run(cfg, steps), step)
  {
    hide Next;
    assert (steps + [step])[..|steps|] == steps;
  }

  /** Without telemetry for it, a session that is still instrumented and tracked has an unchanged record. */
  lemma {:induction false} QuietRecordUnchanged(cfg: Config, before: seq<Step>, quiet: seq<Step>, k: string)
    requires forall i :: 0 <= i < |before + quiet| ==> Permitted((before + quiet)[i])
    requires QuietFor(quiet, k)
    ensures var m, m' := Run(cfg, before).state.sessions, Run(cfg, before + quiet).state.sessions;
            k in m' && m'[k].summary.kind == Instrumented ==> k in m && m'[k] == m[k]
    decreases |quiet|
  {
    hide Good, Next, Run, Permitted;
    if quiet == [] {
      assert before + quiet == before;
    } else {
      var front, step := quiet[..|quiet| - 1], Last(quiet);
      var all, most := before + quiet, before + front;
      assert all == most + [step];
      assert forall i :: 0 <= i < |most| ==> most[i] == all[i];
      QuietRecordUnchanged(cfg, before, front, k);
      RunGood(cfg, most);
      assert all[|all| - 1] == step;
      RunSnoc(cfg, most, step);
      StepPreservesQuiet(cfg, Run(cfg, most), step, k);
    }
  }

  /** Over a run that brings a session no telemetry, its exported health never improves. */
  lemma QuietHealthNeverImproves(
    cfg: Config, before: seq<Step>, quiet: seq<Step>, k: string, earlier: int, later: int)
    requires forall i :: 0 <= i < |before + quiet| ==> Permitted((before + quiet)[i])
    requires QuietFor(quiet, k) && earlier <= later
    requires var m' := Run(cfg, before + quiet).state.sessions; k in m' && m'[k].summary.kind == Instrumented
    ensures var m, m' := Run(cfg, before).state.sessions, Run(cfg, before + quiet).state.sessions;
            k in m && Severity(Materialized(m[k].summary, cfg.thresholds, earlier).health)
                      <= Severity(Materialized(m'[k].summary, cfg.thresholds, later).health)
  {
    QuietRecordUnchanged(cfg, before, quiet, k);
    hide Run, Materialized;
    HealthNeverImproves(Run(cfg, before).state.sessions[k].summary, cfg.thresholds, earlier, later);
  }

  // ----- The daemon clock -----

  ghost predicate NoneAhead(m: Sessions, clock: int) {
    forall k :: k in m ==> m[k].summary.lastObserved <= clock
  }

  ghost predicate ClockNeverBack(steps: seq<Step>) {
    forall i, j :: 0 <= i <= j < |steps| ==> steps[i].at <= steps[j].at
  }

  lemma EventNotAhead(cfg: Config, m: Sessions, id: string, event: TelemetryEvent, at: int)
    requires NoneAhead(m, at)
    ensures NoneAhead(AfterEvent(cfg, m, id, event, at), at)
  {
  }

  lemma {:induction false} ScanNotAhead(cfg: Config, m: Sessions, found: seq<DiscoveredSession>, now: int)
    requires NoneAhead(m, now)
    ensures NoneAhead(AfterScan(cfg, m, found, now), now)
  {
    hide Classify, InstrumentedId, LegacyId;
    if found != [] {
      ScanNotAhead(cfg, m, found[..|found| - 1], now);
    }
  }

  lemma StepNotAhead(cfg: Config, w: World, step: Step)
    requires Keyed(w.state.sessions) && NoneAhead(w.state.sessions, step.at)
    ensures NoneAhead(Next(cfg, w, step).state.sessions, step.at)
  {
    hide AfterEvent, AfterScan, SeenIds, LogsAfterEvent, LogsFor, Refused, Fresh, Capped, Keyed;
    if !IsRefused(cfg, w, step) {
      if step.Telemetry? {
        EventNotAhead(cfg, w.state.sessions, step.id, step.event, step.at);
      } else {
        ScanNotAhead(cfg, w.state.sessions, step.found, step.at);
      }
      ReachedKeyed(cfg, w, step);
      CappedIsTop(Reached(cfg, w, step).state.sessions, cfg.maxTrackedSessions);
    }
  }

  /** With a daemon clock that never runs back, no session is ever recorded as observed in the future. */
  lemma {:induction false} NeverObservedInFuture(cfg: Config, steps: seq<Step>, clock: int)
    requires ClockNeverBack(steps) && (steps != [] ==> Last(steps).at <= clock)
    ensures NoneAhead(Run(cfg, steps).state.sessions, clock)
  {
    hide Next;
    if steps != [] {
      var front, step := steps[..|steps| - 1], Last(steps);
      assert front != [] ==> Last(front).at <= step.at;
      NeverObservedInFuture(cfg, front, step.at);
      StepNotAhead(cfg, Run(cfg, front), step);
    }
  }

  // ----- Reachable records -----

  /**
   Every reachable record's two windows are aligned, strictly increasing, and exactly the view of its event log;
   the coherence snapshot's route-shift flag says whether the reported address ever changed.
   */
  lemma ReachableRecord(cfg: Config, steps: seq<Step>, k: string)
    requires forall i :: 0 <= i < |steps| ==> Permitted(steps[i])
    requires k in Run(cfg, steps).state.sessions
    ensures var w := Run(cfg, steps);
            && k in w.logs
            && var r, log := w.state.sessions[k], w.logs[k];
            && k == IdOf(r.summary.kind, r.summary.pid, r.summary.startedAt)
            && Agrees(cfg, r, log)
            && SameTimes(r.counters, r.history, SampleTime, PointTime)
            && StrictlyChronological(r.history, PointTime)
            && (RouteShiftObserved(r.summary.peer) <==> AddressEverChanged(Sightings(log)))
            && PeerTimesInOrder(r.summary)
  {
    hide Run;
    RunGood(cfg, steps);
    var w := Run(cfg, steps);
    assert RecordOk(cfg, k, w.state.sessions[k], w.logs[k]);
    WindowsAligned(cfg, w.state.sessions[k], w.logs[k]);
    RecordPeerTimes(cfg, w.state.sessions[k], w.logs[k]);
    RouteShiftIffChanged(Sightings(w.logs[k]));
    hide Agrees, PeerTimesInOrder, Sightings, RouteShiftObserved, AddressEverChanged;
  }

  /** The branch that discards history because time ran back is never taken. */
  lemma TimeRegressionUnreachable(cfg: Config, steps: seq<Step>, id: string, event: TelemetryEvent, at: int)
    requires (forall i :: 0 <= i < |steps| ==> Permitted(steps[i])) && Verified(id, event)
    ensures var entry := EntryFor(Run(cfg, steps).state.sessions, id, event, at);
            !TimeRegressed(entry, NormalizedTime(entry.summary.lastObserved, event.unixMs, at))
  {
    hide Run, EntryFor, Verified, TableOk, Agrees, Absorbed;
    RunGood(cfg, steps);
    var w := Run(cfg, steps);
    EntryAgrees(cfg, w.state.sessions, w.logs, id, event, at);
    AbsorbAgrees(cfg, EntryFor(w.state.sessions, id, event, at), id, event, at, LogOf(w.logs, id));
  }
}
