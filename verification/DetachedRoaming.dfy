/**
 Three heartbeats of one session whose client detaches and comes back from the same address: the route report judges it
 as roaming, the compact status does not.
 */
module DetachedRoaming {
  import opened Prelude
  import opened SessionIds
  import opened Records
  import opened SlidingWindow
  import opened HealthPolicy
  import opened PeerTracking
  import opened Eviction
  import opened Registry
  import opened RegistryRuns
  import opened RegistryProperties
  import opened Coherence
  import Text

  function Heartbeat(pid: int, start: int, at: int, client: Option<string>): TelemetryEvent {
    TelemetryEvent(
      SessionTick, None, pid, at, Some(start), None, Some(60_001), client, None, None,
      NO_READING.(lastHeardAgeMs := Some(0), counters := NO_COUNTERS.(packetsRx := Some(1))))
  }

  function Beat(pid: int, start: int, at: int, client: Option<string>): Step {
    Telemetry(InstrumentedId(pid, start), Heartbeat(pid, start, at, client), at)
  }

  /** Attached, away, and attached again. */
  function DetachAndReturn(pid: int, start: int, addr: string): seq<Step> {
    [Beat(pid, start, 1_000, Some(addr)), Beat(pid, start, 2_000, None), Beat(pid, start, 3_000, Some(addr))]
  }

  // ----- One heartbeat on one record -----

  lemma {:induction false} DropKeepsLastTwo<T>(s: seq<T>, at: T -> int, cutoff: int)
    requires s != [] && at(Last(s)) >= cutoff
    ensures var r := DroppedBefore(s, at, cutoff);
            && r != [] && Last(r) == Last(s) && (forall x :: x in r ==> x in s)
            && (|s| > 1 && at(s[|s| - 2]) >= cutoff ==> |r| > 1 && r[|r| - 2] == s[|s| - 2])
  {
    if at(s[0]) < cutoff {
      DropKeepsLastTwo(s[1..], at, cutoff);
    }
  }

  /** The newest points of a history after one more heartbeat, and the addresses it can contain. */
  ghost predicate Extends(history: seq<MetricPoint>, longer: seq<MetricPoint>, at: int, client: Option<string>) {
    && longer != [] && Last(longer).unixMs == at && Last(longer).clientAddr == client
    && (history != [] ==> |longer| > 1 && longer[|longer| - 2] == Last(history))
    && (forall p :: p in longer ==> p in history || p.clientAddr == client)
  }

  lemma HistoryExtended(
    cfg: Config, r: Record, event: TelemetryEvent, at: int, client: Option<string>, pct: Option<real>)
    requires !CountersReset(r, event) && WindowMs(cfg) >= 1_000
    requires r.history != [] ==> at - 1_000 <= Last(r.history).unixMs < at
    ensures Extends(r.history, WithNewestPct(AbsorbedHistory(cfg, r, event, at, client), pct), at, client)
  {
    hide CountersReset;
    var x := PointOf(event, at, None, client);
    var longer := r.history + [x];
    assert r.history != [] ==> PointTime(Last(r.history)) != PointTime(x);
    assert Upserted(r.history, PointTime, x) == longer;
    assert r.history != [] ==> longer[|longer| - 2] == Last(r.history);
    DropKeepsLastTwo(longer, PointTime, PointTime(Last(longer)) - WindowMs(cfg));
    var kept := AbsorbedHistory(cfg, r, event, at, client);
    assert kept == DroppedBefore(longer, PointTime, PointTime(Last(longer)) - WindowMs(cfg));
    hide AbsorbedHistory, DroppedBefore;
    var dated := WithNewestPct(kept, pct);
    assert forall i :: 0 <= i < |kept| - 1 ==> dated[i] == kept[i] && kept[i] in kept;
  }

  /** A session with this identity and no counter that a heartbeat could lower. */
  ghost predicate Steady(r: Record, id: string, at: int) {
    && r.summary.sessionId == id && r.summary.kind == Instrumented && r.summary.udpPort == Some(60_001)
    && r.summary.lastObserved == at
    && r.summary.metrics.reading.lastHeardAgeMs == Some(0)
    && r.summary.metrics.reading.counters == NO_COUNTERS.(packetsRx := Some(1))
    && r.history != [] && Last(r.history).unixMs == at
  }

  /** A steady session whose last two points are away from and back at the one address it ever had. */
  ghost predicate EndsDetached(r: Record, id: string, addr: string) {
    && Steady(r, id, 3_000) && r.summary.peer.previous == None
    && |r.history| >= 2
    && Last(r.history).clientAddr == Some(addr) && r.history[|r.history| - 2].clientAddr == None
    && forall p :: p in r.history ==> p.clientAddr in {None, Some(addr)}
  }

  lemma HeartbeatAbsorbed(cfg: Config, r: Record, id: string, pid: int, start: int, at: int, client: Option<string>)
    requires cfg.historySecs > 0 && r.summary.lastObserved <= at
    requires r.summary.metrics.reading.counters.packetsRx == None || Steady(r, id, at - 1_000)
    requires r.summary.metrics.reading.counters in {NO_COUNTERS, NO_COUNTERS.(packetsRx := Some(1))}
    requires r.history != [] ==> Last(r.history).unixMs == at - 1_000
    requires client.Some? ==> Text.Presentable(client.value, 128)
    ensures var r' := Absorbed(cfg, r, id, Heartbeat(pid, start, at, client), at);
            && Steady(r', id, at)
            && Extends(r.history, r'.history, at, client)
            && r'.summary.peer == PeerAfter(r.summary.peer, client, at)
  {
    var event := Heartbeat(pid, start, at, client);
    if client.Some? {
      Text.PresentableIsFixed(client.value, 128);
    }
    hide Text.Sanitized, Text.Presentable, AbsorbedCounters, AbsorbedHistory, WithNewestPct, Classify, NewCmdline,
      Extends;
    var pct := Absorbed(cfg, r, id, event, at).summary.metrics.window10s.pct;
    HistoryExtended(cfg, r, event, at, client, pct);
    ExtendsEnds(r.history, WithNewestPct(AbsorbedHistory(cfg, r, event, at, client), pct), at, client);
  }

  lemma ExtendsEnds(history: seq<MetricPoint>, longer: seq<MetricPoint>, at: int, client: Option<string>)
    requires Extends(history, longer, at, client)
    ensures longer != [] && Last(longer).unixMs == at
  {
  }

  // ----- The run -----

  function AfterBeat(cfg: Config, r: Record, pid: int, start: int, at: int, client: Option<string>): Record {
    Absorbed(cfg, r, InstrumentedId(pid, start), Heartbeat(pid, start, at, client), at)
  }

  function FirstBeat(cfg: Config, pid: int, start: int, at: int, client: Option<string>): Record {
    AfterBeat(cfg, NewRecord(InstrumentedId(pid, start), Heartbeat(pid, start, at, client), at), pid, start, at, client)
  }

  /** The table after a heartbeat of its only session, and why the cap leaves it alone. */
  lemma BeatReached(cfg: Config, m: Sessions, pid: int, start: int, at: int, client: Option<string>)
    requires ValidConfig(cfg) && m.Keys <= {InstrumentedId(pid, start)} && Keyed(m)
    ensures var id, event := InstrumentedId(pid, start), Heartbeat(pid, start, at, client);
            var reached := AfterEvent(cfg, m, id, event, at);
            && reached == map[id := if id in m then AfterBeat(cfg, m[id], pid, start, at, client)
                                    else FirstBeat(cfg, pid, start, at, client)]
            && !Refused(cfg, m, id, event, at)
            && Keyed(reached) && Capped(reached, cfg.maxTrackedSessions) == reached
  {
    var id, event := InstrumentedId(pid, start), Heartbeat(pid, start, at, client);
    KindsDiffer(pid, start, pid, start);
    hide Absorbed, NewRecord, InstrumentedId, LegacyId, EvictionClass;
    EventKeyed(cfg, m, id, event, at);
    SubsetSize(m.Keys, {id});
    assert |m| == |m.Keys|;
    var reached := AfterEvent(cfg, m, id, event, at);
    assert reached.Keys == {id} && |reached| == |reached.Keys|;
    WithinCapEvictsNothing(reached, cfg.maxTrackedSessions);
    assert id !in m ==> m.Keys == {};
  }

  /** A heartbeat of the only session changes just that session's record. */
  lemma BeatStep(
    cfg: Config, steps: seq<Step>, pid: int, start: int, at: int, client: Option<string>)
    requires ValidConfig(cfg)
    requires Run(cfg, steps).state.sessions.Keys <= {InstrumentedId(pid, start)}
    ensures var id, m := InstrumentedId(pid, start), Run(cfg, steps).state.sessions;
            Run(cfg, steps + [Beat(pid, start, at, client)]).state.sessions ==
            map[id := if id in m then AfterBeat(cfg, m[id], pid, start, at, client)
                      else FirstBeat(cfg, pid, start, at, client)]
  {
    hide Run, AfterBeat, FirstBeat, AfterEvent, InstrumentedId, LegacyId, Capped, Refused, Heartbeat, LogsFor,
      LogsAfterEvent, TwinOf;
    RunSnoc(cfg, steps, Beat(pid, start, at, client));
    BeatReached(cfg, Run(cfg, steps).state.sessions, pid, start, at, client);
  }

  lemma NewRecordPlain(cfg: Config, pid: int, start: int, at: int, client: Option<string>)
    ensures var r := NewRecord(InstrumentedId(pid, start), Heartbeat(pid, start, at, client), at);
            && r.history == [] && r.summary.lastObserved == at && r.summary.peer == NO_PEER
            && r.summary.metrics.reading.counters == NO_COUNTERS
  {
  }

  /** The three records the run goes through. */
  lemma DetachRun(cfg: Config, pid: int, start: int, addr: string)
    requires ValidConfig(cfg)
    ensures var id := InstrumentedId(pid, start);
            var first := FirstBeat(cfg, pid, start, 1_000, Some(addr));
            var away := AfterBeat(cfg, first, pid, start, 2_000, None);
            Run(cfg, DetachAndReturn(pid, start, addr)).state.sessions ==
            map[id := AfterBeat(cfg, away, pid, start, 3_000, Some(addr))]
  {
    hide Run, FirstBeat, AfterBeat, InstrumentedId, Beat;
    NothingYet(cfg);
    var steps := DetachAndReturn(pid, start, addr);
    var one: seq<Step> := [steps[0]];
    BeatStep(cfg, [], pid, start, 1_000, Some(addr));
    assert [] + one == one;
    BeatStep(cfg, one, pid, start, 2_000, None);
    var two: seq<Step> := one + [steps[1]];
    BeatStep(cfg, two, pid, start, 3_000, Some(addr));
    assert two + [steps[2]] == steps;
  }

  lemma NothingYet(cfg: Config)
    ensures Run(cfg, []).state.sessions == map[]
  {
  }

  /** The exported tail of a history that ends away from and back at one address. */
  lemma DetachedEvidence(digest: Digest, cfg: Config, r: Record, id: string, addr: string, now: int)
    requires EndsDetached(r, id, addr) && cfg.maxSessionDetailPoints >= 2
    requires id != [] && !Text.IsWhitespace(id[0]) && Text.Presentable(addr, 128)
    ensures var detail := SessionDetail(cfg, r, now);
            RoamingEvidence(digest, detail) && !AddressChanged(detail.history)
  {
    Text.NotBlank(id);
    Text.NotBlank(addr);
    hide Classify, Text.Trim, TwoLabels, Points;
    var detail := SessionDetail(cfg, r, now);
    var history := detail.history;
    assert history[|history| - 1] == Last(r.history) && history[|history| - 2] == r.history[|r.history| - 2];
    assert history[|history| - 1] in history && history[|history| - 2] in history;
    assert CameOrWent(history);
    ShiftExactly(digest, detail);
    assert forall p :: p in history ==> p in r.history;
    assert detail.summary.sessionId == id && detail.summary.kind == Instrumented;
  }

  /** The record the run ends with. */
  lemma DetachedRecord(cfg: Config, pid: int, start: int, addr: string)
    requires ValidConfig(cfg) && Text.Presentable(addr, 128)
    ensures var first := FirstBeat(cfg, pid, start, 1_000, Some(addr));
            var away := AfterBeat(cfg, first, pid, start, 2_000, None);
            var back := AfterBeat(cfg, away, pid, start, 3_000, Some(addr));
            EndsDetached(back, InstrumentedId(pid, start), addr)
  {
    hide Text.Presentable, Absorbed, InstrumentedId;
    var id := InstrumentedId(pid, start);
    var blank := NewRecord(id, Heartbeat(pid, start, 1_000, Some(addr)), 1_000);
    var first := FirstBeat(cfg, pid, start, 1_000, Some(addr));
    NewRecordPlain(cfg, pid, start, 1_000, Some(addr));
    hide NewRecord;
    HeartbeatAbsorbed(cfg, blank, id, pid, start, 1_000, Some(addr));
    HeartbeatAbsorbed(cfg, first, id, pid, start, 2_000, None);
    var away := AfterBeat(cfg, first, pid, start, 2_000, None);
    HeartbeatAbsorbed(cfg, away, id, pid, start, 3_000, Some(addr));
  }

  /**
   On any configuration that exports at least two points: after the three heartbeats the report claims roaming, although
   the session only ever had one address, while the compact status shows no shift.
   */
  lemma DetachIsReportedAsRoaming(
    cfg: Config, pid: int, start: int, addr: string, digest: Digest, now: int)
    requires ValidConfig(cfg) && cfg.maxSessionDetailPoints >= 2 && Text.Presentable(addr, 128)
    ensures var id, steps := InstrumentedId(pid, start), DetachAndReturn(pid, start, addr);
            && id in Run(cfg, steps).state.sessions
            && var detail := SessionDetail(cfg, Run(cfg, steps).state.sessions[id], now);
            && RoamingEvidence(digest, detail) && !AddressChanged(detail.history)
            && CompactStatus(detail.summary) == (false, 72.0)
  {
    hide Run, Text.Presentable, FirstBeat, AfterBeat, RoamingEvidence, AddressChanged, SessionDetail, CompactStatus,
      EndsDetached, DetachAndReturn, InstrumentedId, Text.IsWhitespace;
    IdStartsPlain(pid, start);
    var id := InstrumentedId(pid, start);
    var back := AfterBeat(
      cfg, AfterBeat(cfg, FirstBeat(cfg, pid, start, 1_000, Some(addr)), pid, start, 2_000, None),
      pid, start, 3_000, Some(addr));
    DetachRun(cfg, pid, start, addr);
    DetachedRecord(cfg, pid, start, addr);
    DetachedEvidence(digest, cfg, back, id, addr, now);
    DetachedStatus(cfg, back, id, addr, now);
  }

  lemma IdStartsPlain(pid: int, start: int)
    ensures InstrumentedId(pid, start) != [] && !Text.IsWhitespace(InstrumentedId(pid, start)[0])
  {
  }

  /** The steps of the run are ones a verified peer can cause. */
  lemma DetachPermitted(pid: int, start: int, addr: string)
    ensures forall i :: 0 <= i < 3 ==> Permitted(DetachAndReturn(pid, start, addr)[i])
  {
    hide InstrumentedId;
  }

  lemma DetachedStatus(cfg: Config, r: Record, id: string, addr: string, now: int)
    requires EndsDetached(r, id, addr)
    ensures CompactStatus(SessionDetail(cfg, r, now).summary) == (false, 72.0)
  {
    hide Classify;
  }
}
