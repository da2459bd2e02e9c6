/** Health classification, and how an exported summary ages while no telemetry arrives. */
module HealthPolicy {
  import opened Prelude
  import opened SessionIds
  import opened Records

  predicate AtLeastReal(value: Option<real>, threshold: real) {
    value.Some? && value.value >= threshold
  }

  predicate AtLeastAge(value: Option<u64>, threshold: u64) {
    value.Some? && value.value >= threshold
  }

  function Classify(kind: SessionKind, m: Metrics, t: Thresholds): Health {
    if kind == Legacy then LegacyHealth
    else if || AtLeastReal(m.reading.srttMs, t.criticalRttMs as real)
            || AtLeastReal(m.window60s.pct, t.criticalRetransmitPct)
            || AtLeastAge(m.reading.lastHeardAgeMs, t.criticalSilenceMs) then Critical
    else if || AtLeastReal(m.reading.srttMs, t.warnRttMs as real)
            || AtLeastReal(m.window10s.pct, t.warnRetransmitPct)
            || AtLeastReal(m.window60s.pct, t.warnRetransmitPct)
            || AtLeastAge(m.reading.lastHeardAgeMs, t.warnSilenceMs) then Degraded
    else Healthy
  }

  function Severity(h: Health): nat {
    match h
    case Critical => 3
    case Degraded => 2
    case LegacyHealth => 1
    case Healthy => 0
  }

  predicate NoGreater(a: Option<real>, b: Option<real>) {
    a.Some? ==> b.Some? && a.value <= b.value
  }

  predicate NoOlder(a: Option<u64>, b: Option<u64>) {
    a.Some? ==> b.Some? && a.value <= b.value
  }

  /** Worse readings never give better health. */
  lemma WorseSignalsWorseHealth(kind: SessionKind, a: Metrics, b: Metrics, t: Thresholds)
    requires NoGreater(a.reading.srttMs, b.reading.srttMs)
    requires NoOlder(a.reading.lastHeardAgeMs, b.reading.lastHeardAgeMs)
    requires NoGreater(a.window10s.pct, b.window10s.pct) && NoGreater(a.window60s.pct, b.window60s.pct)
    ensures Severity(Classify(kind, a, t)) <= Severity(Classify(kind, b, t))
  {
  }

  /** Loss in the short window alone never makes a session critical; how old the remote state is never matters. */
  lemma SustainedLossForCritical(
    kind: SessionKind, m: Metrics, t: Thresholds, short: RetransmitWindow, age: Option<u64>)
    ensures Classify(kind, m.(window10s := short), t) == Critical <==> Classify(kind, m, t) == Critical
    ensures Classify(kind, m.(reading := m.reading.(remoteStateAgeMs := age)), t) == Classify(kind, m, t)
  {
  }

  function Aged(age: Option<u64>, elapsed: u64): Option<u64> {
    Some(SaturatingAdd(UnwrapOr(age, 0), elapsed))
  }

  /** `now - lastObserved` cast to u64; a wider gap than u64 cannot arise between two i64 clocks. */
  function Elapsed(now: int, lastObserved: int): u64
    requires now > lastObserved
  {
    Min(now - lastObserved, U64_MAX)
  }

  /** The summary as exported at `now`. */
  function Materialized(summary: Summary, t: Thresholds, now: int): Summary {
    var aged :=
      if summary.kind == Instrumented && now > summary.lastObserved then
        var elapsed := Elapsed(now, summary.lastObserved);
        var reading := summary.metrics.reading.(
          lastHeardAgeMs := Aged(summary.metrics.reading.lastHeardAgeMs, elapsed),
          remoteStateAgeMs := Aged(summary.metrics.reading.remoteStateAgeMs, elapsed));
        summary.(metrics := summary.metrics.(reading := reading))
      else summary;
    aged.(health := Classify(aged.kind, aged.metrics, t))
  }

  /** Without new telemetry the exported health of a session never improves. */
  lemma HealthNeverImproves(summary: Summary, t: Thresholds, earlier: int, later: int)
    requires earlier <= later
    ensures Severity(Materialized(summary, t, earlier).health) <= Severity(Materialized(summary, t, later).health)
    ensures summary.kind == Legacy ==> Materialized(summary, t, later).health == LegacyHealth
  {
    var a := Materialized(summary, t, earlier).metrics.reading.lastHeardAgeMs;
    var b := Materialized(summary, t, later).metrics.reading.lastHeardAgeMs;
    assert a.Some? ==> b.Some? && a.value <= b.value;
  }

  /** Prolonged silence is critical in every export. */
  lemma SilenceIsCritical(summary: Summary, t: Thresholds, now: int)
    requires summary.kind == Instrumented && now > summary.lastObserved
    requires now - summary.lastObserved >= t.criticalSilenceMs
    ensures Materialized(summary, t, now).health == Critical
  {
  }

  /** Exporting changes only the two ages and the health, and legacy health marks exactly the legacy sessions. */
  lemma MaterializedFrame(summary: Summary, t: Thresholds, now: int)
    ensures var m := Materialized(summary, t, now);
            && m == summary.(health := m.health, metrics := m.metrics)
            && m.metrics == summary.metrics.(reading := summary.metrics.reading.(
                 lastHeardAgeMs := m.metrics.reading.lastHeardAgeMs,
                 remoteStateAgeMs := m.metrics.reading.remoteStateAgeMs))
            && (m.health == LegacyHealth <==> summary.kind == Legacy)
  {
  }
}
