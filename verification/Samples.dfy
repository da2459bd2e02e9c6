/** Persisted history samples: how one is made from a summary, and the sanitiser applied on read. */
module Samples {
  import opened Prelude
  import opened SessionIds
  import opened Records
  import Text

  /** A 64-bit float, as far as the sanitiser distinguishes them. */
  datatype Float = Finite(value: real) | NotFinite

  datatype ObserverInfo = ObserverInfo(nodeName: string, systemId: string)

  datatype SampleMetrics = SampleMetrics(
    srttMs: Option<Float>, rttvarMs: Option<Float>, lastRttMs: Option<Float>,
    retransmitPct10s: Option<Float>, retransmitPct60s: Option<Float>,
    lastHeardAgeMs: Option<u64>, remoteStateAgeMs: Option<u64>, counters: Counters,
    complete10s: bool, complete60s: bool, breakdown10s: Breakdown, breakdown60s: Breakdown)

  datatype HistorySample = HistorySample(
    observer: Option<ObserverInfo>, recordedAt: int, sessionId: string, displayId: Option<string>, pid: int,
    kind: SessionKind, health: Health, startedAt: int, counterResetAt: Option<int>,
    bindAddr: Option<string>, udpPort: Option<int>, clientAddr: Option<string>, currentClientAddr: Option<string>,
    metrics: SampleMetrics)

  function AsFloat(r: Option<real>): Option<Float> {
    if r.None? then None else Some(Finite(r.value))
  }

  function SampleMetricsOf(m: Metrics): SampleMetrics {
    SampleMetrics(
      AsFloat(m.reading.srttMs), AsFloat(m.reading.rttvarMs), AsFloat(m.reading.lastRttMs),
      AsFloat(m.window10s.pct), AsFloat(m.window60s.pct), m.reading.lastHeardAgeMs, m.reading.remoteStateAgeMs,
      m.reading.counters, m.window10s.complete, m.window60s.complete, m.window10s.breakdown, m.window60s.breakdown)
  }

  /** The sample recorded for a session. */
  function SampleFrom(observer: ObserverInfo, recordedAt: int, s: Summary): HistorySample {
    HistorySample(
      Some(observer), recordedAt, s.sessionId, s.displayId, s.pid, s.kind, s.health, s.startedAt, s.counterResetAt,
      s.bindAddr, s.udpPort, s.peer.last, s.peer.current, SampleMetricsOf(s.metrics))
  }

  function NonNegative(v: Option<Float>): Option<Float> {
    if v.Some? && v.value.Finite? && v.value.value >= 0.0 then v else None
  }

  function Percentage(v: Option<Float>): Option<Float> {
    if v.Some? && v.value.Finite? && 0.0 <= v.value.value <= 100.0 then v else None
  }

  function SanitizedObserver(o: Option<ObserverInfo>): Option<ObserverInfo> {
    if o.None? then None
    else
      var nodeName, systemId := Text.Sanitized(o.value.nodeName, 255), Text.Sanitized(o.value.systemId, 255);
      if nodeName.None? || systemId.None? then None
      else Some(ObserverInfo(nodeName.value, systemId.value))
  }

  function SanitizedMetrics(m: SampleMetrics): SampleMetrics {
    m.(srttMs := NonNegative(m.srttMs), rttvarMs := NonNegative(m.rttvarMs), lastRttMs := NonNegative(m.lastRttMs),
       retransmitPct10s := Percentage(m.retransmitPct10s), retransmitPct60s := Percentage(m.retransmitPct60s))
  }

  predicate Identified(s: HistorySample) {
    s.kind == Instrumented && s.pid > 0 && Text.IsExactAndBounded(s.sessionId, 128)
  }

  function SanitizedSample(s: HistorySample): Option<HistorySample> {
    if !Identified(s) then None
    else
      Some(s.(
        displayId := Text.SanitizedDisplayId(s.displayId),
        bindAddr := Text.SanitizedEndpoint(s.bindAddr),
        clientAddr := Text.SanitizedEndpoint(s.clientAddr),
        currentClientAddr := Text.SanitizedEndpoint(s.currentClientAddr),
        observer := SanitizedObserver(s.observer),
        metrics := SanitizedMetrics(s.metrics)))
  }

  lemma OptionalIdempotent(v: Option<string>, maxChars: nat)
    ensures var once := Text.SanitizedOptional(v, maxChars);
            Text.SanitizedOptional(once, maxChars) == once
  {
    if v.Some? {
      Text.SanitizedIdempotent(v.value, maxChars);
    }
  }

  lemma ObserverIdempotent(o: Option<ObserverInfo>)
    ensures SanitizedObserver(SanitizedObserver(o)) == SanitizedObserver(o)
  {
    if o.Some? {
      Text.SanitizedIdempotent(o.value.nodeName, 255);
      Text.SanitizedIdempotent(o.value.systemId, 255);
      hide Text.Sanitized;
    }
  }

  /** Sanitising a sample again changes nothing. */
  lemma SampleIdempotent(s: HistorySample)
    ensures var once := SanitizedSample(s);
            once.Some? ==> SanitizedSample(once.value) == once
  {
    hide Text.Sanitized, Text.SanitizedOptional, Text.IsExactAndBounded;
    OptionalIdempotent(s.displayId, 128);
    OptionalIdempotent(s.bindAddr, 128);
    OptionalIdempotent(s.clientAddr, 128);
    OptionalIdempotent(s.currentClientAddr, 128);
    hide SanitizedObserver;
    ObserverIdempotent(s.observer);
  }

  /**
   A sample is accepted exactly when its identity is intact: an instrumented session with a real process id and a
   presentable id. Sanitising never touches that identity, nor when it was recorded.
   */
  lemma SampleIdentityIntact(s: HistorySample)
    ensures SanitizedSample(s).Some? <==>
              s.kind == Instrumented && s.pid > 0 && Text.Presentable(s.sessionId, 128)
    ensures var r := SanitizedSample(s);
            r.Some? ==>
              && r.value.sessionId == s.sessionId && r.value.pid == s.pid && r.value.kind == s.kind
              && r.value.startedAt == s.startedAt && r.value.recordedAt == s.recordedAt && r.value.health == s.health
  {
    Text.ExactAcceptsImage(s.sessionId, 128);
    hide Text.Sanitized, Text.IsExactAndBounded, Text.Presentable, Text.InImage;
  }

  /** A measurement is kept exactly when it is a number within the bounds, and dropped otherwise. */
  predicate KeptWithin(before: Option<Float>, after: Option<Float>, low: real, high: Option<real>) {
    if before.Some? && before.value.Finite? && before.value.value >= low
       && (high.Some? ==> before.value.value <= high.value)
    then after == before else after == None
  }

  /** A text is kept as it is when it is presentable, and never becomes anything that is not. */
  predicate KeptPresentable(before: Option<string>, after: Option<string>, maxChars: nat) {
    && (after.Some? ==> before.Some? && Text.Presentable(after.value, maxChars))
    && (before.Some? && Text.Presentable(before.value, maxChars) ==> after == before)
  }

  lemma OptionalKept(v: Option<string>, maxChars: nat)
    ensures KeptPresentable(v, Text.SanitizedOptional(v, maxChars), maxChars)
  {
    if v.Some? {
      Text.SanitizedIsPresentable(v.value, maxChars);
      if Text.Presentable(v.value, maxChars) {
        Text.PresentableIsFixed(v.value, maxChars);
      }
    }
  }

  /** What the sanitiser makes of every field of a sample it accepts. */
  lemma SampleExactly(s: HistorySample)
    requires SanitizedSample(s).Some?
    ensures var r := SanitizedSample(s).value;
            && KeptPresentable(s.displayId, r.displayId, 128) && KeptPresentable(s.bindAddr, r.bindAddr, 128)
            && KeptPresentable(s.clientAddr, r.clientAddr, 128)
            && KeptPresentable(s.currentClientAddr, r.currentClientAddr, 128)
            && KeptWithin(s.metrics.srttMs, r.metrics.srttMs, 0.0, None)
            && KeptWithin(s.metrics.rttvarMs, r.metrics.rttvarMs, 0.0, None)
            && KeptWithin(s.metrics.lastRttMs, r.metrics.lastRttMs, 0.0, None)
            && KeptWithin(s.metrics.retransmitPct10s, r.metrics.retransmitPct10s, 0.0, Some(100.0))
            && KeptWithin(s.metrics.retransmitPct60s, r.metrics.retransmitPct60s, 0.0, Some(100.0))
            && r == s.(observer := r.observer, displayId := r.displayId, bindAddr := r.bindAddr,
                       clientAddr := r.clientAddr, currentClientAddr := r.currentClientAddr,
                       metrics := s.metrics.(
                         srttMs := r.metrics.srttMs, rttvarMs := r.metrics.rttvarMs, lastRttMs := r.metrics.lastRttMs,
                         retransmitPct10s := r.metrics.retransmitPct10s,
                         retransmitPct60s := r.metrics.retransmitPct60s))
  {
    OptionalKept(s.displayId, 128);
    OptionalKept(s.bindAddr, 128);
    OptionalKept(s.clientAddr, 128);
    OptionalKept(s.currentClientAddr, 128);
    hide Text.SanitizedOptional, SanitizedObserver, KeptPresentable, Text.IsExactAndBounded;
  }

  /** An observer's names are kept together or not at all. */
  lemma ObserverExactly(o: ObserverInfo)
    ensures var r := SanitizedObserver(Some(o));
            && (r.Some? ==> Text.Presentable(r.value.nodeName, 255) && Text.Presentable(r.value.systemId, 255))
            && (r.None? <==> Text.Blank(o.nodeName) || Text.Blank(o.systemId))
            && (Text.Presentable(o.nodeName, 255) && Text.Presentable(o.systemId, 255) ==> r == Some(o))
  {
    OptionalKept(Some(o.nodeName), 255);
    OptionalKept(Some(o.systemId), 255);
    Text.DroppedExactly(o.nodeName, 255);
    Text.DroppedExactly(o.systemId, 255);
    hide Text.Sanitized, Text.Presentable, Text.Blank;
  }
}
