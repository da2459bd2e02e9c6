/** When a counter that goes unreported hides a fall, and what the windows then show. */
module CounterGaps {
  import opened Prelude
  import opened Records
  import opened SlidingWindow
  import opened Retransmits
  import opened PeerTracking
  import opened Registry
  import opened RecordLog

  /** The counters the retransmit windows are computed from. */
  datatype Counted = StateUpdates | Retransmissions | EmptyAcks

  function SampleValue(c: Counted, s: CounterSample): Option<u64> {
    match c
    case StateUpdates => s.stateUpdatesTx
    case Retransmissions => s.retransmits
    case EmptyAcks => s.emptyAcksTx
  }

  function Reported(c: Counted, o: Observation): Option<u64> { SampleValue(c, SampleOf(o.event, o.at)) }

  /** Event `j` reports less than event `i` did. */
  predicate Falls(c: Counted, log: seq<Observation>, i: int, j: int) {
    && 0 <= i < j < |log|
    && Reported(c, log[i]).Some? && Reported(c, log[j]).Some?
    && Reported(c, log[j]).value < Reported(c, log[i]).value
  }

  /** A fall across events none of which reports the counter. */
  predicate FallsAcross(c: Counted, log: seq<Observation>, i: int, j: int) {
    Falls(c, log, i, j) && forall k :: i < k < j ==> Reported(c, log[k]) == None
  }

  /** Some fall from event `from` on has not been answered by a reset. */
  ghost predicate FallRemains(c: Counted, log: seq<Observation>, from: int) {
    exists i, j :: from <= i && Falls(c, log, i, j)
  }

  /** Some fall from event `from` on is hidden by at least one event that does not report the counter. */
  ghost predicate FallHidden(c: Counted, log: seq<Observation>, from: int) {
    exists i, j :: from <= i && i + 1 < j && FallsAcross(c, log, i, j)
  }

  /** Between a report and a lower one there are neighbouring reports that fall. */
  lemma {:induction false} FallBetweenNeighbours(c: Counted, log: seq<Observation>, i: int, j: int)
    returns (p: int, q: int)
    requires Falls(c, log, i, j)
    ensures i <= p < q <= j && FallsAcross(c, log, p, q)
    decreases j - i
  {
    if k :| i < k < j && Reported(c, log[k]).Some? {
      if Reported(c, log[k]).value < Reported(c, log[i]).value {
        p, q := FallBetweenNeighbours(c, log, i, k);
      } else {
        p, q := FallBetweenNeighbours(c, log, k, j);
      }
    } else {
      p, q := i, j;
    }
  }

  /** A fall from one event to the next resets the history, so none is left standing. */
  lemma NoFallToNext(c: Counted, log: seq<Observation>, i: int)
    requires ResetIndex(log) <= i
    ensures !Falls(c, log, i, i + 1)
  {
    assert i + 1 < |log| ==> !Regressed(CountersIn(log[i]), CountersIn(log[i + 1])) by {
      assert i + 1 < |log| ==> !Regressed(CountersIn(log[i + 1 - 1]), CountersIn(log[i + 1]));
    }
  }

  /**
   A fall is left standing after the last reset exactly when it goes across events that do not report the counter:
   two events report it, the later less than the earlier, and at least one event lies between them and none of those
   reports it.
   */
  lemma {:induction false} FallRemainsIffHidden(c: Counted, log: seq<Observation>, from: int)
    requires from >= ResetIndex(log)
    ensures FallRemains(c, log, from) <==> FallHidden(c, log, from)
  {
    hide Falls, FallsAcross, Regressed;
    if FallRemains(c, log, from) {
      var i, j :| from <= i && Falls(c, log, i, j);
      var p, q := FallBetweenNeighbours(c, log, i, j);
      AcrossFalls(c, log, p, q);
      NoFallToNext(c, log, p);
    }
    if FallHidden(c, log, from) {
      var i, j :| from <= i && i + 1 < j && FallsAcross(c, log, i, j);
      AcrossFalls(c, log, i, j);
    }
  }

  lemma AcrossFalls(c: Counted, log: seq<Observation>, i: int, j: int)
    requires FallsAcross(c, log, i, j)
    ensures Falls(c, log, i, j)
  {
  }

  // ----- What a window shows -----

  function Figure(c: Counted, w: RetransmitWindow): Option<u64> {
    match c
    case StateUpdates => w.breakdown.stateUpdates
    case Retransmissions => w.breakdown.retransmits
    case EmptyAcks => w.breakdown.emptyAcks
  }

  /** What a window takes a report to be: an empty-ack counter that is not reported counts as zero. */
  function Taken(c: Counted, o: Observation): u64 { UnwrapOr(Reported(c, o), 0) }

  /** A window has figures only if both its ends report the other two counters. */
  predicate EndsReported(first: Observation, last: Observation) {
    && Reported(StateUpdates, first).Some? && Reported(StateUpdates, last).Some?
    && Reported(Retransmissions, first).Some? && Reported(Retransmissions, last).Some?
  }

  /** The counter seems not to have moved only because the later end is below the earlier one. */
  predicate SaturatedZero(c: Counted, first: Observation, last: Observation) {
    EndsReported(first, last) && Taken(c, last) < Taken(c, first)
  }

  lemma DeltasOfEnds(c: Counted, first: Observation, last: Observation)
    ensures var w := Deltas(SampleOf(last.event, last.at), SampleOf(first.event, first.at));
            Figure(c, w) ==
            if !EndsReported(first, last) then None
            else if SaturatedZero(c, first, last) then Some(0)
            else Some(Taken(c, last) - Taken(c, first))
  {
  }

  /** The event a complete window is measured from. */
  lemma {:induction false} WindowEnds(cfg: Config, r: Record, log: seq<Observation>, windowMs: int) returns (first: nat)
    requires Agrees(cfg, r, log) && log != [] && windowMs > 0 && WindowOf(r.counters, windowMs).complete
    ensures ResetIndex(log) <= first < |log| - 1 && Last(log).at - log[first].at >= windowMs
    ensures WindowOf(r.counters, windowMs) ==
            Deltas(SampleOf(Last(log).event, Last(log).at), SampleOf(log[first].event, log[first].at))
  {
    hide Agrees, StrictlyChronological, WindowOf, Deltas, ResetIndex, SampleOf;
    WindowsAligned(cfg, r, log);
    NewestSample(cfg, r, log);
    var b := WindowBaseline(r.counters, windowMs);
    WindowSinceReset(cfg, r, log, r.counters[b]);
    var j :| ResetIndex(log) <= j < |log| && r.counters[b] == SampleOf(log[j].event, log[j].at);
    first := j;
    SampleTimes(log[first]);
    SampleTimes(Last(log));
  }

  lemma SampleTimes(o: Observation)
    ensures SampleOf(o.event, o.at).unixMs == o.at
  {
  }

  lemma {:induction false} NewestSample(cfg: Config, r: Record, log: seq<Observation>)
    requires Agrees(cfg, r, log) && log != []
    ensures r.counters != [] && Last(r.counters) == SampleOf(Last(log).event, Last(log).at)
  {
    hide HistoryOf, MetricsOf, PeerOf, Sightings, ResetTime, Retained;
    var start := ResetIndex(log);
    var samples := Samples(log[start..]);
    assert Chronological(samples, SampleTime);
    RetainedShape(samples, SampleTime, WindowMs(cfg));
    assert Last(samples) == SampleOf(Last(log).event, Last(log).at);
  }

  /**
   Every figure of a complete window: the exact difference between its two ends, unless the later end is below the
   earlier one. Then the figure is a saturated zero, and for a counter that both ends report that happens only across a
   hidden fall; the empty-ack counter also saturates when the last event does not report it.
   */
  lemma {:induction false} WindowFigures(
    cfg: Config, r: Record, log: seq<Observation>, windowMs: int, c: Counted) returns (first: nat)
    requires Agrees(cfg, r, log) && log != [] && windowMs > 0 && WindowOf(r.counters, windowMs).complete
    ensures ResetIndex(log) <= first < |log| - 1 && Last(log).at - log[first].at >= windowMs
    ensures Figure(c, WindowOf(r.counters, windowMs)) ==
            if !EndsReported(log[first], Last(log)) then None
            else if SaturatedZero(c, log[first], Last(log)) then Some(0)
            else Some(Taken(c, Last(log)) - Taken(c, log[first]))
    ensures SaturatedZero(c, log[first], Last(log)) <==>
              EndsReported(log[first], Last(log))
              && (Falls(c, log, first, |log| - 1)
                  || (c == EmptyAcks && Reported(c, Last(log)) == None && Taken(c, log[first]) > 0))
    ensures Falls(c, log, first, |log| - 1) ==> FallHidden(c, log, first)
  {
    hide Agrees, WindowOf, Deltas, ResetIndex, SampleOf, Figure, SaturatedZero, Falls, FallHidden, EndsReported;
    first := WindowEnds(cfg, r, log, windowMs);
    DeltasOfEnds(c, log[first], Last(log));
    SaturationMeans(c, log, first);
    if Falls(c, log, first, |log| - 1) {
      FallRemainsIffHidden(c, log, first);
    }
  }

  lemma SaturationMeans(c: Counted, log: seq<Observation>, first: nat)
    requires first < |log| - 1
    ensures SaturatedZero(c, log[first], Last(log)) <==>
              EndsReported(log[first], Last(log))
              && (Falls(c, log, first, |log| - 1)
                  || (c == EmptyAcks && Reported(c, Last(log)) == None && Taken(c, log[first]) > 0))
  {
  }
}
