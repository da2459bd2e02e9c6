/** Retransmit ratios over trailing windows of counter samples. */
module Retransmits {
  import opened Prelude
  import opened Records
  import opened SlidingWindow

  function SampleTime(s: CounterSample): int { s.unixMs }

  /** Scanning from the newest sample, the first one at least `windowMs` older than `latestMs`. */
  function Baseline(samples: seq<CounterSample>, latestMs: int, windowMs: int): Option<CounterSample> {
    if samples == [] then None
    else if latestMs - Last(samples).unixMs >= windowMs then Some(Last(samples))
    else Baseline(samples[..|samples| - 1], latestMs, windowMs)
  }

  function Deltas(latest: CounterSample, baseline: CounterSample): RetransmitWindow {
    if latest.stateUpdatesTx.None? || baseline.stateUpdatesTx.None?
       || latest.retransmits.None? || baseline.retransmits.None? then
      RetransmitWindow(None, true, NO_BREAKDOWN)
    else
      var updates := SaturatingSub(latest.stateUpdatesTx.value, baseline.stateUpdatesTx.value);
      var retransmits := SaturatingSub(latest.retransmits.value, baseline.retransmits.value);
      var emptyAcks := SaturatingSub(UnwrapOr(latest.emptyAcksTx, 0), UnwrapOr(baseline.emptyAcksTx, 0));
      var transmissions := SaturatingAdd(SaturatingAdd(updates, retransmits), emptyAcks);
      RetransmitWindow(
        if transmissions == 0 then None else Some((retransmits as real * 100.0) / transmissions as real),
        true,
        Breakdown(Some(transmissions), Some(retransmits), Some(updates), Some(emptyAcks)))
  }

  function WindowOf(samples: seq<CounterSample>, windowMs: int): RetransmitWindow {
    if samples == [] then NO_WINDOW
    else
      var baseline := Baseline(samples, Last(samples).unixMs, windowMs);
      if baseline.None? then NO_WINDOW else Deltas(Last(samples), baseline.value)
  }

  method RetransmitPct(samples: seq<CounterSample>, windowMs: int) returns (w: RetransmitWindow)
    ensures w == WindowOf(samples, windowMs)
  {
    if samples == [] {
      return NO_WINDOW;
    }
    var latest := Last(samples);
    var i := |samples|;
    assert samples[..i] == samples;
    while i > 0 && latest.unixMs - samples[i - 1].unixMs < windowMs
      invariant 0 <= i <= |samples|
      invariant Baseline(samples, latest.unixMs, windowMs) == Baseline(samples[..i], latest.unixMs, windowMs)
    {
      assert samples[..i][..i - 1] == samples[..i - 1];
      i := i - 1;
    }
    if i == 0 {
      return NO_WINDOW;
    }
    return Deltas(latest, samples[i - 1]);
  }

  lemma {:induction false} BaselineSearch(samples: seq<CounterSample>, latestMs: int, windowMs: int) returns (b: int)
    requires StrictlyChronological(samples, SampleTime)
    ensures -1 <= b < |samples|
    ensures b == -1 <==> Baseline(samples, latestMs, windowMs).None?
    ensures b >= 0 ==> Baseline(samples, latestMs, windowMs) == Some(samples[b])
    ensures forall j :: 0 <= j < |samples| ==> (latestMs - samples[j].unixMs >= windowMs <==> j <= b)
  {
    if samples == [] {
      b := -1;
    } else if latestMs - Last(samples).unixMs >= windowMs {
      b := |samples| - 1;
      assert forall j :: 0 <= j < |samples| ==> SampleTime(samples[j]) <= SampleTime(samples[b]);
    } else {
      var front := samples[..|samples| - 1];
      b := BaselineSearch(front, latestMs, windowMs);
      assert forall j :: 0 <= j < |front| ==> samples[j] == front[j];
    }
  }

  /**
   A window is complete iff the oldest retained sample is at least that old; then its figures are the
   differences between the newest sample and the newest sample that is at least that old.
   */
  lemma WindowBaseline(samples: seq<CounterSample>, windowMs: int) returns (b: int)
    requires StrictlyChronological(samples, SampleTime) && samples != []
    ensures WindowOf(samples, windowMs).complete <==> Last(samples).unixMs - samples[0].unixMs >= windowMs
    ensures WindowOf(samples, windowMs).complete ==>
              && 0 <= b < |samples|
              && Last(samples).unixMs - samples[b].unixMs >= windowMs
              && (b + 1 < |samples| ==> Last(samples).unixMs - samples[b + 1].unixMs < windowMs)
              && WindowOf(samples, windowMs) == Deltas(Last(samples), samples[b])
    ensures !WindowOf(samples, windowMs).complete ==> WindowOf(samples, windowMs) == NO_WINDOW
  {
    b := BaselineSearch(samples, Last(samples).unixMs, windowMs);
  }

  lemma LongerWindowCompleteImpliesShorter(samples: seq<CounterSample>, long: int, short: int)
    requires StrictlyChronological(samples, SampleTime) && short <= long
    requires WindowOf(samples, long).complete
    ensures WindowOf(samples, short).complete
  {
    var b := WindowBaseline(samples, long);
    b := WindowBaseline(samples, short);
  }

  lemma DivisionInRange(part: int, whole: int)
    requires 0 <= part <= whole && whole > 0
    ensures 0.0 <= (part as real * 100.0) / whole as real <= 100.0
  {
    var w := whole as real;
    var q := (part as real * 100.0) / w;
    assert q * w == part as real * 100.0;
    assert q * w >= 0.0 && (100.0 - q) * w >= 0.0;
  }

  /** A reported percentage lies in [0, 100], whatever the samples hold. */
  lemma PercentageInRange(samples: seq<CounterSample>, windowMs: int)
    ensures var pct := WindowOf(samples, windowMs).pct;
            pct.Some? ==> 0.0 <= pct.value <= 100.0
  {
    var w := WindowOf(samples, windowMs);
    if w.pct.Some? {
      DivisionInRange(w.breakdown.retransmits.value, w.breakdown.transmissions.value);
    }
  }

  /** The figures of a window are all known or none is, and the percentage is retransmits per transmission. */
  lemma RatioExactly(samples: seq<CounterSample>, windowMs: int)
    ensures var w := WindowOf(samples, windowMs);
            var b := w.breakdown;
            if b.transmissions.None? then w.pct == None && b == Breakdown(None, None, None, None)
            else
              && b.retransmits.Some? && b.stateUpdates.Some? && b.emptyAcks.Some?
              && b.transmissions.value ==
                 Min(b.stateUpdates.value + b.retransmits.value + b.emptyAcks.value, 0xFFFF_FFFF_FFFF_FFFF)
              && (w.pct.None? <==> b.transmissions.value == 0)
              && (w.pct.Some? ==> w.pct.value == b.retransmits.value as real * 100.0 / b.transmissions.value as real)
  {
  }

  predicate FullyReported(s: CounterSample) {
    s.stateUpdatesTx.Some? && s.retransmits.Some? && s.emptyAcksTx.Some?
  }

  /** Every counter is reported on both sides and none goes down. */
  predicate Advances(a: CounterSample, b: CounterSample) {
    && FullyReported(a) && FullyReported(b)
    && a.stateUpdatesTx.value <= b.stateUpdatesTx.value
    && a.retransmits.value <= b.retransmits.value
    && a.emptyAcksTx.value <= b.emptyAcksTx.value
  }

  predicate ExactBreakdown(d: Breakdown, latest: CounterSample, baseline: CounterSample)
    requires Advances(baseline, latest)
  {
    var updates: int := latest.stateUpdatesTx.value - baseline.stateUpdatesTx.value;
    var retransmits: int := latest.retransmits.value - baseline.retransmits.value;
    var emptyAcks: int := latest.emptyAcksTx.value - baseline.emptyAcksTx.value;
    && d.stateUpdates == Some(updates)
    && d.retransmits == Some(retransmits)
    && d.emptyAcks == Some(emptyAcks)
    && d.transmissions == Some(Min(updates + retransmits + emptyAcks, U64_MAX))
  }

  predicate AtLeast(a: Breakdown, b: Breakdown) {
    && a.transmissions.Some? && b.transmissions.Some? && a.transmissions.value >= b.transmissions.value
    && a.retransmits.Some? && b.retransmits.Some? && a.retransmits.value >= b.retransmits.value
    && a.stateUpdates.Some? && b.stateUpdates.Some? && a.stateUpdates.value >= b.stateUpdates.value
    && a.emptyAcks.Some? && b.emptyAcks.Some? && a.emptyAcks.value >= b.emptyAcks.value
  }

  /** With fully reported, advancing counters the deltas are exact and a longer window never counts less. */
  lemma ExactDeltas(samples: seq<CounterSample>, long: int, short: int)
    returns (bLong: int, bShort: int)
    requires StrictlyChronological(samples, SampleTime) && 0 < short <= long
    requires Pairwise(samples, Advances)
    requires WindowOf(samples, long).complete
    ensures 0 <= bLong <= bShort < |samples| - 1
    ensures Advances(samples[bLong], Last(samples)) && Advances(samples[bShort], Last(samples))
    ensures ExactBreakdown(WindowOf(samples, long).breakdown, Last(samples), samples[bLong])
    ensures ExactBreakdown(WindowOf(samples, short).breakdown, Last(samples), samples[bShort])
    ensures AtLeast(WindowOf(samples, long).breakdown, WindowOf(samples, short).breakdown)
  {
    LongerWindowCompleteImpliesShorter(samples, long, short);
    bLong := BaselineSearch(samples, Last(samples).unixMs, long);
    bShort := BaselineSearch(samples, Last(samples).unixMs, short);
    assert bLong <= bShort < |samples| - 1;
    assert Advances(samples[bLong], samples[|samples| - 1]);
    assert Advances(samples[bShort], samples[|samples| - 1]);
    assert bLong < bShort ==> Advances(samples[bLong], samples[bShort]);
  }

  predicate CounterRegressed(previous: Option<u64>, next: Option<u64>) {
    previous.Some? && next.Some? && next.value < previous.value
  }

  predicate Regressed(previous: Counters, next: Counters) {
    || CounterRegressed(previous.packetsTx, next.packetsTx)
    || CounterRegressed(previous.packetsRx, next.packetsRx)
    || CounterRegressed(previous.retransmits, next.retransmits)
    || CounterRegressed(previous.emptyAcksTx, next.emptyAcksTx)
    || CounterRegressed(previous.stateUpdatesTx, next.stateUpdatesTx)
    || CounterRegressed(previous.stateUpdatesRx, next.stateUpdatesRx)
    || CounterRegressed(previous.duplicateStatesRx, next.duplicateStatesRx)
    || CounterRegressed(previous.outOfOrderStatesRx, next.outOfOrderStatesRx)
  }
}
