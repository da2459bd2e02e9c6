/** One telemetry connection: bounded frames from a verified peer, judged one by one. */
module TelemetryStream {
  import opened Prelude
  import opened SessionIds
  import opened Records
  import opened LineReader
  import opened RegistryRuns
  import opened Samples

  const MAX_TELEMETRY_FRAME_BYTES := 16 * 1024
  const MAX_INVALID_TELEMETRY_FRAMES := 8
  const MAX_EVENT_SKEW_MS := 60_000
  const MAX_START_DRIFT_MS := 10_000

  /** The peer as the operating system identified it. */
  datatype VerifiedPeer = VerifiedPeer(pid: int, startedAt: int, cmdline: string, supported: bool)

  /** A decoded frame. Its round-trip times may still be any float; the rest is as in a telemetry event. */
  datatype Claim = Claim(
    event: TelemetryEvent, srttMs: Option<Float>, rttvarMs: Option<Float>, lastRttMs: Option<Float>)

  type Decoder = seq<byte> -> Option<Claim>

  predicate PlausibleMetric(v: Option<Float>) { v.None? || (v.value.Finite? && v.value.value >= 0.0) }

  predicate Plausible(claim: Claim, now: int) {
    && now - MAX_EVENT_SKEW_MS <= claim.event.unixMs <= now + MAX_EVENT_SKEW_MS
    && PlausibleMetric(claim.srttMs) && PlausibleMetric(claim.rttvarMs) && PlausibleMetric(claim.lastRttMs)
  }

  function Distance(a: int, b: int): nat { if a >= b then a - b else b - a }

  predicate MatchesPeer(claim: Claim, peer: VerifiedPeer, now: int) {
    && Plausible(claim, now)
    && claim.event.pid == peer.pid
    && peer.supported
    && (claim.event.startedAt.Some? ==> Distance(peer.startedAt, claim.event.startedAt.value) <= MAX_START_DRIFT_MS)
  }

  function AsReal(v: Option<Float>): Option<real> {
    if v.Some? && v.value.Finite? then Some(v.value.value) else None
  }

  /** The event that enters the registry: identity comes from the verified peer, never from the payload. */
  function Rewritten(claim: Claim, peer: VerifiedPeer): TelemetryEvent {
    claim.event.(
      pid := peer.pid, startedAt := Some(peer.startedAt), cmdline := Some(peer.cmdline),
      reading := claim.event.reading.(
        srttMs := AsReal(claim.srttMs), rttvarMs := AsReal(claim.rttvarMs), lastRttMs := AsReal(claim.lastRttMs)))
  }

  datatype Verdict = Blank | Invalid | Accepted(event: TelemetryEvent)

  /** What becomes of one line of the stream. */
  function Judged(line: seq<byte>, decode: Decoder, peer: VerifiedPeer, now: int): Verdict {
    if |line| > MAX_TELEMETRY_FRAME_BYTES then Invalid
    else if Stripped(line) == [] then Blank
    else
      var claim := decode(Stripped(line));
      if claim.None? || !MatchesPeer(claim.value, peer, now) then Invalid
      else Accepted(Rewritten(claim.value, peer))
  }

  // ----- What a line must be to be applied -----

  /** Absent, or a number that is not negative. */
  predicate SoundMetric(v: Option<Float>) {
    match v
    case None => true
    case Some(NotFinite) => false
    case Some(Finite(value)) => value >= 0.0
  }

  /** What the line claims, if it is short enough, not blank and decodable. */
  function ClaimIn(line: seq<byte>, decode: Decoder): Option<Claim> {
    if |line| <= 16_384 && Stripped(line) != [] then decode(Stripped(line)) else None
  }

  /** The line claims to be from its peer, near the present and near the peer's start, with sound measurements. */
  predicate Acceptable(line: seq<byte>, decode: Decoder, peer: VerifiedPeer, now: int) {
    && ClaimIn(line, decode).Some?
    && var claim := ClaimIn(line, decode).value;
      && claim.event.pid == peer.pid && peer.supported
      && -60_000 <= claim.event.unixMs - now <= 60_000
      && SoundMetric(claim.srttMs) && SoundMetric(claim.rttvarMs) && SoundMetric(claim.lastRttMs)
      && (claim.event.startedAt.Some? ==> -10_000 <= claim.event.startedAt.value - peer.startedAt <= 10_000)
  }

  predicate SameMetric(claimed: Option<Float>, carried: Option<real>) {
    match claimed
    case None => carried == None
    case Some(NotFinite) => false
    case Some(Finite(value)) => carried == Some(value)
  }

  /** The event is the claim's own, but for the peer's identity; its round-trip times are those claimed. */
  predicate Carries(claim: Claim, peer: VerifiedPeer, event: TelemetryEvent) {
    && event == claim.event.(
         pid := peer.pid, startedAt := Some(peer.startedAt), cmdline := Some(peer.cmdline),
         reading := claim.event.reading.(
           srttMs := event.reading.srttMs, rttvarMs := event.reading.rttvarMs, lastRttMs := event.reading.lastRttMs))
    && SameMetric(claim.srttMs, event.reading.srttMs)
    && SameMetric(claim.rttvarMs, event.reading.rttvarMs)
    && SameMetric(claim.lastRttMs, event.reading.lastRttMs)
  }

  /** Every line is applied, ignored as blank, or counted as invalid, and which of these is decided by its content. */
  lemma JudgedExactly(line: seq<byte>, decode: Decoder, peer: VerifiedPeer, now: int)
    ensures var verdict := Judged(line, decode, peer, now);
            && (verdict.Accepted? <==> Acceptable(line, decode, peer, now))
            && (verdict.Accepted? ==> Carries(ClaimIn(line, decode).value, peer, verdict.event))
            && (verdict.Blank? <==> |line| <= 16_384 && Stripped(line) == [])
  {
    hide Stripped;
  }

  /** `applied` are the events of the acceptable lines among the first `seen`, in order, at the positions `pos`. */
  ghost predicate AppliedFrom(
    lines: seq<seq<byte>>, decode: Decoder, peer: VerifiedPeer, clock: nat -> int, seen: nat,
    applied: seq<TelemetryEvent>, pos: seq<nat>)
  {
    && |pos| == |applied| && seen <= |lines|
    && (forall i, j :: 0 <= i < j < |pos| ==> pos[i] < pos[j])
    && (forall i :: 0 <= i < |pos| ==>
          && pos[i] < seen
          && Acceptable(lines[pos[i]], decode, peer, clock(pos[i]))
          && Carries(ClaimIn(lines[pos[i]], decode).value, peer, applied[i]))
    && (forall j :: 0 <= j < seen && Acceptable(lines[j], decode, peer, clock(j)) ==> j in pos)
  }

  /** Verdicts on all lines of a stream; `clock` gives the time at which each line is judged. */
  function Verdicts(lines: seq<seq<byte>>, decode: Decoder, peer: VerifiedPeer, clock: nat -> int): (r: seq<Verdict>)
    ensures |r| == |lines| && forall i :: 0 <= i < |r| ==> r[i] == Judged(lines[i], decode, peer, clock(i))
  {
    seq(|lines|, i requires 0 <= i < |lines| => Judged(lines[i], decode, peer, clock(i)))
  }

  function Applied(verdicts: seq<Verdict>): seq<TelemetryEvent> {
    if verdicts == [] then []
    else
      var front := Applied(verdicts[..|verdicts| - 1]);
      if Last(verdicts).Accepted? then front + [Last(verdicts).event] else front
  }

  /** Invalid lines since the last accepted one. Blank lines neither count nor reset. */
  function InvalidStreak(verdicts: seq<Verdict>): nat {
    if verdicts == [] then 0
    else match Last(verdicts)
      case Accepted(_) => 0
      case Invalid => InvalidStreak(verdicts[..|verdicts| - 1]) + 1
      case Blank => InvalidStreak(verdicts[..|verdicts| - 1])
  }

  datatype StreamEnd = EndOfStream | TooManyInvalid | ReadFailed

  lemma VerdictsStep(verdicts: seq<Verdict>, i: nat)
    requires i < |verdicts|
    ensures Applied(verdicts[..i + 1]) ==
            Applied(verdicts[..i]) + (if verdicts[i].Accepted? then [verdicts[i].event] else [])
    ensures InvalidStreak(verdicts[..i + 1]) ==
            if verdicts[i].Accepted? then 0 else InvalidStreak(verdicts[..i]) + (if verdicts[i].Invalid? then 1 else 0)
  {
    var longer := verdicts[..i + 1];
    assert longer[..i] == verdicts[..i] && Last(longer) == verdicts[i];
    assert Applied(verdicts[..i]) + [] == Applied(verdicts[..i]);
  }

  lemma NoVerdicts()
    ensures Applied([]) == [] && InvalidStreak([]) == 0
  {
  }

  lemma {:induction false} AppliedExactly(
    lines: seq<seq<byte>>, decode: Decoder, peer: VerifiedPeer, clock: nat -> int, seen: nat) returns (pos: seq<nat>)
    requires seen <= |lines|
    ensures AppliedFrom(lines, decode, peer, clock, seen, Applied(Verdicts(lines, decode, peer, clock)[..seen]), pos)
  {
    hide Judged, Acceptable, Carries, ClaimIn;
    var verdicts := Verdicts(lines, decode, peer, clock);
    if seen == 0 {
      pos := [];
      assert verdicts[..0] == [];
    } else {
      VerdictsStep(verdicts, seen - 1);
      JudgedExactly(lines[seen - 1], decode, peer, clock(seen - 1));
      pos := AppliedExactly(lines, decode, peer, clock, seen - 1);
      hide Applied, Verdicts;
      pos := pos + (if verdicts[seen - 1].Accepted? then [seen - 1] else []);
    }
  }

  /**
   The connection loop. `applied` are the events handed to the registry, in order; `seen` lines were read before the
   connection ended. A read may fail or time out at any point.
   */
  method HandleStream(reader: Source, decode: Decoder, peer: VerifiedPeer, clock: nat -> int)
    returns (applied: seq<TelemetryEvent>, end: StreamEnd, ghost seen: nat)
    modifies reader
    ensures var verdicts := Verdicts(SplitLines(old(reader.rest)), decode, peer, clock);
            && seen <= |verdicts|
            && applied == Applied(verdicts[..seen])
            && (end == TooManyInvalid <==> InvalidStreak(verdicts[..seen]) >= MAX_INVALID_TELEMETRY_FRAMES)
            && (forall n :: 0 <= n < seen ==> InvalidStreak(verdicts[..n]) < MAX_INVALID_TELEMETRY_FRAMES)
            && (end == EndOfStream ==> seen == |verdicts|)
    ensures exists pos ::
              AppliedFrom(SplitLines(old(reader.rest)), decode, peer, clock, seen, applied, pos)
  {
    hide FirstLine, AfterFirstLine, SplitLines, Stripped, MatchesPeer, Rewritten, Applied, InvalidStreak, AppliedFrom;
    NoVerdicts();
    ghost var lines := SplitLines(reader.rest);
    ghost var verdicts := Verdicts(lines, decode, peer, clock);
    applied, seen := [], 0;
    var invalidFrames, index: nat := 0, 0;
    assert verdicts[..0] == [];
    while true
      invariant seen == index <= |lines|
      invariant lines[index..] == SplitLines(reader.rest)
      invariant applied == Applied(verdicts[..index])
      invariant invalidFrames == InvalidStreak(verdicts[..index]) < MAX_INVALID_TELEMETRY_FRAMES
      invariant forall n :: 0 <= n < index ==> InvalidStreak(verdicts[..n]) < MAX_INVALID_TELEMETRY_FRAMES
      decreases |reader.rest|
    {
      var failed: bool := *;
      if failed {
        ghost var pos := AppliedExactly(lines, decode, peer, clock, seen);
        return applied, ReadFailed, seen;
      }
      ghost var before := reader.rest;
      AfterShorter(before);
      var outcome, line := ReadBoundedLine(reader, MAX_TELEMETRY_FRAME_BYTES);
      if outcome == Eof {
        NoLines();
        assert verdicts[..index] == verdicts;
        ghost var pos := AppliedExactly(lines, decode, peer, clock, seen);
        return applied, EndOfStream, seen;
      }
      SplitLinesCons(before);
      assert lines[index] == FirstLine(before) && lines[index + 1..] == SplitLines(reader.rest);
      VerdictsStep(verdicts, index);
      var now := clock(index);
      index, seen := index + 1, seen + 1;
      var buffer := Stripped(line);
      assert applied + [] == applied;
      if outcome == Line && buffer == [] {
        continue;
      }
      var claim := if outcome == Line then decode(buffer) else None;
      if claim.None? || !MatchesPeer(claim.value, peer, now) {
        invalidFrames := invalidFrames + 1;
        if invalidFrames >= MAX_INVALID_TELEMETRY_FRAMES {
          ghost var pos := AppliedExactly(lines, decode, peer, clock, seen);
          return applied, TooManyInvalid, seen;
        }
        continue;
      }
      invalidFrames := 0;
      applied := applied + [Rewritten(claim.value, peer)];
    }
  }

  // ----- What the streak means -----

  function InvalidCount(verdicts: seq<Verdict>): nat {
    if verdicts == [] then 0
    else InvalidCount(verdicts[..|verdicts| - 1]) + (if Last(verdicts) == Invalid then 1 else 0)
  }

  predicate NoneAccepted(verdicts: seq<Verdict>) {
    forall i :: 0 <= i < |verdicts| ==> !verdicts[i].Accepted?
  }

  /** The streak counts the invalid lines of the longest ending without an accepted one. */
  lemma {:induction false} StreakIsCount(verdicts: seq<Verdict>) returns (from: nat)
    ensures from <= |verdicts| && NoneAccepted(verdicts[from..])
    ensures from > 0 ==> verdicts[from - 1].Accepted?
    ensures InvalidStreak(verdicts) == InvalidCount(verdicts[from..])
  {
    if verdicts == [] {
      from := 0;
    } else if Last(verdicts).Accepted? {
      from := |verdicts|;
    } else {
      var front := verdicts[..|verdicts| - 1];
      from := StreakIsCount(front);
      var tail := verdicts[from..];
      assert tail[..|tail| - 1] == front[from..] && Last(tail) == Last(verdicts);
      assert forall i :: 0 <= i < |tail| - 1 ==> tail[i] == front[from..][i];
    }
  }

  lemma {:induction false} CountOfSuffix(verdicts: seq<Verdict>, k: nat)
    requires k <= |verdicts|
    ensures InvalidCount(verdicts[k..]) <= InvalidCount(verdicts)
  {
    if k < |verdicts| {
      var front, tail := verdicts[..|verdicts| - 1], verdicts[k..];
      assert tail[..|tail| - 1] == front[k..] && Last(tail) == Last(verdicts);
      CountOfSuffix(front, k);
    }
  }

  /** Every ending without an accepted line has at most as many invalid ones as the streak. */
  lemma {:induction false} StreakIsLargest(verdicts: seq<Verdict>, k: nat)
    requires k <= |verdicts| && NoneAccepted(verdicts[k..])
    ensures InvalidCount(verdicts[k..]) <= InvalidStreak(verdicts)
  {
    var from := StreakIsCount(verdicts);
    assert forall i :: k <= i < |verdicts| ==> verdicts[k..][i - k] == verdicts[i];
    assert k >= from;
    CountOfSuffix(verdicts[from..], k - from);
    assert verdicts[from..][k - from..] == verdicts[k..];
  }

  /** A connection is cut off exactly when some stretch without an accepted line holds eight invalid ones. */
  lemma CutOffExactly(verdicts: seq<Verdict>, n: nat)
    requires n <= |verdicts|
    ensures InvalidStreak(verdicts[..n]) >= MAX_INVALID_TELEMETRY_FRAMES <==>
              exists k :: 0 <= k <= n && NoneAccepted(verdicts[k..n]) && InvalidCount(verdicts[k..n]) >= 8
  {
    hide InvalidStreak, InvalidCount, NoneAccepted;
    var seen := verdicts[..n];
    var from := StreakIsCount(seen);
    assert seen[from..] == verdicts[from..n];
    forall k | 0 <= k <= n && NoneAccepted(verdicts[k..n])
      ensures InvalidCount(verdicts[k..n]) <= InvalidStreak(seen)
    {
      assert seen[k..] == verdicts[k..n];
      StreakIsLargest(seen, k);
    }
  }

  // ----- What reaches the registry -----

  function PeerId(peer: VerifiedPeer): string { InstrumentedId(peer.pid, peer.startedAt) }

  predicate NotNegative(v: Option<real>) { v.Some? ==> v.value >= 0.0 }

  /** Nothing in the payload can name another session, and only plausible measurements get through. */
  ghost predicate Trustworthy(event: TelemetryEvent, peer: VerifiedPeer) {
    && Verified(PeerId(peer), event)
    && event.pid == peer.pid && event.startedAt == Some(peer.startedAt) && event.cmdline == Some(peer.cmdline)
    && NotNegative(event.reading.srttMs) && NotNegative(event.reading.rttvarMs) && NotNegative(event.reading.lastRttMs)
  }

  lemma AcceptedIsTrustworthy(line: seq<byte>, decode: Decoder, peer: VerifiedPeer, now: int)
    ensures var verdict := Judged(line, decode, peer, now);
            verdict.Accepted? ==>
              Trustworthy(verdict.event, peer) && Distance(verdict.event.unixMs, now) <= MAX_EVENT_SKEW_MS
  {
    hide InstrumentedId, Stripped;
  }

  /** Whatever bytes a connection sends, every event it has applied is trustworthy. */
  lemma {:induction false} AppliedTrustworthy(
    lines: seq<seq<byte>>, decode: Decoder, peer: VerifiedPeer, clock: nat -> int, seen: nat)
    requires seen <= |lines|
    ensures forall e :: e in Applied(Verdicts(lines, decode, peer, clock)[..seen]) ==> Trustworthy(e, peer)
  {
    hide Judged, Trustworthy;
    var verdicts := Verdicts(lines, decode, peer, clock);
    if seen > 0 {
      VerdictsStep(verdicts, seen - 1);
      AppliedTrustworthy(lines, decode, peer, clock, seen - 1);
      AcceptedIsTrustworthy(lines[seen - 1], decode, peer, clock(seen - 1));
    } else {
      assert verdicts[..0] == [];
    }
  }

  /** A trustworthy event is one of the steps the registry's guarantees are about. */
  lemma TrustworthyIsPermitted(event: TelemetryEvent, peer: VerifiedPeer, at: int)
    requires Trustworthy(event, peer)
    ensures Permitted(Telemetry(PeerId(peer), event, at))
  {
  }

  /** Two peers share a key only if they are the same process with the same start time. */
  lemma PeersApart(a: VerifiedPeer, b: VerifiedPeer)
    requires PeerId(a) == PeerId(b)
    ensures a.pid == b.pid && a.startedAt == b.startedAt
  {
    IdDeterminesIdentity(Instrumented, a.pid, a.startedAt, Instrumented, b.pid, b.startedAt);
  }
}
