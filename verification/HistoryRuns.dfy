/**
 Whole runs of the recorder with a clock that never runs back and no failing delete: what is on disk, and what a
 query over it returns, in terms of the unbounded log of accepted batches.
 */
module HistoryRuns {
  import opened Prelude
  import opened Records
  import opened LineReader
  import opened DayFiles
  import opened Samples
  import opened HistoryStore
  import opened HistoryQuery

  /** The samples offered by one recording call. */
  datatype Batch = Batch(at: int, samples: seq<HistorySample>)

  function Day(b: Batch): int { DayBucket(b.at) }

  predicate InI64(n: int) { -I64_LIMIT <= n < I64_LIMIT }

  /** Times are i64, every payload could be encoded, and time does not run back. */
  ghost predicate WellTimed(codec: Codec, log: seq<Batch>) {
    && (forall i :: 0 <= i < |log| ==> InI64(log[i].at) && Payload(codec, log[i].samples).Some?)
    && (forall i, j :: 0 <= i <= j < |log| ==> log[i].at <= log[j].at)
  }

  function Bytes(codec: Codec, b: Batch): seq<byte> { UnwrapOr(Payload(codec, b.samples), []) }

  function DayBytes(codec: Codec, log: seq<Batch>, day: int): seq<byte> {
    if log == [] then []
    else DayBytes(codec, log[..|log| - 1], day) + (if Day(Last(log)) == day then Bytes(codec, Last(log)) else [])
  }

  predicate HasDay(log: seq<Batch>, day: int) {
    exists i :: 0 <= i < |log| && Day(log[i]) == day
  }

  /** The disk holds exactly the accepted batches of day `from` or later, one file per day. */
  ghost predicate Holds(codec: Codec, files: Files, log: seq<Batch>, from: int) {
    && (forall p :: p in files ==>
          FileDay(p).Some? && p == FileName(DayOf(p)) && DayOf(p) >= from && HasDay(log, DayOf(p)))
    && (forall d :: d >= from && HasDay(log, d) ==>
          FileName(d) in files && files[FileName(d)] == DayBytes(codec, log, d) && DayOf(FileName(d)) == d)
  }

  lemma DayInRange(at: int)
    requires InI64(at)
    ensures InI64(DayBucket(at))
  {
  }

  lemma FileNameDay(codec: Codec, log: seq<Batch>, day: int)
    requires WellTimed(codec, log) && HasDay(log, day)
    ensures DayOf(FileName(day)) == day && FileDay(FileName(day)) == Some(day)
  {
    var i :| 0 <= i < |log| && Day(log[i]) == day;
    DayInRange(log[i].at);
    FileDayInvertsFileName(day);
  }

  lemma HasDaySnoc(log: seq<Batch>, b: Batch, day: int)
    ensures HasDay(log + [b], day) <==> HasDay(log, day) || Day(b) == day
  {
    var longer := log + [b];
    if HasDay(log, day) {
      var i :| 0 <= i < |log| && Day(log[i]) == day;
      assert longer[i] == log[i];
    }
    assert longer[|log|] == b;
  }

  lemma DayBytesSnoc(codec: Codec, log: seq<Batch>, b: Batch, day: int)
    ensures DayBytes(codec, log + [b], day) ==
            DayBytes(codec, log, day) + (if Day(b) == day then Bytes(codec, b) else [])
  {
    assert (log + [b])[..|log|] == log;
  }

  // ----- The threshold moves only forward -----

  /** The smallest day among the files, found by looking. */
  lemma {:induction false} EarliestDay(files: Files) returns (d: int)
    requires files != map[]
    ensures exists p :: p in files && DayOf(p) == d
    ensures forall p :: p in files ==> DayOf(p) >= d
    decreases |files|
  {
    hide DayOf;
    var p :| p in files;
    d := DayOf(p);
    var rest := files - {p};
    if rest != map[] {
      var e := EarliestDay(rest);
      d := Min(d, e);
    }
    assert forall q :: q in files ==> q == p || q in rest;
  }

  /** What survives pruning and eviction is everything from some day on, and that day is not before the old one. */
  lemma SurvivorsFromDay(
    codec: Codec, before: Files, mid: Files, log: seq<Batch>, from: int, today: int, oldest: int)
    returns (from': int)
    requires Holds(codec, before, log, from) && Part(mid, before)
    requires from <= today && oldest <= today
    requires forall p :: p in before && p !in mid ==> DayOf(p) < today
    requires forall p, q :: p in before && p !in mid && q in mid && DayOf(q) < today ==> NameBefore(p, q)
    requires forall p :: p in mid ==> DayOf(p) >= oldest
    ensures Max(from, oldest) <= from' <= today
    ensures forall p :: p in before ==> (p in mid <==> DayOf(p) >= from')
  {
    hide FileDay, FileName, DayBytes, HasDay;
    var past: Files := map p | p in mid && DayOf(p) < today :: mid[p];
    if past == map[] {
      from' := today;
      assert forall p :: p in mid && DayOf(p) < today ==> p in past;
    } else {
      from' := EarliestDay(past);
      var e :| e in past && DayOf(e) == from';
      forall p | p in before
        ensures p in mid <==> DayOf(p) >= from'
      {
        if p in mid {
          assert DayOf(p) < today ==> p in past;
        } else {
          assert NameBefore(p, e);
          assert DayOf(p) == DayOf(e) ==> p == e;
        }
      }
    }
  }

  /** One clean step keeps the disk equal to a suffix, by days, of the accepted log. */
  lemma CleanStepHolds(
    codec: Codec, before: Files, after: Files, log: seq<Batch>, from: int, b: Batch, retentionDays: nat, accepted: bool)
    returns (from': int)
    requires Holds(codec, before, log, from) && from <= Day(b) && retentionDays > 0
    requires WellTimed(codec, log + [b])
    requires CleanStep(before, after, b.at, retentionDays, Bytes(codec, b), accepted)
    ensures Max(from, OldestDay(b.at, retentionDays)) <= from' <= Day(b)
    ensures Holds(codec, after, if accepted then log + [b] else log, from')
  {
    hide FileDay, FileName, DayBytes, HasDay, DayOf, Holds, WellTimed, NameBefore;
    var mid :|
      && Part(mid, before)
      && (forall p :: p in before && p !in mid ==> DayOf(p) < DayBucket(b.at))
      && (forall p, q :: p in before && p !in mid && q in mid && DayOf(q) < DayBucket(b.at) ==> NameBefore(p, q))
      && (forall p :: p in mid ==> DayOf(p) >= OldestDay(b.at, retentionDays))
      && after == if accepted then Appended(mid, FileName(DayBucket(b.at)), Bytes(codec, b)) else mid;
    from' := SurvivorsFromDay(codec, before, mid, log, from, Day(b), OldestDay(b.at, retentionDays));
    RestrictHolds(codec, before, mid, log, from, from');
    if accepted {
      AppendHolds(codec, mid, log, from', b);
    }
  }

  lemma RestrictHolds(codec: Codec, before: Files, mid: Files, log: seq<Batch>, from: int, from': int)
    requires Holds(codec, before, log, from) && Part(mid, before) && from <= from'
    requires forall p :: p in before ==> (p in mid <==> DayOf(p) >= from')
    ensures Holds(codec, mid, log, from')
  {
    hide FileDay, FileName, DayBytes, HasDay;
  }

  lemma AppendHolds(codec: Codec, files: Files, log: seq<Batch>, from: int, b: Batch)
    requires Holds(codec, files, log, from) && WellTimed(codec, log + [b]) && from <= Day(b)
    ensures Holds(codec, Appended(files, FileName(Day(b)), Bytes(codec, b)), log + [b], from)
  {
    var longer := log + [b];
    HasDaySnoc(log, b, Day(b));
    FileNameDay(codec, longer, Day(b));
    var after := Appended(files, FileName(Day(b)), Bytes(codec, b));
    hide FileDay, FileName, DayBytes, HasDay, WellTimed, Bytes, Appended, Day, DayOf, Holds;
    forall p | p in after
      ensures FileDay(p).Some? && p == FileName(DayOf(p)) && DayOf(p) >= from && HasDay(longer, DayOf(p))
    {
      AppendedFile(codec, files, log, from, b, p);
    }
    forall d | d >= from && HasDay(longer, d)
      ensures FileName(d) in after && after[FileName(d)] == DayBytes(codec, longer, d) && DayOf(FileName(d)) == d
    {
      HasDaySnoc(log, b, d);
      AppendedDay(codec, files, log, from, b, d);
    }
    HoldsFrom(codec, after, longer, from);
  }

  lemma HoldsFrom(codec: Codec, files: Files, log: seq<Batch>, from: int)
    requires forall p :: p in files ==>
               FileDay(p).Some? && p == FileName(DayOf(p)) && DayOf(p) >= from && HasDay(log, DayOf(p))
    requires forall d :: d >= from && HasDay(log, d) ==>
               FileName(d) in files && files[FileName(d)] == DayBytes(codec, log, d) && DayOf(FileName(d)) == d
    ensures Holds(codec, files, log, from)
  {
    hide FileDay, FileName, DayBytes, HasDay, DayOf;
  }

  lemma AppendedFile(codec: Codec, files: Files, log: seq<Batch>, from: int, b: Batch, p: string)
    requires Holds(codec, files, log, from) && from <= Day(b)
    requires DayOf(FileName(Day(b))) == Day(b) && FileDay(FileName(Day(b))).Some?
    requires p in Appended(files, FileName(Day(b)), Bytes(codec, b))
    ensures FileDay(p).Some? && p == FileName(DayOf(p)) && DayOf(p) >= from && HasDay(log + [b], DayOf(p))
  {
    hide FileDay, FileName, DayBytes, HasDay, Bytes, DayOf, Day;
    HasDaySnoc(log, b, DayOf(p));
  }

  lemma AppendedDay(codec: Codec, files: Files, log: seq<Batch>, from: int, b: Batch, d: int)
    requires Holds(codec, files, log, from)
    requires d >= from && (HasDay(log, d) || d == Day(b)) && DayOf(FileName(Day(b))) == Day(b)
    ensures var after := Appended(files, FileName(Day(b)), Bytes(codec, b));
            FileName(d) in after && after[FileName(d)] == DayBytes(codec, log + [b], d) && DayOf(FileName(d)) == d
  {
    hide FileDay, FileName, DayBytes, HasDay, Bytes, DayOf;
    DayBytesSnoc(codec, log, b, d);
    if d != Day(b) {
      assert DayOf(FileName(d)) == d;
      assert DayBytes(codec, log, d) + [] == DayBytes(codec, log, d);
    } else if !HasDay(log, d) {
      NoDayNoBytes(codec, log, d);
    }
  }

  lemma {:induction false} NoDayNoBytes(codec: Codec, log: seq<Batch>, day: int)
    requires !HasDay(log, day)
    ensures DayBytes(codec, log, day) == []
  {
    if log != [] {
      assert log == log[..|log| - 1] + [Last(log)];
      HasDaySnoc(log[..|log| - 1], Last(log), day);
      NoDayNoBytes(codec, log[..|log| - 1], day);
    }
  }

  /** One call of a run: what was offered, and whether it was accepted. */
  datatype Call = Call(batch: Batch, accepted: bool)

  function Batches(calls: seq<Call>): (r: seq<Batch>)
    ensures |r| == |calls| && forall i :: 0 <= i < |r| ==> r[i] == calls[i].batch
  {
    seq(|calls|, i requires 0 <= i < |calls| => calls[i].batch)
  }

  function AcceptedLog(calls: seq<Call>): seq<Batch> {
    if calls == [] then []
    else AcceptedLog(calls[..|calls| - 1]) + (if Last(calls).accepted then [Last(calls).batch] else [])
  }

  /** `states[i]` is the disk after `i` calls; the first is empty and each step is clean. */
  ghost predicate IsRun(codec: Codec, states: seq<Files>, calls: seq<Call>, retentionDays: nat) {
    && |states| == |calls| + 1
    && states[0] == map[]
    && forall i :: 0 <= i < |calls| ==>
         CleanStep(states[i], states[i + 1], calls[i].batch.at, retentionDays,
                   Bytes(codec, calls[i].batch), calls[i].accepted)
  }

  /** Thresholds for every state of a run: never going down, and at least the retention limit after each call. */
  ghost predicate ThresholdsAdvance(
    codec: Codec, states: seq<Files>, calls: seq<Call>, retentionDays: nat, from: seq<int>)
    requires |states| == |calls| + 1
  {
    && |from| == |states|
    && (forall i :: 0 <= i < |states| ==> Holds(codec, states[i], AcceptedLog(calls[..i]), from[i]))
    && (forall i :: 0 <= i < |calls| ==>
          Max(from[i], OldestDay(calls[i].batch.at, retentionDays)) <= from[i + 1] <= Day(calls[i].batch))
  }

  lemma WellTimedFront(codec: Codec, calls: seq<Call>)
    requires calls != [] && WellTimed(codec, Batches(calls))
    ensures WellTimed(codec, Batches(calls[..|calls| - 1]))
  {
    var front := calls[..|calls| - 1];
    assert forall i :: 0 <= i < |front| ==> Batches(front)[i] == Batches(calls)[i];
  }

  lemma WellTimedSnoc(codec: Codec, log: seq<Batch>, b: Batch)
    requires WellTimed(codec, log) && InI64(b.at) && Payload(codec, b.samples).Some?
    requires log != [] ==> Last(log).at <= b.at
    ensures WellTimed(codec, log + [b])
  {
    hide Payload, InI64;
    assert forall i :: 0 <= i < |log| ==> log[i].at <= Last(log).at;
  }

  lemma {:induction false} AcceptedIsSubsequence(codec: Codec, calls: seq<Call>)
    requires WellTimed(codec, Batches(calls))
    ensures WellTimed(codec, AcceptedLog(calls))
    ensures AcceptedLog(calls) != [] ==> calls != [] && Last(AcceptedLog(calls)).at <= Last(calls).batch.at
    decreases |calls|
  {
    hide Payload, InI64;
    if calls != [] {
      var front, all := calls[..|calls| - 1], Batches(calls);
      WellTimedFront(codec, calls);
      AcceptedIsSubsequence(codec, front);
      var log := AcceptedLog(front);
      assert front != [] ==> all[|front| - 1].at <= all[|front|].at;
      assert all[|front|] == Last(calls).batch && log + [] == log;
      hide WellTimed;
      WellTimedLast(codec, calls);
      WellTimedSnoc(codec, log, Last(calls).batch);
    }
  }

  lemma WellTimedLast(codec: Codec, calls: seq<Call>)
    requires calls != [] && WellTimed(codec, Batches(calls))
    ensures InI64(Last(calls).batch.at) && Payload(codec, Last(calls).batch.samples).Some?
  {
    assert Batches(calls)[|calls| - 1] == Last(calls).batch;
  }

  lemma LogThenCall(codec: Codec, calls: seq<Call>)
    requires calls != [] && WellTimed(codec, Batches(calls))
    ensures WellTimed(codec, AcceptedLog(calls[..|calls| - 1]) + [Last(calls).batch])
  {
    var all := calls[..|calls| - 1] + [Last(calls).(accepted := true)];
    assert all[..|all| - 1] == calls[..|calls| - 1];
    assert Batches(all) == Batches(calls);
    AcceptedIsSubsequence(codec, all);
  }

  /**
   After every call of every run, the disk holds exactly the accepted batches from some day on; that day never goes
   back, never passes the current day, and leaves nothing older than the retention limit.
   */
  lemma {:induction false} RunHolds(
    codec: Codec, states: seq<Files>, calls: seq<Call>, retentionDays: nat) returns (from: seq<int>)
    requires retentionDays > 0 && IsRun(codec, states, calls, retentionDays) && WellTimed(codec, Batches(calls))
    ensures ThresholdsAdvance(codec, states, calls, retentionDays, from)
    decreases |calls|
  {
    hide Holds, CleanStep, WellTimed, OldestDay, Day;
    if calls == [] {
      EmptyHolds(codec, 0);
      assert calls[..0] == [];
      from := [0];
    } else {
      var front, call := calls[..|calls| - 1], Last(calls);
      WellTimedFront(codec, calls);
      LogThenCall(codec, calls);
      var start: seq<int>;
      if front == [] {
        EmptyHolds(codec, OldestDay(call.batch.at, retentionDays));
        start := [OldestDay(call.batch.at, retentionDays)];
        assert front[..0] == [];
      } else {
        start := RunHolds(codec, states[..|states| - 1], front, retentionDays);
      }
      FromBeforeToday(codec, states, calls, retentionDays, start);
      assert front[..|front|] == front;
      var n := |calls| - 1;
      var next := CleanStepHolds(codec, states[n], states[n + 1], AcceptedLog(front), start[n], call.batch,
                                 retentionDays, call.accepted);
      from := start + [next];
      assert AcceptedLog(front) + [] == AcceptedLog(front);
      ThresholdsExtended(codec, states, calls, retentionDays, start, next);
    }
  }

  lemma EmptyHolds(codec: Codec, from: int)
    ensures Holds(codec, map[], [], from)
  {
  }

  lemma FromBeforeToday(codec: Codec, states: seq<Files>, calls: seq<Call>, retentionDays: nat, start: seq<int>)
    requires retentionDays > 0 && calls != [] && |states| == |calls| + 1 && WellTimed(codec, Batches(calls))
    requires var front := calls[..|calls| - 1];
             ThresholdsAdvance(codec, states[..|states| - 1], front, retentionDays, start)
    requires |calls| == 1 ==> start == [OldestDay(calls[0].batch.at, retentionDays)]
    ensures Last(start) <= Day(Last(calls).batch)
  {
    hide Holds;
    var n := |calls| - 1;
    if n > 0 {
      var front, all := calls[..n], Batches(calls);
      assert start[n - 1 + 1] <= Day(front[n - 1].batch);
      assert all[n - 1].at <= all[n].at;
    }
  }

  lemma HoldsExtended(codec: Codec, states: seq<Files>, calls: seq<Call>, start: seq<int>, next: int, i: nat)
    requires calls != [] && |states| == |calls| + 1 == |start| + 1 && i < |states|
    requires var front := calls[..|calls| - 1];
             forall k :: 0 <= k < |calls| ==> Holds(codec, states[..|states| - 1][k], AcceptedLog(front[..k]), start[k])
    requires Holds(codec, Last(states), AcceptedLog(calls), next)
    ensures Holds(codec, states[i], AcceptedLog(calls[..i]), (start + [next])[i])
  {
    hide Holds, AcceptedLog;
    var front := calls[..|calls| - 1];
    if i < |calls| {
      assert front[..i] == calls[..i];
      assert Holds(codec, states[..|states| - 1][i], AcceptedLog(front[..i]), start[i]);
    } else {
      assert calls[..i] == calls;
    }
  }

  lemma ThresholdsExtended(
    codec: Codec, states: seq<Files>, calls: seq<Call>, retentionDays: nat, start: seq<int>, next: int)
    requires calls != [] && |states| == |calls| + 1
    requires ThresholdsAdvance(codec, states[..|states| - 1], calls[..|calls| - 1], retentionDays, start)
    requires Holds(codec, Last(states), AcceptedLog(calls), next)
    requires Max(Last(start), OldestDay(Last(calls).batch.at, retentionDays)) <= next <= Day(Last(calls).batch)
    ensures ThresholdsAdvance(codec, states, calls, retentionDays, start + [next])
  {
    hide Holds, OldestDay, Day, AcceptedLog;
    var front, from := calls[..|calls| - 1], start + [next];
    forall i | 0 <= i < |states|
      ensures Holds(codec, states[i], AcceptedLog(calls[..i]), from[i])
    {
      HoldsExtended(codec, states, calls, start, next, i);
    }
    ThresholdOrder(calls, retentionDays, start, next);
  }

  lemma ThresholdOrder(calls: seq<Call>, retentionDays: nat, start: seq<int>, next: int)
    requires calls != [] && |start| == |calls|
    requires var front := calls[..|calls| - 1];
             forall i :: 0 <= i < |front| ==>
               Max(start[i], OldestDay(front[i].batch.at, retentionDays)) <= start[i + 1] <= Day(front[i].batch)
    requires Max(Last(start), OldestDay(Last(calls).batch.at, retentionDays)) <= next <= Day(Last(calls).batch)
    ensures var from := start + [next];
            forall i :: 0 <= i < |calls| ==>
              Max(from[i], OldestDay(calls[i].batch.at, retentionDays)) <= from[i + 1] <= Day(calls[i].batch)
  {
    hide OldestDay, Day;
    var front, from := calls[..|calls| - 1], start + [next];
    forall i | 0 <= i < |calls|
      ensures Max(from[i], OldestDay(calls[i].batch.at, retentionDays)) <= from[i + 1] <= Day(calls[i].batch)
    {
      assert i < |front| ==> front[i] == calls[i];
    }
  }

  // ----- A query over what a run left on disk -----

  /** The codec reproduces the sample, on one line short enough to be read back. */
  predicate Reproduces(codec: Codec, s: HistorySample) {
    && codec.encode(s).Some?
    && var text := codec.encode(s).value;
      && text != [] && NEWLINE !in text && Last(text) != CARRIAGE_RETURN
      && |text| + 1 <= MAX_HISTORY_LINE_BYTES
      && codec.decode(text) == Some(s)
  }

  /** The sample comes back from the file as it was recorded: past the codec, and past the sanitiser on reading. */
  predicate Faithful(codec: Codec, s: HistorySample) {
    Reproduces(codec, s) && SanitizedSample(s) == Some(s)
  }

  ghost predicate FaithfulLog(codec: Codec, log: seq<Batch>) {
    forall i, s :: 0 <= i < |log| && s in log[i].samples ==> Faithful(codec, s) && s.recordedAt == log[i].at
  }

  lemma {:induction false} WithinConcat(a: seq<seq<byte>>, b: seq<seq<byte>>, maxBytes: nat)
    ensures Within(a + b, maxBytes) == Within(a, maxBytes) + Within(b, maxBytes)
  {
    if a == [] {
      assert a + b == b;
    } else {
      assert (a + b)[1..] == a[1..] + b;
      WithinConcat(a[1..], b, maxBytes);
    }
  }

  /** Reading an appended-to file yields the earlier samples followed by the new ones. */
  lemma FileSamplesConcat(codec: Codec, a: seq<byte>, b: seq<byte>)
    requires a == [] || Terminated(a)
    ensures FileSamples(codec, a + b) == FileSamples(codec, a) + FileSamples(codec, b)
  {
    hide Decoded, Within, SplitLines;
    SplitLinesConcat(a, b);
    WithinConcat(SplitLines(a), SplitLines(b), MAX_HISTORY_LINE_BYTES);
    DecodedConcat(codec, Within(SplitLines(a), MAX_HISTORY_LINE_BYTES), Within(SplitLines(b), MAX_HISTORY_LINE_BYTES));
  }

  lemma OneLine(text: seq<byte>)
    requires NEWLINE !in text
    ensures SplitLines(text + [NEWLINE]) == [text + [NEWLINE]]
  {
    var line := text + [NEWLINE];
    assert line[|text|] == NEWLINE;
    assert forall j :: 0 <= j < |text| ==> line[j] == text[j];
    assert LineEnd(line) == |line|;
    assert FirstLine(line) == line && AfterFirstLine(line) == [];
  }

  lemma TerminatedText(text: seq<byte>)
    requires text != [] && Last(text) != NEWLINE && Last(text) != CARRIAGE_RETURN
    ensures Stripped(text + [NEWLINE]) == text
  {
    var line := text + [NEWLINE];
    assert line[..|line| - 1] == text;
    assert Stripped(text) == text;
  }

  lemma EncodedLine(codec: Codec, s: HistorySample)
    requires Faithful(codec, s)
    ensures var line := codec.encode(s).value + [NEWLINE];
            Terminated(line) && FileSamples(codec, line) == [s]
  {
    hide SanitizedSample;
    var text := codec.encode(s).value;
    OneLine(text);
    TerminatedText(text);
    var line := text + [NEWLINE];
    var lines: seq<seq<byte>> := [line];
    hide SplitLines, Stripped;
    assert lines[1..] == [];
    assert Within(lines, MAX_HISTORY_LINE_BYTES) == lines;
    assert DecodeLine(codec, line) == Some(s);
    assert Decoded(codec, lines) == [s];
  }

  /** A recorded payload reads back as exactly the samples it was made from. */
  lemma {:induction false} PayloadRoundTrip(codec: Codec, samples: seq<HistorySample>)
    requires forall s :: s in samples ==> Faithful(codec, s)
    ensures Payload(codec, samples).Some?
    ensures var p := Payload(codec, samples).value;
            (p == [] || Terminated(p)) && FileSamples(codec, p) == samples
  {
    hide Faithful, FileSamples, Terminated;
    if samples == [] {
      NothingStored(codec);
    } else {
      assert samples[0] in samples;
      EncodedLine(codec, samples[0]);
      HasEncoding(codec, samples[0]);
      PayloadRoundTrip(codec, samples[1..]);
      var line, rest := codec.encode(samples[0]).value + [NEWLINE], Payload(codec, samples[1..]).value;
      FileSamplesConcat(codec, line, rest);
      TerminatedConcat(line, rest);
      assert samples == [samples[0]] + samples[1..];
    }
  }

  lemma NothingStored(codec: Codec)
    ensures FileSamples(codec, []) == []
  {
    assert SplitLines([]) == [];
  }

  lemma HasEncoding(codec: Codec, s: HistorySample)
    requires Faithful(codec, s)
    ensures codec.encode(s).Some?
  {
  }

  lemma TerminatedConcat(a: seq<byte>, b: seq<byte>)
    requires (a == [] || Terminated(a)) && (b == [] || Terminated(b))
    ensures a + b == [] || Terminated(a + b)
  {
    assert b == [] ==> a + b == a;
  }

  /** The samples of all batches of day `from` or later, in the order they were recorded. */
  function SamplesSince(log: seq<Batch>, from: int): seq<HistorySample> {
    if log == [] then []
    else SamplesSince(log[..|log| - 1], from) + (if Day(Last(log)) >= from then Last(log).samples else [])
  }

  function DaySamples(log: seq<Batch>, day: int): seq<HistorySample> {
    if log == [] then []
    else DaySamples(log[..|log| - 1], day) + (if Day(Last(log)) == day then Last(log).samples else [])
  }

  lemma FaithfulFront(codec: Codec, log: seq<Batch>)
    requires log != [] && FaithfulLog(codec, log)
    ensures FaithfulLog(codec, log[..|log| - 1])
    ensures forall s :: s in Last(log).samples ==> Faithful(codec, s) && s.recordedAt == Last(log).at
  {
    hide Faithful;
    var front := log[..|log| - 1];
    assert forall i :: 0 <= i < |front| ==> front[i] == log[i];
    assert Last(log) == log[|log| - 1];
  }

  lemma {:induction false} DayFileReadsBack(codec: Codec, log: seq<Batch>, day: int)
    requires FaithfulLog(codec, log)
    ensures var bytes := DayBytes(codec, log, day);
            (bytes == [] || Terminated(bytes)) && FileSamples(codec, bytes) == DaySamples(log, day)
  {
    hide Faithful, FileSamples, FaithfulLog, Payload, Terminated, Day;
    if log == [] {
      NothingStored(codec);
    } else {
      FaithfulFront(codec, log);
      DayFileReadsBack(codec, log[..|log| - 1], day);
      PayloadRoundTrip(codec, Last(log).samples);
      var before, added := DayBytes(codec, log[..|log| - 1], day), Bytes(codec, Last(log));
      FileSamplesConcat(codec, before, added);
      TerminatedConcat(before, added);
      assert before + [] == before && DaySamples(log[..|log| - 1], day) + [] == DaySamples(log[..|log| - 1], day);
    }
  }

  /** The days of a log from `min` on, in order. */
  function DaysFrom(log: seq<Batch>, min: int): seq<int> {
    if log == [] then []
    else
      var front, d := DaysFrom(log[..|log| - 1], min), Day(Last(log));
      if d >= min && (front == [] || Last(front) != d) then front + [d] else front
  }

  function ByDay(log: seq<Batch>, days: seq<int>, id: string, since: int): seq<HistorySample> {
    if days == [] then []
    else ByDay(log, days[..|days| - 1], id, since) + Matches(DaySamples(log, Last(days)), id, since)
  }

  lemma {:induction false} DaysFromShape(codec: Codec, log: seq<Batch>, min: int)
    requires WellTimed(codec, log)
    ensures var days := DaysFrom(log, min);
            && (forall i, j :: 0 <= i < j < |days| ==> days[i] < days[j])
            && (forall d :: d in days <==> d >= min && HasDay(log, d))
            && (days != [] ==> log != [] && Last(days) <= Day(Last(log)))
  {
    if log != [] {
      var front := log[..|log| - 1];
      assert log == front + [Last(log)];
      assert forall i :: 0 <= i < |front| ==> front[i] == log[i];
      assert front != [] ==> log[|front| - 1].at <= log[|front|].at;
      DaysFromShape(codec, front, min);
      hide WellTimed, HasDay;
      forall d
        ensures d in DaysFrom(log, min) <==> d >= min && HasDay(log, d)
      {
        HasDaySnoc(front, Last(log), d);
      }
    }
  }

  lemma DaySamplesSnoc(log: seq<Batch>, b: Batch, day: int)
    ensures DaySamples(log + [b], day) == DaySamples(log, day) + (if Day(b) == day then b.samples else [])
  {
    assert (log + [b])[..|log|] == log;
  }

  lemma {:induction false} ByDayIgnoresOthers(log: seq<Batch>, b: Batch, days: seq<int>, id: string, since: int)
    requires Day(b) !in days
    ensures ByDay(log + [b], days, id, since) == ByDay(log, days, id, since)
  {
    if days != [] {
      assert Last(days) in days;
      DaySamplesSnoc(log, b, Last(days));
      assert DaySamples(log, Last(days)) + [] == DaySamples(log, Last(days));
      ByDayIgnoresOthers(log, b, days[..|days| - 1], id, since);
    }
  }

  lemma {:induction false} NoDayNoSamples(log: seq<Batch>, day: int)
    requires !HasDay(log, day)
    ensures DaySamples(log, day) == []
  {
    if log != [] {
      assert log == log[..|log| - 1] + [Last(log)];
      HasDaySnoc(log[..|log| - 1], Last(log), day);
      NoDayNoSamples(log[..|log| - 1], day);
    }
  }

  /** Scanning day by day finds the matches of the kept log, in log order. */
  lemma {:induction false} ByDayIsLogOrder(codec: Codec, log: seq<Batch>, from: int, id: string, since: int)
    requires WellTimed(codec, log) && FaithfulLog(codec, log)
    ensures ByDay(log, DaysFrom(log, Max(from, DayBucket(since))), id, since) ==
            Matches(SamplesSince(log, from), id, since)
  {
    if log != [] {
      var front, b, min := log[..|log| - 1], Last(log), Max(from, DayBucket(since));
      assert log == front + [b];
      FaithfulFront(codec, log);
      WellTimedPrefix(codec, log);
      ByDayIsLogOrder(codec, front, from, id, since);
      if Day(b) < min {
        EarlyBatchAddsNothing(codec, front, b, from, id, since);
      } else {
        hide WellTimed, FaithfulLog, ByDay, DaysFrom, Matches;
        MatchesConcat(SamplesSince(front, from), b.samples, id, since);
        LastDayAbsorbs(codec, front, b, min, id, since);
      }
    }
  }

  lemma EarlyBatchAddsNothing(codec: Codec, front: seq<Batch>, b: Batch, from: int, id: string, since: int)
    requires WellTimed(codec, front) && Day(b) < Max(from, DayBucket(since))
    requires forall s :: s in b.samples ==> s.recordedAt == b.at
    ensures var min, log := Max(from, DayBucket(since)), front + [b];
            && ByDay(log, DaysFrom(log, min), id, since) == ByDay(front, DaysFrom(front, min), id, since)
            && Matches(SamplesSince(log, from), id, since) == Matches(SamplesSince(front, from), id, since)
  {
    var log, min, kept := front + [b], Max(from, DayBucket(since)), SamplesSince(front, from);
    assert log[..|log| - 1] == front && Last(log) == b;
    DaysFromShape(codec, front, min);
    hide WellTimed, Matches;
    ByDayIgnoresOthers(front, b, DaysFrom(front, min), id, since);
    if Day(b) < from {
      assert kept + [] == kept;
    } else {
      EarlierDayEarlier(b.at, since);
      NothingWanted(b.samples, id, since);
      MatchesConcat(kept, b.samples, id, since);
      assert Matches(kept, id, since) + [] == Matches(kept, id, since);
    }
  }

  lemma WellTimedPrefix(codec: Codec, log: seq<Batch>)
    requires log != [] && WellTimed(codec, log)
    ensures WellTimed(codec, log[..|log| - 1])
    ensures |log| > 1 ==> log[|log| - 2].at <= Last(log).at
  {
    var front := log[..|log| - 1];
    assert forall i :: 0 <= i < |front| ==> front[i] == log[i];
    assert |log| > 1 ==> log[|log| - 2].at <= log[|log| - 1].at;
  }

  lemma LastDayAbsorbs(codec: Codec, front: seq<Batch>, b: Batch, min: int, id: string, since: int)
    requires WellTimed(codec, front + [b]) && WellTimed(codec, front) && Day(b) >= min
    ensures ByDay(front + [b], DaysFrom(front + [b], min), id, since) ==
            ByDay(front, DaysFrom(front, min), id, since) + Matches(b.samples, id, since)
  {
    var log, days, d := front + [b], DaysFrom(front, min), Day(b);
    assert log[..|log| - 1] == front && Last(log) == b;
    DaysFromShape(codec, front, min);
    NoLaterDay(codec, front, b);
    if days != [] && Last(days) == d {
      assert d !in days[..|days| - 1];
      SameDayGrows(front, b, days, id, since);
    } else {
      NewDayIsNew(front, b, days, min);
      NewDayAdded(front, b, days, id, since);
    }
  }

  lemma SameDayGrows(front: seq<Batch>, b: Batch, days: seq<int>, id: string, since: int)
    requires days != [] && Last(days) == Day(b) && Day(b) !in days[..|days| - 1]
    ensures ByDay(front + [b], days, id, since) == ByDay(front, days, id, since) + Matches(b.samples, id, since)
  {
    hide Day, Matches, DaySamples;
    var log, earlier, d := front + [b], days[..|days| - 1], Day(b);
    DaySamplesSnoc(front, b, d);
    MatchesConcat(DaySamples(front, d), b.samples, id, since);
    ByDayIgnoresOthers(front, b, earlier, id, since);
    assert ByDay(log, days, id, since) == ByDay(log, earlier, id, since) + Matches(DaySamples(log, d), id, since);
    ConcatAssociative(
      ByDay(front, earlier, id, since), Matches(DaySamples(front, d), id, since), Matches(b.samples, id, since));
  }

  lemma NewDayAdded(front: seq<Batch>, b: Batch, days: seq<int>, id: string, since: int)
    requires Day(b) !in days && !HasDay(front, Day(b))
    ensures ByDay(front + [b], days + [Day(b)], id, since) ==
            ByDay(front, days, id, since) + Matches(b.samples, id, since)
  {
    DaySamplesSnoc(front, b, Day(b));
    NoDayNoSamples(front, Day(b));
    ByDayIgnoresOthers(front, b, days, id, since);
    hide Day, Matches, DaySamples, HasDay;
    assert (days + [Day(b)])[..|days|] == days;
    assert [] + b.samples == b.samples;
  }

  lemma NoLaterDay(codec: Codec, front: seq<Batch>, b: Batch)
    requires WellTimed(codec, front + [b])
    ensures forall day :: HasDay(front, day) ==> day <= Day(b)
  {
    var log := front + [b];
    forall i | 0 <= i < |front|
      ensures Day(front[i]) <= Day(b)
    {
      assert log[i].at <= log[|front|].at;
    }
  }

  lemma NewDayIsNew(front: seq<Batch>, b: Batch, days: seq<int>, min: int)
    requires forall i, j :: 0 <= i < j < |days| ==> days[i] < days[j]
    requires forall d :: d in days <==> d >= min && HasDay(front, d)
    requires forall d :: HasDay(front, d) ==> d <= Day(b)
    requires Day(b) >= min && (days == [] || Last(days) != Day(b))
    ensures Day(b) !in days && !HasDay(front, Day(b))
  {
    hide HasDay, Day;
    assert days != [] ==> Last(days) in days;
  }

  function Names(days: seq<int>): (r: seq<string>)
    ensures |r| == |days| && forall i :: 0 <= i < |r| ==> r[i] == FileName(days[i])
  {
    seq(|days|, i requires 0 <= i < |days| => FileName(days[i]))
  }

  /** The files a query looks at are those of the kept days at or after its start, in day order. */
  lemma CandidatesAreDays(codec: Codec, files: Files, log: seq<Batch>, from: int, names: seq<string>, since: int)
    requires Holds(codec, files, log, from) && WellTimed(codec, log)
    requires IsListing(names, Candidates(files, since))
    ensures names == Names(DaysFrom(log, Max(from, DayBucket(since))))
  {
    var days := DaysFrom(log, Max(from, DayBucket(since)));
    DaysFromShape(codec, log, Max(from, DayBucket(since)));
    hide WellTimed, FileName, FileDay, HasDay, DaysFrom, DayBytes, Day, NameBefore;
    DayNamesListed(codec, files, log, from, days, since);
    ListingUnique(names, Names(days), Candidates(files, since));
  }

  lemma DayNamesListed(codec: Codec, files: Files, log: seq<Batch>, from: int, days: seq<int>, since: int)
    requires Holds(codec, files, log, from)
    requires forall i, j :: 0 <= i < j < |days| ==> days[i] < days[j]
    requires forall d :: d in days <==> d >= Max(from, DayBucket(since)) && HasDay(log, d)
    ensures IsListing(Names(days), Candidates(files, since))
  {
    hide FileName, FileDay, HasDay, DayBytes, DayBucket;
    var names := Names(days);
    forall i | 0 <= i < |days|
      ensures names[i] in files && DayOf(names[i]) == days[i]
    {
      assert days[i] in days;
    }
    hide DayOf;
    forall p
      ensures p in names <==> p in Candidates(files, since)
    {
      if p in Candidates(files, since) {
        assert DayOf(p) in days;
        var i :| 0 <= i < |days| && days[i] == DayOf(p);
        assert names[i] == p;
      }
    }
    DistinctCount(names, Candidates(files, since));
  }

  lemma {:induction false} NaiveIsByDay(
    codec: Codec, files: Files, log: seq<Batch>, from: int, days: seq<int>, id: string, since: int)
    requires Holds(codec, files, log, from) && FaithfulLog(codec, log)
    requires forall d :: d in days ==> d >= from && HasDay(log, d)
    ensures Naive(codec, files, Names(days), id, since) == ByDay(log, days, id, since)
  {
    hide FaithfulLog, FileName, FileDay, HasDay, DayBytes, Matches, FileSamples, DaySamples;
    if days != [] {
      var front, d := days[..|days| - 1], Last(days);
      assert d in days && forall e :: e in front ==> e in days;
      NaiveIsByDay(codec, files, log, from, front, id, since);
      var last: seq<string> := [FileName(d)];
      assert Names(days) == Names(front) + last;
      NaiveSplit(codec, files, Names(front), last, id, since);
      DayFileReadsBack(codec, log, d);
      assert last[1..] == [];
      var found := Matches(DaySamples(log, d), id, since);
      assert Naive(codec, files, last, id, since) == found + [] == found;
    }
  }

  /**
   What a query can find after any such run: the naive scan of the files it looks at yields exactly the matching
   samples of every kept batch, in the order they were recorded.
   */
  lemma QueryFindsLog(
    codec: Codec, files: Files, log: seq<Batch>, from: int, names: seq<string>, id: string, since: int)
    requires Holds(codec, files, log, from) && WellTimed(codec, log) && FaithfulLog(codec, log)
    requires IsListing(names, Candidates(files, since))
    ensures Naive(codec, files, names, id, since) == Matches(SamplesSince(log, from), id, since)
  {
    var min := Max(from, DayBucket(since));
    DaysFromShape(codec, log, min);
    CandidatesAreDays(codec, files, log, from, names, since);
    NaiveIsByDay(codec, files, log, from, DaysFrom(log, min), id, since);
    ByDayIsLogOrder(codec, log, from, id, since);
  }

  ghost predicate RecordedInOrder(samples: seq<HistorySample>) {
    forall i, j :: 0 <= i <= j < |samples| ==> samples[i].recordedAt <= samples[j].recordedAt
  }

  lemma {:induction false} MatchesAreMembers(samples: seq<HistorySample>, id: string, since: int)
    ensures forall s :: s in Matches(samples, id, since) ==> s in samples
  {
    if samples != [] {
      MatchesAreMembers(samples[1..], id, since);
    }
  }

  lemma {:induction false} MatchesChronological(samples: seq<HistorySample>, id: string, since: int)
    requires RecordedInOrder(samples)
    ensures RecordedInOrder(Matches(samples, id, since))
  {
    if samples != [] {
      MatchesChronological(samples[1..], id, since);
      MatchesAreMembers(samples[1..], id, since);
      assert forall s :: s in samples[1..] ==> samples[0].recordedAt <= s.recordedAt;
    }
  }

  lemma {:induction false} KeptChronological(codec: Codec, log: seq<Batch>, from: int)
    requires WellTimed(codec, log) && FaithfulLog(codec, log)
    ensures RecordedInOrder(SamplesSince(log, from))
    ensures forall s :: s in SamplesSince(log, from) ==> log != [] && s.recordedAt <= Last(log).at
  {
    if log != [] {
      FaithfulFront(codec, log);
      WellTimedPrefix(codec, log);
      KeptChronological(codec, log[..|log| - 1], from);
      hide WellTimed, FaithfulLog, Day;
    }
  }

  /** Query results are in chronological order. */
  lemma QueryResultChronological(
    codec: Codec, files: Files, log: seq<Batch>, from: int, names: seq<string>, id: string, since: int, n: nat)
    requires Holds(codec, files, log, from) && WellTimed(codec, log) && FaithfulLog(codec, log)
    requires IsListing(names, Candidates(files, since))
    ensures RecordedInOrder(LastN(Naive(codec, files, names, id, since), n))
  {
    QueryFindsLog(codec, files, log, from, names, id, since);
    KeptChronological(codec, log, from);
    MatchesChronological(SamplesSince(log, from), id, since);
  }

  lemma {:induction false} DaySamplesOfDay(codec: Codec, log: seq<Batch>, day: int)
    requires FaithfulLog(codec, log)
    ensures forall s :: s in DaySamples(log, day) ==> DayBucket(s.recordedAt) == day
  {
    if log != [] {
      FaithfulFront(codec, log);
      DaySamplesOfDay(codec, log[..|log| - 1], day);
    }
  }

  /** Files written by the store hold only samples of their own day, so a query may skip earlier days. */
  lemma RunsFileByDay(codec: Codec, files: Files, log: seq<Batch>, from: int)
    requires Holds(codec, files, log, from) && FaithfulLog(codec, log)
    ensures FiledByDay(codec, files)
  {
    hide FileName, FileDay, HasDay, DayBytes, FileSamples, FaithfulLog, DayOf, DayBucket, DaySamples;
    forall p, s | p in files && s in FileSamples(codec, files[p])
      ensures DayBucket(s.recordedAt) == DayOf(p)
    {
      DayFileReadsBack(codec, log, DayOf(p));
      DaySamplesOfDay(codec, log, DayOf(p));
    }
  }

  // ----- Conservation -----

  function SampleCount(log: seq<Batch>): nat {
    if log == [] then 0 else SampleCount(log[..|log| - 1]) + |Last(log).samples|
  }

  lemma {:induction false} CountSnoc(log: seq<Batch>, b: Batch)
    ensures SampleCount(log + [b]) == SampleCount(log) + |b.samples|
  {
    assert (log + [b])[..|log|] == log;
  }

  /** One more call adds its samples to those offered, and to those accepted if it was. */
  lemma {:induction false} CallCounted(calls: seq<Call>, call: Call)
    ensures var longer := calls + [call];
            && SampleCount(Batches(longer)) == SampleCount(Batches(calls)) + |call.batch.samples|
            && SampleCount(AcceptedLog(longer)) ==
               SampleCount(AcceptedLog(calls)) + (if call.accepted then |call.batch.samples| else 0)
  {
    var longer, log := calls + [call], AcceptedLog(calls);
    assert longer[..|calls|] == calls;
    assert Batches(longer) == Batches(calls) + [call.batch];
    CountSnoc(Batches(calls), call.batch);
    CountSnoc(log, call.batch);
    assert log + [] == log;
  }

  // ----- The sampler loop -----

  /** What the sampler sees at one tick: the time and the session summaries at that time. */
  datatype Tick = Tick(at: int, sessions: seq<Summary>)

  function BatchAt(observer: ObserverInfo, tick: Tick): Batch {
    Batch(tick.at, Offered(observer, tick.at, tick.sessions))
  }

  ghost predicate InOrderTicks(ticks: seq<Tick>) {
    && (forall i :: 0 <= i < |ticks| ==> InI64(ticks[i].at))
    && (forall i, j :: 0 <= i <= j < |ticks| ==> ticks[i].at <= ticks[j].at)
  }

  lemma {:induction false} RunExtended(
    codec: Codec, states: seq<Files>, calls: seq<Call>, retentionDays: nat, call: Call, next: Files)
    requires IsRun(codec, states, calls, retentionDays)
    requires CleanStep(Last(states), next, call.batch.at, retentionDays, Bytes(codec, call.batch), call.accepted)
    ensures IsRun(codec, states + [next], calls + [call], retentionDays)
  {
    hide CleanStep, Bytes;
    var more, longer := states + [next], calls + [call];
    forall i | 0 <= i < |longer|
      ensures CleanStep(more[i], more[i + 1], longer[i].batch.at, retentionDays, Bytes(codec, longer[i].batch),
                        longer[i].accepted)
    {
      if i < |calls| {
        assert more[i] == states[i] && more[i + 1] == states[i + 1] && longer[i] == calls[i];
      }
    }
  }

  /** What a run of the sampler without failures establishes, once `calls` have been made. */
  ghost predicate Sampled(
    codec: Codec, observer: ObserverInfo, retentionDays: nat, ticks: seq<Tick>, calls: seq<Call>,
    states: seq<Files>, files: Files, dropped: int)
  {
    && |calls| == |ticks|
    && (forall i :: 0 <= i < |calls| ==> calls[i].batch == BatchAt(observer, ticks[i]))
    && IsRun(codec, states, calls, retentionDays) && Last(states) == files
    && WellTimed(codec, Batches(calls))
    && dropped == SampleCount(Batches(calls)) - SampleCount(AcceptedLog(calls))
  }

  lemma NothingSampled(codec: Codec, observer: ObserverInfo, retentionDays: nat)
    ensures Sampled(codec, observer, retentionDays, [], [], [map[]], map[], 0)
  {
  }

  lemma {:induction false} SampledExtended(
    codec: Codec, observer: ObserverInfo, retentionDays: nat, ticks: seq<Tick>, calls: seq<Call>,
    states: seq<Files>, files: Files, dropped: int, tick: Tick, next: Files, outcome: RecordOutcome)
    requires Sampled(codec, observer, retentionDays, ticks, calls, states, files, dropped)
    requires InOrderTicks(ticks + [tick]) && outcome != Failed
    requires var b := BatchAt(observer, tick);
             && CleanStep(files, next, b.at, retentionDays, Bytes(codec, b), outcome == Written)
             && Payload(codec, b.samples).Some? && (outcome == Idle ==> b.samples == [])
    ensures var call := Call(BatchAt(observer, tick), outcome == Written);
            Sampled(codec, observer, retentionDays, ticks + [tick], calls + [call], states + [next], next,
                    dropped + (if outcome == DroppedPayload then |call.batch.samples| else 0))
  {
    hide IsRun, CleanStep, Bytes, Payload, Offered, BatchAt, SampleCount, AcceptedLog, InOrderTicks, WellTimed;
    var call := Call(BatchAt(observer, tick), outcome == Written);
    RunExtended(codec, states, calls, retentionDays, call, next);
    CallCounted(calls, call);
    TimedExtended(codec, observer, ticks, calls, tick, call);
    var all, longer := ticks + [tick], calls + [call];
    assert forall i :: 0 <= i < |longer| ==> longer[i].batch == BatchAt(observer, all[i]);
  }

  lemma {:induction false} TimedExtended(
    codec: Codec, observer: ObserverInfo, ticks: seq<Tick>, calls: seq<Call>, tick: Tick, call: Call)
    requires |calls| == |ticks| && InOrderTicks(ticks + [tick]) && WellTimed(codec, Batches(calls))
    requires forall i :: 0 <= i < |calls| ==> calls[i].batch == BatchAt(observer, ticks[i])
    requires call.batch == BatchAt(observer, tick) && Payload(codec, call.batch.samples).Some?
    ensures WellTimed(codec, Batches(calls + [call]))
  {
    hide Payload, Offered, WellTimed, InI64;
    var all, n := ticks + [tick], |ticks|;
    assert all[n] == tick;
    if n > 0 {
      assert all[n - 1] == ticks[n - 1] && all[n - 1].at <= all[n].at;
    }
    WellTimedSnoc(codec, Batches(calls), call.batch);
    assert Batches(calls + [call]) == Batches(calls) + [call.batch];
  }

  /**
   The sampler: one recording call per tick. If nothing failed, the directory holds exactly the accepted batches of
   some day and later, and the samples offered are those written plus those counted as dropped.
   */
  method SampleHistory(store: Store, ticks: seq<Tick>)
    returns (ghost calls: seq<Call>, ghost states: seq<Files>, ghost from: seq<int>)
    requires store.retentionDays > 0 && store.dir.files == map[] && InOrderTicks(ticks)
    modifies store, store.dir`files
    ensures store.pruneFailures == old(store.pruneFailures) && store.writeFailures == old(store.writeFailures) ==>
              && Sampled(store.codec, store.observer, store.retentionDays, ticks, calls, states, store.dir.files,
                         store.droppedSamples - old(store.droppedSamples))
              && ThresholdsAdvance(store.codec, states, calls, store.retentionDays, from) && from != []
              && Holds(store.codec, store.dir.files, AcceptedLog(calls), Last(from))
  {
    hide Sampled, CleanStep, Holds, InOrderTicks, ThresholdsAdvance, OnlyTodayWritten, Payload, Total;
    calls, states, from := [], [map[]], [];
    NothingSampled(store.codec, store.observer, store.retentionDays);
    assert ticks[..0] == [];
    for i := 0 to |ticks|
      invariant store.pruneFailures >= old(store.pruneFailures) && store.writeFailures >= old(store.writeFailures)
      invariant store.pruneFailures == old(store.pruneFailures) && store.writeFailures == old(store.writeFailures) ==>
                  Sampled(store.codec, store.observer, store.retentionDays, ticks[..i], calls, states, store.dir.files,
                          store.droppedSamples - old(store.droppedSamples))
    {
      ghost var before, dropped := store.dir.files, store.droppedSamples - old(store.droppedSamples);
      ghost var clean :=
        store.pruneFailures == old(store.pruneFailures) && store.writeFailures == old(store.writeFailures);
      ghost var prunes := store.pruneFailures;
      var outcome, recounted := store.RecordSummaries(ticks[i].at, ticks[i].sessions);
      ghost var call := Call(BatchAt(store.observer, ticks[i]), outcome == Written);
      if clean && store.pruneFailures == prunes && outcome != Failed {
        TicksPrefix(ticks, i);
        EmptyPayload(store.codec);
        SampledExtended(store.codec, store.observer, store.retentionDays, ticks[..i], calls, states, before, dropped,
                        ticks[i], store.dir.files, outcome);
      }
      calls, states := calls + [call], states + [store.dir.files];
    }
    assert ticks[..|ticks|] == ticks;
    if store.pruneFailures == old(store.pruneFailures) && store.writeFailures == old(store.writeFailures) {
      SampledHolds(store.codec, store.observer, store.retentionDays, ticks, calls, states, store.dir.files,
                   store.droppedSamples - old(store.droppedSamples));
      from := RunHolds(store.codec, states, calls, store.retentionDays);
      ThresholdsEnd(store.codec, states, calls, store.retentionDays, from);
    }
  }

  lemma TicksPrefix(ticks: seq<Tick>, i: nat)
    requires InOrderTicks(ticks) && i < |ticks|
    ensures ticks[..i + 1] == ticks[..i] + [ticks[i]] && InOrderTicks(ticks[..i] + [ticks[i]])
  {
    assert ticks[..i + 1] == ticks[..i] + [ticks[i]];
  }

  lemma {:induction false} SampledHolds(
    codec: Codec, observer: ObserverInfo, retentionDays: nat, ticks: seq<Tick>, calls: seq<Call>,
    states: seq<Files>, files: Files, dropped: int)
    requires Sampled(codec, observer, retentionDays, ticks, calls, states, files, dropped)
    ensures IsRun(codec, states, calls, retentionDays) && WellTimed(codec, Batches(calls)) && Last(states) == files
  {
  }

  lemma {:induction false} ThresholdsEnd(
    codec: Codec, states: seq<Files>, calls: seq<Call>, retentionDays: nat, from: seq<int>)
    requires |states| == |calls| + 1 && ThresholdsAdvance(codec, states, calls, retentionDays, from)
    ensures from != [] && Holds(codec, Last(states), AcceptedLog(calls), Last(from))
  {
    hide Holds;
    assert calls[..|calls|] == calls;
  }

  // ----- From the sampler to a query -----

  /** Every sample offered at a tick would read back as itself. */
  ghost predicate FaithfulTicks(codec: Codec, observer: ObserverInfo, ticks: seq<Tick>) {
    forall i, s :: 0 <= i < |ticks| && s in BatchAt(observer, ticks[i]).samples ==> Faithful(codec, s)
  }

  lemma OfferedRecordedAt(observer: ObserverInfo, tick: Tick)
    ensures forall s :: s in BatchAt(observer, tick).samples ==> s.recordedAt == tick.at
  {
  }

  lemma {:induction false} AcceptedAmongCalls(calls: seq<Call>)
    ensures forall b :: b in AcceptedLog(calls) ==> exists i :: 0 <= i < |calls| && calls[i].batch == b
  {
    if calls != [] {
      var front := calls[..|calls| - 1];
      AcceptedAmongCalls(front);
      forall b | b in AcceptedLog(calls)
        ensures exists i :: 0 <= i < |calls| && calls[i].batch == b
      {
        if b in AcceptedLog(front) {
          var i :| 0 <= i < |front| && front[i].batch == b;
          assert calls[i].batch == b;
        } else {
          assert calls[|calls| - 1].batch == b;
        }
      }
    }
  }

  lemma {:induction false} SampledFaithful(codec: Codec, observer: ObserverInfo, ticks: seq<Tick>, calls: seq<Call>)
    requires FaithfulTicks(codec, observer, ticks) && |calls| == |ticks|
    requires forall i :: 0 <= i < |calls| ==> calls[i].batch == BatchAt(observer, ticks[i])
    ensures FaithfulLog(codec, AcceptedLog(calls))
  {
    hide Faithful, BatchAt;
    AcceptedAmongCalls(calls);
    var log := AcceptedLog(calls);
    forall i, s | 0 <= i < |log| && s in log[i].samples
      ensures Faithful(codec, s) && s.recordedAt == log[i].at
    {
      assert log[i] in log;
      var j :| 0 <= j < |calls| && calls[j].batch == log[i];
      OfferedRecordedAt(observer, ticks[j]);
      BatchTime(observer, ticks[j]);
    }
  }

  lemma BatchTime(observer: ObserverInfo, tick: Tick)
    ensures BatchAt(observer, tick).at == tick.at
  {
  }

  /**
   End to end: sampling for any number of ticks and then querying yields the newest matching samples of the batches
   that were accepted and are still kept, in the order they were recorded.
   */
  method SampleThenQuery(
    store: Store, ticks: seq<Tick>, broken: set<string>, id: string, since: int, limit: nat, maxQuerySamples: nat)
    returns (result: QueryResult, ghost calls: seq<Call>, ghost states: seq<Files>, ghost from: seq<int>)
    requires store.retentionDays > 0 && store.dir.files == map[] && InOrderTicks(ticks)
    requires FaithfulTicks(store.codec, store.observer, ticks)
    modifies store, store.dir`files
    ensures store.pruneFailures == old(store.pruneFailures) && store.writeFailures == old(store.writeFailures)
            && store.dir.readable && broken !! Candidates(store.dir.files, since) ==>
              && Sampled(store.codec, store.observer, store.retentionDays, ticks, calls, states, store.dir.files,
                         store.droppedSamples - old(store.droppedSamples))
              && ThresholdsAdvance(store.codec, states, calls, store.retentionDays, from) && from != []
              && result.Found? && RecordedInOrder(result.samples)
              && (exists pos ::
                    NewestOf(SamplesSince(AcceptedLog(calls), Last(from)), result.samples, pos, id, since,
                             Min(limit, maxQuerySamples)))
              && result.samples ==
                 LastN(Matches(SamplesSince(AcceptedLog(calls), Last(from)), id, since), Min(limit, maxQuerySamples))
  {
    hide Sampled, ThresholdsAdvance, Holds, InOrderTicks, FaithfulTicks, IsListing, Matches, SamplesSince, FaithfulLog,
      Candidates, RecordedInOrder;
    calls, states, from := SampleHistory(store, ticks);
    result := QuerySession(store.dir, store.codec, broken, id, since, limit, maxQuerySamples);
    if store.pruneFailures == old(store.pruneFailures) && store.writeFailures == old(store.writeFailures)
       && result.Found? {
      QueryAfterSampling(store.codec, store.observer, store.retentionDays, ticks, calls, states, store.dir.files,
                         store.droppedSamples - old(store.droppedSamples), from, id, since, limit, maxQuerySamples,
                         result.samples);
      ghost var pos := NewestMatches(
        SamplesSince(AcceptedLog(calls), Last(from)), id, since, Min(limit, maxQuerySamples));
    }
  }

  lemma {:induction false} QueryAfterSampling(
    codec: Codec, observer: ObserverInfo, retentionDays: nat, ticks: seq<Tick>, calls: seq<Call>,
    states: seq<Files>, files: Files, dropped: int, from: seq<int>, id: string, since: int, limit: nat,
    maxQuerySamples: nat, found: seq<HistorySample>)
    requires Sampled(codec, observer, retentionDays, ticks, calls, states, files, dropped)
    requires FaithfulTicks(codec, observer, ticks)
    requires from != [] && Holds(codec, files, AcceptedLog(calls), Last(from))
    requires Min(limit, maxQuerySamples) == 0 ==> found == []
    requires Min(limit, maxQuerySamples) > 0 ==>
               exists names ::
                 && IsListing(names, Candidates(files, since))
                 && found == LastN(Naive(codec, files, names, id, since), Min(limit, maxQuerySamples))
    ensures found ==
            LastN(Matches(SamplesSince(AcceptedLog(calls), Last(from)), id, since), Min(limit, maxQuerySamples))
    ensures RecordedInOrder(found)
  {
    hide Holds, FaithfulTicks, IsListing, Matches, SamplesSince, IsRun, Candidates, WellTimed, FaithfulLog;
    var log, n := AcceptedLog(calls), Min(limit, maxQuerySamples);
    SampledFaithful(codec, observer, ticks, calls);
    AcceptedIsSubsequence(codec, calls);
    if n > 0 {
      var names :|
        && IsListing(names, Candidates(files, since))
        && found == LastN(Naive(codec, files, names, id, since), n);
      QueryFindsLog(codec, files, log, Last(from), names, id, since);
      QueryResultChronological(codec, files, log, Last(from), names, id, since, n);
    } else {
      LastNone(Matches(SamplesSince(log, Last(from)), id, since));
    }
  }

  lemma LastNone<T>(s: seq<T>)
    ensures LastN(s, 0) == []
  {
  }
}
