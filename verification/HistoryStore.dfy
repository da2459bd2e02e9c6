/** The bounded history recorder over a directory whose deletes and writes may fail at any point. */
module HistoryStore {
  import opened Prelude
  import opened SessionIds
  import opened Records
  import opened LineReader
  import opened Sorting
  import opened DayFiles
  import opened Samples

  /** JSON encoding is not modelled: a codec is any pair of functions. */
  datatype Codec = Codec(
    encode: HistorySample -> Option<seq<byte>>, decode: seq<byte> -> Option<HistorySample>)

  /** A failed append leaves the file untouched or extended by part of the data. */
  ghost predicate AppendedSome(before: Files, after: Files, p: string, data: seq<byte>) {
    after == before || exists n :: 0 <= n <= |data| && after == Appended(before, p, data[..n])
  }

  /** The history directory. Removing, creating and appending may each fail; a failed append may be partial. */
  class HistoryDir {
    var files: Files
    /** Whether the directory can be listed. A directory that does not exist yet lists as empty. */
    var readable: bool

    constructor (files: Files, readable: bool)
      ensures this.files == files && this.readable == readable
    {
      this.files, this.readable := files, readable;
    }

    method Create() returns (ok: bool)
    {
      ok := *;
    }

    method Remove(p: string) returns (ok: bool)
      modifies this`files
      ensures files == if ok then old(files) - {p} else old(files)
    {
      ok := *;
      if ok {
        files := files - {p};
      }
    }

    method Append(p: string, data: seq<byte>) returns (ok: bool)
      modifies this`files
      ensures ok ==> files == Appended(old(files), p, data)
      ensures !ok ==> AppendedSome(old(files), files, p, data)
    {
      ok := *;
      if ok {
        files := Appended(files, p, data);
      } else {
        var created: bool := *;
        if created {
          var n: nat :| n <= |data|;
          files := Appended(files, p, data[..n]);
        }
      }
    }
  }

  ghost predicate Part(part: Files, whole: Files) {
    part.Keys <= whole.Keys && forall p :: p in part ==> part[p] == whole[p]
  }

  function OldestDay(now: int, retentionDays: nat): int { DayBucket(now) - retentionDays + 1 }

  /** The current day and the `retentionDays - 1` before it are within the limit. */
  lemma RetentionLimit(now: int, retentionDays: nat)
    ensures OldestDay(now, retentionDays) == now / 86_400_000 - retentionDays + 1
  {
  }

  /** Everything expired is gone, and nothing else. */
  ghost predicate RetentionKept(before: Files, after: Files, oldest: int) {
    && Part(after, before)
    && forall p :: p in before && p !in after ==> DayOf(p) < oldest
  }

  /** The files from `p` on in eviction order, with everything that is never evicted. */
  ghost function From(files: Files, p: string): Files {
    map q | q in files && !NameBefore(q, p) :: files[q]
  }

  /**
   Eviction is oldest-first, spares the current and later days, and takes a file only while the payload would not
   fit beside that file and everything after it.
   */
  ghost predicate EvictedForBudget(before: Files, after: Files, today: int, incoming: nat, maxBytes: nat) {
    && Part(after, before)
    && (forall p :: p in before && p !in after ==> DayOf(p) < today)
    && (forall p, q :: p in before && p !in after && q in after && DayOf(q) < today ==> NameBefore(p, q))
    && (forall p :: p in before && p !in after ==> Total(From(before, p)) + incoming > maxBytes)
  }

  datatype Budget = Fits(projected: nat) | Exhausted | Unreadable

  datatype RecordOutcome = Idle | Written | DroppedPayload | Failed

  function Payload(codec: Codec, samples: seq<HistorySample>): Option<seq<byte>> {
    if samples == [] then Some([])
    else
      var line := codec.encode(samples[0]);
      var rest := Payload(codec, samples[1..]);
      if line.None? || rest.None? then None else Some(line.value + [NEWLINE] + rest.value)
  }

  lemma {:induction false} PayloadConcat(codec: Codec, a: seq<HistorySample>, b: seq<HistorySample>)
    ensures var p, q := Payload(codec, a), Payload(codec, b);
            Payload(codec, a + b) == if p.None? || q.None? then None else Some(p.value + q.value)
  {
    if a == [] {
      assert a + b == b;
    } else {
      assert (a + b)[0] == a[0] && (a + b)[1..] == a[1..] + b;
      PayloadConcat(codec, a[1..], b);
      var line, rest, other := codec.encode(a[0]), Payload(codec, a[1..]), Payload(codec, b);
      if line.Some? && rest.Some? && other.Some? {
        ConcatAssociative(line.value + [NEWLINE], rest.value, other.value);
      }
    }
    var q := Payload(codec, b);
    assert q.Some? ==> [] + q.value == q.value;
  }

  lemma PayloadOfOne(codec: Codec, s: HistorySample)
    ensures var line := codec.encode(s);
            Payload(codec, [s]) == if line.None? then None else Some(line.value + [NEWLINE])
  {
    var one: seq<HistorySample> := [s];
    assert one[1..] == [];
    var line := codec.encode(s);
    assert line.Some? ==> line.value + [NEWLINE] + [] == line.value + [NEWLINE];
  }

  /** One line per sample, in order; the first sample that cannot be encoded fails the whole payload. */
  method EncodePayload(codec: Codec, samples: seq<HistorySample>) returns (r: Option<seq<byte>>)
    ensures r == Payload(codec, samples)
  {
    hide Payload;
    var payload: seq<byte> := [];
    EmptyPayload(codec);
    assert samples[..0] == [];
    for i := 0 to |samples|
      invariant Payload(codec, samples[..i]) == Some(payload)
    {
      assert samples[..i + 1] == samples[..i] + [samples[i]] && samples == samples[..i + 1] + samples[i + 1..];
      PayloadConcat(codec, samples[..i], [samples[i]]);
      PayloadConcat(codec, samples[..i + 1], samples[i + 1..]);
      PayloadOfOne(codec, samples[i]);
      var line := codec.encode(samples[i]);
      if line.None? {
        return None;
      }
      ConcatAssociative(payload, line.value, [NEWLINE]);
      payload := payload + line.value + [NEWLINE];
    }
    assert samples[..|samples|] == samples;
    r := Some(payload);
  }

  function InstrumentedOnly(sessions: seq<Summary>): seq<Summary> {
    if sessions == [] then []
    else
      var rest := InstrumentedOnly(sessions[1..]);
      if sessions[0].kind == Instrumented then [sessions[0]] + rest else rest
  }

  function SamplesFrom(observer: ObserverInfo, now: int, sessions: seq<Summary>): seq<HistorySample> {
    seq(|sessions|, i requires 0 <= i < |sessions| => SampleFrom(observer, now, sessions[i]))
  }

  /**
   One recording step in which no delete failed: expired files go, then old files are evicted for space in order,
   then the payload is appended to the current day's file if it was accepted.
   */
  ghost predicate CleanStep(
    before: Files, after: Files, now: int, retentionDays: nat, payload: seq<byte>, accepted: bool)
  {
    exists mid ::
      && Part(mid, before)
      && (forall p :: p in before && p !in mid ==> DayOf(p) < DayBucket(now))
      && (forall p, q :: p in before && p !in mid && q in mid && DayOf(q) < DayBucket(now) ==> NameBefore(p, q))
      && (forall p :: p in mid ==> DayOf(p) >= OldestDay(now, retentionDays))
      && after == if accepted then Appended(mid, FileName(DayBucket(now)), payload) else mid
  }

  lemma PartTrans(a: Files, b: Files, c: Files)
    requires Part(a, b) && Part(b, c)
    ensures Part(a, c)
  {
  }

  lemma PruneThenEvict(before: Files, pruned: Files, mid: Files, now: int, retentionDays: nat, incoming: nat, max: nat)
    requires retentionDays > 0
    requires RetentionKept(before, pruned, OldestDay(now, retentionDays))
    requires forall p :: p in pruned ==> DayOf(p) >= OldestDay(now, retentionDays)
    requires EvictedForBudget(pruned, mid, DayBucket(now), incoming, max)
    ensures Part(mid, before)
    ensures forall p :: p in before && p !in mid ==> DayOf(p) < DayBucket(now)
    ensures forall p, q :: p in before && p !in mid && q in mid && DayOf(q) < DayBucket(now) ==> NameBefore(p, q)
    ensures forall p :: p in mid ==> DayOf(p) >= OldestDay(now, retentionDays)
  {
    hide FileDay, Total, From;
    PartTrans(mid, pruned, before);
    forall p, q | p in before && p !in mid && q in mid && DayOf(q) < DayBucket(now)
      ensures NameBefore(p, q)
    {
      if p !in pruned {
        assert q in pruned;
        assert DayOf(p) < OldestDay(now, retentionDays) <= DayOf(q);
      }
    }
  }

  class Store {
    const dir: HistoryDir
    const codec: Codec
    const observer: ObserverInfo
    const retentionDays: nat
    const maxDiskBytes: nat
    var currentBytes: nat
    var writtenBytes: nat
    var writeFailures: nat
    var pruneFailures: nat
    var droppedSamples: nat

    constructor (dir: HistoryDir, codec: Codec, observer: ObserverInfo, retentionDays: nat, maxDiskBytes: nat)
      ensures this.dir == dir && this.codec == codec && this.observer == observer
      ensures this.retentionDays == retentionDays && this.maxDiskBytes == maxDiskBytes
      ensures currentBytes == (if dir.readable then Total(dir.files) else 0)
      ensures writtenBytes == writeFailures == pruneFailures == droppedSamples == 0
    {
      this.dir, this.codec, this.observer := dir, codec, observer;
      this.retentionDays, this.maxDiskBytes := retentionDays, maxDiskBytes;
      currentBytes, writtenBytes, writeFailures, pruneFailures, droppedSamples := 0, 0, 0, 0, 0;
      new;
      RefreshCurrentBytes();
    }

    /** Recount from disk; a directory that cannot be listed leaves the count as it was. */
    method RefreshCurrentBytes()
      modifies this`currentBytes
      ensures currentBytes == if dir.readable then Total(dir.files) else old(currentBytes)
    {
      if dir.readable {
        var total := SumSizes(dir.files);
        currentBytes := total;
      }
    }

    /** Remove expired files; individual failures are counted and skipped. */
    method PruneOldFiles(now: int) returns (ok: bool)
      modifies this`currentBytes, this`pruneFailures, dir`files
      ensures ok == dir.readable
      ensures RetentionKept(old(dir.files), dir.files, OldestDay(now, retentionDays))
      ensures forall p :: p in old(dir.files) && p !in dir.files ==> DayOf(p) <= now / 86_400_000 - retentionDays
      ensures ok && pruneFailures == old(pruneFailures) ==>
                forall p :: p in dir.files ==> DayOf(p) > now / 86_400_000 - retentionDays
      ensures pruneFailures >= old(pruneFailures)
      ensures ok && pruneFailures == old(pruneFailures) ==>
                forall p :: p in dir.files ==> DayOf(p) >= OldestDay(now, retentionDays)
      ensures Total(dir.files) <= Total(old(dir.files))
      ensures currentBytes ==
              Max(0, old(currentBytes) - (Total(old(dir.files)) - Total(dir.files)))
    {
      hide FileDay, OldestDay;
      RetentionLimit(now, retentionDays);
      var oldest := OldestDay(now, retentionDays);
      if !dir.readable {
        return false;
      }
      var removed: nat := 0;
      var pending := dir.files.Keys;
      while pending != {}
        invariant pending <= dir.files.Keys
        invariant RetentionKept(old(dir.files), dir.files, oldest)
        invariant pruneFailures >= old(pruneFailures)
        invariant pruneFailures == old(pruneFailures) ==>
                    forall p :: p in dir.files && p !in pending ==> DayOf(p) >= oldest
        invariant removed + Total(dir.files) == Total(old(dir.files))
        modifies this`pruneFailures, dir`files
        decreases |pending|
      {
        var p :| p in pending;
        pending := pending - {p};
        if DayOf(p) < oldest {
          var size := |dir.files[p]|;
          TotalRemove(dir.files, p);
          var deleted := dir.Remove(p);
          if deleted {
            removed := removed + size;
          } else {
            pruneFailures := pruneFailures + 1;
          }
        }
      }
      if removed > 0 {
        currentBytes := if currentBytes >= removed then currentBytes - removed else 0;
      }
      return true;
    }

    /** Make room for `incoming` bytes by evicting old days, oldest first. */
    method EnsureDiskBudget(now: int, incoming: nat) returns (budget: Budget)
      modifies this`currentBytes, this`pruneFailures, dir`files
      ensures EvictedForBudget(old(dir.files), dir.files, DayBucket(now), incoming, maxDiskBytes)
      ensures pruneFailures >= old(pruneFailures)
      ensures budget.Fits? && incoming > 0 ==>
                budget.projected == Total(dir.files) + incoming <= maxDiskBytes
      ensures budget.Exhausted? ==>
                incoming > maxDiskBytes || (currentBytes == Total(dir.files) && dir.readable)
      ensures budget.Exhausted? && pruneFailures == old(pruneFailures) ==>
                && Total(dir.files) + incoming > maxDiskBytes
                && (incoming <= maxDiskBytes ==> forall p :: p in dir.files ==> DayOf(p) >= DayBucket(now))
      ensures incoming > maxDiskBytes || incoming == 0 ==>
                dir.files == old(dir.files) && currentBytes == old(currentBytes) && budget != Unreadable
      ensures budget.Unreadable? <==> 0 < incoming <= maxDiskBytes && !dir.readable
      ensures budget.Unreadable? ==> dir.files == old(dir.files) && currentBytes == old(currentBytes)
    {
      hide DayOf, DayBucket, NameBefore, Total, IsListing, EvictedForBudget, EvictedUpTo, From;
      NothingEvicted(dir.files, DayBucket(now), incoming, maxDiskBytes);
      if incoming == 0 {
        return Fits(currentBytes);
      }
      if incoming > maxDiskBytes {
        return Exhausted;
      }
      var today := DayBucket(now);
      if !dir.readable {
        return Unreadable;
      }
      var total := SumSizes(dir.files);
      currentBytes := total;
      if total + incoming <= maxDiskBytes {
        return Fits(total + incoming);
      }
      var names := ListSorted(dir.files.Keys);
      ghost var before := dir.files;
      NoneEvictedYet(before, names, today);
      var i := 0;
      while i < |names|
        invariant 0 <= i <= |names|
        invariant IsListing(names, before.Keys)
        invariant total == Total(dir.files)
        invariant pruneFailures == old(pruneFailures)
        invariant EvictedUpTo(before, dir.files, names, i, today)
        invariant EvictedForBudget(before, dir.files, today, incoming, maxDiskBytes)
        modifies this`currentBytes, this`pruneFailures, dir`files
      {
        var p := names[i];
        NextStillThere(before, dir.files, names, i, today);
        if DayOf(p) < today {
          if total + incoming <= maxDiskBytes {
            return Fits(total + incoming);
          }
          RemainderIsFrom(before, dir.files, names, i, today);
          var size := |dir.files[p]|;
          ghost var held := dir.files;
          var deleted := dir.Remove(p);
          if !deleted {
            pruneFailures := pruneFailures + 1;
            currentBytes := total;
            return Exhausted;
          }
          EvictOne(before, held, names, i, today, incoming, maxDiskBytes);
          TotalRemove(held, p);
          total := total - size;
        } else {
          SpareOne(before, dir.files, names, i, today);
        }
        i := i + 1;
      }
      currentBytes := total;
      AllOldEvicted(before, dir.files, names, today);
      if total + incoming > maxDiskBytes {
        return Exhausted;
      }
      return Fits(total + incoming);
    }

    /** Make room for the payload and append it to the current day's file. `mid` is the directory in between. */
    method WritePayload(now: int, payload: seq<byte>, count: nat) returns (outcome: RecordOutcome, ghost mid: Files)
      requires payload != []
      modifies this, dir`files
      ensures outcome != Idle
      ensures EvictedForBudget(old(dir.files), mid, DayBucket(now), |payload|, maxDiskBytes)
      ensures outcome == Written ==> dir.files == Appended(mid, FileName(DayBucket(now)), payload)
      ensures outcome == DroppedPayload ==> dir.files == mid
      ensures outcome == Failed ==> AppendedSome(mid, dir.files, FileName(DayBucket(now)), payload)
      ensures Total(dir.files) <= maxDiskBytes || Total(dir.files) <= Total(old(dir.files))
      ensures dir.readable && |payload| <= maxDiskBytes ==> currentBytes == Total(dir.files)
      ensures !dir.readable || |payload| > maxDiskBytes ==>
                dir.files == old(dir.files) && currentBytes == old(currentBytes)
      ensures droppedSamples == old(droppedSamples) + (if outcome == DroppedPayload then count else 0)
      ensures writeFailures == old(writeFailures) + (if outcome == Failed then 1 else 0)
      ensures writtenBytes == old(writtenBytes) + (if outcome == Written then |payload| else 0)
      ensures pruneFailures >= old(pruneFailures)
    {
      hide DayOf, DayBucket, NameBefore, Total, From, FileName, Appended;
      var budget := EnsureDiskBudget(now, |payload|);
      mid := dir.files;
      PartTotal(mid, old(dir.files));
      hide EvictedForBudget;
      if budget.Exhausted? {
        droppedSamples := droppedSamples + count;
        return DroppedPayload, mid;
      }
      if budget.Unreadable? {
        writeFailures := writeFailures + 1;
        RefreshCurrentBytes();
        return Failed, mid;
      }
      var written := dir.Append(FileName(DayBucket(now)), payload);
      if written {
        TotalAppended(mid, FileName(DayBucket(now)), payload);
        currentBytes := budget.projected;
        writtenBytes := writtenBytes + |payload|;
        return Written, mid;
      }
      PartialAppendTotal(mid, dir.files, FileName(DayBucket(now)), payload);
      writeFailures := writeFailures + 1;
      RefreshCurrentBytes();
      return Failed, mid;
    }

    /** The payload offered can be encoded and is within the budget on its own. */
    predicate Fitting(now: int, sessions: seq<Summary>) {
      var payload := Payload(codec, Offered(observer, now, sessions));
      payload.Some? && |payload.value| <= maxDiskBytes
    }

    /**
     Persist the instrumented sessions. Whatever fails, the disk ends within the budget or no fuller than before,
     only old days are deleted, and only the current day's file is written. `recounted` says whether the byte counter
     was set from disk during the call.
     */
    method RecordSummaries(now: int, sessions: seq<Summary>) returns (outcome: RecordOutcome, ghost recounted: bool)
      requires retentionDays > 0
      modifies this, dir`files
      ensures Total(dir.files) <= maxDiskBytes || Total(dir.files) <= Total(old(dir.files))
      ensures currentBytes == Total(dir.files) <==>
                || recounted
                || old(currentBytes) == Total(old(dir.files))
                || (Total(dir.files) == 0 && old(currentBytes) <= Total(old(dir.files)))
      ensures dir.readable && Offered(observer, now, sessions) != [] && Fitting(now, sessions) ==> recounted
      ensures !dir.readable || Offered(observer, now, sessions) == [] ==> !recounted
      ensures !recounted ==> currentBytes == Max(0, old(currentBytes) - (Total(old(dir.files)) - Total(dir.files)))
      ensures pruneFailures >= old(pruneFailures)
      ensures OnlyTodayWritten(old(dir.files), dir.files, DayBucket(now))
      ensures outcome == Idle ==> Part(dir.files, old(dir.files))
      ensures dir.readable && Offered(observer, now, sessions) == [] ==> outcome == Idle
      ensures Accounted(outcome, old(droppedSamples), droppedSamples, old(writtenBytes), writtenBytes,
                        old(writeFailures), writeFailures, Offered(observer, now, sessions), codec)
      ensures pruneFailures == old(pruneFailures) && outcome != Failed ==>
                CleanStep(old(dir.files), dir.files, now, retentionDays,
                          UnwrapOr(Payload(codec, Offered(observer, now, sessions)), []), outcome == Written)
    {
      hide DayOf, DayBucket, OldestDay, NameBefore, Total, From, FileName, Payload, InstrumentedOnly, SampleFrom,
        EvictedForBudget, RetentionKept, CleanStep, OnlyTodayWritten, Appended;
      ghost var before := dir.files;
      var samples := Offered(observer, now, sessions);
      if samples == [] {
        var ok := PruneOldFiles(now);
        ExpiryOnly(before, dir.files, now, retentionDays, [], maxDiskBytes);
        if !ok {
          writeFailures := writeFailures + 1;
          RefreshCurrentBytes();
          return Failed, false;
        }
        EmptyPayload(codec);
        return Idle, false;
      }
      var created := dir.Create();
      if !created {
        writeFailures := writeFailures + 1;
        RefreshCurrentBytes();
        OnlyTodayItself(before, DayBucket(now));
        return Failed, dir.readable;
      }
      var ok := PruneOldFiles(now);
      ghost var pruned := dir.files;
      ExpiryOnly(before, pruned, now, retentionDays, [], maxDiskBytes);
      if !ok {
        writeFailures := writeFailures + 1;
        RefreshCurrentBytes();
        return Failed, false;
      }
      var payload := EncodePayload(codec, samples);
      if payload.None? {
        writeFailures := writeFailures + 1;
        return Failed, false;
      }
      PayloadNotEmpty(codec, samples);
      recounted := dir.readable && |payload.value| <= maxDiskBytes;
      ghost var mid;
      outcome, mid := WritePayload(now, payload.value, |samples|);
      PruneAndWrite(before, pruned, mid, dir.files, now, retentionDays, payload.value, maxDiskBytes, outcome);
    }
  }

  /**
   A store whose directory could not be listed at start-up counts from zero. Once it can be, an idle call recounts
   nothing, and the counter stays below what is on disk.
   */
  method StaleByteCounter(
    files: Files, codec: Codec, observer: ObserverInfo, retentionDays: nat, maxDiskBytes: nat, now: int)
    returns (store: Store)
    requires retentionDays > 0 && Total(files) > 0 && forall p :: p in files ==> DayOf(p) >= DayBucket(now)
    ensures fresh(store) && store.dir.readable && store.dir.files == files
    ensures store.currentBytes == 0 < Total(store.dir.files)
  {
    hide Total, DayOf, FileName, CleanStep, Accounted;
    var dir := new HistoryDir(files, false);
    store := new Store(dir, codec, observer, retentionDays, maxDiskBytes);
    dir.readable := true;
    var outcome, recounted := store.RecordSummaries(now, []);
    assert dir.files == files;
  }

  // ----- What one recording step does -----

  /** The samples a call offers to the recorder: one for each instrumented session. */
  function Offered(observer: ObserverInfo, now: int, sessions: seq<Summary>): seq<HistorySample> {
    SamplesFrom(observer, now, InstrumentedOnly(sessions))
  }

  predicate SameMeasure(reported: Option<real>, stored: Option<Float>) {
    if reported.None? then stored == None else stored == Some(Finite(reported.value))
  }

  /** The sample recorded for a summary, field by field. */
  predicate SampleOfSummary(observer: ObserverInfo, now: int, s: Summary, x: HistorySample) {
    && x.observer == Some(observer) && x.recordedAt == now
    && x.sessionId == s.sessionId && x.displayId == s.displayId && x.pid == s.pid && x.kind == s.kind
    && x.health == s.health && x.startedAt == s.startedAt && x.counterResetAt == s.counterResetAt
    && x.bindAddr == s.bindAddr && x.udpPort == s.udpPort
    && x.clientAddr == s.peer.last && x.currentClientAddr == s.peer.current
    && SameMeasure(s.metrics.reading.srttMs, x.metrics.srttMs)
    && SameMeasure(s.metrics.reading.rttvarMs, x.metrics.rttvarMs)
    && SameMeasure(s.metrics.reading.lastRttMs, x.metrics.lastRttMs)
    && SameMeasure(s.metrics.window10s.pct, x.metrics.retransmitPct10s)
    && SameMeasure(s.metrics.window60s.pct, x.metrics.retransmitPct60s)
    && x.metrics.lastHeardAgeMs == s.metrics.reading.lastHeardAgeMs
    && x.metrics.remoteStateAgeMs == s.metrics.reading.remoteStateAgeMs
    && x.metrics.counters == s.metrics.reading.counters
    && x.metrics.complete10s == s.metrics.window10s.complete && x.metrics.complete60s == s.metrics.window60s.complete
    && x.metrics.breakdown10s == s.metrics.window10s.breakdown
    && x.metrics.breakdown60s == s.metrics.window60s.breakdown
  }

  lemma {:induction false} InstrumentedSnoc(sessions: seq<Summary>, s: Summary)
    ensures InstrumentedOnly(sessions + [s]) ==
            InstrumentedOnly(sessions) + (if s.kind == Instrumented then [s] else [])
  {
    if sessions == [] {
      assert sessions + [s] == [s];
    } else {
      assert (sessions + [s])[1..] == sessions[1..] + [s];
      InstrumentedSnoc(sessions[1..], s);
    }
  }

  /** Exactly the instrumented sessions are offered, in order, and each as itself. */
  lemma {:induction false} OfferedExactly(observer: ObserverInfo, now: int, sessions: seq<Summary>)
    returns (pos: seq<nat>)
    ensures var offered := Offered(observer, now, sessions);
            && |pos| == |offered|
            && (forall i, j :: 0 <= i < j < |pos| ==> pos[i] < pos[j])
            && (forall i :: 0 <= i < |pos| ==>
                  && pos[i] < |sessions|
                  && sessions[pos[i]].kind == Instrumented
                  && SampleOfSummary(observer, now, sessions[pos[i]], offered[i]))
            && (forall j :: 0 <= j < |sessions| && sessions[j].kind == Instrumented ==> j in pos)
  {
    hide SampleOfSummary;
    if sessions == [] {
      pos := [];
    } else {
      var front, n := sessions[..|sessions| - 1], |sessions| - 1;
      var early := OfferedExactly(observer, now, front);
      InstrumentedSnoc(front, sessions[n]);
      assert sessions == front + [sessions[n]];
      SampleFields(observer, now, sessions[n]);
      pos := early + (if sessions[n].kind == Instrumented then [n] else []);
      hide InstrumentedOnly, SampleFrom;
      forall j | 0 <= j < |sessions| && sessions[j].kind == Instrumented
        ensures j in pos
      {
        assert j < n ==> front[j].kind == Instrumented;
      }
    }
  }

  lemma SampleFields(observer: ObserverInfo, now: int, s: Summary)
    ensures SampleOfSummary(observer, now, s, SampleFrom(observer, now, s))
  {
  }

  /** Only old days are deleted, only today's file is written, and it only grows. */
  ghost predicate OnlyTodayWritten(before: Files, after: Files, today: int) {
    && (forall p :: p in after && p != FileName(today) ==> p in before && after[p] == before[p])
    && (forall p :: p in before && p !in after ==> DayOf(p) < today)
    && (FileName(today) in before && -I64_LIMIT <= today < I64_LIMIT ==>
          FileName(today) in after && before[FileName(today)] <= after[FileName(today)])
  }

  /** Offered samples are written in full, counted as dropped, or reported as a failure. */
  ghost predicate Accounted(
    outcome: RecordOutcome, droppedBefore: nat, dropped: nat, writtenBefore: nat, written: nat,
    failuresBefore: nat, failures: nat, samples: seq<HistorySample>, codec: Codec)
  {
    && (outcome == Idle ==> samples == [])
    && (outcome == Written || outcome == DroppedPayload ==> Payload(codec, samples).Some?)
    && dropped == droppedBefore + (if outcome == DroppedPayload then |samples| else 0)
    && written == writtenBefore + (if outcome == Written then |UnwrapOr(Payload(codec, samples), [])| else 0)
    && failures == failuresBefore + (if outcome == Failed then 1 else 0)
  }

  /** A recording step never leaves anything but day files behind. */
  lemma StillDayFiles(before: Files, after: Files, today: int)
    requires AllDayFiles(before) && OnlyTodayWritten(before, after, today) && -I64_LIMIT <= today < I64_LIMIT
    ensures AllDayFiles(after)
  {
    FileDayInvertsFileName(today);
    hide FileDay, FileName;
  }

  lemma EmptyPayload(codec: Codec)
    ensures Payload(codec, []) == Some([])
  {
  }

  lemma OnlyTodayItself(files: Files, today: int)
    ensures OnlyTodayWritten(files, files, today)
  {
  }

  lemma ExpiryOnly(
    before: Files, pruned: Files, now: int, retentionDays: nat, payload: seq<byte>, maxBytes: nat)
    requires retentionDays > 0 && RetentionKept(before, pruned, OldestDay(now, retentionDays))
    ensures OnlyTodayWritten(before, pruned, DayBucket(now)) && Total(pruned) <= Total(before)
    ensures Part(pruned, before)
    ensures (forall p :: p in pruned ==> DayOf(p) >= OldestDay(now, retentionDays)) ==>
              CleanStep(before, pruned, now, retentionDays, payload, false)
  {
    hide FileDay, Total, From, FileName, NameBefore, OnlyTodayWritten, DayBucket;
    PartTotal(pruned, before);
    ExpiryKeepsToday(before, pruned, DayBucket(now), OldestDay(now, retentionDays));
    if forall p :: p in pruned ==> DayOf(p) >= OldestDay(now, retentionDays) {
      NothingEvicted(pruned, DayBucket(now), 0, maxBytes);
      PruneThenEvict(before, pruned, pruned, now, retentionDays, 0, maxBytes);
    }
  }

  lemma ExpiryKeepsToday(before: Files, pruned: Files, today: int, oldest: int)
    requires RetentionKept(before, pruned, oldest) && oldest <= today
    ensures OnlyTodayWritten(before, pruned, today)
  {
    if -I64_LIMIT <= today < I64_LIMIT {
      FileDayInvertsFileName(today);
    }
    hide FileDay, FileName;
  }

  lemma GrownFile(mid: Files, after: Files, p: string, data: seq<byte>)
    requires AppendedSome(mid, after, p, data) || after == Appended(mid, p, data)
    ensures forall q :: q != p ==> (q in after <==> q in mid) && (q in mid ==> after[q] == mid[q])
    ensures p in mid ==> p in after && mid[p] <= after[p]
  {
  }

  lemma WriteTouchesToday(before: Files, mid: Files, after: Files, today: int, payload: seq<byte>)
    requires Part(mid, before) && forall p :: p in before && p !in mid ==> DayOf(p) < today
    requires AppendedSome(mid, after, FileName(today), payload) || after == Appended(mid, FileName(today), payload)
    ensures OnlyTodayWritten(before, after, today)
  {
    if -I64_LIMIT <= today < I64_LIMIT {
      FileDayInvertsFileName(today);
    }
    GrownFile(mid, after, FileName(today), payload);
    hide FileDay, FileName, AppendedSome, Appended;
  }

  lemma PruneAndWrite(
    before: Files, pruned: Files, mid: Files, after: Files, now: int, retentionDays: nat, payload: seq<byte>,
    maxBytes: nat, outcome: RecordOutcome)
    requires retentionDays > 0 && RetentionKept(before, pruned, OldestDay(now, retentionDays))
    requires EvictedForBudget(pruned, mid, DayBucket(now), |payload|, maxBytes)
    requires outcome == Written ==> after == Appended(mid, FileName(DayBucket(now)), payload)
    requires outcome == DroppedPayload ==> after == mid
    requires outcome == Failed ==> AppendedSome(mid, after, FileName(DayBucket(now)), payload)
    requires outcome != Idle
    ensures OnlyTodayWritten(before, after, DayBucket(now))
    ensures (forall p :: p in pruned ==> DayOf(p) >= OldestDay(now, retentionDays)) && outcome != Failed ==>
              CleanStep(before, after, now, retentionDays, payload, outcome == Written)
  {
    hide FileDay, Total, From, FileName, NameBefore, Appended, OnlyTodayWritten;
    PartTrans(mid, pruned, before);
    WriteTouchesToday(before, mid, after, DayBucket(now), payload);
    if (forall p :: p in pruned ==> DayOf(p) >= OldestDay(now, retentionDays)) && outcome != Failed {
      PruneThenEvict(before, pruned, mid, now, retentionDays, |payload|, maxBytes);
    }
  }

  // ----- Steps of the eviction loop -----

  /** After `i` names, exactly the old days among them are gone. */
  ghost predicate EvictedUpTo(before: Files, now: Files, names: seq<string>, i: nat, today: int)
    requires i <= |names|
  {
    && Part(now, before)
    && forall k :: 0 <= k < |names| ==> (names[k] in now <==> k >= i || DayOf(names[k]) >= today)
  }

  lemma NameBeforeDay(a: string, b: string)
    requires NameBefore(a, b)
    ensures DayOf(a) <= DayOf(b)
  {
  }

  lemma ListedOrder(names: seq<string>, keys: set<string>, i: nat, k: nat)
    requires IsListing(names, keys) && i < |names| && k < |names|
    ensures NameBefore(names[k], names[i]) <==> k < i
    ensures k < i ==> DayOf(names[k]) <= DayOf(names[i])
  {
    hide DayOf, NameBefore;
    NameOrder();
    if k < i {
      assert NameBefore(names[k], names[i]);
      NameBeforeDay(names[k], names[i]);
    } else if i < k {
      assert NameBefore(names[i], names[k]) && names[i] != names[k];
    }
  }

  /** What is left once all old days up to the `i`-th are gone is what is never evicted before it. */
  lemma RemainderIsFrom(before: Files, now: Files, names: seq<string>, i: nat, today: int)
    requires IsListing(names, before.Keys) && i < |names| && DayOf(names[i]) < today
    requires EvictedUpTo(before, now, names, i, today)
    ensures now == From(before, names[i])
  {
    hide DayOf, NameBefore;
    var r := From(before, names[i]);
    forall k | 0 <= k < |names|
      ensures names[k] in now <==> names[k] in r
    {
      assert names[k] in before;
      ListedOrder(names, before.Keys, i, k);
    }
    assert forall p :: p in before ==> p in names;
    assert now.Keys == r.Keys;
  }

  lemma EvictOne(before: Files, held: Files, names: seq<string>, i: nat, today: int, incoming: nat, maxBytes: nat)
    requires IsListing(names, before.Keys) && i < |names| && DayOf(names[i]) < today
    requires EvictedUpTo(before, held, names, i, today)
    requires EvictedForBudget(before, held, today, incoming, maxBytes)
    requires held == From(before, names[i]) && Total(held) + incoming > maxBytes
    ensures EvictedUpTo(before, held - {names[i]}, names, i + 1, today)
    ensures EvictedForBudget(before, held - {names[i]}, today, incoming, maxBytes)
  {
    hide DayOf, NameBefore, Total, From;
    ListingDistinct(names, before.Keys);
    var p, after := names[i], held - {names[i]};
    forall q | q in after && DayOf(q) < today
      ensures NameBefore(p, q)
    {
      assert q in names;
      var k :| 0 <= k < |names| && names[k] == q;
      assert k > i;
    }
    forall k | 0 <= k < |names|
      ensures names[k] in after <==> k >= i + 1 || DayOf(names[k]) >= today
    {
      assert k != i ==> names[k] != names[i];
    }
  }

  lemma NoneEvictedYet(before: Files, names: seq<string>, today: int)
    requires IsListing(names, before.Keys)
    ensures EvictedUpTo(before, before, names, 0, today)
  {
  }

  lemma NextStillThere(before: Files, now: Files, names: seq<string>, i: nat, today: int)
    requires i < |names| && EvictedUpTo(before, now, names, i, today)
    ensures names[i] in now && names[i] in before
  {
  }

  lemma SpareOne(before: Files, now: Files, names: seq<string>, i: nat, today: int)
    requires i < |names| && DayOf(names[i]) >= today && EvictedUpTo(before, now, names, i, today)
    ensures EvictedUpTo(before, now, names, i + 1, today)
  {
  }

  lemma AllOldEvicted(before: Files, now: Files, names: seq<string>, today: int)
    requires IsListing(names, before.Keys) && EvictedUpTo(before, now, names, |names|, today)
    ensures forall p :: p in now ==> DayOf(p) >= today
  {
    hide FileDay;
    forall p | p in now
      ensures DayOf(p) >= today
    {
      assert p in names;
    }
  }

  lemma NothingEvicted(files: Files, today: int, incoming: nat, maxBytes: nat)
    ensures EvictedForBudget(files, files, today, incoming, maxBytes)
  {
  }

  lemma PartTotal(part: Files, whole: Files)
    requires Part(part, whole)
    ensures Total(part) <= Total(whole)
  {
    TotalOfPart(part, whole);
  }

  lemma PartialAppendTotal(before: Files, after: Files, p: string, data: seq<byte>)
    requires AppendedSome(before, after, p, data)
    ensures Total(before) <= Total(after) <= Total(before) + |data|
  {
    if after != before {
      var n :| 0 <= n <= |data| && after == Appended(before, p, data[..n]);
      TotalAppended(before, p, data[..n]);
    }
  }

  lemma PayloadNotEmpty(codec: Codec, samples: seq<HistorySample>)
    requires samples != [] && Payload(codec, samples).Some?
    ensures Payload(codec, samples).value != []
  {
  }
}
