/** Bounded exports: the first `limit` sessions in display order, with full cardinality figures. */
module Export {
  import opened Prelude
  import opened SessionIds
  import opened Records
  import opened HealthPolicy
  import opened Eviction
  import opened Sorting

  /** Comparison of optional RTTs, an unknown one being the least. */
  predicate RttLess(a: Option<real>, b: Option<real>) {
    b.Some? && (a.None? || a.value < b.value)
  }

  /** Display order: most severe first, then slowest, then by id. */
  predicate ListedBefore(a: Summary, b: Summary) {
    || Severity(a.health) > Severity(b.health)
    || (&& Severity(a.health) == Severity(b.health)
        && (|| RttLess(b.metrics.reading.srttMs, a.metrics.reading.srttMs)
            || (&& a.metrics.reading.srttMs == b.metrics.reading.srttMs
                && StringLess(a.sessionId, b.sessionId))))
  }

  lemma ListedTotal(a: Summary, b: Summary)
    requires a.sessionId != b.sessionId
    ensures ListedBefore(a, b) <==> !ListedBefore(b, a)
  {
    StringLessTotal(a.sessionId, b.sessionId);
    if StringLess(a.sessionId, b.sessionId) {
      StringLessAsymmetric(a.sessionId, b.sessionId);
    } else {
      StringLessAsymmetric(b.sessionId, a.sessionId);
    }
  }

  lemma ListedIrreflexive()
    ensures Irreflexive(ListedBefore)
  {
    forall a: Summary
      ensures !ListedBefore(a, a)
    {
      if StringLess(a.sessionId, a.sessionId) {
        StringLessAsymmetric(a.sessionId, a.sessionId);
      }
    }
  }

  lemma ListedTransitive()
    ensures Transitive(ListedBefore)
  {
    forall a: Summary, b: Summary, c: Summary | ListedBefore(a, b) && ListedBefore(b, c)
      ensures ListedBefore(a, c)
    {
      if StringLess(a.sessionId, b.sessionId) && StringLess(b.sessionId, c.sessionId) {
        StringLessTransitive(a.sessionId, b.sessionId, c.sessionId);
      }
    }
  }

  // ----- The full listing -----

  function Shown(m: Sessions, k: string, t: Thresholds, now: int): Summary
    requires k in m
  {
    Materialized(m[k].summary, t, now)
  }

  /** `all` lists every tracked session once, in display order. */
  ghost predicate ListsSessions(all: seq<Summary>, m: Sessions, t: Thresholds, now: int) {
    && InOrder(all, ListedBefore)
    && |all| == |m|
    && (forall k :: k in m ==> Shown(m, k, t, now) in all)
    && (forall s :: s in all ==> s.sessionId in m && s == Shown(m, s.sessionId, t, now))
  }

  /** `a` is as urgent as `b`: critical, degraded, legacy, healthy; then slower, unknown last; then by id. */
  predicate AsUrgent(a: Summary, b: Summary) {
    && (b.health == Critical ==> a.health == Critical)
    && (b.health == Degraded ==> a.health in {Critical, Degraded})
    && (b.health == LegacyHealth ==> a.health != Healthy)
    && (a.health == b.health ==>
          && (b.metrics.reading.srttMs.Some? ==>
                && a.metrics.reading.srttMs.Some?
                && a.metrics.reading.srttMs.value >= b.metrics.reading.srttMs.value)
          && (a.metrics.reading.srttMs == b.metrics.reading.srttMs ==> StringLess(a.sessionId, b.sessionId)))
  }

  /** In a listing every session is at least as urgent as those after it. */
  lemma ListedByUrgency(all: seq<Summary>, m: Sessions, t: Thresholds, now: int, i: nat, j: nat)
    requires ListsSessions(all, m, t, now) && i < j < |all|
    ensures AsUrgent(all[i], all[j])
  {
    hide Materialized, StringLess;
    assert ListedBefore(all[i], all[j]);
  }

  /** The listing is determined by the table, whatever order the table is walked in. */
  lemma SessionListUnique(a: seq<Summary>, b: seq<Summary>, m: Sessions, t: Thresholds, now: int)
    requires ListsSessions(a, m, t, now) && ListsSessions(b, m, t, now)
    ensures a == b
  {
    ListedIrreflexive();
    ListedTransitive();
    InOrderUnique(a, b, ListedBefore);
  }

  lemma InsertedSummary(x: Summary, all: seq<Summary>)
    requires InOrder(all, ListedBefore) && forall y :: y in all ==> y.sessionId != x.sessionId
    ensures var r := Inserted(x, all, ListedBefore);
            InOrder(r, ListedBefore) && |r| == |all| + 1 && forall y :: y in r <==> y == x || y in all
  {
    hide Inserted;
    ListedTransitive();
    forall y | y in all
      ensures ListedBefore(y, x) <==> !ListedBefore(x, y)
    {
      ListedTotal(y, x);
    }
    InsertedInOrder(x, all, ListedBefore);
    InsertedContents(x, all, ListedBefore);
  }

  lemma SessionListExtended(all: seq<Summary>, m: Sessions, k: string, r: Record, t: Thresholds, now: int)
    requires ListsSessions(all, m, t, now) && k !in m && r.summary.sessionId == k
    ensures ListsSessions(Inserted(Materialized(r.summary, t, now), all, ListedBefore), m[k := r], t, now)
  {
    MaterializedFrame(r.summary, t, now);
    hide Materialized, InOrder, Inserted, ListedBefore;
    var x, m' := Materialized(r.summary, t, now), m[k := r];
    InsertedSummary(x, all);
    assert m'.Keys == m.Keys + {k};
    forall j | j in m'
      ensures Shown(m', j, t, now) in Inserted(x, all, ListedBefore)
    {
      assert j != k ==> Shown(m, j, t, now) in all;
    }
  }

  /** The part of the table already walked. */
  function Walked(m: Sessions, pending: set<string>): Sessions {
    map k | k in m && k !in pending :: m[k]
  }

  lemma WalkedStep(m: Sessions, pending: set<string>, k: string)
    requires k in m && k in pending
    ensures k !in Walked(m, pending)
    ensures Walked(m, pending - {k}) == Walked(m, pending)[k := m[k]]
  {
  }

  lemma WalkedEnds(m: Sessions)
    ensures Walked(m, m.Keys) == map[] && Walked(m, {}) == m
  {
  }

  lemma EmptyListing(t: Thresholds, now: int)
    ensures ListsSessions([], map[], t, now)
  {
  }

  /** All sessions in display order. */
  method Summaries(m: Sessions, t: Thresholds, now: int) returns (all: seq<Summary>)
    requires Keyed(m)
    ensures ListsSessions(all, m, t, now)
  {
    hide Materialized, Inserted, ListsSessions, Walked;
    all := [];
    var pending := m.Keys;
    WalkedEnds(m);
    EmptyListing(t, now);
    while pending != {}
      invariant pending <= m.Keys
      invariant ListsSessions(all, Walked(m, pending), t, now)
      decreases |pending|
    {
      var k :| k in pending;
      WalkedStep(m, pending, k);
      SessionListExtended(all, Walked(m, pending), k, m[k], t, now);
      all := Inserted(Materialized(m[k].summary, t, now), all, ListedBefore);
      pending := pending - {k};
    }
  }

  // ----- The bounded export -----

  type Cell = (SessionKind, Health)

  const CELLS: seq<Cell> :=
    [(Instrumented, Healthy), (Instrumented, Degraded), (Instrumented, Critical), (Instrumented, LegacyHealth),
     (Legacy, Healthy), (Legacy, Degraded), (Legacy, Critical), (Legacy, LegacyHealth)]

  datatype Exported = Exported(
    sessions: seq<Summary>, total: nat, truncated: nat, instrumented: nat, legacy: nat,
    healthCounts: map<Cell, nat>, dropped: u64)

  function CellOf(r: Record, t: Thresholds, now: int): Cell {
    var shown := Materialized(r.summary, t, now);
    (shown.kind, shown.health)
  }

  ghost function InCell(m: Sessions, c: Cell, t: Thresholds, now: int): set<string> {
    set k | k in m && CellOf(m[k], t, now) == c
  }

  ghost function OfKind(m: Sessions, kind: SessionKind): set<string> {
    set k | k in m && m[k].summary.kind == kind
  }

  /** The figures of an export describe the whole table. */
  ghost predicate CountsWhole(e: Exported, m: Sessions, t: Thresholds, now: int) {
    && e.instrumented == |OfKind(m, Instrumented)|
    && e.legacy == |OfKind(m, Legacy)|
    && (forall c :: c in e.healthCounts <==> c in CELLS)
    && (forall c :: c in CELLS ==> e.healthCounts[c] == |InCell(m, c, t, now)|)
  }

  lemma CellExtended(m: Sessions, k: string, r: Record, t: Thresholds, now: int, c: Cell)
    requires k !in m
    ensures |InCell(m[k := r], c, t, now)| == |InCell(m, c, t, now)| + (if CellOf(r, t, now) == c then 1 else 0)
  {
    hide CellOf;
    var before := InCell(m, c, t, now);
    if CellOf(r, t, now) == c {
      assert InCell(m[k := r], c, t, now) == before + {k};
    } else {
      assert InCell(m[k := r], c, t, now) == before;
    }
  }

  lemma KindExtended(m: Sessions, k: string, r: Record, kind: SessionKind)
    requires k !in m
    ensures |OfKind(m[k := r], kind)| == |OfKind(m, kind)| + (if r.summary.kind == kind then 1 else 0)
  {
    var before := OfKind(m, kind);
    if r.summary.kind == kind {
      assert OfKind(m[k := r], kind) == before + {k};
    } else {
      assert OfKind(m[k := r], kind) == before;
    }
  }

  function CountsWith(e: Exported, x: Summary): Exported
    requires (x.kind, x.health) in e.healthCounts
  {
    var c := (x.kind, x.health);
    e.(instrumented := e.instrumented + (if x.kind == Instrumented then 1 else 0),
       legacy := e.legacy + (if x.kind == Legacy then 1 else 0),
       healthCounts := e.healthCounts[c := e.healthCounts[c] + 1])
  }

  lemma CountsStep(e: Exported, m: Sessions, k: string, r: Record, t: Thresholds, now: int)
    requires k !in m && CountsWhole(e, m, t, now)
    ensures var x := Materialized(r.summary, t, now);
            (x.kind, x.health) in e.healthCounts && CountsWhole(CountsWith(e, x), m[k := r], t, now)
  {
    MaterializedFrame(r.summary, t, now);
    hide Materialized, InCell, OfKind, CELLS;
    var x := Materialized(r.summary, t, now);
    CellListed((x.kind, x.health));
    assert CellOf(r, t, now) == (x.kind, x.health);
    forall c: Cell
      ensures |InCell(m[k := r], c, t, now)| ==
              |InCell(m, c, t, now)| + (if (x.kind, x.health) == c then 1 else 0)
    {
      CellExtended(m, k, r, t, now, c);
    }
    KindExtended(m, k, r, Instrumented);
    KindExtended(m, k, r, Legacy);
  }

  lemma CountsEmpty(t: Thresholds, now: int)
    ensures CountsWhole(Exported([], 0, 0, 0, 0, map c | c in CELLS :: 0, 0), map[], t, now)
  {
    assert OfKind(map[], Instrumented) == {} && OfKind(map[], Legacy) == {};
    assert forall c :: InCell(map[], c, t, now) == {};
  }

  lemma ListingFacts(all: seq<Summary>, m: Sessions, t: Thresholds, now: int)
    requires ListsSessions(all, m, t, now)
    ensures InOrder(all, ListedBefore) && |all| == |m|
  {
  }

  function Packaged(counts: Exported, kept: seq<Summary>, dropped: u64): Exported {
    var total := counts.instrumented + counts.legacy;
    counts.(sessions := kept, total := total,
            truncated := if total >= |kept| then total - |kept| else 0, dropped := dropped)
  }

  lemma PackagedFacts(counts: Exported, kept: seq<Summary>, dropped: u64, m: Sessions, t: Thresholds, now: int)
    requires CountsWhole(counts, m, t, now) && |kept| <= |m|
    ensures var e := Packaged(counts, kept, dropped);
            CountsWhole(e, m, t, now) && e.total == |m| && e.truncated == |m| - |kept|
  {
    hide InCell, CELLS;
    KindsPartition(m);
  }

  lemma KeptAfterSort(all: seq<Summary>, x: Summary, limit: nat)
    requires InOrder(all, ListedBefore)
    ensures var sorted := Sorted(FirstN(all, limit) + [x], ListedBefore);
            && FirstN(sorted, limit) == FirstN(Inserted(x, all, ListedBefore), limit)
            && |sorted| == |FirstN(all, limit)| + 1
  {
    var kept := FirstN(all, limit);
    assert InOrder(kept, ListedBefore);
    assert (kept + [x])[..|kept|] == kept;
    hide Inserted, InOrder, FirstN;
    SortedFixed(kept, ListedBefore);
    InsertedContents(x, kept, ListedBefore);
    InsertedPrefix(x, all, limit, ListedBefore);
  }

  /** Push, re-sort, and pop when over the limit. */
  method KeepBest(kept: seq<Summary>, x: Summary, limit: nat, ghost all: seq<Summary>) returns (r: seq<Summary>)
    requires InOrder(all, ListedBefore) && kept == FirstN(all, limit)
    ensures r == FirstN(Inserted(x, all, ListedBefore), limit)
  {
    hide Inserted, Sorted, InOrder;
    if limit == 0 {
      return kept;
    }
    r := Sorted(kept + [x], ListedBefore);
    KeptAfterSort(all, x, limit);
    if |r| > limit {
      r := r[..|r| - 1];
    }
  }

  /** The export keeps only `limit` summaries at a time, re-sorting after each one. */
  method ExportSummaries(m: Sessions, dropped: u64, t: Thresholds, now: int, limit: nat) returns (e: Exported)
    requires Keyed(m)
    ensures exists all :: ListsSessions(all, m, t, now) && e.sessions == FirstN(all, limit)
    ensures CountsWhole(e, m, t, now)
    ensures e.total == |m| && e.truncated == |m| - |e.sessions| && e.dropped == dropped
  {
    hide Materialized, Inserted, InOrder, ListsSessions, CountsWhole, CELLS, Walked;
    var kept: seq<Summary> := [];
    var counts := Exported([], 0, 0, 0, 0, map c | c in CELLS :: 0, 0);
    var pending := m.Keys;
    ghost var all: seq<Summary> := [];
    WalkedEnds(m);
    EmptyListing(t, now);
    CountsEmpty(t, now);
    while pending != {}
      invariant pending <= m.Keys
      invariant ListsSessions(all, Walked(m, pending), t, now)
      invariant kept == FirstN(all, limit)
      invariant CountsWhole(counts, Walked(m, pending), t, now)
      decreases |pending|
    {
      var k :| k in pending;
      var x := Materialized(m[k].summary, t, now);
      WalkedStep(m, pending, k);
      ListingFacts(all, Walked(m, pending), t, now);
      SessionListExtended(all, Walked(m, pending), k, m[k], t, now);
      CountsStep(counts, Walked(m, pending), k, m[k], t, now);
      counts := CountsWith(counts, x);
      kept := KeepBest(kept, x, limit, all);
      all := Inserted(x, all, ListedBefore);
      pending := pending - {k};
    }
    ListingFacts(all, m, t, now);
    PackagedFacts(counts, kept, dropped, m, t, now);
    e := Packaged(counts, kept, dropped);
  }

  lemma CellListed(c: Cell)
    ensures c in CELLS
  {
    match c {
      case (Instrumented, Healthy) => assert CELLS[0] == c;
      case (Instrumented, Degraded) => assert CELLS[1] == c;
      case (Instrumented, Critical) => assert CELLS[2] == c;
      case (Instrumented, LegacyHealth) => assert CELLS[3] == c;
      case (Legacy, Healthy) => assert CELLS[4] == c;
      case (Legacy, Degraded) => assert CELLS[5] == c;
      case (Legacy, Critical) => assert CELLS[6] == c;
      case (Legacy, LegacyHealth) => assert CELLS[7] == c;
    }
  }

  lemma KindsPartition(m: Sessions)
    ensures |OfKind(m, Instrumented)| + |OfKind(m, Legacy)| == |m|
  {
    assert m.Keys == OfKind(m, Instrumented) + OfKind(m, Legacy);
    assert |m| == |m.Keys|;
  }

  lemma CellsConsistent(r: Record, t: Thresholds, now: int)
    ensures CellOf(r, t, now).1 == LegacyHealth <==> r.summary.kind == Legacy
    ensures CellOf(r, t, now).0 == r.summary.kind
  {
    MaterializedFrame(r.summary, t, now);
  }

  ghost predicate Consistent(m: Sessions, t: Thresholds, now: int) {
    forall k :: k in m ==>
      && (CellOf(m[k], t, now).1 == LegacyHealth <==> m[k].summary.kind == Legacy)
      && CellOf(m[k], t, now).0 == m[k].summary.kind
  }

  lemma AlwaysConsistent(m: Sessions, t: Thresholds, now: int)
    ensures Consistent(m, t, now)
  {
    forall k | k in m
      ensures CellOf(m[k], t, now).1 == LegacyHealth <==> m[k].summary.kind == Legacy
      ensures CellOf(m[k], t, now).0 == m[k].summary.kind
    {
      CellsConsistent(m[k], t, now);
    }
  }

  lemma ThreeParts<T>(a: set<T>, b: set<T>, c: set<T>)
    requires a !! b !! c
    ensures |a + b + c| == |a| + |b| + |c|
  {
  }

  lemma InstrumentedCells(m: Sessions, t: Thresholds, now: int)
    requires Consistent(m, t, now)
    ensures |OfKind(m, Instrumented)| == |InCell(m, (Instrumented, Healthy), t, now)|
                                         + |InCell(m, (Instrumented, Degraded), t, now)|
                                         + |InCell(m, (Instrumented, Critical), t, now)|
  {
    hide CellOf;
    var a := InCell(m, (Instrumented, Healthy), t, now);
    var b := InCell(m, (Instrumented, Degraded), t, now);
    var c := InCell(m, (Instrumented, Critical), t, now);
    assert OfKind(m, Instrumented) == a + b + c;
    ThreeParts(a, b, c);
  }

  lemma LegacyCells(m: Sessions, t: Thresholds, now: int)
    requires Consistent(m, t, now)
    ensures OfKind(m, Legacy) == InCell(m, (Legacy, LegacyHealth), t, now)
    ensures forall c: Cell :: (c.0 == Legacy <==> c.1 != LegacyHealth) ==> InCell(m, c, t, now) == {}
  {
    hide CellOf;
  }

  /** The eight cells account for every session, and a cell whose kind and health disagree is always empty. */
  lemma CellsPartition(e: Exported, m: Sessions, t: Thresholds, now: int)
    requires CountsWhole(e, m, t, now)
    ensures forall c :: c in CELLS && (c.0 == Legacy <==> c.1 != LegacyHealth) ==> e.healthCounts[c] == 0
    ensures e.healthCounts[CELLS[0]] + e.healthCounts[CELLS[1]] + e.healthCounts[CELLS[2]] == e.instrumented
    ensures e.healthCounts[CELLS[7]] == e.legacy
    ensures e.instrumented + e.legacy == |m|
  {
    AlwaysConsistent(m, t, now);
    hide CellOf, Consistent, InCell, OfKind;
    InstrumentedCells(m, t, now);
    LegacyCells(m, t, now);
    KindsPartition(m);
  }
}
