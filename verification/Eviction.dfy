/** Eviction priority and the session cap. */
module Eviction {
  import opened Prelude
  import opened SessionIds
  import opened Records

  type Sessions = map<string, Record>

  /** Lower classes are evicted first: legacy, then instrumented and shut down, then instrumented and active. */
  function EvictionClass(r: Record): nat {
    match r.summary.kind
    case Legacy => 0
    case Instrumented => if r.shutdown then 1 else 2
  }

  predicate EvictedBefore(a: Record, b: Record) {
    || EvictionClass(a) < EvictionClass(b)
    || (&& EvictionClass(a) == EvictionClass(b)
        && (|| a.summary.lastObserved < b.summary.lastObserved
            || (&& a.summary.lastObserved == b.summary.lastObserved
                && (|| a.summary.startedAt < b.summary.startedAt
                    || (&& a.summary.startedAt == b.summary.startedAt
                        && StringLess(a.summary.sessionId, b.summary.sessionId))))))
  }

  lemma OrderTotal(a: Record, b: Record)
    requires a.summary.sessionId != b.summary.sessionId
    ensures EvictedBefore(a, b) <==> !EvictedBefore(b, a)
  {
    StringLessTotal(a.summary.sessionId, b.summary.sessionId);
    if StringLess(a.summary.sessionId, b.summary.sessionId) {
      StringLessAsymmetric(a.summary.sessionId, b.summary.sessionId);
    } else {
      StringLessAsymmetric(b.summary.sessionId, a.summary.sessionId);
    }
  }

  lemma OrderTransitive(a: Record, b: Record, c: Record)
    requires EvictedBefore(a, b) && EvictedBefore(b, c)
    ensures EvictedBefore(a, c)
  {
    if StringLess(a.summary.sessionId, b.summary.sessionId) && StringLess(b.summary.sessionId, c.summary.sessionId) {
      StringLessTransitive(a.summary.sessionId, b.summary.sessionId, c.summary.sessionId);
    }
  }

  /** Every record carries the id it is stored under. */
  ghost predicate Keyed(m: Sessions) {
    forall k :: k in m ==> m[k].summary.sessionId == k
  }

  ghost predicate IsWorst(m: Sessions, k: string) {
    k in m && forall j :: j in m && j != k ==> EvictedBefore(m[k], m[j])
  }

  /** The lowest-priority record, found by one pass in whatever order the table yields its entries. */
  method FindWorst(m: Sessions) returns (worst: Option<string>)
    requires Keyed(m)
    ensures worst.None? <==> m == map[]
    ensures worst.Some? ==> IsWorst(m, worst.value)
  {
    var pending := m.Keys;
    worst := None;
    while pending != {}
      invariant pending <= m.Keys
      invariant worst.None? <==> pending == m.Keys
      invariant worst.Some? ==> worst.value in m && worst.value !in pending
      invariant worst.Some? ==>
                  forall j :: j in m && j !in pending && j != worst.value ==> EvictedBefore(m[worst.value], m[j])
      decreases |pending|
    {
      var k :| k in pending;
      pending := pending - {k};
      if worst.None? {
        worst := Some(k);
      } else {
        OrderTotal(m[k], m[worst.value]);
        if EvictedBefore(m[k], m[worst.value]) {
          forall j | j in m && j !in pending && j != k
            ensures EvictedBefore(m[k], m[j])
          {
            if j != worst.value {
              OrderTransitive(m[k], m[worst.value], m[j]);
            }
          }
          worst := Some(k);
        }
      }
    }
    assert worst.None? ==> m.Keys == {};
  }

  lemma WorstExists(m: Sessions)
    requires Keyed(m) && m != map[]
    ensures exists k :: IsWorst(m, k)
    decreases |m|
  {
    var k :| k in m;
    var rest := m - {k};
    if rest == map[] {
      assert forall j :: j in m && j != k ==> j in rest;
      assert IsWorst(m, k);
    } else {
      assert rest.Keys == m.Keys - {k};
      WorstExists(rest);
      var w :| IsWorst(rest, w);
      OrderTotal(m[k], m[w]);
      var best := if EvictedBefore(m[k], m[w]) then k else w;
      forall j | j in m && j != best
        ensures EvictedBefore(m[best], m[j])
      {
        if best == k && j != w {
          assert j in rest;
          OrderTransitive(m[k], m[w], m[j]);
        } else if best == w && j != k {
          assert j in rest;
        }
      }
      assert IsWorst(m, best);
    }
  }

  ghost function Worst(m: Sessions): (k: string)
    requires Keyed(m) && m != map[]
    ensures IsWorst(m, k)
  {
    WorstExists(m);
    var k :| IsWorst(m, k);
    k
  }

  lemma WorstUnique(m: Sessions, j: string, k: string)
    requires Keyed(m) && IsWorst(m, j) && IsWorst(m, k)
    ensures j == k
  {
    if j != k {
      OrderTotal(m[j], m[k]);
    }
  }

  /** Evict the worst record until the cap is met. */
  ghost function Capped(m: Sessions, cap: nat): (r: Sessions)
    requires Keyed(m)
    ensures Keyed(r)
    decreases |m|
  {
    if |m| <= cap then m
    else
      var smaller := m - {Worst(m)};
      assert smaller.Keys == m.Keys - {Worst(m)};
      Capped(smaller, cap)
  }

  /** `r` holds the `cap` highest-priority records of `m`, unchanged. */
  ghost predicate IsTop(m: Sessions, r: Sessions, cap: nat) {
    && r.Keys <= m.Keys
    && (forall k :: k in r ==> r[k] == m[k])
    && |r| == Min(|m|, cap)
    && (forall k, e :: k in r && e in m && e !in r ==> EvictedBefore(m[e], m[k]))
  }

  lemma {:induction false} CappedIsTop(m: Sessions, cap: nat)
    requires Keyed(m)
    ensures IsTop(m, Capped(m, cap), cap)
    decreases |m|
  {
    if |m| > cap {
      var w := Worst(m);
      var smaller := m - {w};
      assert smaller.Keys == m.Keys - {w};
      CappedIsTop(smaller, cap);
      var r := Capped(smaller, cap);
      forall k, e | k in r && e in m && e !in r
        ensures EvictedBefore(m[e], m[k])
      {
        if e != w {
          assert e in smaller && k in smaller;
        }
      }
    }
  }

  /** The top records are determined by the priorities alone, so no iteration order can matter. */
  lemma TopUnique(m: Sessions, r: Sessions, s: Sessions, cap: nat)
    requires Keyed(m) && IsTop(m, r, cap) && IsTop(m, s, cap)
    ensures r == s
  {
    if r.Keys != s.Keys {
      assert |r.Keys| == |s.Keys|;
      assert exists a :: a in r && a !in s by {
        if r.Keys <= s.Keys {
          SubsetOfEqualSize(r.Keys, s.Keys);
        }
      }
      assert exists b :: b in s && b !in r by {
        if s.Keys <= r.Keys {
          SubsetOfEqualSize(s.Keys, r.Keys);
        }
      }
      var a :| a in r && a !in s;
      var b :| b in s && b !in r;
      OrderTotal(m[a], m[b]);
    }
  }

  lemma {:induction false} SubsetOfEqualSize<T>(a: set<T>, b: set<T>)
    requires a <= b && |a| == |b|
    ensures a == b
  {
    if a != b {
      var x :| x in b && x !in a;
      SubsetSize(a, b - {x});
    }
  }

  lemma {:induction false} SubsetSize<T>(a: set<T>, b: set<T>)
    requires a <= b
    ensures |a| <= |b|
  {
    if a != {} {
      var x :| x in a;
      SubsetSize(a - {x}, b - {x});
    }
  }

  ghost function OfClassAtLeast(m: Sessions, c: nat): set<string> {
    set k | k in m && EvictionClass(m[k]) >= c
  }

  /** Unless the higher classes alone overflow the cap, only lower classes are evicted. */
  lemma EvictsOnlyBelow(m: Sessions, cap: nat, c: nat, e: string)
    requires Keyed(m) && |OfClassAtLeast(m, c)| <= cap
    requires e in m && e !in Capped(m, cap)
    ensures EvictionClass(m[e]) < c
  {
    CappedIsTop(m, cap);
    var r := Capped(m, cap);
    if EvictionClass(m[e]) >= c {
      assert r.Keys + {e} <= OfClassAtLeast(m, c);
      SubsetSize(r.Keys + {e}, OfClassAtLeast(m, c));
      if |m| <= cap {
        SubsetOfEqualSize(r.Keys, m.Keys);
      }
    }
  }
}
