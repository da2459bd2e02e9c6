/** Session identity: the two textual id forms, and the string order used to break ties. */
module SessionIds {
  import opened Decimal

  datatype SessionKind = Instrumented | Legacy

  function InstrumentedId(pid: int, startedAt: int): string {
    "instrumented:" + Format(startedAt) + ":" + Format(pid)
  }

  function LegacyId(pid: int, startedAt: int): string {
    "legacy:" + Format(startedAt) + ":" + Format(pid)
  }

  function IdOf(kind: SessionKind, pid: int, startedAt: int): string {
    if kind == Instrumented then InstrumentedId(pid, startedAt) else LegacyId(pid, startedAt)
  }

  lemma SplitAtColon(a: string, b: string, c: string, d: string)
    requires a + ":" + b == c + ":" + d
    requires ':' !in a && ':' !in c
    ensures a == c && b == d
  {
    var left, right := a + ":" + b, c + ":" + d;
    assert left[|a|] == ':' && right[|c|] == ':';
    assert forall i :: 0 <= i < |c| ==> right[i] == c[i] && c[i] != ':';
    assert forall i :: 0 <= i < |a| ==> left[i] == a[i] && a[i] != ':';
    assert |a| == |c|;
    assert a == left[..|a|] && c == right[..|c|];
    assert b == left[|a| + 1..] && d == right[|c| + 1..];
  }

  /** Stripping the kind prefix leaves the start time and the process id. */
  lemma IdSuffix(kind: SessionKind, pid: int, startedAt: int)
    ensures var prefix := if kind == Instrumented then "instrumented:" else "legacy:";
            var id := IdOf(kind, pid, startedAt);
            prefix <= id && id[|prefix|..] == Format(startedAt) + ":" + Format(pid)
  {
    var tail := Format(startedAt) + ":" + Format(pid);
    if kind == Instrumented {
      assert InstrumentedId(pid, startedAt) == "instrumented:" + tail;
    } else {
      assert LegacyId(pid, startedAt) == "legacy:" + tail;
    }
  }

  /** A session id determines the session's kind, process id and start time. */
  lemma IdDeterminesIdentity(k1: SessionKind, p1: int, s1: int, k2: SessionKind, p2: int, s2: int)
    requires IdOf(k1, p1, s1) == IdOf(k2, p2, s2)
    ensures k1 == k2 && p1 == p2 && s1 == s2
  {
    var id := IdOf(k1, p1, s1);
    IdSuffix(k1, p1, s1);
    IdSuffix(k2, p2, s2);
    assert id[0] == (if k1 == Instrumented then 'i' else 'l');
    assert id[0] == (if k2 == Instrumented then 'i' else 'l');
    FormatHasNoColon(s1);
    FormatHasNoColon(s2);
    SplitAtColon(Format(s1), Format(p1), Format(s2), Format(p2));
    FormatInjective(s1, s2);
    FormatInjective(p1, p2);
  }

  /** The form of the two ids. */
  lemma IdForms()
    ensures InstrumentedId(7, 5) == "instrumented:5:7" && LegacyId(7, 5) == "legacy:5:7"
  {
    assert Format(7) == "7" && Format(5) == "5";
  }

  lemma KindsDiffer(p1: int, s1: int, p2: int, s2: int)
    ensures InstrumentedId(p1, s1) != LegacyId(p2, s2)
  {
    hide IdOf;
    assert InstrumentedId(p1, s1)[0] == 'i' && LegacyId(p2, s2)[0] == 'l';
  }

  /** Lexicographic order on code points. */
  predicate StringLess(a: string, b: string) {
    b != [] && (a == [] || a[0] < b[0] || (a[0] == b[0] && StringLess(a[1..], b[1..])))
  }

  /** Smaller: a proper prefix, or smaller at the first difference. */
  lemma {:induction false} StringLessExactly(a: string, b: string)
    ensures StringLess(a, b) <==>
              exists n :: 0 <= n <= |a| && n < |b| && a[..n] == b[..n] && (n == |a| || a[n] < b[n])
  {
    if StringLess(a, b) {
      if a == [] || a[0] < b[0] {
        assert a[..0] == b[..0];
      } else {
        StringLessExactly(a[1..], b[1..]);
        var n :| 0 <= n <= |a[1..]| && n < |b[1..]| && a[1..][..n] == b[1..][..n]
                 && (n == |a[1..]| || a[1..][n] < b[1..][n]);
        assert a[..n + 1] == [a[0]] + a[1..][..n] && b[..n + 1] == [b[0]] + b[1..][..n];
      }
    }
    if n :| 0 <= n <= |a| && n < |b| && a[..n] == b[..n] && (n == |a| || a[n] < b[n]) {
      PrefixLess(a, b, n);
    }
  }

  lemma {:induction false} PrefixLess(a: string, b: string, n: nat)
    requires n <= |a| && n < |b| && a[..n] == b[..n] && (n == |a| || a[n] < b[n])
    ensures StringLess(a, b)
  {
    if n > 0 {
      assert a[0] == a[..n][0] == b[..n][0] == b[0];
      assert a[1..][..n - 1] == a[..n][1..] && b[1..][..n - 1] == b[..n][1..];
      PrefixLess(a[1..], b[1..], n - 1);
    }
  }

  lemma {:induction false} StringLessTotal(a: string, b: string)
    ensures a == b || StringLess(a, b) || StringLess(b, a)
  {
    if a != [] && b != [] && a[0] == b[0] {
      StringLessTotal(a[1..], b[1..]);
      assert a == [a[0]] + a[1..] && b == [b[0]] + b[1..];
    }
  }

  lemma {:induction false} StringLessAsymmetric(a: string, b: string)
    requires StringLess(a, b)
    ensures !StringLess(b, a) && a != b
  {
    if a != [] && a[0] == b[0] {
      StringLessAsymmetric(a[1..], b[1..]);
    }
  }

  lemma {:induction false} StringLessTransitive(a: string, b: string, c: string)
    requires StringLess(a, b) && StringLess(b, c)
    ensures StringLess(a, c)
  {
    if a != [] && a[0] == b[0] && b[0] == c[0] {
      StringLessTransitive(a[1..], b[1..], c[1..]);
    }
  }
}
