/**
 A bounded time window kept incrementally, against the unbounded log it stands for.
 `at` gives an element's timestamp.
 */
module SlidingWindow {
  import opened Prelude

  ghost predicate Chronological<T>(s: seq<T>, at: T -> int) {
    forall i, j :: 0 <= i <= j < |s| ==> at(s[i]) <= at(s[j])
  }

  ghost predicate StrictlyChronological<T>(s: seq<T>, at: T -> int) {
    forall i, j :: 0 <= i < j < |s| ==> at(s[i]) < at(s[j])
  }

  /** Append, or replace the newest element when it has the same timestamp. */
  function Upserted<T>(s: seq<T>, at: T -> int, x: T): seq<T> {
    if s != [] && at(Last(s)) == at(x) then s[..|s| - 1] + [x] else s + [x]
  }

  function DroppedBefore<T>(s: seq<T>, at: T -> int, cutoff: int): seq<T> {
    if s != [] && at(s[0]) < cutoff then DroppedBefore(s[1..], at, cutoff) else s
  }

  function Trimmed<T>(s: seq<T>, at: T -> int, window: int): seq<T> {
    if s == [] then [] else DroppedBefore(s, at, at(Last(s)) - window)
  }

  method TrimHistory<T>(s: seq<T>, at: T -> int, window: int) returns (r: seq<T>)
    ensures r == Trimmed(s, at, window)
  {
    r := s;
    if s == [] {
      return;
    }
    var cutoff := at(Last(s)) - window;
    while r != [] && at(r[0]) < cutoff
      invariant DroppedBefore(r, at, cutoff) == DroppedBefore(s, at, cutoff)
      decreases |r|
    {
      r := r[1..];
    }
  }

  /** The last write at each timestamp. */
  function LastWrites<T>(log: seq<T>, at: T -> int): seq<T> {
    if log == [] then []
    else if |log| > 1 && at(log[0]) == at(log[1]) then LastWrites(log[1..], at)
    else [log[0]] + LastWrites(log[1..], at)
  }

  function NoOlderThan<T>(s: seq<T>, at: T -> int, cutoff: int): seq<T> {
    if s == [] then []
    else if at(s[0]) >= cutoff then [s[0]] + NoOlderThan(s[1..], at, cutoff)
    else NoOlderThan(s[1..], at, cutoff)
  }

  /** What the window should hold: the last writes no older than `window` before the newest. */
  function Retained<T>(log: seq<T>, at: T -> int, window: int): seq<T> {
    if log == [] then [] else NoOlderThan(LastWrites(log, at), at, at(Last(log)) - window)
  }

  lemma {:induction false} LastWritesShape<T>(log: seq<T>, at: T -> int)
    requires Chronological(log, at)
    ensures var w := LastWrites(log, at);
            && StrictlyChronological(w, at)
            && (log != [] ==> w != [] && Last(w) == Last(log) && at(w[0]) == at(log[0]))
  {
    if log != [] {
      LastWritesShape(log[1..], at);
    }
  }

  /** `x` may be appended to `s` without going back in time. */
  ghost predicate Follows<T>(s: seq<T>, at: T -> int, x: T) {
    Chronological(s, at) && (s != [] ==> at(Last(s)) <= at(x))
  }

  lemma {:induction false} UpsertedCons<T>(head: T, s: seq<T>, at: T -> int, x: T)
    requires s != []
    ensures [head] + Upserted(s, at, x) == Upserted([head] + s, at, x)
  {
    assert ([head] + s)[..|s|] == [head] + s[..|s| - 1];
  }

  lemma {:induction false} LastWritesSnoc<T>(log: seq<T>, at: T -> int, x: T)
    requires Follows(log, at, x)
    ensures LastWrites(log + [x], at) == Upserted(LastWrites(log, at), at, x)
  {
    if |log| == 0 {
      assert log + [x] == [x];
    } else if |log| == 1 {
      assert (log + [x])[1..] == [x];
      assert log[1..] == [] && [x][1..] == [];
      assert LastWrites([x], at) == [x] && LastWrites(log, at) == [log[0]];
    } else {
      var tail := log[1..];
      assert (log + [x])[1..] == tail + [x];
      LastWritesSnoc(tail, at, x);
      LastWritesShape(tail, at);
      hide Upserted;
      UpsertedCons(log[0], LastWrites(tail, at), at, x);
    }
  }

  lemma {:induction false} DropIsFilter<T>(s: seq<T>, at: T -> int, cutoff: int)
    requires StrictlyChronological(s, at)
    ensures DroppedBefore(s, at, cutoff) == NoOlderThan(s, at, cutoff)
    ensures StrictlyChronological(NoOlderThan(s, at, cutoff), at)
    ensures s != [] && at(Last(s)) >= cutoff ==>
              NoOlderThan(s, at, cutoff) != [] && Last(NoOlderThan(s, at, cutoff)) == Last(s)
    ensures forall x :: x in NoOlderThan(s, at, cutoff) ==> x in s
  {
    if s != [] {
      DropIsFilter(s[1..], at, cutoff);
      if at(s[0]) >= cutoff {
        assert forall i :: 0 <= i < |s[1..]| ==> at(s[1..][i]) >= cutoff;
        KeepsAll(s[1..], at, cutoff);
        assert s == [s[0]] + s[1..];
      }
    }
  }

  lemma {:induction false} KeepsAll<T>(s: seq<T>, at: T -> int, cutoff: int)
    requires forall i :: 0 <= i < |s| ==> at(s[i]) >= cutoff
    ensures NoOlderThan(s, at, cutoff) == s
  {
    if s != [] {
      KeepsAll(s[1..], at, cutoff);
    }
  }

  lemma {:induction false} FilterConcat<T>(s: seq<T>, t: seq<T>, at: T -> int, cutoff: int)
    ensures NoOlderThan(s + t, at, cutoff) == NoOlderThan(s, at, cutoff) + NoOlderThan(t, at, cutoff)
  {
    if s == [] {
      assert s + t == t;
    } else {
      assert (s + t)[1..] == s[1..] + t;
      FilterConcat(s[1..], t, at, cutoff);
      var front, back := NoOlderThan(s[1..], at, cutoff), NoOlderThan(t, at, cutoff);
      assert [s[0]] + (front + back) == [s[0]] + front + back;
    }
  }

  lemma {:induction false} FilterTwice<T>(s: seq<T>, at: T -> int, weaker: int, cutoff: int)
    requires weaker <= cutoff
    ensures NoOlderThan(NoOlderThan(s, at, weaker), at, cutoff) == NoOlderThan(s, at, cutoff)
  {
    if s != [] {
      FilterTwice(s[1..], at, weaker, cutoff);
    }
  }

  lemma {:induction false} RetainedShape<T>(log: seq<T>, at: T -> int, window: int)
    requires Chronological(log, at) && window >= 0
    ensures var r := Retained(log, at, window);
            && StrictlyChronological(r, at)
            && (log != [] ==> r != [] && Last(r) == Last(log))
  {
    if log != [] {
      LastWritesShape(log, at);
      DropIsFilter(LastWrites(log, at), at, at(Last(log)) - window);
    }
  }

  lemma {:induction false} LastWriteAt<T>(log: seq<T>, at: T -> int, x: T) returns (y: T)
    requires x in log
    ensures y in LastWrites(log, at) && at(y) == at(x)
  {
    if x in log[1..] {
      y := LastWriteAt(log[1..], at, x);
    } else if |log| > 1 && at(log[0]) == at(log[1]) {
      y := LastWriteAt(log[1..], at, log[1]);
    } else {
      y := log[0];
    }
  }

  lemma {:induction false} LastWriteLogged<T>(log: seq<T>, at: T -> int, y: T)
    requires y in LastWrites(log, at)
    ensures y in log
  {
    if y in LastWrites(log[1..], at) {
      LastWriteLogged(log[1..], at, y);
    }
  }

  lemma {:induction false} FilterMember<T>(s: seq<T>, at: T -> int, cutoff: int, x: T)
    ensures x in NoOlderThan(s, at, cutoff) <==> x in s && at(x) >= cutoff
  {
    if s != [] {
      FilterMember(s[1..], at, cutoff, x);
    }
  }

  /** The window holds only young enough entries of the log. */
  lemma RetainedLogged<T>(log: seq<T>, at: T -> int, window: int, y: T)
    requires y in Retained(log, at, window)
    ensures y in log && at(y) >= at(Last(log)) - window
  {
    FilterMember(LastWrites(log, at), at, at(Last(log)) - window, y);
    LastWriteLogged(log, at, y);
  }

  /** The window holds an entry for every instant of the log that is young enough. */
  lemma RetainedCovers<T>(log: seq<T>, at: T -> int, window: int, x: T) returns (y: T)
    requires x in log && at(x) >= at(Last(log)) - window
    ensures y in Retained(log, at, window) && at(y) == at(x)
  {
    y := LastWriteAt(log, at, x);
    FilterMember(LastWrites(log, at), at, at(Last(log)) - window, y);
  }

  /** Filtering before an upsert does not change what a later, tighter filter keeps. */
  lemma {:induction false} FilterUpserted<T>(writes: seq<T>, at: T -> int, older: int, cutoff: int, x: T)
    requires writes != [] && older <= at(Last(writes)) && older <= cutoff
    ensures NoOlderThan(Upserted(NoOlderThan(writes, at, older), at, x), at, cutoff) ==
            NoOlderThan(Upserted(writes, at, x), at, cutoff)
  {
    var front, newest := writes[..|writes| - 1], Last(writes);
    assert writes == front + [newest];
    FilterConcat(front, [newest], at, older);
    var kept := NoOlderThan(front, at, older);
    assert NoOlderThan(writes, at, older) == kept + [newest];
    FilterTwice(front, at, older, cutoff);
    FilterTwice(writes, at, older, cutoff);
    FilterConcat(kept, [x], at, cutoff);
    FilterConcat(front, [x], at, cutoff);
    FilterConcat(kept + [newest], [x], at, cutoff);
    FilterConcat(writes, [x], at, cutoff);
    if at(newest) == at(x) {
      assert Upserted(kept + [newest], at, x) == kept + [x];
      assert Upserted(writes, at, x) == front + [x];
    }
  }

  lemma {:induction false} TrimmedUpserted<T>(s: seq<T>, at: T -> int, x: T, window: int)
    requires StrictlyChronological(s, at)
    requires s != [] ==> at(Last(s)) <= at(x)
    ensures Trimmed(Upserted(s, at, x), at, window) == NoOlderThan(Upserted(s, at, x), at, at(x) - window)
  {
    var u := Upserted(s, at, x);
    assert StrictlyChronological(u, at) && Last(u) == x;
    DropIsFilter(u, at, at(x) - window);
  }

  /** Upserting into the bounded window and trimming it keeps it equal to the view of the unbounded log. */
  lemma {:induction false} RetainedStep<T>(log: seq<T>, at: T -> int, window: int, x: T)
    requires Follows(log, at, x) && window >= 0
    ensures Trimmed(Upserted(Retained(log, at, window), at, x), at, window) == Retained(log + [x], at, window)
  {
    RetainedShape(log, at, window);
    TrimmedUpserted(Retained(log, at, window), at, x, window);
    LastWritesSnoc(log, at, x);
    if log != [] {
      LastWritesShape(log, at);
      FilterUpserted(LastWrites(log, at), at, at(Last(log)) - window, at(x) - window, x);
    }
  }

  ghost predicate Pairwise<T>(s: seq<T>, related: (T, T) -> bool) {
    forall i, j :: 0 <= i < j < |s| ==> related(s[i], s[j])
  }

  /** The window holds elements of the log in log order, so every ordered relation carries over. */
  lemma {:induction false} RetainedPairwise<T>(log: seq<T>, at: T -> int, window: int, related: (T, T) -> bool)
    requires Pairwise(log, related)
    ensures Pairwise(Retained(log, at, window), related)
    ensures forall x :: x in Retained(log, at, window) ==> x in log
  {
    if log != [] {
      LastWritesPairwise(log, at, related);
      FilterPairwise(LastWrites(log, at), at, at(Last(log)) - window, related);
    }
  }

  lemma {:induction false} LastWritesPairwise<T>(log: seq<T>, at: T -> int, related: (T, T) -> bool)
    requires Pairwise(log, related)
    ensures Pairwise(LastWrites(log, at), related)
    ensures forall x :: x in LastWrites(log, at) ==> x in log
  {
    if log != [] {
      LastWritesPairwise(log[1..], at, related);
      assert forall x :: x in log[1..] ==> related(log[0], x);
      assert forall j :: 0 <= j < |LastWrites(log[1..], at)| ==> LastWrites(log[1..], at)[j] in log[1..];
    }
  }

  lemma {:induction false} FilterPairwise<T>(s: seq<T>, at: T -> int, cutoff: int, related: (T, T) -> bool)
    requires Pairwise(s, related)
    ensures Pairwise(NoOlderThan(s, at, cutoff), related)
    ensures forall x :: x in NoOlderThan(s, at, cutoff) ==> x in s
  {
    if s != [] {
      FilterPairwise(s[1..], at, cutoff, related);
      assert forall x :: x in s[1..] ==> related(s[0], x);
      assert forall j :: 0 <= j < |NoOlderThan(s[1..], at, cutoff)| ==> NoOlderThan(s[1..], at, cutoff)[j] in s[1..];
    }
  }

  ghost predicate SameTimes<S, T>(s: seq<S>, t: seq<T>, atS: S -> int, atT: T -> int) {
    |s| == |t| && forall i :: 0 <= i < |s| ==> atS(s[i]) == atT(t[i])
  }

  /** The timestamps in the window depend only on the timestamps in the log. */
  lemma {:induction false} RetainedSameTimes<S, T>(s: seq<S>, t: seq<T>, atS: S -> int, atT: T -> int, window: int)
    requires SameTimes(s, t, atS, atT)
    ensures SameTimes(Retained(s, atS, window), Retained(t, atT, window), atS, atT)
  {
    if s != [] {
      LastWritesSameTimes(s, t, atS, atT);
      FilterSameTimes(LastWrites(s, atS), LastWrites(t, atT), atS, atT, atS(Last(s)) - window);
    }
  }

  lemma {:induction false} LastWritesSameTimes<S, T>(s: seq<S>, t: seq<T>, atS: S -> int, atT: T -> int)
    requires SameTimes(s, t, atS, atT)
    ensures SameTimes(LastWrites(s, atS), LastWrites(t, atT), atS, atT)
  {
    if s != [] {
      LastWritesSameTimes(s[1..], t[1..], atS, atT);
    }
  }

  lemma {:induction false} FilterSameTimes<S, T>(s: seq<S>, t: seq<T>, atS: S -> int, atT: T -> int, cutoff: int)
    requires SameTimes(s, t, atS, atT)
    ensures SameTimes(NoOlderThan(s, atS, cutoff), NoOlderThan(t, atT, cutoff), atS, atT)
  {
    if s != [] {
      FilterSameTimes(s[1..], t[1..], atS, atT, cutoff);
    }
  }
}
