/** Sorting by a strict total order: the result depends on the elements only, and so does every prefix of it. */
module Sorting {
  import opened Prelude

  ghost predicate Transitive<T(!new)>(less: (T, T) -> bool) {
    forall a, b, c :: less(a, b) && less(b, c) ==> less(a, c)
  }

  ghost predicate Irreflexive<T(!new)>(less: (T, T) -> bool) {
    forall a :: !less(a, a)
  }

  ghost predicate InOrder<T>(s: seq<T>, less: (T, T) -> bool) {
    forall i, j :: 0 <= i < j < |s| ==> less(s[i], s[j])
  }

  function Inserted<T>(x: T, s: seq<T>, less: (T, T) -> bool): seq<T> {
    if s == [] then [x]
    else if less(s[0], x) then [s[0]] + Inserted(x, s[1..], less)
    else [x] + s
  }

  /** Sorting by insertion. On distinct elements of a total order any correct sort gives this result. */
  function Sorted<T>(s: seq<T>, less: (T, T) -> bool): seq<T> {
    if s == [] then [] else Inserted(Last(s), Sorted(s[..|s| - 1], less), less)
  }

  lemma {:induction false} InsertedContents<T>(x: T, s: seq<T>, less: (T, T) -> bool)
    ensures |Inserted(x, s, less)| == |s| + 1
    ensures forall y :: y in Inserted(x, s, less) <==> y == x || y in s
  {
    if s != [] && less(s[0], x) {
      InsertedContents(x, s[1..], less);
      assert forall y :: y in s <==> y == s[0] || y in s[1..];
    }
  }

  lemma {:induction false} InsertedInOrder<T(!new)>(x: T, s: seq<T>, less: (T, T) -> bool)
    requires Transitive(less) && InOrder(s, less)
    requires forall y :: y in s ==> (less(y, x) <==> !less(x, y))
    ensures InOrder(Inserted(x, s, less), less)
  {
    if s != [] {
      assert s[0] in s;
      if less(s[0], x) {
        InsertedInOrder(x, s[1..], less);
        InsertedContents(x, s[1..], less);
        assert forall y :: y in s[1..] ==> less(s[0], y);
        var tail := Inserted(x, s[1..], less);
        assert forall j :: 0 <= j < |tail| ==> tail[j] in tail;
      } else {
        assert forall j :: 0 < j < |s| ==> less(s[0], s[j]);
      }
    }
  }

  /** Only the first `n` elements decide the first `n` elements after an insertion. */
  lemma {:induction false} InsertedPrefix<T>(x: T, s: seq<T>, n: nat, less: (T, T) -> bool)
    ensures FirstN(Inserted(x, FirstN(s, n), less), n) == FirstN(Inserted(x, s, less), n)
  {
    if s != [] && |s| > n > 0 && less(s[0], x) {
      assert s[..n][1..] == s[1..][..n - 1];
      InsertedPrefix(x, s[1..], n - 1, less);
      InsertedContents(x, s[1..], less);
      InsertedContents(x, s[1..][..n - 1], less);
    }
  }

  lemma {:induction false} SortedFixed<T>(s: seq<T>, less: (T, T) -> bool)
    requires InOrder(s, less)
    ensures Sorted(s, less) == s
  {
    if s != [] {
      var front := s[..|s| - 1];
      SortedFixed(front, less);
      InsertedLast(Last(s), front, less);
    }
  }

  lemma {:induction false} InsertedLast<T>(x: T, s: seq<T>, less: (T, T) -> bool)
    requires forall y :: y in s ==> less(y, x)
    ensures Inserted(x, s, less) == s + [x]
  {
    if s != [] {
      assert s[0] in s;
      InsertedLast(x, s[1..], less);
    }
  }

  lemma FirstsEqual<T(!new)>(a: seq<T>, b: seq<T>, less: (T, T) -> bool)
    requires Transitive(less) && Irreflexive(less)
    requires InOrder(a, less) && InOrder(b, less) && a != [] && b != []
    requires a[0] in b && b[0] in a
    ensures a[0] == b[0]
  {
    var i :| 0 <= i < |b| && b[i] == a[0];
    var j :| 0 <= j < |a| && a[j] == b[0];
    assert forall m :: 0 < m < |b| ==> less(b[0], b[m]);
    assert forall m :: 0 < m < |a| ==> less(a[0], a[m]);
    assert !less(a[0], a[0]);
  }

  /** Two ordered sequences with the same elements are equal. */
  lemma {:induction false} InOrderUnique<T(!new)>(a: seq<T>, b: seq<T>, less: (T, T) -> bool)
    requires Transitive(less) && Irreflexive(less)
    requires InOrder(a, less) && InOrder(b, less) && |a| == |b|
    requires forall x :: x in a <==> x in b
    ensures a == b
  {
    if a != [] {
      assert a[0] in b && b[0] in a;
      FirstsEqual(a, b, less);
      forall x
        ensures x in a[1..] <==> x in b[1..]
      {
        HeadNotInTail(a, less);
        HeadNotInTail(b, less);
        assert x in a <==> x == a[0] || x in a[1..];
        assert x in b <==> x == b[0] || x in b[1..];
      }
      InOrderUnique(a[1..], b[1..], less);
    }
  }

  lemma HeadNotInTail<T(!new)>(a: seq<T>, less: (T, T) -> bool)
    requires Irreflexive(less) && InOrder(a, less) && a != []
    ensures a[0] !in a[1..]
  {
    assert forall j :: 0 < j < |a| ==> less(a[0], a[j]) && !less(a[0], a[0]);
  }
}
