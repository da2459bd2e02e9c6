/** Shared value types: optional values, saturating 64-bit counters, small sequence helpers. */
module Prelude {

  datatype Option<+T> = None | Some(value: T)

  /** Rust's `Option::or`. */
  function OrElse<T>(first: Option<T>, second: Option<T>): Option<T> {
    if first.Some? then first else second
  }

  function UnwrapOr<T>(o: Option<T>, default: T): T {
    if o.Some? then o.value else default
  }

  const U64_MAX: int := 0xFFFF_FFFF_FFFF_FFFF
  const I64_LIMIT: int := 0x8000_0000_0000_0000

  type u64 = n: int | 0 <= n <= U64_MAX

  function Min(a: int, b: int): int { if a <= b then a else b }

  function Max(a: int, b: int): int { if a >= b then a else b }

  function SaturatingAdd(a: u64, b: u64): u64 { Min(a + b, U64_MAX) }

  function SaturatingSub(a: u64, b: u64): u64 { if a >= b then a - b else 0 }

  function Last<T>(s: seq<T>): T
    requires s != []
  {
    s[|s| - 1]
  }

  /** The last `n` elements, or all of them when there are fewer. */
  function LastN<T>(s: seq<T>, n: nat): seq<T> {
    if |s| <= n then s else s[|s| - n..]
  }

  /** The first `n` elements, or all of them when there are fewer. */
  function FirstN<T>(s: seq<T>, n: nat): seq<T> {
    if |s| <= n then s else s[..n]
  }

  lemma ConcatAssociative<T>(a: seq<T>, b: seq<T>, c: seq<T>)
    ensures (a + b) + c == a + (b + c)
  {
  }

  /** The values present, in order. */
  function Somes<T>(s: seq<Option<T>>): seq<T> {
    if s == [] then []
    else Somes(s[..|s| - 1]) + (if Last(s).Some? then [Last(s).value] else [])
  }

  /** `to` is what `from` holds at the positions `pos`, in order, and `from` holds nothing anywhere else. */
  ghost predicate Picks<T>(from: seq<Option<T>>, to: seq<T>, pos: seq<nat>) {
    && |pos| == |to|
    && (forall i, j :: 0 <= i < j < |pos| ==> pos[i] < pos[j])
    && (forall i :: 0 <= i < |pos| ==> pos[i] < |from| && from[pos[i]] == Some(to[i]))
    && (forall j :: 0 <= j < |from| && from[j].Some? ==> j in pos)
  }

  lemma {:induction false} SomesPicks<T>(from: seq<Option<T>>) returns (pos: seq<nat>)
    ensures Picks(from, Somes(from), pos)
  {
    if from == [] {
      pos := [];
    } else {
      var front, n := from[..|from| - 1], |from| - 1;
      var early := SomesPicks(front);
      pos := early + (if from[n].Some? then [n] else []);
      forall j | 0 <= j < |from| && from[j].Some?
        ensures j in pos
      {
        assert j < n ==> front[j].Some?;
      }
    }
  }
}
