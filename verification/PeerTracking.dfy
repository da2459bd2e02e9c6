/** The constant-size peer record, as a fold over every address a session ever reported. */
module PeerTracking {
  import opened Prelude
  import opened Records

  /** One reported client address (absent when no client is attached) and its time. */
  datatype Sighting = Sighting(addr: Option<string>, at: int)

  function PeerAfter(peer: Peer, addr: Option<string>, at: int): Peer {
    if addr.None? then peer.(current := None)
    else
      var changed := peer.last != addr && peer.last.Some?;
      Peer(current := addr, last := addr,
           previous := if changed then peer.last else peer.previous,
           lastSeenAt := Some(at),
           changedAt := if changed then Some(at) else peer.changedAt)
  }

  function Attached(log: seq<Sighting>): seq<Sighting> {
    if log == [] then []
    else
      var front := Attached(log[..|log| - 1]);
      if Last(log).addr.Some? then front + [Last(log)] else front
  }

  /** The latest position whose address differs from the one before it, or 0. */
  function LastChange(seen: seq<Sighting>): (c: nat)
    ensures c == 0 || (0 < c < |seen| && seen[c].addr != seen[c - 1].addr)
    ensures forall i :: c < i < |seen| ==> seen[i].addr == seen[i - 1].addr
    ensures c == 0 <==> forall i :: 0 < i < |seen| ==> seen[i].addr == seen[i - 1].addr
  {
    if |seen| < 2 then 0
    else if Last(seen).addr != seen[|seen| - 2].addr then |seen| - 1
    else
      var front := seen[..|seen| - 1];
      assert forall i :: 0 <= i < |front| ==> front[i] == seen[i];
      LastChange(front)
  }

  /** What the peer record should say about a whole log of sightings. */
  function PeerOf(log: seq<Sighting>): Peer {
    var seen := Attached(log);
    var c := LastChange(seen);
    Peer(current := if log == [] then None else Last(log).addr,
         last := if seen == [] then None else Last(seen).addr,
         previous := if c == 0 then None else seen[c - 1].addr,
         lastSeenAt := if seen == [] then None else Some(Last(seen).at),
         changedAt := if c == 0 then None else Some(seen[c].at))
  }

  lemma {:induction false} AttachedAreSightings(log: seq<Sighting>)
    ensures forall s :: s in Attached(log) <==> s in log && s.addr.Some?
  {
    if log != [] {
      AttachedAreSightings(log[..|log| - 1]);
      assert log == log[..|log| - 1] + [Last(log)];
    }
  }

  lemma AttachedSnoc(log: seq<Sighting>, s: Sighting)
    ensures Attached(log + [s]) == if s.addr.Some? then Attached(log) + [s] else Attached(log)
  {
    assert (log + [s])[..|log|] == log;
  }

  lemma LastChangeSnoc(seen: seq<Sighting>, s: Sighting)
    ensures LastChange(seen + [s]) ==
            if seen != [] && Last(seen).addr != s.addr then |seen| else LastChange(seen)
  {
    assert (seen + [s])[..|seen|] == seen;
  }

  /** Updating the record by one sighting tracks the fold over the log. */
  lemma {:induction false} PeerStep(log: seq<Sighting>, s: Sighting)
    ensures PeerAfter(PeerOf(log), s.addr, s.at) == PeerOf(log + [s])
  {
    hide Attached, LastChange;
    var seen := Attached(log);
    AttachedAreSightings(log);
    AttachedSnoc(log, s);
    LastChangeSnoc(seen, s);
    assert seen != [] ==> Last(seen) in seen;
    var c, after := LastChange(seen), seen + [s];
    assert 0 < c ==> after[c] == seen[c] && after[c - 1] == seen[c - 1];
  }

  predicate RouteShiftObserved(peer: Peer) {
    peer.previous.Some? && peer.last.Some? && peer.changedAt.Some? && peer.previous != peer.last
  }

  ghost predicate AddressEverChanged(log: seq<Sighting>) {
    var seen := Attached(log);
    exists i :: 0 < i < |seen| && seen[i].addr != seen[i - 1].addr
  }

  lemma ConstantAfterLastChange(seen: seq<Sighting>, i: nat)
    requires LastChange(seen) <= i < |seen|
    ensures seen[i].addr == Last(seen).addr
    decreases |seen| - i
  {
    if i < |seen| - 1 {
      ConstantAfterLastChange(seen, i + 1);
    }
  }

  /** A route shift is reported iff the sequence of attached addresses ever changed value. */
  lemma {:induction false} RouteShiftIffChanged(log: seq<Sighting>)
    ensures RouteShiftObserved(PeerOf(log)) <==> AddressEverChanged(log)
  {
    var seen := Attached(log);
    AttachedAreSightings(log);
    var c := LastChange(seen);
    if c > 0 {
      assert seen[c - 1] in seen;
      assert Last(seen) in seen;
      ConstantAfterLastChange(seen, c);
    }
  }

  ghost predicate TimesUpTo(log: seq<Sighting>, bound: int) {
    && (forall i, j :: 0 <= i <= j < |log| ==> log[i].at <= log[j].at)
    && (forall i :: 0 <= i < |log| ==> log[i].at <= bound)
  }

  lemma {:induction false} AttachedChronological(log: seq<Sighting>, bound: int)
    requires TimesUpTo(log, bound)
    ensures TimesUpTo(Attached(log), bound)
  {
    if log != [] {
      var front := log[..|log| - 1];
      AttachedChronological(front, Last(log).at);
    }
  }

  /** The times in the record are ordered: last change, last sighting, last observation. */
  lemma {:induction false} PeerTimesOrdered(log: seq<Sighting>, lastObserved: int)
    requires TimesUpTo(log, lastObserved)
    ensures var p := PeerOf(log);
            && (p.lastSeenAt.Some? ==> p.lastSeenAt.value <= lastObserved)
            && (p.changedAt.Some? ==> p.lastSeenAt.Some? && p.changedAt.value <= p.lastSeenAt.value)
  {
    AttachedChronological(log, lastObserved);
  }
}
