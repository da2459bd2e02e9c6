/**
 The snapshot publisher: any number of requesters, one dirty flag, one single-permit notifier and one
 rate-limited worker, as interleaved atomic steps. The state itself is abstracted to a version number.
 */
module Publisher {
  import opened Prelude

  /** Where a requester is between changing the state and having asked for a publish. */
  datatype Requester = Wrote | Marked

  datatype Worker =
    | Checking                // about to swap the dirty flag
    | Waiting                 // awaiting a notification
    | Starting                // claimed the flag, about to begin a publish
    | Reading                 // began a publish, about to read the state
    | Publishing(seen: nat)   // holds an export read at version `seen`
    | Cooling(deadline: int)  // waiting for the deadline, swallowing notifications

  datatype System = System(
    version: nat, dirty: bool, permit: bool, inFlight: map<nat, Requester>,
    worker: Worker, published: nat, clock: int, starts: seq<int>)

  datatype Action =
    | Write(id: nat)   // the state write
    | Mark(id: nat)    // dirty := true
    | Notify(id: nat)  // notify_one: wakes the waiter or stores the one permit
    | Swap             // the worker takes and clears the dirty flag
    | Wake             // the worker consumes a permit while waiting for work
    | Begin            // the worker notes the time of a publish
    | Read             // the worker reads the state under the lock
    | Publish          // the worker replaces the published snapshot
    | Swallow          // the worker consumes a permit while cooling down
    | Expire           // the cool-down deadline has passed
    | Tick(now: int)   // time advances

  predicate Enabled(s: System, a: Action) {
    match a
    case Write(id) => id !in s.inFlight
    case Mark(id) => id in s.inFlight && s.inFlight[id] == Wrote
    case Notify(id) => id in s.inFlight && s.inFlight[id] == Marked
    case Swap => s.worker == Checking
    case Wake => s.worker == Waiting && s.permit
    case Begin => s.worker == Starting
    case Read => s.worker == Reading
    case Publish => s.worker.Publishing?
    case Swallow => s.worker.Cooling? && s.permit
    case Expire => s.worker.Cooling? && s.clock >= s.worker.deadline
    case Tick(now) => now >= s.clock
  }

  function After(s: System, a: Action, refreshMs: nat): System
    requires Enabled(s, a)
  {
    match a
    case Write(id) => s.(version := s.version + 1, inFlight := s.inFlight[id := Wrote])
    case Mark(id) => s.(dirty := true, inFlight := s.inFlight[id := Marked])
    case Notify(id) => s.(permit := true, inFlight := s.inFlight - {id})
    case Swap => s.(dirty := false, worker := if s.dirty then Starting else Waiting)
    case Wake => s.(permit := false, worker := Checking)
    case Begin => s.(starts := s.starts + [s.clock], worker := Reading)
    case Read => s.(worker := Publishing(s.version))
    case Publish => s.(published := s.worker.seen, worker := Cooling(s.clock + refreshMs))
    case Swallow => s.(permit := false)
    case Expire => s.(worker := Checking)
    case Tick(now) => s.(clock := now)
  }

  /** The daemon publishes once before it spawns the worker. */
  function Initial(clock: int): System {
    System(0, false, false, map[], Checking, 0, clock, [])
  }

  ghost predicate Execution(s: System, actions: seq<Action>, refreshMs: nat)
    decreases |actions|
  {
    actions == [] ||
    (Enabled(s, actions[0]) && Execution(After(s, actions[0], refreshMs), actions[1..], refreshMs))
  }

  ghost function Outcome(s: System, actions: seq<Action>, refreshMs: nat): System
    requires Execution(s, actions, refreshMs)
    decreases |actions|
  {
    if actions == [] then s else Outcome(After(s, actions[0], refreshMs), actions[1..], refreshMs)
  }

  // ----- No lost update -----

  ghost predicate SomeoneAt(s: System, phase: Requester) {
    exists id :: id in s.inFlight && s.inFlight[id] == phase
  }

  /** The newest version is published, or something in the system still guarantees that it will be. */
  ghost predicate UpdateNotLost(s: System) {
    || s.published == s.version
    || s.dirty
    || SomeoneAt(s, Wrote)
    || s.worker in {Starting, Reading, Publishing(s.version)}
  }

  /** A dirty flag reaches a worker that is waiting: the permit is set or about to be. */
  ghost predicate WaiterWillWake(s: System) {
    s.worker == Waiting && s.dirty ==> s.permit || SomeoneAt(s, Marked)
  }

  ghost predicate Spaced(starts: seq<int>, refreshMs: nat) {
    forall i :: 0 < i < |starts| ==> starts[i] - starts[i - 1] >= refreshMs
  }

  ghost predicate RateLimited(s: System, refreshMs: nat) {
    && Spaced(s.starts, refreshMs)
    && (s.starts != [] ==>
          match s.worker
          case Reading => Last(s.starts) <= s.clock
          case Publishing(_) => Last(s.starts) <= s.clock
          case Cooling(deadline) => Last(s.starts) + refreshMs <= deadline
          case _ => Last(s.starts) + refreshMs <= s.clock)
    && (s.starts == [] ==> !s.worker.Reading? && !s.worker.Publishing? && !s.worker.Cooling?)
  }

  ghost predicate Invariant(s: System, refreshMs: nat) {
    && UpdateNotLost(s)
    && WaiterWillWake(s)
    && RateLimited(s, refreshMs)
    && (s.worker.Publishing? ==> s.published <= s.worker.seen <= s.version)
    && s.published <= s.version
  }

  lemma RequesterStepKeeps(s: System, a: Action, refreshMs: nat)
    requires Invariant(s, refreshMs) && Enabled(s, a)
    requires a.Write? || a.Mark? || a.Notify?
    ensures Invariant(After(s, a, refreshMs), refreshMs)
  {
    var t := After(s, a, refreshMs);
    match a
    case Write(id) =>
      assert t.inFlight[id] == Wrote;
      if SomeoneAt(s, Marked) {
        var j :| j in s.inFlight && s.inFlight[j] == Marked;
        assert t.inFlight[j] == Marked;
      }
    case Mark(id) =>
      assert t.inFlight[id] == Marked;
    case Notify(id) =>
      if SomeoneAt(s, Wrote) {
        var j :| j in s.inFlight && s.inFlight[j] == Wrote;
        assert j in t.inFlight && t.inFlight[j] == Wrote;
      }
  }

  lemma WorkerStepKeeps(s: System, a: Action, refreshMs: nat)
    requires Invariant(s, refreshMs) && Enabled(s, a)
    requires !a.Write? && !a.Mark? && !a.Notify?
    ensures Invariant(After(s, a, refreshMs), refreshMs)
  {
    var t := After(s, a, refreshMs);
    assert SomeoneAt(s, Wrote) ==> SomeoneAt(t, Wrote);
    assert SomeoneAt(s, Marked) ==> SomeoneAt(t, Marked);
  }

  lemma {:induction false} InvariantAlways(s: System, actions: seq<Action>, refreshMs: nat)
    requires Invariant(s, refreshMs) && Execution(s, actions, refreshMs)
    ensures Invariant(Outcome(s, actions, refreshMs), refreshMs)
    decreases |actions|
  {
    if actions != [] {
      var a := actions[0];
      if a.Write? || a.Mark? || a.Notify? {
        RequesterStepKeeps(s, a, refreshMs);
      } else {
        WorkerStepKeeps(s, a, refreshMs);
      }
      InvariantAlways(After(s, a, refreshMs), actions[1..], refreshMs);
    }
  }

  /** Parked with no permit, and nobody between a state write and its notification. */
  predicate Quiescent(s: System) {
    s.worker == Waiting && !s.permit && s.inFlight == map[]
  }

  /**
   In every interleaving from the start: whenever the system is at rest, the published snapshot was read from the
   latest state; and any two publishes start at least the refresh interval apart.
   */
  lemma NoLostUpdate(clock: int, actions: seq<Action>, refreshMs: nat)
    requires Execution(Initial(clock), actions, refreshMs)
    ensures var s := Outcome(Initial(clock), actions, refreshMs);
            && (Quiescent(s) ==> s.published == s.version)
            && Spaced(s.starts, refreshMs)
            && s.published <= s.version
  {
    InvariantAlways(Initial(clock), actions, refreshMs);
  }

  // ----- The system comes to rest -----

  predicate IsWorkerAction(a: Action) {
    !a.Write? && !a.Mark? && !a.Notify? && !a.Tick?
  }

  /** Upper bound on the worker's remaining steps while no requester acts. */
  function WorkLeft(s: System): nat {
    (if s.dirty then 10 else 0) + (if s.permit then 2 else 0) +
    match s.worker
    case Starting => 6
    case Reading => 5
    case Publishing(_) => 4
    case Cooling(_) => 3
    case Checking => 2
    case Waiting => 1
  }

  lemma WorkerStepUsesUp(s: System, a: Action, refreshMs: nat)
    requires Enabled(s, a) && IsWorkerAction(a)
    ensures WorkLeft(After(s, a, refreshMs)) < WorkLeft(s)
  {
  }

  predicate RequestersIdle(actions: seq<Action>) {
    forall i :: 0 <= i < |actions| ==> IsWorkerAction(actions[i]) || actions[i].Tick?
  }

  function WorkerSteps(actions: seq<Action>): nat {
    if actions == [] then 0 else (if IsWorkerAction(actions[0]) then 1 else 0) + WorkerSteps(actions[1..])
  }

  /** While no requester acts, the worker can take only a bounded number of steps. */
  lemma {:induction false} WorkerComesToRest(s: System, actions: seq<Action>, refreshMs: nat)
    requires Execution(s, actions, refreshMs) && RequestersIdle(actions)
    ensures WorkerSteps(actions) + WorkLeft(Outcome(s, actions, refreshMs)) <= WorkLeft(s)
    decreases |actions|
  {
    if actions != [] {
      var a := actions[0];
      assert IsWorkerAction(a) || a.Tick?;
      if IsWorkerAction(a) {
        WorkerStepUsesUp(s, a, refreshMs);
      }
      assert forall i :: 0 <= i < |actions[1..]| ==> actions[1..][i] == actions[i + 1];
      WorkerComesToRest(After(s, a, refreshMs), actions[1..], refreshMs);
    }
  }

  /** No worker step is possible now, nor after any amount of waiting. */
  ghost predicate WorkerStuck(s: System) {
    forall a: Action, now: int :: IsWorkerAction(a) && now >= s.clock ==> !Enabled(s.(clock := now), a)
  }

  /** The only place the worker can stop for good is the parked state, and then everything is published. */
  lemma StuckMeansPublished(s: System, refreshMs: nat)
    requires Invariant(s, refreshMs) && s.inFlight == map[]
    ensures WorkerStuck(s) <==> Quiescent(s)
    ensures WorkerStuck(s) ==> s.published == s.version && !s.dirty
  {
    if !Quiescent(s) {
      var a := match s.worker
        case Checking => Swap
        case Waiting => Wake
        case Starting => Begin
        case Reading => Read
        case Publishing(_) => Publish
        case Cooling(_) => Expire;
      var now := if s.worker.Cooling? then Max(s.clock, s.worker.deadline) else s.clock;
      assert Enabled(s.(clock := now), a);
    }
  }
}
