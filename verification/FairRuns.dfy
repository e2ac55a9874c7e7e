/** Runs without end: a scheduler that serves every thread that can go on brings the scenario to its
    end, whichever of the calls fail. */
module FairRuns {
  import opened WorkerProtocol
  import opened StartBarrier

  datatype Thread = MainThread | WorkerThread(index: nat)

  function ThreadOf(a: Action): Thread {
    if a.MainMoves? then MainThread else WorkerThread(a.worker)
  }

  /** The thread has a move whose call succeeds. A join can only succeed once its worker has exited. */
  predicate CanSucceed(s: State, t: Thread) {
    match t
    case MainThread => MainEnabled(s, true)
    case WorkerThread(i) => i < |s.workers| && WorkerEnabled(s.workers[i])
  }

  /** Main has returned and no worker thread is left. */
  predicate Ended(s: State) {
    s.main.Returned? && forall i :: 0 <= i < |s.workers| ==> !WorkerEnabled(s.workers[i])
  }

  type States = nat -> State

  type Actions = nat -> Action

  /** At time k the thread of action k makes its move, with whatever outcome. */
  ghost predicate MovesAt(c: Config, states: States, actions: Actions, k: nat) {
    var s, a := states(k), actions(k);
    |s.joins| == |s.workers| && Enabled(s, a) && states(k + 1) == Step(c, s, a)
  }

  ghost predicate RestsAt(states: States, k: nat) {
    states(k + 1) == states(k)
  }

  ghost predicate Schedule(c: Config, table: Table, states: States, actions: Actions) {
    states(0) == Initial(c, table) && forall k: nat :: MovesAt(c, states, actions, k) || RestsAt(states, k)
  }

  ghost predicate ServedAt(c: Config, states: States, actions: Actions, t: Thread, k: nat) {
    MovesAt(c, states, actions, k) && ThreadOf(actions(k)) == t
  }

  ghost predicate ServedLater(c: Config, states: States, actions: Actions, t: Thread, k: nat) {
    exists j: nat :: k <= j && ServedAt(c, states, actions, t, j)
  }

  /** Every thread that can go on is served sooner or later; nothing is said about the outcome. */
  ghost predicate Fair(c: Config, states: States, actions: Actions) {
    forall t: Thread, k: nat :: CanSucceed(states(k), t) ==> ServedLater(c, states, actions, t, k)
  }

  lemma {:induction false} ScheduleInv(c: Config, table: Table, states: States, actions: Actions, k: nat)
    requires Schedule(c, table, states, actions)
    ensures Inv(c, table, states(k))
  {
    if k == 0 {
      InitialInv(c, table);
    } else {
      ScheduleInv(c, table, states, actions, k - 1);
      if MovesAt(c, states, actions, k - 1) {
        StepKeeps(c, table, states(k - 1), actions(k - 1));
      } else {
        assert RestsAt(states, k - 1);
      }
    }
  }

  /** A thread whose move changes the state changes it by any of its moves: only the spin loops leave it
      as it is, and they do so whatever the outcome. */
  lemma AnyMoveChanges(c: Config, table: Table, s: State, a: Action, b: Action)
    requires Inv(c, table, s) && Enabled(s, a) && Enabled(s, b) && ThreadOf(a) == ThreadOf(b)
    requires Step(c, s, a) != s
    ensures Step(c, s, b) != s
  {
    match a
    case MainMoves(ok) => AnyMainMoveChanges(c, table, s, ok, b.ok);
    case WorkerMoves(i, ok, after) =>
      var w := s.workers[i];
      WorkerDescends(c, table, s.start, w, b.ok, b.after);
      assert s.workers[i := w] == s.workers;
      assert Step(c, s, b).workers[i] == WorkerStep(c, s.start, s.committed, w, b.ok, b.after);
  }

  lemma AnyMainMoveChanges(c: Config, table: Table, s: State, ok: bool, other: bool)
    requires Inv(c, table, s) && MainEnabled(s, ok) && MainEnabled(s, other) && MainStep(c, s, ok) != s
    ensures MainStep(c, s, other) != s
  {
  }

  lemma EndedOrNot(s: State)
    requires !Ended(s)
    ensures !s.main.Returned? || exists i :: 0 <= i < |s.workers| && WorkerEnabled(s.workers[i])
  {
  }

  /** From k on the state stays as it is up to j, unless it changes before. */
  lemma {:induction false} FirstChange(states: States, k: nat, j: nat) returns (m: nat)
    requires k <= j
    ensures k <= m <= j && states(m) == states(k)
    ensures m < j ==> !RestsAt(states, m)
    decreases j - k
  {
    m := k;
    if k < j && RestsAt(states, k) {
      m := FirstChange(states, k + 1, j);
    }
  }

  /** If a thread can change the state at k and is served later, the state changes by then. */
  lemma {:induction false} ChangesBy(c: Config, table: Table, states: States, actions: Actions, k: nat, a: Action,
                                     j: nat)
    returns (n: nat)
    requires Schedule(c, table, states, actions) && Inv(c, table, states(k))
    requires Enabled(states(k), a) && Step(c, states(k), a) != states(k)
    requires k <= j && ServedAt(c, states, actions, ThreadOf(a), j)
    ensures k <= n && states(n) == states(k) && MovesAt(c, states, actions, n) && !RestsAt(states, n)
  {
    n := FirstChange(states, k, j);
    if n == j {
      AnyMoveChanges(c, table, states(k), a, actions(j));
    }
  }

  /** Until the end some thread can change the state, and a fair schedule serves it. */
  lemma {:induction false} NextChange(c: Config, table: Table, states: States, actions: Actions, k: nat)
    returns (n: nat)
    requires Schedule(c, table, states, actions) && Fair(c, states, actions)
    requires Inv(c, table, states(k)) && !Ended(states(k))
    ensures k <= n && states(n) == states(k) && MovesAt(c, states, actions, n) && !RestsAt(states, n)
  {
    EndedOrNot(states(k));
    var a := SomeoneMoves(c, table, states(k));
    SuccessIsPossible(states(k), a);
    assert ServedLater(c, states, actions, ThreadOf(a), k);
    var j: nat :| k <= j && ServedAt(c, states, actions, ThreadOf(a), j);
    n := ChangesBy(c, table, states, actions, k, a, j);
  }

  lemma SuccessIsPossible(s: State, a: Action)
    requires a.ok && Enabled(s, a)
    ensures CanSucceed(s, ThreadOf(a))
  {
  }

  /** Until the end, a fair schedule comes to a state of smaller rank. */
  lemma {:induction false} RankFalls(c: Config, table: Table, states: States, actions: Actions, k: nat) returns (m: nat)
    requires Schedule(c, table, states, actions) && Fair(c, states, actions) && !Ended(states(k))
    ensures m > k && Rank(c, states(m)) < Rank(c, states(k))
  {
    ScheduleInv(c, table, states, actions, k);
    var n := NextChange(c, table, states, actions, k);
    StepDescends(c, table, states(n), actions(n));
    m := n + 1;
  }

  /** A state without a thread left stays. */
  lemma {:induction false} EndedStays(c: Config, table: Table, states: States, actions: Actions, k: nat, j: nat)
    requires Schedule(c, table, states, actions) && Ended(states(k)) && k <= j
    ensures states(j) == states(k)
  {
    if k < j {
      EndedStays(c, table, states, actions, k, j - 1);
      assert !MovesAt(c, states, actions, j - 1);
      assert RestsAt(states, j - 1);
    }
  }

  lemma {:induction false} EndsFrom(c: Config, table: Table, states: States, actions: Actions, k: nat, rank: nat)
    returns (end: nat)
    requires Schedule(c, table, states, actions) && Fair(c, states, actions) && Rank(c, states(k)) <= rank
    ensures Ended(states(end))
    decreases rank
  {
    end := k;
    if !Ended(states(k)) {
      var m := RankFalls(c, table, states, actions, k);
      ScheduleInv(c, table, states, actions, m);
      RankNonnegative(c, table, states(m));
      end := EndsFrom(c, table, states, actions, m, rank - 1);
    }
  }

  /** Every fair schedule, with any calls failing, comes to a state in which main has returned and every
      started worker has exited, and stays there. */
  lemma FairSchedulesEnd(c: Config, table: Table, states: States, actions: Actions) returns (end: nat)
    requires Schedule(c, table, states, actions) && Fair(c, states, actions)
    ensures Ended(states(end))
    ensures forall j: nat :: j >= end ==> states(j) == states(end)
    ensures states(end).committed == table
  {
    ScheduleInv(c, table, states, actions, 0);
    RankNonnegative(c, table, states(0));
    end := EndsFrom(c, table, states, actions, 0, Rank(c, states(0)));
    ScheduleInv(c, table, states, actions, end);
    forall j: nat | j >= end
      ensures states(j) == states(end)
    {
      EndedStays(c, table, states, actions, end, j);
    }
  }
}
