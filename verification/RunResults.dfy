/** When the concurrency scenario succeeds: exactly when there are at most five workers and no call that
    counts has failed. */
module RunResults {
  import opened WorkerProtocol
  import opened StartBarrier
  import opened FairRuns

  // ----- which calls count

  /** The moves of a worker that call into the database. */
  predicate MakesCall(c: Config, w: Worker) {
    match w.pc
    case Initializing => true
    case Beginning => w.writer
    case Iterating(done) => done != c.iterations
    case RollingBack => true
    case Closing => true
    case _ => false
  }

  predicate WorkerCallFails(c: Config, s: State, a: Action, i: nat) {
    a.WorkerMoves? && a.worker == i < |s.workers| && !a.ok && MakesCall(c, s.workers[i])
  }

  /** Creating or joining a thread fails. The joins of the cleanup do not count. */
  predicate ThreadCallFails(s: State, a: Action) {
    && a.MainMoves? && !a.ok
    && ((s.main.Creating? && s.main.next < |s.workers|) || (s.main.Joining? && s.main.next < |s.workers|))
  }

  predicate CallFails(c: Config, s: State, a: Action) {
    ThreadCallFails(s, a) || (a.WorkerMoves? && WorkerCallFails(c, s, a, a.worker))
  }

  // ----- every failed call is counted once

  /** Failed calls of worker i among the first k moves. */
  ghost function FailuresBy(c: Config, states: seq<State>, actions: seq<Action>, i: nat, k: nat): nat
    requires k <= |actions| < |states|
  {
    if k == 0 then 0
    else
      FailuresBy(c, states, actions, i, k - 1) +
      (if WorkerCallFails(c, states[k - 1], actions[k - 1], i) then 1 else 0)
  }

  lemma {:induction false} WorkerErrors(c: Config, start: bool, table: Table, w: Worker, ok: bool, after: Connection)
    requires WorkerEnabled(w)
    ensures WorkerStep(c, start, table, w, ok, after).errors == w.errors + (if !ok && MakesCall(c, w) then 1 else 0)
  {
  }

  lemma {:induction false} ErrorStep(c: Config, table: Table, s: State, a: Action, i: nat)
    requires Inv(c, table, s) && Enabled(s, a) && i < |s.workers|
    ensures Step(c, s, a).workers[i].errors == s.workers[i].errors + (if WorkerCallFails(c, s, a, i) then 1 else 0)
  {
    if a.WorkerMoves? {
      WorkerErrors(c, s.start, s.committed, s.workers[a.worker], a.ok, a.after);
    }
  }

  /** A worker's errors are exactly its failed calls: none is missed and none counted twice. */
  lemma {:induction false} ErrorsCountFailures(c: Config, table: Table, states: seq<State>, actions: seq<Action>,
                                               i: nat, k: nat)
    requires Run(c, table, states, actions) && k <= |actions| && i < c.Count()
    ensures i < |states[k].workers|
    ensures states[k].workers[i].errors == FailuresBy(c, states, actions, i, k)
  {
    RunInv(c, table, states, actions, k);
    if k > 0 {
      ErrorsCountFailures(c, table, states, actions, i, k - 1);
      RunInv(c, table, states, actions, k - 1);
      ErrorStep(c, table, states[k - 1], actions[k - 1], i);
    }
  }

  // ----- the result

  lemma {:induction false} NoErrorsInTotal(ws: seq<Worker>)
    ensures TotalErrors(ws) == 0 <==> forall i :: 0 <= i < |ws| ==> ws[i].errors == 0
  {
    if ws != [] {
      NoErrorsInTotal(ws[1..]);
      assert forall i :: 0 < i < |ws| ==> ws[i] == ws[1..][i - 1];
    }
  }

  /** No failure has been recorded. */
  ghost predicate Flawless(s: State) {
    !s.creationFailed && !s.joinFailed && forall i :: 0 <= i < |s.workers| ==> s.workers[i].errors == 0
  }

  /** A returned scenario has result 0 exactly when the workers were not too many, every thread was
      created and joined, and no worker counted an error. */
  lemma ReturnedExactly(c: Config, table: Table, s: State)
    requires Inv(c, table, s) && s.main.Returned?
    ensures s.result == 0 || s.result == 1
    ensures s.result == 0 <==> c.Count() <= 5 && Flawless(s)
  {
    NoErrorsInTotal(s.workers);
  }

  lemma {:induction false} FlawlessStep(c: Config, table: Table, s: State, a: Action)
    requires Inv(c, table, s) && Enabled(s, a)
    ensures Flawless(Step(c, s, a)) <==> Flawless(s) && !CallFails(c, s, a)
  {
    var s' := Step(c, s, a);
    assert |s'.workers| == |s.workers|;
    forall i | 0 <= i < |s.workers|
      ensures s'.workers[i].errors == s.workers[i].errors + (if WorkerCallFails(c, s, a, i) then 1 else 0)
    {
      ErrorStep(c, table, s, a, i);
    }
    FlagStep(c, table, s, a);
    if a.WorkerMoves? && WorkerCallFails(c, s, a, a.worker) {
      assert s'.workers[a.worker].errors > 0;
    }
  }

  lemma FlagStep(c: Config, table: Table, s: State, a: Action)
    requires Inv(c, table, s) && Enabled(s, a)
    ensures var s' := Step(c, s, a);
            s'.creationFailed || s'.joinFailed <==> s.creationFailed || s.joinFailed || ThreadCallFails(s, a)
  {
  }

  lemma {:induction false} FlawlessSoFar(c: Config, table: Table, states: seq<State>, actions: seq<Action>, k: nat)
    requires Run(c, table, states, actions) && k <= |actions|
    ensures Flawless(states[k]) <==> forall j :: 0 <= j < k ==> !CallFails(c, states[j], actions[j])
  {
    if k > 0 {
      FlawlessSoFar(c, table, states, actions, k - 1);
      RunInv(c, table, states, actions, k - 1);
      FlawlessStep(c, table, states[k - 1], actions[k - 1]);
    }
  }

  /** Every run that has returned returns 0 exactly when there were at most five workers and no call of
      the run failed, cleanup joins apart. */
  lemma SuccessExactly(c: Config, table: Table, states: seq<State>, actions: seq<Action>, k: nat)
    requires Run(c, table, states, actions) && k <= |actions| && states[k].main.Returned?
    ensures states[k].result == 0 <==>
              c.Count() <= 5 && forall j :: 0 <= j < k ==> !CallFails(c, states[j], actions[j])
  {
    RunInv(c, table, states, actions, k);
    ReturnedExactly(c, table, states[k]);
    FlawlessSoFar(c, table, states, actions, k);
  }

  // ----- fair schedules

  ghost predicate SucceedsAt(c: Config, states: States, actions: Actions, k: nat) {
    MovesAt(c, states, actions, k) ==> !CallFails(c, states(k), actions(k))
  }

  lemma {:induction false} FlawlessUntil(c: Config, table: Table, states: States, actions: Actions, k: nat)
    requires Schedule(c, table, states, actions) && forall j: nat :: SucceedsAt(c, states, actions, j)
    ensures Flawless(states(k))
  {
    if k > 0 {
      FlawlessUntil(c, table, states, actions, k - 1);
      ScheduleInv(c, table, states, actions, k - 1);
      assert SucceedsAt(c, states, actions, k - 1);
      if MovesAt(c, states, actions, k - 1) {
        FlawlessStep(c, table, states(k - 1), actions(k - 1));
      } else {
        assert RestsAt(states, k - 1);
      }
    }
  }

  /** With at most five workers, every fair schedule in which no call fails ends with result 0, each
      worker joined after exactly its iterations and each reader with the checksum of that many reads. */
  lemma FairSchedulesSucceed(c: Config, table: Table, states: States, actions: Actions) returns (end: nat)
    requires Schedule(c, table, states, actions) && Fair(c, states, actions) && c.Count() <= 5
    requires forall j: nat :: SucceedsAt(c, states, actions, j)
    ensures Ended(states(end)) && states(end).result == 0
    ensures |states(end).workers| == |states(end).joins| == c.Count()
    ensures forall i :: 0 <= i < c.Count() ==>
              states(end).joins[i] == 1 && states(end).workers[i].operations == c.iterations
    ensures forall i :: 0 <= i < c.readers ==> states(end).workers[i].checksum == ReadFold(c, table, c.iterations)
  {
    end := FairSchedulesEnd(c, table, states, actions);
    ScheduleInv(c, table, states, actions, end);
    FlawlessUntil(c, table, states, actions, end);
    ReturnedExactly(c, table, states(end));
    ExitedWorkers(c, table, states(end));
  }

  lemma ExitedWorkers(c: Config, table: Table, s: State)
    requires Inv(c, table, s) && s.main.Returned? && s.result == 0 && Flawless(s)
    ensures forall i :: 0 <= i < c.Count() ==> s.joins[i] == 1 && s.workers[i].operations == c.iterations
    ensures forall i :: 0 <= i < c.readers ==> s.workers[i].checksum == ReadFold(c, table, c.iterations)
  {
    assert forall i :: 0 <= i < |s.workers| ==> Completed(c, table, s.workers[i]);
  }
}
