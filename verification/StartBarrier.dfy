/** What every interleaving of the worker protocol keeps, and that it never gets stuck or goes on changing
    for ever. */
module StartBarrier {
  import opened WorkerProtocol

  // ----- every step keeps the invariant

  lemma {:induction false} WorkerStepKeeps(c: Config, table: Table, start: bool, w: Worker, ok: bool, after: Connection)
    requires WorkerOk(c, table, start, w) && WorkerEnabled(w)
    ensures WorkerOk(c, table, start, WorkerStep(c, start, table, w, ok, after))
    ensures CommittedAfter(c, table, w, ok) == table
  {
  }

  lemma {:induction false} SignalCountUpdate(ws: seq<Worker>, i: nat, w: Worker)
    requires i < |ws|
    ensures SignalCount(ws[i := w]) + (if Signalled(ws[i]) then 1 else 0)
         == SignalCount(ws) + (if Signalled(w) then 1 else 0)
  {
    if i > 0 {
      assert ws[i := w][1..] == ws[1..][i - 1 := w];
      SignalCountUpdate(ws[1..], i - 1, w);
    } else {
      assert ws[i := w][1..] == ws[1..];
    }
  }

  lemma {:induction false} SignalCountFull(ws: seq<Worker>)
    ensures SignalCount(ws) <= |ws|
    ensures SignalCount(ws) == |ws| <==> forall i :: 0 <= i < |ws| ==> Signalled(ws[i])
  {
    if ws != [] {
      SignalCountFull(ws[1..]);
      assert forall i :: 0 < i < |ws| ==> ws[i] == ws[1..][i - 1];
    }
  }

  lemma {:induction false} SignalCountZero(ws: seq<Worker>)
    requires forall i :: 0 <= i < |ws| ==> !Signalled(ws[i])
    ensures SignalCount(ws) == 0
  {
    if ws != [] {
      SignalCountZero(ws[1..]);
    }
  }

  lemma InitialInv(c: Config, table: Table)
    ensures Inv(c, table, Initial(c, table))
  {
    SignalCountZero(Initial(c, table).workers);
  }

  /** The main thread's part of the invariant does not notice a started worker moving on. */
  lemma MainIgnoresWorker(c: Config, s: State, s': State, i: nat, w: Worker)
    requires |s.joins| == |s.workers| && MainOk(c, s) && i < |s.workers|
    requires WorkerEnabled(s.workers[i]) && !w.pc.NotStarted?
    requires s' == s.(workers := s.workers[i := w], ready := s'.ready, committed := s'.committed)
    requires s.main.Releasing? ==> s'.ready == s.ready
    ensures MainOk(c, s')
  {
    assert !AllExited(s.workers, |s.workers|) by {
      assert !s.workers[i].pc.Exited?;
    }
    assert forall n: nat :: AllStarted(s.workers, n) ==> AllStarted(s'.workers, n);
    assert forall n: nat :: AllExited(s.workers, n) ==> AllExited(s'.workers, n);
  }

  lemma ReplacedWorker(c: Config, table: Table, start: bool, ws: seq<Worker>, ws': seq<Worker>, i: nat, w: Worker)
    requires i < |ws| && ws' == ws[i := w] && WorkerOk(c, table, start, w) && w.writer == ws[i].writer
    requires forall j :: 0 <= j < |ws| ==> WorkerOk(c, table, start, ws[j])
    requires forall j :: 0 <= j < |ws| ==> ws[j].writer == (j >= c.readers)
    ensures forall j :: 0 <= j < |ws'| ==> WorkerOk(c, table, start, ws'[j])
    ensures forall j :: 0 <= j < |ws'| ==> ws'[j].writer == (j >= c.readers)
  {
  }

  lemma WorkerMoveKeeps(c: Config, table: Table, s: State, a: Action)
    requires Inv(c, table, s) && Enabled(s, a) && a.WorkerMoves?
    ensures Inv(c, table, Step(c, s, a))
  {
    var i := a.worker;
    var w := s.workers[i];
    var w' := WorkerStep(c, s.start, s.committed, w, a.ok, a.after);
    WorkerStepKeeps(c, table, s.start, w, a.ok, a.after);
    WorkerSignals(c, s.start, s.committed, w, a.ok, a.after);
    SignalCountUpdate(s.workers, i, w');
    SignalCountFull(s.workers);
    MainIgnoresWorker(c, s, Step(c, s, a), i, w');
    SignalCountFull(s.workers[i := w']);
    ReplacedWorker(c, table, s.start, s.workers, s.workers[i := w'], i, w');
  }

  /** A worker is counted exactly when it leaves the signalling step, and stays counted. */
  lemma {:induction false} WorkerSignals(c: Config, start: bool, table: Table, w: Worker, ok: bool, after: Connection)
    requires WorkerEnabled(w)
    ensures var w' := WorkerStep(c, start, table, w, ok, after);
            && !w'.pc.NotStarted? && w'.writer == w.writer
            && (Signalled(w') <==> Signalled(w) || w.pc.Signalling?)
  {
  }

  lemma CreateKeeps(c: Config, table: Table, s: State, ok: bool)
    requires Inv(c, table, s) && MainEnabled(s, ok) && s.main.Creating?
    ensures Inv(c, table, MainStep(c, s, ok))
  {
    var next := s.main.next;
    if next < |s.workers| && ok {
      SignalCountUpdate(s.workers, next, s.workers[next].(pc := Initializing));
    }
  }

  lemma JoinKeeps(c: Config, table: Table, s: State, ok: bool)
    requires Inv(c, table, s) && MainEnabled(s, ok) && s.main.Joining?
    ensures Inv(c, table, MainStep(c, s, ok))
  {
  }

  lemma CleanupJoinKeeps(c: Config, table: Table, s: State, ok: bool)
    requires Inv(c, table, s) && MainEnabled(s, ok) && s.main.CleanupJoin?
    ensures Inv(c, table, MainStep(c, s, ok))
  {
  }

  /** Storing start takes nothing from a worker. */
  lemma StartedWorkersOk(c: Config, table: Table, start: bool, ws: seq<Worker>)
    requires forall i :: 0 <= i < |ws| ==> WorkerOk(c, table, start, ws[i])
    ensures forall i :: 0 <= i < |ws| ==> WorkerOk(c, table, true, ws[i])
  {
  }

  lemma StoreKeeps(c: Config, table: Table, s: State, ok: bool)
    requires Inv(c, table, s) && MainEnabled(s, ok)
    requires s.main.Releasing? || s.main.CreationFailed? || s.main.CleanupStore?
    ensures Inv(c, table, MainStep(c, s, ok))
  {
    StartedWorkersOk(c, table, s.start, s.workers);
  }

  lemma AwaitKeeps(c: Config, table: Table, s: State, ok: bool)
    requires Inv(c, table, s) && s.main.AwaitingReady?
    ensures Inv(c, table, MainStep(c, s, ok))
  {
    SignalCountFull(s.workers);
  }

  lemma SumKeeps(c: Config, table: Table, s: State, ok: bool)
    requires Inv(c, table, s) && s.main.Summing?
    ensures Inv(c, table, MainStep(c, s, ok))
  {
    if TotalErrors(s.workers) == 0 {
      assert forall j :: 0 <= j < |s.workers| ==> Completed(c, table, s.workers[j]);
      ErrorFreeTotals(c, s.workers);
    }
  }

  lemma MainMoveKeeps(c: Config, table: Table, s: State, ok: bool)
    requires Inv(c, table, s) && MainEnabled(s, ok)
    ensures Inv(c, table, MainStep(c, s, ok))
  {
    match s.main
    case Creating(_) => CreateKeeps(c, table, s, ok);
    case Joining(_) => JoinKeeps(c, table, s, ok);
    case CleanupJoin(_) => CleanupJoinKeeps(c, table, s, ok);
    case AwaitingReady => AwaitKeeps(c, table, s, ok);
    case Summing => SumKeeps(c, table, s, ok);
    case _ => StoreKeeps(c, table, s, ok);
  }

  lemma StepKeeps(c: Config, table: Table, s: State, a: Action)
    requires Inv(c, table, s) && Enabled(s, a)
    ensures Inv(c, table, Step(c, s, a))
  {
    match a
    case MainMoves(ok) => MainMoveKeeps(c, table, s, ok);
    case WorkerMoves(_, _, _) => WorkerMoveKeeps(c, table, s, a);
  }

  // ----- whole runs

  /** A run: states linked by enabled actions, in any interleaving. */
  ghost predicate Run(c: Config, table: Table, states: seq<State>, actions: seq<Action>) {
    && |states| == |actions| + 1
    && states[0] == Initial(c, table)
    && forall k :: 0 <= k < |actions| ==>
         && |states[k].joins| == |states[k].workers|
         && Enabled(states[k], actions[k]) && states[k + 1] == Step(c, states[k], actions[k])
  }

  lemma {:induction false} RunInv(c: Config, table: Table, states: seq<State>, actions: seq<Action>, k: nat)
    requires Run(c, table, states, actions) && k < |states|
    ensures Inv(c, table, states[k])
  {
    if k == 0 {
      InitialInv(c, table);
    } else {
      RunInv(c, table, states, actions, k - 1);
      StepKeeps(c, table, states[k - 1], actions[k - 1]);
    }
  }

  /** In every state of every run: nobody has touched the table or done an operation before start is
      stored; start is stored only once every worker has signalled or thread creation has failed;
      no thread is joined twice; a return without a failed join has joined exactly the started threads;
      and the committed table is the initial one. */
  lemma BarrierSafety(c: Config, table: Table, states: seq<State>, actions: seq<Action>, k: nat, i: nat)
    requires Run(c, table, states, actions) && k < |states| && i < c.Count()
    ensures var s := states[k];
            && |s.workers| == |s.joins| == c.Count()
            && (!s.start ==> s.workers[i].operations == 0 && s.workers[i].checksum == 1469598103934665603)
            && (s.workers[i].pc.Beginning? || s.workers[i].pc.Iterating? || s.workers[i].pc.RollingBack? ==> s.start)
            && (s.start ==> s.creationFailed || (forall j :: 0 <= j < |s.workers| ==> Signalled(s.workers[j])))
            && s.joins[i] <= 1
            && (s.main.Returned? && s.start && !s.joinFailed ==> (s.joins[i] == 1 <==> !s.workers[i].pc.NotStarted?))
            && s.committed == table
  {
    RunInv(c, table, states, actions, k);
    SignalCountFull(states[k].workers);
  }

  /** In every run a worker comes to its cleanup without an open transaction of its own, so the rollback
      there is never executed; and the only workers to come there before start are those whose setup
      failed. */
  lemma CleanupNeverRollsBack(c: Config, table: Table, states: seq<State>, actions: seq<Action>, k: nat, i: nat)
    requires Run(c, table, states, actions) && k < |states| && i < |states[k].workers|
    ensures var w := states[k].workers[i];
            w.pc.Closing? ==> !w.transactionStarted && (states[k].start || w.errors > 0)
  {
    RunInv(c, table, states, actions, k);
  }

  /** How often worker i has added one to ready in the first k moves. */
  ghost function SignalsBy(states: seq<State>, actions: seq<Action>, i: nat, k: nat): nat
    requires k <= |actions| < |states|
  {
    if k == 0 then 0
    else SignalsBy(states, actions, i, k - 1) + (if Signals(states[k - 1], actions[k - 1], i) then 1 else 0)
  }

  /** The move is worker i's addition to ready. */
  predicate Signals(s: State, a: Action, i: nat) {
    a.WorkerMoves? && a.worker == i < |s.workers| && s.workers[i].pc.Signalling?
  }

  /** Each worker adds to ready at most once, and exactly once when it gets past signalling; ready is
      the number of workers that have. */
  lemma {:induction false} SignalsOnce(c: Config, table: Table, states: seq<State>, actions: seq<Action>, i: nat,
                                       k: nat)
    requires Run(c, table, states, actions) && k <= |actions| && i < c.Count()
    ensures i < |states[k].workers|
    ensures SignalsBy(states, actions, i, k) == (if Signalled(states[k].workers[i]) then 1 else 0)
    ensures states[k].ready == SignalCount(states[k].workers)
  {
    RunInv(c, table, states, actions, k);
    if k > 0 {
      SignalsOnce(c, table, states, actions, i, k - 1);
      RunInv(c, table, states, actions, k - 1);
      SignalStep(c, table, states[k - 1], actions[k - 1], i);
    }
  }

  lemma SignalStep(c: Config, table: Table, s: State, a: Action, i: nat)
    requires Inv(c, table, s) && Enabled(s, a) && i < |s.workers|
    ensures Signalled(Step(c, s, a).workers[i]) <==> Signalled(s.workers[i]) || Signals(s, a, i)
  {
    if a.WorkerMoves? && a.worker == i {
      WorkerSignals(c, s.start, s.committed, s.workers[i], a.ok, a.after);
    }
  }

  // ----- results

  lemma {:induction false} ErrorFreeTotals(c: Config, ws: seq<Worker>)
    requires forall i :: 0 <= i < |ws| ==> (ws[i].errors == 0 ==> ws[i].operations == c.iterations)
    requires TotalErrors(ws) == 0
    ensures TotalOperations(ws) == |ws| * c.iterations
    ensures forall i :: 0 <= i < |ws| ==> ws[i].errors == 0
  {
    if ws != [] {
      ErrorFreeTotals(c, ws[1..]);
      assert forall i :: 0 < i < |ws| ==> ws[i] == ws[1..][i - 1];
      assert |ws| * c.iterations == c.iterations + (|ws| - 1) * c.iterations;
    }
  }

  /** Once every thread has been joined, the scenario succeeds exactly when no worker counted an
      error: the check on the number of operations can then not fail. */
  lemma SumDecides(c: Config, table: Table, s: State, ok: bool)
    requires Inv(c, table, s) && s.main.Summing?
    ensures MainStep(c, s, ok).result == 0 <==> TotalErrors(s.workers) == 0
    ensures TotalErrors(s.workers) == 0 ==> TotalOperations(s.workers) == c.Count() * c.iterations
  {
    if TotalErrors(s.workers) == 0 {
      assert forall i :: 0 <= i < |s.workers| ==> Completed(c, table, s.workers[i]);
      ErrorFreeTotals(c, s.workers);
    }
  }

  /** In every state of every run, also one that fails in the end: a reader that has counted no error
      has the checksum of as many reads of the initial table as it has done operations, and has done all
      of them when it exits. So equal reader loops get equal checksums. */
  lemma ReaderChecksums(c: Config, table: Table, states: seq<State>, actions: seq<Action>, k: nat, i: nat)
    requires Run(c, table, states, actions) && k < |states| && i < c.readers
    ensures i < |states[k].workers|
    ensures var w := states[k].workers[i];
            w.errors == 0 ==>
              && w.checksum == ReadFold(c, table, w.operations)
              && (w.pc.Exited? ==> w.operations == c.iterations)
  {
    RunInv(c, table, states, actions, k);
    assert WorkerOk(c, table, states[k].start, states[k].workers[i]);
  }

  /** A run that reports success has joined every worker once, each after exactly its iterations, and
      all readers have the checksum of that many reads of the initial table. */
  lemma SuccessMeans(c: Config, table: Table, states: seq<State>, actions: seq<Action>, k: nat, i: nat)
    requires Run(c, table, states, actions) && k < |states| && i < c.Count()
    requires states[k].main.Returned? && states[k].result == 0
    ensures var s := states[k];
            && |s.workers| == |s.joins| == c.Count()
            && s.joins[i] == 1 && s.workers[i].pc.Exited? && s.workers[i].connection == Closed
            && s.workers[i].errors == 0 && s.workers[i].operations == c.iterations
            && (i < c.readers ==> s.workers[i].checksum == ReadFold(c, table, c.iterations))
            && s.committed == table
  {
    RunInv(c, table, states, actions, k);
    var s := states[k];
    assert forall j :: 0 <= j < |s.workers| ==> Completed(c, table, s.workers[j]);
    ErrorFreeTotals(c, s.workers);
  }

  // ----- progress

  function WorkerRank(c: Config, w: Worker): nat {
    match w.pc
    case NotStarted => c.iterations + 8
    case Initializing => c.iterations + 7
    case Signalling(_) => c.iterations + 6
    case Spinning => c.iterations + 5
    case Beginning => c.iterations + 4
    case Iterating(done) => if done <= c.iterations then c.iterations - done + 3 else 3
    case RollingBack => 2
    case Closing => 1
    case Exited => 0
  }

  function WorkersRank(c: Config, ws: seq<Worker>): nat {
    if ws == [] then 0 else WorkerRank(c, ws[0]) + WorkersRank(c, ws[1..])
  }

  function MainRank(s: State): int {
    var n := |s.workers|;
    match s.main
    case Creating(next) => n - next + n + 10
    case AwaitingReady => n + 9
    case Releasing => n + 8
    case CreationFailed => n + 8
    case Joining(next) => n - next + 6
    case Summing => 5
    case CleanupStore => s.startedCount + 4
    case CleanupJoin(next) => s.startedCount - next + 3
    case Returned => 0
  }

  function Rank(c: Config, s: State): int {
    WorkersRank(c, s.workers) + MainRank(s)
  }

  lemma {:induction false} WorkersRankUpdate(c: Config, ws: seq<Worker>, i: nat, w: Worker)
    requires i < |ws|
    ensures WorkersRank(c, ws[i := w]) == WorkersRank(c, ws) - WorkerRank(c, ws[i]) + WorkerRank(c, w)
  {
    if i > 0 {
      assert ws[i := w][1..] == ws[1..][i - 1 := w];
      WorkersRankUpdate(c, ws[1..], i - 1, w);
    } else {
      assert ws[i := w][1..] == ws[1..];
    }
  }

  lemma {:induction false} WorkerDescends(c: Config, table: Table, start: bool, w: Worker, ok: bool, after: Connection)
    requires WorkerOk(c, table, start, w) && WorkerEnabled(w)
    ensures var w' := WorkerStep(c, start, table, w, ok, after);
            WorkerRank(c, w') < WorkerRank(c, w) || (w' == w && w.pc.Spinning? && !start)
    ensures w.pc.Spinning? ==> CommittedAfter(c, table, w, ok) == table
  {
  }

  lemma MainDescends(c: Config, table: Table, s: State, ok: bool)
    requires Inv(c, table, s) && MainEnabled(s, ok)
    ensures MainStep(c, s, ok) == s || Rank(c, MainStep(c, s, ok)) < Rank(c, s)
  {
    if s.main.Creating? {
      CreateDescends(c, table, s, ok);
    } else {
      OtherMainDescends(c, table, s, ok);
    }
  }

  lemma CreateDescends(c: Config, table: Table, s: State, ok: bool)
    requires Inv(c, table, s) && MainEnabled(s, ok) && s.main.Creating?
    ensures Rank(c, MainStep(c, s, ok)) < Rank(c, s)
  {
    if s.main.next < |s.workers| && ok {
      WorkersRankUpdate(c, s.workers, s.main.next, s.workers[s.main.next].(pc := Initializing));
    }
  }

  lemma OtherMainDescends(c: Config, table: Table, s: State, ok: bool)
    requires Inv(c, table, s) && MainEnabled(s, ok) && !s.main.Creating?
    ensures MainStep(c, s, ok) == s || Rank(c, MainStep(c, s, ok)) < Rank(c, s)
  {
    assert MainStep(c, s, ok).workers == s.workers;
  }

  /** Every move other than a turn of a spin loop makes the rank smaller. */
  lemma StepDescends(c: Config, table: Table, s: State, a: Action)
    requires Inv(c, table, s) && Enabled(s, a)
    ensures Step(c, s, a) == s || Rank(c, Step(c, s, a)) < Rank(c, s)
  {
    match a
    case MainMoves(ok) => MainDescends(c, table, s, ok);
    case WorkerMoves(i, ok, after) =>
      var w := s.workers[i];
      var w' := WorkerStep(c, s.start, s.committed, w, ok, after);
      WorkerDescends(c, table, s.start, w, ok, after);
      WorkersRankUpdate(c, s.workers, i, w');
      if w' == w {
        assert s.workers[i := w'] == s.workers;
      }
  }

  /** Main's wait for ready, the workers' wait for start and the joins never wait on one another: in
      every state where the scenario has not ended, some thread has a move that succeeds and changes
      the state. */
  lemma SomeoneMoves(c: Config, table: Table, s: State) returns (a: Action)
    requires Inv(c, table, s)
    requires !s.main.Returned? || exists i :: 0 <= i < |s.workers| && WorkerEnabled(s.workers[i])
    ensures a.ok && Enabled(s, a) && Step(c, s, a) != s
  {
    match s.main
    case Returned =>
      var i :| 0 <= i < |s.workers| && WorkerEnabled(s.workers[i]);
      a := StartedWorkerMoves(c, table, s, i);
    case AwaitingReady =>
      if s.ready < |s.workers| {
        SignalCountFull(s.workers);
        var i :| 0 <= i < |s.workers| && !Signalled(s.workers[i]);
        a := UnsignalledWorkerMoves(c, table, s, i);
      } else {
        a := MainMoves(true);
      }
    case Joining(next) =>
      if next < |s.workers| && !s.workers[next].pc.Exited? {
        a := StartedWorkerMoves(c, table, s, next);
      } else {
        a := MainMoves(true);
      }
    case CleanupJoin(next) =>
      if next < s.startedCount && !s.workers[next].pc.Exited? {
        a := StartedWorkerMoves(c, table, s, next);
      } else {
        a := MainMoves(true);
      }
    case _ =>
      a := MainMoves(true);
  }

  lemma StartedWorkerMoves(c: Config, table: Table, s: State, i: nat) returns (a: Action)
    requires Inv(c, table, s) && s.start && i < |s.workers| && WorkerEnabled(s.workers[i])
    ensures a.ok && Enabled(s, a) && Step(c, s, a) != s
  {
    a := WorkerMoves(i, true, Closed);
    assert Step(c, s, a).workers[i] != s.workers[i];
  }

  lemma UnsignalledWorkerMoves(c: Config, table: Table, s: State, i: nat) returns (a: Action)
    requires Inv(c, table, s) && i < |s.workers| && !Signalled(s.workers[i]) && WorkerEnabled(s.workers[i])
    ensures a.ok && Enabled(s, a) && Step(c, s, a) != s
  {
    a := WorkerMoves(i, true, Closed);
    assert Step(c, s, a).workers[i] != s.workers[i];
  }

  /** Moves among the first k that change the state. */
  ghost function Changes(states: seq<State>, k: nat): nat
    requires k < |states|
  {
    if k == 0 then 0 else Changes(states, k - 1) + (if states[k] != states[k - 1] then 1 else 0)
  }

  lemma {:induction false} ChangesDescend(c: Config, table: Table, states: seq<State>, actions: seq<Action>, k: nat)
    requires Run(c, table, states, actions) && k < |states|
    ensures Changes(states, k) + Rank(c, states[k]) <= Rank(c, states[0])
  {
    if k > 0 {
      ChangesDescend(c, table, states, actions, k - 1);
      RunInv(c, table, states, actions, k - 1);
      StepDescends(c, table, states[k - 1], actions[k - 1]);
    }
  }

  lemma {:induction false} FreshWorkersRank(c: Config, ws: seq<Worker>)
    requires forall i :: 0 <= i < |ws| ==> ws[i].pc.NotStarted?
    ensures WorkersRank(c, ws) == |ws| * (c.iterations + 8)
  {
    if ws != [] {
      FreshWorkersRank(c, ws[1..]);
      assert |ws| * (c.iterations + 8) == (c.iterations + 8) + (|ws| - 1) * (c.iterations + 8);
    }
  }

  lemma {:induction false} InitialRank(c: Config, table: Table)
    ensures Rank(c, Initial(c, table)) <= c.Count() * (c.iterations + 8) + 2 * c.Count() + 10
  {
    FreshWorkersRank(c, Initial(c, table).workers);
  }

  lemma {:induction false} RankNonnegative(c: Config, table: Table, s: State)
    requires Inv(c, table, s)
    ensures Rank(c, s) >= 0
  {
    assert MainRank(s) >= 0;
  }

  /** No run takes more than a fixed number of moves besides turns of its spin loops. */
  lemma {:induction false} RunsAreBounded(c: Config, table: Table, states: seq<State>, actions: seq<Action>, k: nat)
    requires Run(c, table, states, actions) && k < |states|
    ensures Changes(states, k) <= c.Count() * (c.iterations + 8) + 2 * c.Count() + 10
  {
    InitialRank(c, table);
    ChangesDescend(c, table, states, actions, k);
    RunInv(c, table, states, actions, k);
    RankNonnegative(c, table, states[k]);
  }
}
