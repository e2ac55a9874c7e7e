/** The start barrier and the benchmark workers of the concurrency scenario, as interleaved steps of
    one main thread and any number of workers over a transactional table. */
module WorkerProtocol {
  import opened Words

  const MAXIMUM_WORKERS: nat := 5
  const FNV_BASIS: Word := 1469598103934665603

  type Table = map<int, int>

  /** digest is how one read statement folds a table into a running checksum. */
  datatype Config = Config(readers: nat, writers: nat, iterations: nat, digest: (Word, Table) -> Word) {
    function Count(): nat {
      readers + writers
    }
  }

  /** One database connection. Outside a transaction statements commit at once; inside one they work
      on a private copy that a rollback or a close discards. */
  datatype Connection = Closed | Open(inTransaction: bool, pending: Table)

  /** The writers' statement: UPDATE items SET score = score + 1 WHERE id = 1. */
  function Bump(t: Table): Table {
    if 1 in t then t[1 := t[1] + 1] else t
  }

  datatype WorkerPc =
    | NotStarted
    | Initializing
    | Signalling(initialized: bool)
    | Spinning
    | Beginning
    | Iterating(done: nat)
    | RollingBack
    | Closing
    | Exited

  datatype Worker = Worker(
    pc: WorkerPc,
    writer: bool,
    connection: Connection,
    transactionStarted: bool,
    operations: nat,
    errors: nat,
    checksum: Word
  )

  datatype MainPc =
    | Creating(next: nat)
    | AwaitingReady
    | Releasing
    | Joining(next: nat)
    | Summing
    | CreationFailed
    | CleanupStore
    | CleanupJoin(next: nat)
    | Returned

  datatype State = State(
    main: MainPc,
    workers: seq<Worker>,
    ready: nat,
    start: bool,
    startedCount: nat,
    creationFailed: bool,
    joins: seq<nat>,
    joinFailed: bool,
    result: nat,
    committed: Table
  )

  /** Who moves next, and whether the call it makes succeeds. A failed database call may leave the
      worker's connection in any state. */
  datatype Action = MainMoves(ok: bool) | WorkerMoves(worker: nat, ok: bool, after: Connection)

  function NewWorker(c: Config, i: nat): Worker {
    Worker(NotStarted, i >= c.readers, Closed, false, 0, 0, FNV_BASIS)
  }

  function Initial(c: Config, table: Table): State {
    State(
      if c.Count() > MAXIMUM_WORKERS then Returned else Creating(0),
      seq(c.Count(), i requires 0 <= i => NewWorker(c, i)),
      0, false, 0, false, seq(c.Count(), _ => 0), false, 1, table)
  }

  // ----- the worker thread

  function AfterIterations(w: Worker): WorkerPc {
    if w.transactionStarted then RollingBack else Closing
  }

  predicate Signalled(w: Worker) {
    !w.pc.NotStarted? && !w.pc.Initializing? && !w.pc.Signalling?
  }

  predicate WorkerEnabled(w: Worker) {
    !w.pc.NotStarted? && !w.pc.Exited?
  }

  function WorkerStep(c: Config, start: bool, committed: Table, w: Worker, ok: bool, after: Connection): Worker
    requires WorkerEnabled(w)
  {
    match w.pc
    case Initializing =>
      if ok then w.(pc := Signalling(true), connection := Open(false, map[]))
      else w.(pc := Signalling(false), connection := after, errors := w.errors + 1)
    case Signalling(initialized) =>
      w.(pc := if initialized then Spinning else Closing)
    case Spinning =>
      if start then w.(pc := Beginning) else w
    case Beginning =>
      if !w.writer then w.(pc := Iterating(0))
      else if ok then w.(pc := Iterating(0), connection := Open(true, committed), transactionStarted := true)
      else w.(pc := Closing, connection := after, errors := w.errors + 1)
    case Iterating(done) =>
      if done == c.iterations then w.(pc := AfterIterations(w))
      else if !ok then w.(pc := AfterIterations(w), connection := after, errors := w.errors + 1)
      else
        var next := w.(pc := Iterating(done + 1), operations := w.operations + 1);
        if w.writer then
          next.(connection := if w.connection.Open? && w.connection.inTransaction
                              then Open(true, Bump(w.connection.pending)) else w.connection)
        else
          next.(checksum := c.digest(w.checksum, Visible(w.connection, committed)))
    case RollingBack =>
      var next := w.(pc := Closing, transactionStarted := false);
      if ok then next.(connection := Open(false, map[])) else next.(connection := after, errors := w.errors + 1)
    case Closing =>
      w.(pc := Exited, connection := Closed, errors := if ok then w.errors else w.errors + 1)
    case _ => w
  }

  function Visible(connection: Connection, committed: Table): Table {
    if connection.Open? && connection.inTransaction then connection.pending else committed
  }

  /** A write outside a transaction commits. */
  function CommittedAfter(c: Config, committed: Table, w: Worker, ok: bool): Table {
    if w.pc.Iterating? && w.pc.done != c.iterations && ok && w.writer &&
       !(w.connection.Open? && w.connection.inTransaction)
    then Bump(committed) else committed
  }

  // ----- the main thread

  function TotalErrors(ws: seq<Worker>): nat {
    if ws == [] then 0 else ws[0].errors + TotalErrors(ws[1..])
  }

  function TotalOperations(ws: seq<Worker>): nat {
    if ws == [] then 0 else ws[0].operations + TotalOperations(ws[1..])
  }

  predicate MainEnabled(s: State, ok: bool) {
    match s.main
    case Returned => false
    case Creating(next) => next <= |s.workers|
    case Joining(next) => next <= |s.workers| && (next < |s.workers| && ok ==> s.workers[next].pc.Exited?)
    case CleanupJoin(next) =>
      next <= s.startedCount <= |s.workers| && (next < s.startedCount && ok ==> s.workers[next].pc.Exited?)
    case _ => true
  }

  function Joined(s: State, i: nat): State
    requires i < |s.joins|
  {
    s.(joins := s.joins[i := s.joins[i] + 1])
  }

  function MainStep(c: Config, s: State, ok: bool): State
    requires MainEnabled(s, ok) && |s.joins| == |s.workers|
  {
    match s.main
    case Creating(next) =>
      if next == |s.workers| then s.(main := AwaitingReady)
      else if !ok then s.(main := CreationFailed, creationFailed := true)
      else s.(main := Creating(next + 1), startedCount := s.startedCount + 1,
              workers := s.workers[next := s.workers[next].(pc := Initializing)])
    case AwaitingReady => if s.ready < |s.workers| then s else s.(main := Releasing)
    case Releasing => s.(main := Joining(0), start := true)
    case Joining(next) =>
      if next == |s.workers| then s.(main := Summing, startedCount := 0)
      else Joined(s, next).(main := if ok then Joining(next + 1) else Returned, joinFailed := !ok)
    case Summing =>
      if TotalErrors(s.workers) != 0 || TotalOperations(s.workers) != |s.workers| * c.iterations
      then s.(main := Returned) else s.(main := CleanupStore, result := 0)
    case CreationFailed => s.(main := CleanupStore, start := true)
    case CleanupStore => s.(main := CleanupJoin(0), start := true)
    case CleanupJoin(next) =>
      if next == s.startedCount then s.(main := Returned) else Joined(s, next).(main := CleanupJoin(next + 1))
    case Returned => s
  }

  // ----- the interleaving

  predicate Enabled(s: State, a: Action) {
    match a
    case MainMoves(ok) => MainEnabled(s, ok)
    case WorkerMoves(i, _, _) => i < |s.workers| && WorkerEnabled(s.workers[i])
  }

  function Step(c: Config, s: State, a: Action): State
    requires |s.joins| == |s.workers| && Enabled(s, a)
  {
    match a
    case MainMoves(ok) => MainStep(c, s, ok)
    case WorkerMoves(i, ok, after) =>
      var w := s.workers[i];
      s.(workers := s.workers[i := WorkerStep(c, s.start, s.committed, w, ok, after)],
         ready := s.ready + (if w.pc.Signalling? then 1 else 0),
         committed := CommittedAfter(c, s.committed, w, ok))
  }

  // ----- the invariant

  function ReadFold(c: Config, table: Table, times: nat): Word {
    if times == 0 then FNV_BASIS else c.digest(ReadFold(c, table, times - 1), table)
  }

  /** A worker that has finished without an error did all its iterations. */
  predicate Completed(c: Config, table: Table, w: Worker) {
    w.errors == 0 ==>
      w.operations == c.iterations && (!w.writer ==> w.checksum == ReadFold(c, table, c.iterations))
  }

  predicate Untouched(w: Worker) {
    w.operations == 0 && w.checksum == FNV_BASIS && !w.transactionStarted
  }

  /** What holds of one worker, whatever the others do. */
  predicate WorkerOk(c: Config, table: Table, start: bool, w: Worker) {
    && (!start ==> Untouched(w))
    && match w.pc
       case NotStarted => Untouched(w) && w.errors == 0
       case Initializing => Untouched(w) && w.errors == 0
       case Signalling(ok) =>
         && Untouched(w)
         && (if ok then w.errors == 0 && w.connection == Open(false, map[]) else w.errors > 0)
       case Spinning => Untouched(w) && w.errors == 0 && w.connection == Open(false, map[])
       case Beginning => start && Untouched(w) && w.errors == 0 && w.connection == Open(false, map[])
       case Iterating(done) =>
         && start && done <= c.iterations && w.operations == done && w.errors == 0
         && w.transactionStarted == w.writer
         && w.connection.Open? && w.connection.inTransaction == w.writer
         && (!w.writer ==> w.checksum == ReadFold(c, table, done))
       case RollingBack => start && w.transactionStarted && w.writer && Completed(c, table, w)
       case Closing => !w.transactionStarted && Completed(c, table, w) && (!start ==> w.errors > 0)
       case Exited => !w.transactionStarted && w.connection == Closed && Completed(c, table, w)
  }

  function SignalCount(ws: seq<Worker>): nat {
    if ws == [] then 0 else (if Signalled(ws[0]) then 1 else 0) + SignalCount(ws[1..])
  }

  predicate AllStarted(ws: seq<Worker>, n: nat) {
    forall i :: 0 <= i < |ws| ==> (ws[i].pc.NotStarted? <==> i >= n)
  }

  predicate JoinedUpTo(s: State, n: nat) {
    forall i :: 0 <= i < |s.joins| ==> s.joins[i] == (if i < n then 1 else 0)
  }

  predicate AllExited(ws: seq<Worker>, n: nat) {
    forall i :: 0 <= i < |ws| && i < n ==> ws[i].pc.Exited?
  }

  predicate AtMostOneJoin(s: State) {
    forall i :: 0 <= i < |s.joins| ==> s.joins[i] <= 1
  }

  predicate EachStartedJoined(s: State)
    requires |s.joins| == |s.workers|
  {
    forall i :: 0 <= i < |s.joins| ==> s.joins[i] == (if s.workers[i].pc.NotStarted? then 0 else 1)
  }

  predicate MainOk(c: Config, s: State)
    requires |s.joins| == |s.workers|
  {
    var n := |s.workers|;
    && AtMostOneJoin(s)
    && (s.result == 0 || s.result == 1)
    && (!s.main.Returned? ==> !s.joinFailed && n <= MAXIMUM_WORKERS)
    && match s.main
       case Creating(next) =>
         && next == s.startedCount <= n && AllStarted(s.workers, next) && JoinedUpTo(s, 0)
         && !s.start && !s.creationFailed && s.result == 1
       case AwaitingReady =>
         && s.startedCount == n && AllStarted(s.workers, n) && JoinedUpTo(s, 0)
         && !s.start && !s.creationFailed && s.result == 1
       case Releasing =>
         && s.startedCount == n && AllStarted(s.workers, n) && JoinedUpTo(s, 0) && !s.start && !s.creationFailed
         && s.ready == n && s.result == 1
       case Joining(next) =>
         && s.startedCount == n && next <= n && AllStarted(s.workers, n) && JoinedUpTo(s, next)
         && AllExited(s.workers, next) && s.start && !s.creationFailed && s.result == 1
       case Summing =>
         && s.startedCount == 0 && AllStarted(s.workers, n) && AllExited(s.workers, n) && JoinedUpTo(s, n)
         && s.start && !s.creationFailed && s.result == 1
       case CreationFailed =>
         && s.startedCount < n && AllStarted(s.workers, s.startedCount) && JoinedUpTo(s, 0)
         && s.creationFailed && !s.start && s.result == 1
       case CleanupStore => InCleanup(c, s, 0)
       case CleanupJoin(next) => InCleanup(c, s, next)
       case Returned =>
         && (s.start || (c.Count() > MAXIMUM_WORKERS && AllStarted(s.workers, 0)))
         && (s.start && !s.joinFailed ==> EachStartedJoined(s))
         && (s.result == 0 ==> Succeeded(c, s))
         && (s.result == 1 ==> n > MAXIMUM_WORKERS || s.creationFailed || s.joinFailed || CountedErrors(s))
  }

  /** Every thread has come to its end and some have counted errors. */
  predicate CountedErrors(s: State) {
    AllExited(s.workers, |s.workers|) && TotalErrors(s.workers) > 0
  }

  /** Cleanup is reached with every thread joined, or after a failed creation with none joined. */
  predicate InCleanup(c: Config, s: State, next: nat) {
    && s.start && next <= s.startedCount <= |s.workers|
    && if s.creationFailed
       then s.result == 1 && AllStarted(s.workers, s.startedCount) && JoinedUpTo(s, next)
       else s.startedCount == 0 && s.result == 0 && Succeeded(c, s)
  }

  predicate Succeeded(c: Config, s: State) {
    && !s.creationFailed && !s.joinFailed && |s.workers| <= MAXIMUM_WORKERS
    && AllExited(s.workers, |s.workers|) && JoinedUpTo(s, |s.workers|)
    && TotalErrors(s.workers) == 0 && TotalOperations(s.workers) == |s.workers| * c.iterations
  }

  predicate Inv(c: Config, table: Table, s: State) {
    && |s.workers| == |s.joins| == c.Count()
    && s.committed == table
    && s.ready == SignalCount(s.workers)
    && (forall i :: 0 <= i < |s.workers| ==> WorkerOk(c, table, s.start, s.workers[i]))
    && (forall i :: 0 <= i < |s.workers| ==> s.workers[i].writer == (i >= c.readers))
    && MainOk(c, s)
    && (s.start ==> s.creationFailed || s.ready == c.Count())
  }
}
