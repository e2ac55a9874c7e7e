/** The durable-autocommit benchmark: warm-up, measured transactions and the closing check, over a
    transactional table whose calls may fail at any point. */
module DurableRun {
  import opened Words

  const PAYLOAD_MULTIPLIER: int := 3
  const PAYLOAD_OFFSET: int := 7
  const MAXIMUM_TRANSACTIONS: nat := 1_000_000
  const MAXIMUM_WRITES: nat := 100

  type Table = map<int, int>

  function Payload(id: int): int {
    id * PAYLOAD_MULTIPLIER + PAYLOAD_OFFSET
  }

  /** The rows with ids first to first + count - 1. */
  function Rows(first: int, count: nat): Table {
    map id: int | first <= id < first + count :: Payload(id)
  }

  /** No row stands where count rows from first on are to go. */
  ghost predicate Free(table: Table, first: int, count: nat) {
    forall id :: first <= id < first + count ==> id !in table
  }

  /** The engine as the benchmark sees it. Every call may fail; a failed statement changes nothing, and
      a statement that would repeat a key fails. */
  class Engine {
    var committed: Table
    var inTransaction: bool
    var pending: Table
    /** Calls that failed for a reason of the engine's own. */
    ghost var failures: nat

    ghost function Visible(): Table
      reads this
    {
      if inTransaction then pending else committed
    }

    constructor ()
      ensures committed == map[] && !inTransaction && failures == 0
    {
      committed, inTransaction, pending, failures := map[], false, map[], 0;
    }

    method Begin() returns (ok: bool)
      requires !inTransaction
      modifies this
      ensures committed == old(committed) && inTransaction == ok
      ensures ok ==> pending == committed
      ensures failures == old(failures) + (if ok then 0 else 1)
    {
      ok := *;
      if ok {
        inTransaction, pending := true, committed;
      } else {
        failures := failures + 1;
      }
    }

    method Commit() returns (ok: bool)
      requires inTransaction
      modifies this
      ensures ok ==> committed == old(pending) && !inTransaction
      ensures !ok ==> committed == old(committed)
      ensures failures == old(failures) + (if ok then 0 else 1)
    {
      ok := *;
      if ok {
        committed, inTransaction := pending, false;
      } else {
        failures := failures + 1;
      }
    }

    method Rollback() returns (ok: bool)
      modifies this
      ensures committed == old(committed)
      ensures ok ==> !inTransaction
      ensures failures == old(failures) + (if ok then 0 else 1)
    {
      ok := *;
      if ok {
        inTransaction := false;
      } else {
        failures := failures + 1;
      }
    }

    method Insert(first: int, count: nat) returns (ok: bool, affected: nat)
      modifies this
      ensures inTransaction == old(inTransaction)
      ensures ok ==> affected == count && Visible() == old(Visible()) + Rows(first, count)
      ensures ok ==> old(Visible()).Keys !! Rows(first, count).Keys
      ensures !ok ==> Visible() == old(Visible())
      ensures inTransaction || !ok ==> committed == old(committed)
      ensures ok ==> failures == old(failures)
      ensures failures >= old(failures) && (!ok && Free(old(Visible()), first, count) ==> failures > old(failures))
    {
      ok := *;
      affected := 0;
      var table := if inTransaction then pending else committed;
      if !ok {
        failures := failures + 1;
      } else if exists id :: first <= id < first + count && id in table {
        ok := false;
      }
      if ok {
        affected := count;
        if inTransaction {
          pending := table + Rows(first, count);
        } else {
          committed := table + Rows(first, count);
        }
      }
    }

    method DeleteAll() returns (ok: bool)
      requires !inTransaction
      modifies this
      ensures !inTransaction && (if ok then committed == map[] else committed == old(committed))
      ensures failures == old(failures) + (if ok then 0 else 1)
    {
      ok := *;
      if ok {
        committed := map[];
      } else {
        failures := failures + 1;
      }
    }
  }

  datatype Shape = Repeated | MultiRow

  /** A table with the rows of a workload added. */
  ghost function With(before: Table, first: int, count: nat): Table {
    before + Rows(first, count)
  }

  lemma NoRows(before: Table, first: int)
    ensures With(before, first, 0) == before
  {
  }

  lemma AddedRow(before: Table, first: int, count: nat)
    ensures With(before, first, count) + Rows(first + count, 1) == With(before, first, count + 1)
  {
  }

  lemma RowsJoin(first: int, m: nat, n: nat)
    ensures Rows(first, m) + Rows(first + m, n) == Rows(first, m + n)
  {
  }

  /** One statement for every row. */
  method ExecuteRepeatedInserts(engine: Engine, first: int, writes: nat) returns (rc: nat, affected: nat)
    requires writes == 1 || engine.inTransaction
    modifies engine
    ensures engine.inTransaction == old(engine.inTransaction) && rc <= 1
    ensures rc == 0 ==> affected == writes && engine.Visible() == old(engine.Visible()) + Rows(first, writes)
    ensures engine.inTransaction || rc != 0 ==> engine.committed == old(engine.committed)
    ensures rc == 0 ==> engine.failures == old(engine.failures)
    ensures rc != 0 && Free(old(engine.Visible()), first, writes) ==> engine.failures > old(engine.failures)
  {
    affected := 0;
    ghost var before := engine.Visible();
    NoRows(before, first);
    for index := 0 to writes
      invariant engine.inTransaction == old(engine.inTransaction)
      invariant affected == index && engine.Visible() == With(before, first, index)
      invariant engine.inTransaction || index == 0 ==> engine.committed == old(engine.committed)
      invariant engine.failures == old(engine.failures)
    {
      StillFree(before, first, index, writes);
      var ok, n := InsertRow(engine, before, first, index);
      if !ok {
        return 1, affected;
      }
      affected := affected + n;
    }
    return 0, affected;
  }

  lemma StillFree(before: Table, first: int, index: nat, writes: nat)
    requires index < writes
    ensures Free(before, first, writes) ==> Free(With(before, first, index), first + index, 1)
  {
  }

  method InsertRow(engine: Engine, ghost before: Table, first: int, index: nat) returns (ok: bool, affected: nat)
    requires engine.Visible() == With(before, first, index)
    modifies engine
    ensures engine.inTransaction == old(engine.inTransaction)
    ensures ok ==> affected == 1 && engine.Visible() == With(before, first, index + 1)
    ensures engine.inTransaction || !ok ==> engine.committed == old(engine.committed)
    ensures ok ==> engine.failures == old(engine.failures)
    ensures !ok && Free(old(engine.Visible()), first + index, 1) ==> engine.failures > old(engine.failures)
  {
    ok, affected := engine.Insert(first + index, 1);
    AddedRow(before, first, index);
  }

  /** Runs one transaction. On success exactly its rows are added and committed; on any failure the
      committed table is as before. */
  method ExecuteInsertTransaction(engine: Engine, shape: Shape, first: int, writes: nat)
    returns (rc: nat, affected: nat)
    requires !engine.inTransaction && writes >= 1
    modifies engine
    ensures rc <= 1
    ensures rc == 0 ==>
              && !engine.inTransaction && affected == writes
              && engine.committed == old(engine.committed) + Rows(first, writes)
    ensures rc != 0 ==> engine.committed == old(engine.committed)
    ensures rc == 0 ==> engine.failures == old(engine.failures)
    ensures rc != 0 && Free(old(engine.committed), first, writes) ==> engine.failures > old(engine.failures)
  {
    affected := 0;
    var explicitTransaction := writes > 1;
    if explicitTransaction {
      var begun := engine.Begin();
      if !begun {
        return 1, 0;
      }
    }
    if shape == Repeated {
      rc, affected := ExecuteRepeatedInserts(engine, first, writes);
    } else {
      var ok, n := engine.Insert(first, writes);
      rc, affected := if ok then 0 else 1, n;
    }
    if rc != 0 {
      if explicitTransaction {
        var ignored := engine.Rollback();
      }
      return 1, affected;
    }
    if explicitTransaction {
      var committed := engine.Commit();
      if !committed {
        return 1, affected;
      }
    }
  }

  /** The product is taken in size_t, then negated as int64. */
  function FirstWarmupId(warmups: nat, writes: nat): int {
    -AsInt64(warmups * writes % WORD_LIMIT)
  }

  /** The id warm-up transaction index starts from; after the last one, where the ids end. */
  function WarmupId(warmups: nat, writes: nat, index: nat): int {
    FirstWarmupId(warmups, writes) + index * writes
  }

  predicate IsInt64(x: int) {
    -0x8000_0000_0000_0000 <= x < 0x8000_0000_0000_0000
  }

  /** No step of computing the warm-up ids overflows int64 exactly when their number fits it: otherwise
      the negation does, or stepping to the end. */
  lemma WarmupIdsFitExactly(warmups: nat, writes: nat)
    ensures (forall index: nat :: index <= warmups ==> IsInt64(WarmupId(warmups, writes, index))) <==>
              warmups * writes < 0x8000_0000_0000_0000
  {
    var total := warmups * writes;
    if total < 0x8000_0000_0000_0000 {
      forall index: nat | index <= warmups
        ensures IsInt64(WarmupId(warmups, writes, index))
      {
        Part(index, warmups, writes);
        assert FirstWarmupId(warmups, writes) == -total;
      }
    } else {
      EndOverflows(total);
      assert WarmupId(warmups, writes, warmups) == -AsInt64(total % WORD_LIMIT) + total;
      assert !IsInt64(WarmupId(warmups, writes, warmups));
    }
  }

  lemma Part(index: nat, count: nat, writes: nat)
    requires index <= count
    ensures 0 <= index * writes <= count * writes
  {
    assert count * writes == index * writes + (count - index) * writes;
  }

  lemma EndOverflows(total: nat)
    requires total >= 0x8000_0000_0000_0000
    ensures !IsInt64(-AsInt64(total % WORD_LIMIT) + total)
  {
  }

  /** Taken as unbounded integers, the warm-up ids stay clear of the m measured ids 1 to m exactly when
      their number fits int64, or its wrapped value turns negative and starts them above m. */
  lemma WarmupIdsClearExactly(warmups: nat, writes: nat, m: nat)
    requires m >= 1
    ensures var total := warmups * writes;
            var w := total % WORD_LIMIT;
            Rows(FirstWarmupId(warmups, writes), total).Keys !! Rows(1, m).Keys <==>
              || total < 0x8000_0000_0000_0000
              || (w >= 0x8000_0000_0000_0000 && WORD_LIMIT - w > m)
  {
    ClearExactly(warmups * writes, m);
  }

  lemma ClearExactly(total: nat, m: nat)
    requires m >= 1
    ensures var w := total % WORD_LIMIT;
            Rows(-AsInt64(w), total).Keys !! Rows(1, m).Keys <==>
              || total < 0x8000_0000_0000_0000
              || (w >= 0x8000_0000_0000_0000 && WORD_LIMIT - w > m)
  {
    var w := total % WORD_LIMIT;
    var first := -AsInt64(w);
    var shared := if w >= 0x8000_0000_0000_0000 then first else 1;
    if total >= 0x8000_0000_0000_0000 && !(w >= 0x8000_0000_0000_0000 && WORD_LIMIT - w > m) {
      assert shared in Rows(first, total) && shared in Rows(1, m);
    }
  }

  /** Warm-up ids are all negative exactly when their number fits int64. */
  lemma WarmupIdsNegative(warmups: nat, writes: nat)
    ensures var first := FirstWarmupId(warmups, writes);
            (forall id :: id in Rows(first, warmups * writes) ==> id < 0) <==>
              warmups * writes < 0x8000_0000_0000_0000
  {
    NegativeIds(warmups * writes);
  }

  lemma NegativeIds(total: nat)
    ensures var first := -AsInt64(total % WORD_LIMIT);
            (forall id :: id in Rows(first, total) ==> id < 0) <==> total < 0x8000_0000_0000_0000
  {
    var first := -AsInt64(total % WORD_LIMIT);
    if total >= 0x8000_0000_0000_0000 {
      assert first + total - 1 in Rows(first, total);
    }
  }

  /** Warm-up writes as many consecutive ids from the first one on, and clears them. */
  method RunWarmup(engine: Engine, shape: Shape, warmups: nat, writes: nat) returns (rc: nat)
    requires !engine.inTransaction && engine.committed == map[] && writes >= 1
    modifies engine
    ensures rc <= 1
    ensures rc == 0 ==> !engine.inTransaction && engine.committed == map[]
    ensures rc != 0 ==>
              exists done :: 0 <= done <= warmups &&
                engine.committed == Rows(FirstWarmupId(warmups, writes), done * writes)
    ensures rc == 0 <==> engine.failures == old(engine.failures)
    ensures engine.failures >= old(engine.failures)
  {
    var first := FirstWarmupId(warmups, writes);
    var nextId := first;
    assert Rows(first, 0) == map[];
    for index := 0 to warmups
      invariant !engine.inTransaction
      invariant nextId == first + index * writes
      invariant engine.committed == Rows(first, index * writes)
      invariant engine.failures == old(engine.failures)
    {
      Steps(index, warmups, writes);
      var failed, affected := ExecuteInsertTransaction(engine, shape, nextId, writes);
      if failed != 0 || affected != writes {
        return 1;
      }
      RowsJoin(first, index * writes, writes);
      nextId := nextId + writes;
    }
    if warmups == 0 {
      return 0;
    }
    var ok := engine.DeleteAll();
    return if ok then 0 else 1;
  }

  lemma Steps(index: nat, count: nat, writes: nat)
    requires index < count
    ensures (index + 1) * writes == index * writes + writes
    ensures index * writes + writes <= count * writes
  {
    assert count * writes == (index + 1) * writes + (count - index - 1) * writes;
  }

  /** Measured transactions leave exactly the rows 1 to k * writes after k successes, whatever happens
      next. */
  method RunMeasurements(engine: Engine, shape: Shape, transactions: nat, writes: nat)
    returns (rc: nat, completed: nat, cumulative: nat)
    requires !engine.inTransaction && engine.committed == map[] && writes >= 1
    modifies engine
    ensures rc <= 1 && completed <= transactions && (rc == 0 ==> completed == transactions && !engine.inTransaction)
    ensures engine.committed == Rows(1, completed * writes) && cumulative == completed * writes
    ensures rc == 0 <==> engine.failures == old(engine.failures)
    ensures engine.failures >= old(engine.failures)
  {
    var nextId := 1;
    completed, cumulative := 0, 0;
    while completed < transactions
      invariant completed <= transactions && !engine.inTransaction
      invariant nextId == 1 + completed * writes && cumulative == completed * writes
      invariant engine.committed == Rows(1, completed * writes)
      invariant engine.failures == old(engine.failures)
    {
      Steps(completed, transactions, writes);
      var failed, affected := ExecuteInsertTransaction(engine, shape, nextId, writes);
      if failed != 0 {
        return 1, completed, cumulative;
      }
      RowsJoin(1, completed * writes, writes);
      cumulative := cumulative + affected;
      nextId := nextId + writes;
      completed := completed + 1;
    }
    return 0, completed, cumulative;
  }

  // ----- the closing check

  /** The sum of a * id + b * payload + c over the rows with ids from lo to hi - 1. */
  ghost function SumOver(table: Table, lo: int, hi: int, a: int, b: int, c: int): int
    decreases hi - lo
  {
    if hi <= lo then 0
    else SumOver(table, lo, hi - 1, a, b, c) + (if hi - 1 in table then a * (hi - 1) + b * table[hi - 1] + c else 0)
  }

  datatype Totals = Totals(rowCount: int, idSum: int, payloadSum: int)

  ghost predicate Covers(table: Table, lo: int, hi: int) {
    forall id :: id in table ==> lo <= id < hi
  }

  /** COUNT, SUM(id) and SUM(payload), scanning any range of ids that covers the table. */
  ghost function TotalsOf(table: Table, lo: int, hi: int): Totals {
    Totals(SumOver(table, lo, hi, 0, 0, 1), SumOver(table, lo, hi, 1, 0, 0), SumOver(table, lo, hi, 0, 1, 0))
  }

  /** What verify_rows expects, as it computes it in uint64. */
  function ExpectedTotals(rows: nat): Totals {
    var idSum := ((rows * (rows + 1)) % WORD_LIMIT) / 2;
    Totals(rows, idSum, (PAYLOAD_MULTIPLIER * idSum + PAYLOAD_OFFSET * rows) % WORD_LIMIT)
  }

  /** Twice the sums over the first m of the rows 1 to n. */
  lemma {:induction false} SumOfRows(n: nat, lo: int, m: nat)
    requires lo <= 1 && m <= n
    ensures var t := TotalsOf(Rows(1, n), lo, m + 1);
            && t.rowCount == m && 2 * t.idSum == m * (m + 1)
            && 2 * t.payloadSum == 3 * (m * (m + 1)) + 14 * m
  {
    if m == 0 {
      EmptySum(Rows(1, n), lo, 1);
    } else {
      SumOfRows(n, lo, m - 1);
      assert m * (m + 1) == (m - 1) * m + 2 * m;
    }
  }

  lemma {:induction false} EmptySum(table: Table, lo: int, hi: int)
    requires forall id :: lo <= id < hi ==> id !in table
    ensures TotalsOf(table, lo, hi) == Totals(0, 0, 0)
    decreases hi - lo
  {
    if lo < hi {
      EmptySum(table, lo, hi - 1);
    }
  }

  lemma {:induction false} SumBeyond(table: Table, lo: int, mid: int, hi: int)
    requires lo <= mid <= hi && forall id :: mid <= id < hi ==> id !in table
    ensures TotalsOf(table, lo, hi) == TotalsOf(table, lo, mid)
    decreases hi - mid
  {
    if mid < hi {
      SumBeyond(table, lo, mid, hi - 1);
    }
  }

  /** The sums over the rows 1 to n, whatever covering range is scanned. */
  lemma RowSums(n: nat, lo: int, hi: int)
    requires lo <= 1 && n + 1 <= hi
    ensures var t := TotalsOf(Rows(1, n), lo, hi);
            && t.rowCount == n && 2 * t.idSum == n * (n + 1)
            && 2 * t.payloadSum == 3 * (n * (n + 1)) + 14 * n
  {
    SumBeyond(Rows(1, n), lo, n + 1, hi);
    SumOfRows(n, lo, n);
  }

  /** The closed forms are the true sums, and for every run the options allow no step of computing
      them overflows. */
  lemma ClosedFormsAreExact(rows: nat, lo: int, hi: int)
    requires rows <= MAXIMUM_TRANSACTIONS * MAXIMUM_WRITES && lo <= 1 && rows + 1 <= hi
    ensures Covers(Rows(1, rows), lo, hi)
    ensures TotalsOf(Rows(1, rows), lo, hi) == ExpectedTotals(rows)
    ensures rows * (rows + 1) < WORD_LIMIT && ExpectedTotals(rows).payloadSum < WORD_LIMIT / 2
  {
    RowSums(rows, lo, hi);
    SquareBound(rows, 100_000_000);
    NoWrap(rows, rows * (rows + 1), TotalsOf(Rows(1, rows), lo, hi).idSum);
  }

  lemma NoWrap(rows: nat, product: nat, idSum: int)
    requires rows <= 100_000_000 && product <= 10_000_000_100_000_000 && product == 2 * idSum
    ensures product % WORD_LIMIT == product && product / 2 == idSum
    ensures (3 * idSum + 7 * rows) % WORD_LIMIT == 3 * idSum + 7 * rows < WORD_LIMIT / 2
  {
  }

  lemma SquareBound(n: nat, m: nat)
    requires n <= m
    ensures n * (n + 1) <= m * (m + 1)
  {
    assert m * (m + 1) == n * (n + 1) + (m - n) * (m + n + 1);
  }

  /** A whole run that gets through ends with exactly the expected rows, so the closing check agrees
      with the table; a run that fails in a measured transaction leaves only whole transactions. It gets
      through exactly when no call of the engine fails. */
  method RunBenchmark(engine: Engine, shape: Shape, warmups: nat, transactions: nat, writes: nat)
    returns (rc: nat, completed: nat)
    requires !engine.inTransaction && engine.committed == map[]
    requires 1 <= writes <= MAXIMUM_WRITES && transactions <= MAXIMUM_TRANSACTIONS
    modifies engine
    ensures rc == 0 ==>
              && completed == transactions && engine.committed == Rows(1, transactions * writes)
              && TotalsOf(engine.committed, 1, transactions * writes + 1) == ExpectedTotals(transactions * writes)
    ensures completed > 0 ==> engine.committed == Rows(1, completed * writes)
    ensures rc == 0 <==> engine.failures == old(engine.failures)
  {
    completed := 0;
    rc := RunWarmup(engine, shape, warmups, writes);
    if rc != 0 {
      return;
    }
    var cumulative;
    rc, completed, cumulative := RunMeasurements(engine, shape, transactions, writes);
    if rc != 0 || cumulative != transactions * writes {
      return 1, completed;
    }
    RunSize(transactions, writes);
    ClosedFormsAreExact(transactions * writes, 1, transactions * writes + 1);
  }

  lemma RunSize(transactions: nat, writes: nat)
    requires writes <= MAXIMUM_WRITES && transactions <= MAXIMUM_TRANSACTIONS
    ensures transactions * writes <= MAXIMUM_TRANSACTIONS * MAXIMUM_WRITES
  {
    ProductGrows(transactions, writes, MAXIMUM_TRANSACTIONS, MAXIMUM_WRITES);
  }

  lemma ProductGrows(a: nat, b: nat, c: nat, d: nat)
    requires a <= c && b <= d
    ensures a * b <= c * d
  {
    assert c * d - a * b == a * (d - b) + (c - a) * d;
  }
}
