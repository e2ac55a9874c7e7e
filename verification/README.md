# MyLite benchmark harness: verified model

MyLite's repository surrounds its engine with benchmark, stress and fuzz programs that generate SQL,
replay query logs, read expectation files, run worker threads, checksum results and verify tables, and
with the SQL functions its SQLite backend registers. This project models the algorithms in that code
whose correctness is not visible from one function body, and proves them for all inputs, all runs or all
interleavings. Verify everything with `dafny verify dfyconfig.toml`.

| modules | what they model |
|---|---|
| `GeneratedSql`, `BalancedOr`, `LargeQueries`, `PredicateMeaning`, `StatementMeaning` | the explicit-stack print of a balanced OR predicate into a bounded block, the size budget, and what the printed SQL means |
| `WorkerProtocol`, `StartBarrier`, `FairRuns`, `RunResults` | the two-flag start barrier, the benchmark workers and their transactions, as interleaved steps in which every call may fail |
| `SqlModeText`, `SqlModeList`, `SqlModeScanner`, `SqlModeLiteral`, `SqlModeTable`, `SqlModeReplay`, `SqlModeRun`, `SqlModeIdioms`, `SqlModeSpelling`, `SqlModeMeaning` | the SQL-mode readers, the literal decoder, the bounded variable table and the replay of a query log |
| `CsvFormat`, `GrowingBuffers`, `CsvReader` | the single-column CSV format and its reader over doubling buffers |
| `ExpectationFile`, `ExpectationText`, `FailureClassifier` | the expected-failure file and the classification of failing queries against it |
| `BitwiseFunctions`, `Words` | 64-bit SQL functions over values that hold a word as integer or as decimal text |
| `Checksum`, `ResultStream`, `StreamReader`, `Seeding` | result checksums, foreign-key-consistent seeding and bound parameters |
| `NestedWkb` | nested WKB construction, against a reader of clause 8.2 of OGC 06-103r4 |
| `DurableRun`, `LatencySummary` | id coverage of durable inserts under failures, and nearest-rank statistics |
| `Decimal`, `CStrings`, `Sequences` | decimal text, NUL-terminated text and shared facts about sequences |

Loops and in-place updates are methods over arrays and class fields, each proved against a function of its
inputs; the laws are lemmas about those functions. Bytes of text are `char`; the laws hold for every
character. size_t and uint64 arithmetic wraps explicitly where the code can wrap.

What the proofs turned up:

- Three builders outgrow the shared budget of 32 bytes an item and always fail past a fixed count: the
  scalar projection past 111212 items, the grouped projection past 111111169 and the wide CREATE TABLE
  past 111111111111111212 (`LargeQueries.FitsExactly` and the limits). These are limits of the functions;
  the scenarios call them with fixed scales of at most 4096 and reach none of them.
- `escape_sql_string` doubles quotes only. With backslash escapes on its output reads back exactly when no
  backslash comes before the last character (`SqlModeLiteral.EscapeRoundTrip`).
- A CSV query that ends in a backslash cannot be quoted, because its closing quote is swallowed. It can
  only stand unquoted, so one that also starts with a quote or holds a line break has no representation
  at all (`CsvFormat.ReaderImage`, `CsvFormat.CsvRoundTripExactly`).
- The two kinds of checksum stream, with and without an affected count, are each uniquely decodable, and
  they are told apart whenever every row has a column (`ResultStream.KindsExactly`,
  `ResultStream.KindsToldApart`).
- In the concurrency scenario the test on the number of operations is implied by the test on errors
  (`StartBarrier.SumDecides`), and the ROLLBACK in `cleanup_worker` is never reached, because
  `transaction_started` is false whenever it is called (`StartBarrier.CleanupNeverRollsBack`).
- The range size of an id binding is the intended share exactly when its product fits size_t; when it
  wraps, fewer rows are selected, yet the range stays inside the table (`Seeding.RangeSizeExactly`,
  `Seeding.RangeSizeBounds`).
- The arithmetic of the warm-up ids stays within int64 exactly when their number does, and then they are
  all negative; no option check bounds that number. Beyond it the ids, taken as unbounded integers, still
  miss the measured ones in some cases, exactly those of `DurableRun.WarmupIdsClearExactly`
  (`DurableRun.WarmupIdsFitExactly`, `DurableRun.WarmupIdsNegative`).
- The start value 1469598103934665603 of the checksums is not the FNV-1a offset basis (a digit is
  missing); no law here depends on it.

## Model

| member | source | states |
|---|---|---|
| `GeneratedSql.SqlBuffer.Append` | packages/libmylite/benchmarks/mylite_benchmark_runtime_stress.c:1556-1566 | appends and terminates exactly when text and terminator fit, otherwise changes nothing; the test cannot underflow |
| `GeneratedSql.SqlBuffer.AppendIndexed` | packages/libmylite/benchmarks/mylite_benchmark_runtime_stress.c:1568-1586 | one formatted write: whole text when it fits, contents kept when it is cut off |
| `GeneratedSql.AllocateGeneratedSql` | packages/libmylite/benchmarks/mylite_benchmark_runtime_stress.c:1545-1554 | a block of 128 + 32n bytes exactly when that does not overflow size_t and the allocator has it |
| `BalancedOr.DepthMonotone` | packages/libmylite/benchmarks/mylite_benchmark_runtime_stress.c:1359-1417 | more terms never need fewer frames |
| `BalancedOr.DepthIsCeilLog2` | packages/libmylite/benchmarks/mylite_benchmark_runtime_stress.c:1359-1417 | the recursion is exactly ceil(log2 n) + 1 frames deep |
| `BalancedOr.StackArrayIsTight` | packages/libmylite/benchmarks/mylite_benchmark_runtime_stress.c:1359-1417 | 65 frames suffice for every nonzero size_t count and are all needed exactly above 2^63 |
| `BalancedOr.TextSplits` | packages/libmylite/benchmarks/mylite_benchmark_runtime_stress.c:1380-1414 | what a frame still owes is the piece printed now, its whole child, and what it owes afterwards |
| `BalancedOr.PushKeeps` | packages/libmylite/benchmarks/mylite_benchmark_runtime_stress.c:1391-1408 | moving a frame on and pushing its child keeps text, peak and depth accounting and shrinks the remaining visits |
| `BalancedOr.PopKeeps` | packages/libmylite/benchmarks/mylite_benchmark_runtime_stress.c:1380-1414 | so does finishing a frame |
| `BalancedOr.PrintTopFrame` | packages/libmylite/benchmarks/mylite_benchmark_runtime_stress.c:1376-1415 | one loop iteration keeps the invariant and descends, or stops with a proper part of the goal because the block is too small |
| `BalancedOr.AppendBalancedOr` | packages/libmylite/benchmarks/mylite_benchmark_runtime_stress.c:1359-1417 | the frame-stack loop terminates, succeeds exactly when the recursive text fits, then appends exactly that text with exactly the recursion's depth as peak; on failure leaves a proper initial part |
| `LargeQueries.ItemListLength` | packages/libmylite/benchmarks/mylite_benchmark_runtime_stress.c:1312-1339 | length of a comma-separated list of numbered items from its digit total |
| `LargeQueries.WithinDecade` | packages/libmylite/benchmarks/mylite_benchmark_runtime_stress.c:1545-1554 | digits of the numbers 0 to count - 1, exactly, between any two powers of ten |
| `LargeQueries.DigitBudget` | packages/libmylite/benchmarks/mylite_benchmark_runtime_stress.c:1545-1554 | a budget of k digits a number lasts exactly until its spare digits and the shortfall 10 + 100 + ... + 10^k are used up |
| `LargeQueries.FitsExactly` | packages/libmylite/benchmarks/mylite_benchmark_runtime_stress.c:1545-1586 | for every statement shape the 128 + 32n block suffices exactly up to a computed number of items |
| `LargeQueries.InListLimit` | packages/libmylite/benchmarks/mylite_benchmark_runtime_stress.c:1312-1339 | the IN list fits for every count the allocator accepts |
| `LargeQueries.WideOrderLimit` | packages/libmylite/benchmarks/mylite_benchmark_runtime_stress.c:1508-1531 | so does the ORDER BY list |
| `LargeQueries.ScalarLimit` | packages/libmylite/benchmarks/mylite_benchmark_runtime_stress.c:1419-1447 | the scalar projection fits exactly up to 111212 expressions |
| `LargeQueries.GroupedLimit` | packages/libmylite/benchmarks/mylite_benchmark_runtime_stress.c:1449-1482 | the grouped projection fits exactly up to 111111169 items |
| `LargeQueries.WideTableLimit` | packages/libmylite/benchmarks/mylite_benchmark_runtime_stress.c:1484-1506 | the wide CREATE TABLE fits exactly up to 111111111111111212 columns, fewer than the allocator accepts |
| `LargeQueries.OrTextLength` | packages/libmylite/benchmarks/mylite_benchmark_runtime_stress.c:1359-1417 | n leaves and n - 1 inner nodes stay within 29n - 6 characters |
| `LargeQueries.AppendItems` | packages/libmylite/benchmarks/mylite_benchmark_runtime_stress.c:1326-1332 | the item loop appends the whole list exactly when it fits |
| `LargeQueries.AppendStatement` | packages/libmylite/benchmarks/mylite_benchmark_runtime_stress.c:1312-1339 | prefix, items and suffix are complete exactly when they and a terminator fit |
| `LargeQueries.BuildLargeOrQuery` | packages/libmylite/benchmarks/mylite_benchmark_runtime_stress.c:1341-1357 | built for exactly the counts 1 and up that the allocator accepts: the budget never runs out |
| `LargeQueries.BuildLargeInQuery` | packages/libmylite/benchmarks/mylite_benchmark_runtime_stress.c:1312-1339 | built for exactly the counts the allocator accepts, zero included |
| `LargeQueries.BuildStatement` | packages/libmylite/benchmarks/mylite_benchmark_runtime_stress.c:1419-1531 | a list statement is built exactly when the allocator accepts the count and the shape fits, with exactly its text |
| `LargeQueries.BuildScalarProjectionQuery` | packages/libmylite/benchmarks/mylite_benchmark_runtime_stress.c:1419-1447 | built exactly up to that count, with exactly its text |
| `PredicateMeaning.ParsePrint` | packages/libmylite/benchmarks/mylite_benchmark_runtime_stress.c:1359-1417 | an independent reader undoes the printer, whatever follows |
| `PredicateMeaning.PrintInjective` | packages/libmylite/benchmarks/mylite_benchmark_runtime_stress.c:1359-1417 | no text is printed from two predicates |
| `PredicateMeaning.OrTextIsPrinted` | packages/libmylite/benchmarks/mylite_benchmark_runtime_stress.c:1359-1417 | the generated text is the print of the tree that halves its terms |
| `PredicateMeaning.TreeShape` | packages/libmylite/benchmarks/mylite_benchmark_runtime_stress.c:1359-1417 | that tree has n leaves, sibling subtrees that differ by at most one term, and the stack's depth as height |
| `PredicateMeaning.TreeHolds` | packages/libmylite/benchmarks/mylite_benchmark_runtime_stress.c:1359-1417 | with wrapping term numbers it holds of exactly the ids less than count places ahead of first |
| `PredicateMeaning.LargeOrMeaning` | packages/libmylite/benchmarks/mylite_benchmark_runtime_stress.c:1341-1417 | the OR text has exactly one reading, balanced, true of exactly the ids 0 to n - 1 |
| `PredicateMeaning.ParseItems` | packages/libmylite/benchmarks/mylite_benchmark_runtime_stress.c:1312-1339 | the IN list reads back as 0, 1, ..., n - 1 |
| `StatementMeaning.InStatementReads` | packages/libmylite/benchmarks/mylite_benchmark_runtime_stress.c:1312-1339 | an independent reader takes the whole IN statement as the query on benchmark_values for the ids 0 to n - 1; without items it is no query |
| `StatementMeaning.OrStatementReads` | packages/libmylite/benchmarks/mylite_benchmark_runtime_stress.c:1341-1417 | it takes the whole OR statement as the query on predicate_values with the balanced predicate |
| `StatementMeaning.InAndOrSelectTheSame` | packages/libmylite/benchmarks/mylite_benchmark_runtime_stress.c:1312-1417 | for every count both whole statements are queries that return exactly the rows with ids 0 to n - 1 |
| `StatementMeaning.StatementReads` | packages/libmylite/benchmarks/mylite_benchmark_runtime_stress.c:1312-1531 | every list statement reads back by its own texts as the numbers 0 to n - 1 |
| `StatementMeaning.ScalarReads` | packages/libmylite/benchmarks/mylite_benchmark_runtime_stress.c:1419-1447 | the scalar projection, taken apart by the SQL texts it stands for |
| `StatementMeaning.GroupedReads` | packages/libmylite/benchmarks/mylite_benchmark_runtime_stress.c:1449-1482 | the grouped projection likewise |
| `StatementMeaning.WideTableReads` | packages/libmylite/benchmarks/mylite_benchmark_runtime_stress.c:1484-1506 | the wide CREATE TABLE likewise |
| `StatementMeaning.WideOrderReads` | packages/libmylite/benchmarks/mylite_benchmark_runtime_stress.c:1508-1531 | the wide ORDER BY likewise |
| `StartBarrier.WorkerStepKeeps` | packages/libmylite/benchmarks/mylite_large_dataset_system_benchmark.c:547-668 | every worker step, with any call failing, keeps the worker's invariant and the committed table |
| `StartBarrier.WorkerSignals` | packages/libmylite/benchmarks/mylite_large_dataset_system_benchmark.c:547-567 | a worker is counted ready exactly by leaving its signalling step |
| `StartBarrier.WorkerMoveKeeps` | packages/libmylite/benchmarks/mylite_large_dataset_system_benchmark.c:547-668 | a worker's move keeps the global invariant |
| `StartBarrier.MainMoveKeeps` | packages/libmylite/benchmarks/mylite_large_dataset_system_benchmark.c:440-511 | a move of the main thread keeps it, on every failure path |
| `StartBarrier.StepKeeps` | packages/libmylite/benchmarks/mylite_large_dataset_system_benchmark.c:419-668 | every interleaved step keeps it |
| `StartBarrier.RunInv` | packages/libmylite/benchmarks/mylite_large_dataset_system_benchmark.c:419-668 | it holds in every state of every run |
| `StartBarrier.BarrierSafety` | packages/libmylite/benchmarks/mylite_large_dataset_system_benchmark.c:419-602 | no operation before start; start only after all signals or a failed creation; at most one join a thread, exactly one for each started thread on a return without a failed join; the table is unchanged |
| `StartBarrier.CleanupNeverRollsBack` | packages/libmylite/benchmarks/mylite_large_dataset_system_benchmark.c:647-668 | no worker comes to its cleanup with a transaction of its own, and before start only with a counted error |
| `StartBarrier.SignalsOnce` | packages/libmylite/benchmarks/mylite_large_dataset_system_benchmark.c:547-567 | each worker adds one to ready at most once, exactly once when it gets past signalling; ready counts them |
| `StartBarrier.ErrorFreeTotals` | packages/libmylite/benchmarks/mylite_large_dataset_system_benchmark.c:478-484 | workers without errors add up to workers times iterations operations |
| `StartBarrier.SumDecides` | packages/libmylite/benchmarks/mylite_large_dataset_system_benchmark.c:478-494 | after the joins the scenario succeeds exactly when no error was counted; the test on operations then cannot fail |
| `StartBarrier.ReaderChecksums` | packages/libmylite/benchmarks/mylite_large_dataset_system_benchmark.c:622-645 | in every state of every run a reader without an error has the checksum of as many reads of the initial table as operations, all of them when it exits |
| `StartBarrier.SuccessMeans` | packages/libmylite/benchmarks/mylite_large_dataset_system_benchmark.c:471-511 | a successful run joined each worker once after exactly its iterations, with the readers' checksum of that many reads of the initial table |
| `StartBarrier.StepDescends` | packages/libmylite/benchmarks/mylite_large_dataset_system_benchmark.c:419-668 | every move but a turn of a spin loop lowers a rank |
| `StartBarrier.SomeoneMoves` | packages/libmylite/benchmarks/mylite_large_dataset_system_benchmark.c:462-475 | the two spin loops and the joins never wait on one another: until the end some thread has a successful move that changes the state |
| `StartBarrier.RunsAreBounded` | packages/libmylite/benchmarks/mylite_large_dataset_system_benchmark.c:419-668 | no run makes more than a fixed number of moves besides turns of spin loops |
| `FairRuns.AnyMoveChanges` | packages/libmylite/benchmarks/mylite_large_dataset_system_benchmark.c:462-475 | a thread whose move changes the state changes it by any of its moves, whatever the outcome |
| `FairRuns.RankFalls` | packages/libmylite/benchmarks/mylite_large_dataset_system_benchmark.c:419-668 | short of the end, a schedule that serves every thread that can go on comes to a state of smaller rank |
| `FairRuns.FairSchedulesEnd` | packages/libmylite/benchmarks/mylite_large_dataset_system_benchmark.c:419-668 | every such schedule, with any calls failing, reaches a state with main returned and every started worker exited, stays there, and leaves the table unchanged |
| `RunResults.ErrorsCountFailures` | packages/libmylite/benchmarks/mylite_large_dataset_system_benchmark.c:547-668 | a worker's errors are exactly its failed calls, none missed and none counted twice |
| `RunResults.ReturnedExactly` | packages/libmylite/benchmarks/mylite_large_dataset_system_benchmark.c:440-512 | a returned scenario has result 0 exactly when there are at most five workers, every thread was created and joined and no worker counted an error |
| `RunResults.SuccessExactly` | packages/libmylite/benchmarks/mylite_large_dataset_system_benchmark.c:419-512 | every run that has returned returns 0 exactly when there are at most five workers and no call of the run failed, cleanup joins apart |
| `RunResults.FairSchedulesSucceed` | packages/libmylite/benchmarks/mylite_large_dataset_system_benchmark.c:419-512 | with at most five workers every fair schedule without a failing call ends with result 0, all joined, all iterations done and the readers' checksums those of the initial table |
| `BitwiseFunctions.ParseUnsignedDecimalText` | packages/libmylite/src/runtime/mylite_bitwise.c:207-229 | the overflow guard accepts exactly nonempty digit strings up to 2^64 - 1 and returns their value |
| `BitwiseFunctions.IntegerArgument` | packages/libmylite/src/runtime/mylite_bitwise.c:197-200 | an integer argument is the word that is that integer when taken as signed again |
| `BitwiseFunctions.BitwiseArgumentUint64` | packages/libmylite/src/runtime/mylite_bitwise.c:184-205 | the argument reader: NULL, an integer's word, or the word of a decimal text, and which values are unusable |
| `BitwiseFunctions.ResultKinds` | packages/libmylite/src/runtime/mylite_bitwise.c:231-245 | words below 2^63 are returned as integers, the others as their decimal text |
| `BitwiseFunctions.ResultReadsBack` | packages/libmylite/src/runtime/mylite_bitwise.c:184-245 | every word survives being returned as integer or text and read as an argument |
| `BitwiseFunctions.CallbackFails` | packages/libmylite/src/runtime/mylite_bitwise.c:107-205 | exactly which operations, argument counts and arguments are errors |
| `BitwiseFunctions.EvaluationExactly` | packages/libmylite/src/runtime/mylite_bitwise.c:107-245 | for every expression at all: evaluation through encoded intermediate values errs exactly on a call of no operation, an unusable first operand, an unusable second behind a non-NULL first or a failing operand, and otherwise equals bit-level 64-bit evaluation with strict NULL |
| `BitwiseFunctions.NestedCallsAreExact` | packages/libmylite/src/runtime/mylite_bitwise.c:107-245 | with NULL, int64 and in-range decimal leaves there is never an error |
| `BitwiseFunctions.ShiftsAdd` | packages/libmylite/src/runtime/mylite_bitwise.c:154-159 | shifting by a then b is shifting by a + b, zero from 64 on |
| `Words.WordOpBits` | packages/libmylite/src/runtime/mylite_bitwise.c:131-153 | the word operations act bit by bit |
| `Words.ShiftLeftBits` | packages/libmylite/src/runtime/mylite_bitwise.c:154-156 | bit i of a left shift is bit i - s |
| `Words.ShiftRightBits` | packages/libmylite/src/runtime/mylite_bitwise.c:157-159 | bit i of a right shift is bit i + s |
| `CsvFormat.ScanEscaped` | packages/libmylite/benchmarks/mylite_benchmark_csv.c:173-206 | reading an escaped field and its closing quote gives back the field and what follows |
| `CsvFormat.ScanEscapedBackslash` | packages/libmylite/benchmarks/mylite_benchmark_csv.c:180-189 | a field that ends in a backslash swallows its closing quote and goes on into what follows |
| `CsvFormat.ScannedNeverEndsInBackslash` | packages/libmylite/benchmarks/mylite_benchmark_csv.c:173-206 | no accepted quoted field ends in a backslash |
| `CsvFormat.QuotedFieldImage` | packages/libmylite/benchmarks/mylite_benchmark_csv.c:173-206 | quoted fields denote exactly the strings not ending in a backslash |
| `CsvFormat.QuotingIsRfc4180` | packages/libmylite/benchmarks/mylite_benchmark_csv.c:173-206 | without backslashes the quoting is that of section 2 of RFC 4180 |
| `CsvFormat.CsvRoundTrip` | packages/libmylite/benchmarks/mylite_benchmark_csv.c:62-104 | every list of nonempty strings not ending in a backslash reads back from its quoted lines, embedded line breaks included |
| `CsvFormat.CsvRoundTripExactly` | packages/libmylite/benchmarks/mylite_benchmark_csv.c:62-104 | and no other list does |
| `CsvFormat.QueriesRead` | packages/libmylite/benchmarks/mylite_benchmark_csv.c:62-104 | every query read is nonempty, and one that ends in a backslash stood unquoted on its line |
| `CsvFormat.ReaderImage` | packages/libmylite/benchmarks/mylite_benchmark_csv.c:62-104 | the queries some file yields are exactly the nonempty texts that do not end in a backslash or need no quotes |
| `CsvFormat.ListImage` | packages/libmylite/benchmarks/mylite_benchmark_csv.c:62-104 | the lists some file holds are exactly the lists of such texts |
| `CsvFormat.PlainLine` | packages/libmylite/benchmarks/mylite_benchmark_csv.c:208-221 | unquoted lines keep their text and blank lines are skipped |
| `CsvFormat.NextLineBehind` | packages/libmylite/benchmarks/mylite_benchmark_csv.c:87-92 | the rest of a line is skipped up to its line feed |
| `CsvFormat.JunkIgnored` | packages/libmylite/benchmarks/mylite_benchmark_csv.c:78-92 | whatever follows a closing quote on its line is ignored |
| `CsvFormat.CarriageReturns` | packages/libmylite/benchmarks/mylite_benchmark_csv.c:71-92 | carriage returns before line feeds, alone and in front of other text |
| `GrowingBuffers.GrowingBuffer.Append` | packages/libmylite/benchmarks/mylite_benchmark_csv.c:265-287 | doubling growth refines sequence append; failure keeps the contents and needs a block that is not to be had |
| `GrowingBuffers.GrowingBuffer.Grow` | packages/libmylite/benchmarks/mylite_benchmark_csv.c:223-263 | growing keeps the contents and makes room, with the overflow tests of the capacity |
| `GrowingBuffers.GrowingBuffer.Deinit` | packages/libmylite/benchmarks/mylite_benchmark_csv.c:106-114 | empties the list |
| `CsvReader.ParseQuotedField` | packages/libmylite/benchmarks/mylite_benchmark_csv.c:173-206 | the cursor loop reads the field the format denotes, or reports it unterminated |
| `CsvReader.ParseUnquotedField` | packages/libmylite/benchmarks/mylite_benchmark_csv.c:208-221 | the plain loop reads up to the line end |
| `CsvReader.SkipLine` | packages/libmylite/benchmarks/mylite_benchmark_csv.c:87-92 | moves to what follows the next line feed |
| `CsvReader.AppendQuery` | packages/libmylite/benchmarks/mylite_benchmark_csv.c:223-263 | adds one query or keeps the list |
| `CsvReader.ReadRecord` | packages/libmylite/benchmarks/mylite_benchmark_csv.c:78-92 | one record of the file is one step of the format |
| `CsvReader.ReadNext` | packages/libmylite/benchmarks/mylite_benchmark_csv.c:71-100 | one turn of the file loop is one step of the format, its query stored |
| `CsvReader.ParseSingleColumnCsv` | packages/libmylite/benchmarks/mylite_benchmark_csv.c:62-104 | status and list are those the format prescribes, queries before a fault kept; no memory failure when blocks of the stated size exist |
| `ExpectationFile.SplitExactly` | packages/libmylite/benchmarks/mylite_benchmark_parse_expectations.c:266-300 | a line has given fields exactly when it is those fields joined by tabs and only the last holds further tabs |
| `ExpectationFile.SplitAtTabs` | packages/libmylite/benchmarks/mylite_benchmark_parse_expectations.c:266-300 | the loop computes that split |
| `ExpectationFile.PlainIndexRead` | packages/libmylite/benchmarks/mylite_benchmark_parse_expectations.c:302-328 | an index in plain digits is read as its number |
| `ExpectationText.IndexFieldRead` | packages/libmylite/benchmarks/mylite_benchmark_parse_expectations.c:302-328 | an index field of blanks, a sign and digits is read as strtoull does, at most 31 characters, below 2^64 and not zero |
| `ExpectationFile.FindExpectation` | packages/libmylite/benchmarks/mylite_benchmark_parse_expectations.c:140-153 | finds the first entry for an index exactly when there is one |
| `ExpectationFile.ParseExpectedFailureLine` | packages/libmylite/benchmarks/mylite_benchmark_parse_expectations.c:222-264 | stores a valid line's expectation, or rejects an invalid or repeated one; without memory for its copies or the list it says so |
| `ExpectationText.LineReads` | packages/libmylite/benchmarks/mylite_benchmark_parse_expectations.c:222-300 | a line written from an expectation reads back as it: index, status, token and reason in this order |
| `ExpectationFile.ScanLine` | packages/libmylite/benchmarks/mylite_benchmark_parse_expectations.c:96-117 | advances over one line and its CR, LF or CRLF |
| `ExpectationText.LinesOfText` | packages/libmylite/benchmarks/mylite_benchmark_parse_expectations.c:91-119 | the lines of a file are those it was written from, with LF, CRLF or CR |
| `ExpectationFile.LoadExactly` | packages/libmylite/benchmarks/mylite_benchmark_parse_expectations.c:79-121 | loading succeeds exactly when all lines are valid and no index repeats, and yields distinct nonzero indexes in file order |
| `ExpectationFile.ParseExpectedParseFailures` | packages/libmylite/benchmarks/mylite_benchmark_parse_expectations.c:79-121 | the file loop computes that load; a file not accepted leaves the list empty |
| `ExpectationText.FileReads` | packages/libmylite/benchmarks/mylite_benchmark_parse_expectations.c:79-121 | a file written from expectations, with comments and empty lines anywhere, loads as exactly them when their indexes are distinct, and is rejected otherwise |
| `FailureClassifier.ClassifyExpectedParseFailures` | packages/libmylite/benchmarks/mylite_benchmark.c:2918-2993 | the counts are those of each query's verdict; matched + mismatched + missing = expectations, matched + mismatched + unexpected = failing queries; fails at once without a block for the marks |
| `FailureClassifier.CountMissing` | packages/libmylite/benchmarks/mylite_benchmark.c:2975-2987 | missing is the number of expectations not marked |
| `FailureClassifier.TalliesAddUp` | packages/libmylite/benchmarks/mylite_benchmark.c:2933-2974 | every query gets exactly one verdict |
| `FailureClassifier.CleanExactly` | packages/libmylite/benchmarks/mylite_benchmark.c:2918-2993 | no count of faults remains exactly when no index is expected twice and the failing queries with status and token equal the expectations |
| `FailureClassifier.VerifyExpectedFailures` | packages/libmylite/benchmarks/mylite_benchmark.c:2893-2916 | loading and classifying returns 0 exactly when the file is valid and names exactly the failing queries, with status and token; with the list loaded the marks always have a block |
| `SqlModeText.DescriptorsAreGood` | packages/libmylite/benchmarks/mylite_benchmark_sql_mode.c:133-156 | every mode name is an identifier other than DEFAULT and 0 and stands for lexer bits only |
| `SqlModeText.TokenEqualsFolds` | packages/libmylite/benchmarks/mylite_benchmark_sql_mode.c:720-730 | token comparison is equality up to ASCII case |
| `SqlModeText.LookupFoldsCase` | packages/libmylite/benchmarks/mylite_benchmark_sql_mode.c:483-495 | a token's modes do not depend on its case |
| `SqlModeText.KnownTokens` | packages/libmylite/benchmarks/mylite_benchmark_sql_mode.c:483-495 | known tokens are identifiers and stand for lexer bits only |
| `SqlModeSpelling.AnsiQuotes` | packages/libmylite/benchmarks/mylite_benchmark_sql_mode.c:135-135 | ANSI_QUOTES stands for its lexer bit alone |
| `SqlModeSpelling.IgnoreSpace` | packages/libmylite/benchmarks/mylite_benchmark_sql_mode.c:138-138 | so does IGNORE_SPACE |
| `SqlModeSpelling.NoBackslashEscapes` | packages/libmylite/benchmarks/mylite_benchmark_sql_mode.c:140-140 | so does NO_BACKSLASH_ESCAPES |
| `SqlModeSpelling.PipesAsConcat` | packages/libmylite/benchmarks/mylite_benchmark_sql_mode.c:148-148 | so does PIPES_AS_CONCAT |
| `SqlModeSpelling.Ansi` | packages/libmylite/benchmarks/mylite_benchmark_sql_mode.c:153-154 | ANSI stands for the three bits of ANSI_QUOTES, IGNORE_SPACE and PIPES_AS_CONCAT |
| `SqlModeSpelling.OtherNames` | packages/libmylite/benchmarks/mylite_benchmark_sql_mode.c:133-156 | no other name stands for a lexer bit |
| `SqlModeSpelling.PaddingTrimmed` | packages/libmylite/benchmarks/mylite_benchmark_sql_mode.c:682-696 | trimming takes off exactly the blanks around a text |
| `SqlModeSpelling.ItemsOfJoined` | packages/libmylite/benchmarks/mylite_benchmark_sql_mode.c:426-442 | the items of a list are what stands between its commas, trimmed |
| `SqlModeSpelling.PaddingIgnored` | packages/libmylite/benchmarks/mylite_benchmark_sql_mode.c:413-445 | blanks around a value do not matter |
| `SqlModeSpelling.EmptyValues` | packages/libmylite/benchmarks/mylite_benchmark_sql_mode.c:421-425 | no text, DEFAULT in any case and 0 stand for no mode |
| `SqlModeSpelling.ListValues` | packages/libmylite/benchmarks/mylite_benchmark_sql_mode.c:426-444 | any other list is the union of its items when all are modes, and refused otherwise |
| `SqlModeSpelling.TokensAreRuns` | packages/libmylite/benchmarks/mylite_benchmark_sql_mode.c:698-730 | the token search finds a word exactly when one of the scanner's identifier runs is that word, whatever the case |
| `SqlModeSpelling.KeywordIsFirstRun` | packages/libmylite/benchmarks/mylite_benchmark_sql_mode.c:732-750 | a query starts with a keyword exactly when its first word behind blanks is that keyword |
| `SqlModeSpelling.VariableNames` | packages/libmylite/benchmarks/mylite_benchmark_sql_mode.c:590-618 | a user variable is known by the folded text behind its at signs, if shorter than 64 bytes |
| `SqlModeList.TrimSpan` | packages/libmylite/benchmarks/mylite_benchmark_sql_mode.c:682-696 | the two trimming loops cut exactly the outer blanks |
| `SqlModeList.LookupSqlModeToken` | packages/libmylite/benchmarks/mylite_benchmark_sql_mode.c:483-495 | the search returns the first descriptor's modes |
| `SqlModeList.BitInModes` | packages/libmylite/benchmarks/mylite_benchmark_sql_mode.c:413-445 | a bit is in the union exactly when some known item sets it |
| `SqlModeList.ModesIgnoreOrderAndCase` | packages/libmylite/benchmarks/mylite_benchmark_sql_mode.c:413-445 | the union ignores order, case and repetition |
| `SqlModeList.ModesAreLexerBits` | packages/libmylite/benchmarks/mylite_benchmark_sql_mode.c:413-481 | every union stays within the four lexer bits |
| `SqlModeList.ParseModeList` | packages/libmylite/benchmarks/mylite_benchmark_sql_mode.c:426-444 | the comma loop accepts exactly lists of known items and returns their union |
| `SqlModeList.ParseSqlModeValueText` | packages/libmylite/benchmarks/mylite_benchmark_sql_mode.c:413-445 | accepts exactly blank text, default, 0, or a list of known modes |
| `SqlModeScanner.CollectSqlModeTokens` | packages/libmylite/benchmarks/mylite_benchmark_sql_mode.c:447-481 | collects the modes of all identifier runs that are mode names |
| `SqlModeScanner.RunsSplit` | packages/libmylite/benchmarks/mylite_benchmark_sql_mode.c:447-481 | identifier runs do not reach over any other character |
| `SqlModeScanner.RunsAreItems` | packages/libmylite/benchmarks/mylite_benchmark_sql_mode.c:413-481 | in a list of known modes the runs are exactly the trimmed items |
| `SqlModeScanner.ScannerAgrees` | packages/libmylite/benchmarks/mylite_benchmark_sql_mode.c:413-481 | on every text the list reader accepts the scanner finds the same modes |
| `SqlModeLiteral.DecodeQuotedSqlModeValue` | packages/libmylite/benchmarks/mylite_benchmark_sql_mode.c:497-534 | the decoding loop yields the decoded body exactly when the text is a literal that fits the buffer |
| `SqlModeLiteral.LiteralRoundTrip` | packages/libmylite/benchmarks/mylite_benchmark_sql_mode.c:497-534 | decoding undoes quoting for both quote characters, with and without NO_BACKSLASH_ESCAPES |
| `SqlModeLiteral.EscapeSqlString` | packages/libmylite/benchmarks/mylite_load_data_benchmark.c:775-789 | exactly when the escaper succeeds, and that it then writes the text with doubled quotes |
| `SqlModeLiteral.DecodedLength` | packages/libmylite/benchmarks/mylite_load_data_benchmark.c:775-789 | decoding escaped text never lengthens it |
| `SqlModeLiteral.EscapedReadsBackExactly` | packages/libmylite/benchmarks/mylite_load_data_benchmark.c:775-789 | with backslash escapes on, escaped text reads back exactly when no backslash comes before the last character |
| `SqlModeLiteral.EscapeRoundTrip` | packages/libmylite/benchmarks/mylite_load_data_benchmark.c:775-789 | the same for the whole literal, and always under NO_BACKSLASH_ESCAPES |
| `SqlModeLiteral.EscapeLosesBackslash` | packages/libmylite/benchmarks/mylite_load_data_benchmark.c:775-789 | a backslash and an n lose the backslash |
| `SqlModeTable.FirstNamesDistinct` | packages/libmylite/benchmarks/mylite_benchmark_sql_mode.c:620-647 | the names counted towards the table are distinct |
| `SqlModeTable.SavedMirrors` | packages/libmylite/benchmarks/mylite_benchmark_sql_mode.c:620-647 | one save keeps the table equal to the history it stands for |
| `SqlModeTable.TableExactly` | packages/libmylite/benchmarks/mylite_benchmark_sql_mode.c:620-647 | the table is the last-write-wins map on the first 32 distinct names saved |
| `SqlModeTable.KeptExactly` | packages/libmylite/benchmarks/mylite_benchmark_sql_mode.c:620-647 | the table keeps the first 32 names |
| `SqlModeTable.LoadedExactly` | packages/libmylite/benchmarks/mylite_benchmark_sql_mode.c:649-664 | loading gives the last saved value exactly for those names |
| `SqlModeReplay.ContainsExactly` | packages/libmylite/benchmarks/mylite_benchmark_sql_mode.c:702-718 | the search finds a token exactly when it occurs somewhere as a whole word |
| `SqlModeReplay.TextContainsToken` | packages/libmylite/benchmarks/mylite_benchmark_sql_mode.c:702-718 | the search loop decides that |
| `SqlModeReplay.ValueIsLexerMask` | packages/libmylite/benchmarks/mylite_benchmark_sql_mode.c:325-411 | every evaluated value stays within the four lexer bits |
| `SqlModeReplay.AssignmentIsSound` | packages/libmylite/benchmarks/mylite_benchmark_sql_mode.c:295-323 | one assignment keeps all masks lexer masks and the table that of its saves |
| `SqlModeReplay.QueryIsSound` | packages/libmylite/benchmarks/mylite_benchmark_sql_mode.c:173-293 | so does a query, with its second parse under no mode |
| `SqlModeReplay.ReplayIsSound` | packages/libmylite/benchmarks/mylite_benchmark_sql_mode.c:158-171 | so does every log, whatever the parser returns |
| `SqlModeReplay.ReplayTable` | packages/libmylite/benchmarks/mylite_benchmark_sql_mode.c:620-664 | behind every log a variable loads as its last saved value exactly when among the first 32 names |
| `SqlModeRun.ModeContext.SaveUserVariable` | packages/libmylite/benchmarks/mylite_benchmark_sql_mode.c:620-647 | the array loop refines the save |
| `SqlModeRun.ModeContext.LoadUserVariable` | packages/libmylite/benchmarks/mylite_benchmark_sql_mode.c:649-664 | the array loop refines the load |
| `SqlModeRun.ModeContext.EvaluateSqlModeValue` | packages/libmylite/benchmarks/mylite_benchmark_sql_mode.c:325-389 | evaluation over the mutable context, functional values included, refines the value function |
| `SqlModeRun.ModeContext.ReadListChange` | packages/libmylite/benchmarks/mylite_benchmark_sql_mode.c:353-389 | the scans behind list_add and list_drop find the modes a text names and what the call makes of the current ones |
| `SqlModeRun.ModeContext.EvaluateSpan` | packages/libmylite/benchmarks/mylite_benchmark_sql_mode.c:391-411 | a quoted or bare value refines its own |
| `SqlModeRun.ModeContext.ApplySetAssignment` | packages/libmylite/benchmarks/mylite_benchmark_sql_mode.c:295-323 | one assignment in place is the specified effect |
| `SqlModeRun.ModeContext.ApplySetAssignments` | packages/libmylite/benchmarks/mylite_benchmark_sql_mode.c:247-268 | so is a SET statement's list |
| `SqlModeRun.ModeContext.ApplyParsedQuery` | packages/libmylite/benchmarks/mylite_benchmark_sql_mode.c:229-293 | and a parsed query, also one the parser keeps as a placeholder |
| `SqlModeRun.ModeContext.ApplyQueryEffect` | packages/libmylite/benchmarks/mylite_benchmark_sql_mode.c:173-227 | a query with its retry is the specified step or a parser failure |
| `SqlModeRun.NeverRecovers` | packages/libmylite/benchmarks/mylite_benchmark_sql_mode.c:158-171 | after a parser failure nothing more is assigned |
| `SqlModeRun.AssignSqlModes` | packages/libmylite/benchmarks/mylite_benchmark_sql_mode.c:158-171 | query i gets the mode that queries 0 to i - 1 leave behind and nothing else changes, also when the parser fails midway |
| `SqlModeRun.RecordedModesAreLexerMasks` | packages/libmylite/benchmarks/mylite_benchmark_sql_mode.c:158-171 | with the server's mode names every recorded mode is within the four lexer bits |
| `SqlModeIdioms.QuotedValueReadsBack` | packages/libmylite/benchmarks/mylite_benchmark_sql_mode.c:391-411 | a value quoted for the mode in force means what its text means, for every text that fits the buffer |
| `SqlModeIdioms.LogKeepsVariable` | packages/libmylite/benchmarks/mylite_benchmark_sql_mode.c:158-351 | between two places of a log, queries that do not assign a variable leave what it loads unchanged |
| `SqlModeIdioms.SaveAndRestore` | packages/libmylite/benchmarks/mylite_benchmark_sql_mode.c:158-351 | in any log, a query that saves the mode and a later one that restores it, with the variable left alone between: the saved mode is back exactly as stored when the variable had an entry or room at the save, and otherwise the restore does nothing |
| `SqlModeIdioms.RestoredModeIsRecorded` | packages/libmylite/benchmarks/mylite_benchmark_sql_mode.c:158-171 | the query behind the restore is then recorded with the mode recorded for the save |
| `SqlModeMeaning.ListChangeBits` | packages/libmylite/benchmarks/mylite_benchmark_sql_mode.c:270-293 | list_add turns the named bits on, list_drop turns them off, all other bits stay; without a call or a name there is no change |
| `SqlModeMeaning.FunctionalBits` | packages/libmylite/benchmarks/mylite_benchmark_sql_mode.c:353-389 | the same bit by bit for values over sql_mode, and concat adds like list_add |
| `SqlModeMeaning.NotFunctional` | packages/libmylite/benchmarks/mylite_benchmark_sql_mode.c:353-389 | without sql_mode, a mode name or one of the calls a value is not functional |
| `SqlModeMeaning.SetIsRecorded` | packages/libmylite/benchmarks/mylite_benchmark_sql_mode.c:158-351 | a SET of sql_mode leaves its value behind and changes nothing else, also when it only parses on the second reading under no mode |
| `SqlModeMeaning.UnparsableIgnored` | packages/libmylite/benchmarks/mylite_benchmark_sql_mode.c:173-189 | any other query that does not parse changes nothing |
| `SqlModeMeaning.DefaultClears` | packages/libmylite/benchmarks/mylite_benchmark_sql_mode.c:325-336 | the query behind SET sql_mode = DEFAULT is recorded with no mode |
| `SqlModeMeaning.FunctionalIsRecorded` | packages/libmylite/benchmarks/mylite_benchmark_sql_mode.c:353-389 | which bits the query behind a list_add, list_drop or concat is recorded with |
| `SqlModeMeaning.PlaceholderIsRecorded` | packages/libmylite/benchmarks/mylite_benchmark_sql_mode.c:270-293 | the same for a statement the parser keeps whole |
| `SqlModeMeaning.LiteralIsRecorded` | packages/libmylite/benchmarks/mylite_benchmark_sql_mode.c:391-411 | the query behind a quoted value is recorded with the modes of its text |
| `SqlModeMeaning.BareIsRecorded` | packages/libmylite/benchmarks/mylite_benchmark_sql_mode.c:391-411 | so is the query behind an unquoted value |
| `SqlModeMeaning.LongValuesRefused` | packages/libmylite/benchmarks/mylite_benchmark_sql_mode.c:497-568 | values of 1024 characters or more are refused |
| `SqlModeMeaning.GlobalChangesNothing` | packages/libmylite/benchmarks/mylite_benchmark_sql_mode.c:570-583 | SET of another scope or another system variable changes nothing |
| `SqlModeMeaning.ScriptsIgnored` | packages/libmylite/benchmarks/mylite_benchmark_sql_mode.c:229-245 | a query that is not exactly one statement changes nothing |
| `SqlModeMeaning.AssignmentsCompose` | packages/libmylite/benchmarks/mylite_benchmark_sql_mode.c:247-268 | the assignments of a SET take effect from left to right |
| `Checksum.HashConcat` | packages/libmylite/benchmarks/mylite_large_dataset_benchmark.c:5237-5249 | the hash is a left fold: hashing in pieces is hashing the whole |
| `Checksum.PrimeIsInvertible` | packages/libmylite/benchmarks/mylite_large_dataset_benchmark.c:5237-5249 | multiplying by the prime modulo 2^64 can be undone |
| `Checksum.HashKeepsApart` | packages/libmylite/benchmarks/mylite_large_dataset_benchmark.c:5237-5249 | checksums that differ stay different under identical later bytes |
| `Checksum.HashUndone` | packages/libmylite/benchmarks/mylite_large_dataset_benchmark.c:5237-5249 | hashing is undone byte by byte by multiplying with the inverse and then taking the exclusive or |
| `Checksum.OneByteFromZero` | packages/libmylite/benchmarks/mylite_large_dataset_benchmark.c:5237-5249 | one byte hashed from zero is that byte times the prime |
| `Checksum.HashBytesLoop` | packages/libmylite/benchmarks/mylite_large_dataset_benchmark.c:5237-5249 | the loop computes that fold |
| `Checksum.HashUint64` | packages/libmylite/benchmarks/mylite_large_dataset_benchmark.c:5251-5258 | the byte-array form hashes the eight bytes, least significant first |
| `Checksum.HashUint64Shifting` | packages/libmylite/benchmarks/mylite_load_data_benchmark.c:892-898 | the shifting form computes the same hash |
| `Checksum.LowBytesAt` | packages/libmylite/benchmarks/mylite_large_dataset_benchmark.c:5251-5258 | byte i is the value shifted right by 8i, masked |
| `Checksum.WordBytesInjective` | packages/libmylite/benchmarks/mylite_large_dataset_benchmark.c:5251-5258 | the eight bytes determine the word |
| `ResultStream.FrameCancels` | packages/libmylite/benchmarks/mylite_large_dataset_benchmark.c:4236-4245 | a framed value is told from any other, NULL included, whatever follows |
| `ResultStream.StreamDecodes` | packages/libmylite/benchmarks/mylite_large_dataset_benchmark.c:4221-4313 | different result sets never feed the same bytes |
| `ResultStream.WriteStreamDecodes` | packages/libmylite/benchmarks/mylite_large_dataset_benchmark.c:4221-4266 | nor do different writes with their affected counts |
| `StreamReader.StreamReads` | packages/libmylite/benchmarks/mylite_large_dataset_benchmark.c:4221-4313 | a reader of the format alone gives back exactly the rows |
| `StreamReader.StatementReads` | packages/libmylite/benchmarks/mylite_large_dataset_benchmark.c:4221-4313 | and for writes the affected count as the last word |
| `ResultStream.KindsExactly` | packages/libmylite/benchmarks/mylite_large_dataset_benchmark.c:4221-4266 | streams with and without an affected count coincide exactly when the second has one row more, without columns, and the count is zero |
| `ResultStream.KindsToldApart` | packages/libmylite/benchmarks/mylite_large_dataset_benchmark.c:4221-4266 | so they never coincide when every row has a column |
| `ResultStream.ConsumeMyliteStatement` | packages/libmylite/benchmarks/mylite_large_dataset_benchmark.c:4221-4266 | hashes exactly the statement's stream |
| `ResultStream.ConsumeSqliteStatement` | packages/libmylite/benchmarks/mylite_large_dataset_benchmark.c:4268-4313 | feeds the same stream for the same rows |
| `ResultStream.FinishStatement` | packages/libmylite/benchmarks/mylite_large_dataset_benchmark.c:4249-4264 | adds the affected count exactly for wanted statements that ended well |
| `Seeding.SeedItems` | packages/libmylite/benchmarks/mylite_large_dataset_benchmark.c:4663-4755 | accounts, items and tags go in without a duplicate key or missing parent and hold exactly the planned rows |
| `Seeding.SeedUpsertAndComposite` | packages/libmylite/benchmarks/mylite_large_dataset_benchmark.c:4805-4854 | so do upsert targets and composite parents |
| `Seeding.SeedFanout` | packages/libmylite/benchmarks/mylite_large_dataset_benchmark.c:4856-4911 | so do fan-out parents and children, refused only without parents |
| `Seeding.SeedRestrict` | packages/libmylite/benchmarks/mylite_large_dataset_benchmark.c:4913-4963 | so do restrict parents, each but the last with one child |
| `Seeding.SeedAll` | packages/libmylite/benchmarks/mylite_large_dataset_benchmark.c:4663-5018 | seeding succeeds for exactly the row counts from 1 on and leaves every table as planned |
| `Seeding.BindingKeepsKeys` | packages/libmylite/benchmarks/mylite_large_dataset_benchmark.c:4663-5018 | binding ids as int64 keeps every two size_t keys apart |
| `Seeding.SeededCounts` | packages/libmylite/benchmarks/mylite_large_dataset_benchmark.c:2980-3014 | the counts the verification expects are the counts seeding gives |
| `Seeding.AccountCounts` | packages/libmylite/benchmarks/mylite_large_dataset_benchmark.c:5349-5353 | at least 100 accounts, one for every 100 rows beyond |
| `Seeding.TagCounts` | packages/libmylite/benchmarks/mylite_large_dataset_benchmark.c:5355-5362 | one tag for every 100 rows, but from 100 to 2000 |
| `Seeding.FanoutParentCounts` | packages/libmylite/benchmarks/mylite_large_dataset_benchmark.c:5364-5366 | the smaller of the rows and 100 |
| `Seeding.RegionsCycle` | packages/libmylite/benchmarks/mylite_large_dataset_benchmark.c:4678-4678 | regions and shards are 0 to 31 in turn |
| `Seeding.TagsCycle` | packages/libmylite/benchmarks/mylite_large_dataset_benchmark.c:5087-5098 | tags are taken in turn |
| `Seeding.RestrictShares` | packages/libmylite/benchmarks/mylite_large_dataset_benchmark.c:4934-4949 | every restrict parent but the last has exactly one child, the last none |
| `Seeding.DealtEvenly` | packages/libmylite/benchmarks/mylite_large_dataset_benchmark.c:4888-4898 | a parent's share is exactly the number of rounds that reached it |
| `Seeding.FanoutShares` | packages/libmylite/benchmarks/mylite_large_dataset_benchmark.c:4888-4898 | every fan-out parent has floor(n/P) or ceil(n/P) children |
| `Seeding.ForeignKeyBindings` | packages/libmylite/benchmarks/mylite_large_dataset_benchmark.c:4090-4157 | bound parents exist, the restricted parent is childless, the valid composite key has its parent and the invalid one never does |
| `Seeding.RangeSizeBounds` | packages/libmylite/benchmarks/mylite_large_dataset_benchmark.c:5368-5372 | wrapped or not, the range size is at least one and at most the share, and so fits the rows |
| `Seeding.RangeSizeExactly` | packages/libmylite/benchmarks/mylite_large_dataset_benchmark.c:5368-5372 | the range size is the rounded share of the rows exactly when its product fits size_t |
| `Seeding.RangeSizeWraps` | packages/libmylite/benchmarks/mylite_large_dataset_benchmark.c:5368-5372 | 1844674407370956 rows, the fewest whose full selectivity wraps, select a single row |
| `Seeding.RangeBinding` | packages/libmylite/benchmarks/mylite_large_dataset_benchmark.c:4159-4175 | an id range lies inside 1 to n and selects exactly the computed number of items |
| `NestedWkb.ReadTerminal` | packages/libmylite/fuzz/geometry_fuzzer.c:167-183 | the innermost geometry reads back whole, or not at all when truncated |
| `NestedWkb.NestedReads` | packages/libmylite/fuzz/geometry_fuzzer.c:146-185 | the bytes read back as exactly that many one-member collections around the terminal; truncated they are no complete geometry |
| `NestedWkb.GeneratedReads` | packages/libmylite/fuzz/geometry_fuzzer.c:146-185 | by the bits of the flag byte: bit 3 truncates, bit 2 chooses the empty collection, otherwise the point |
| `NestedWkb.OrderMarks` | packages/libmylite/fuzz/geometry_fuzzer.c:157-176 | the byte-order mark of every level: alternating from little-endian with bit 1, else all big-endian with bit 0 |
| `NestedWkb.WriteUint32` | packages/libmylite/fuzz/geometry_fuzzer.c:187-194 | the shift loop writes the four bytes in either order and nothing else |
| `NestedWkb.WriteWrappers` | packages/libmylite/fuzz/geometry_fuzzer.c:157-166 | the wrapper loop fills the block with the headers in order |
| `NestedWkb.MakeNestedWkb` | packages/libmylite/fuzz/geometry_fuzzer.c:146-185 | NULL exactly when the allocator has no block; otherwise the block has the computed size and holds the specified bytes |
| `DurableRun.ExecuteRepeatedInserts` | packages/libmylite/benchmarks/mylite_durable_autocommit_benchmark.c:825-845 | inserts exactly the rows of the workload, or commits nothing |
| `DurableRun.ExecuteInsertTransaction` | packages/libmylite/benchmarks/mylite_durable_autocommit_benchmark.c:796-872 | under both shapes success commits exactly the workload's rows and any failure commits none; with its ids free it fails only when a call of the engine does |
| `DurableRun.RunWarmup` | packages/libmylite/benchmarks/mylite_durable_autocommit_benchmark.c:771-794 | warm-up writes consecutive ids from the computed first one on and clears them; a failure leaves whole transactions of them |
| `DurableRun.WarmupIdsFitExactly` | packages/libmylite/benchmarks/mylite_durable_autocommit_benchmark.c:776-790 | no step of the id arithmetic overflows int64 exactly when warmups times writes fits it |
| `DurableRun.WarmupIdsClearExactly` | packages/libmylite/benchmarks/mylite_durable_autocommit_benchmark.c:776-790 | as unbounded integers the warm-up ids are disjoint from the measured ids 1 to m exactly when their number fits int64, or its wrapped value starts them above m |
| `DurableRun.WarmupIdsNegative` | packages/libmylite/benchmarks/mylite_durable_autocommit_benchmark.c:776-776 | they are all negative exactly when their number fits int64 |
| `DurableRun.RunMeasurements` | packages/libmylite/benchmarks/mylite_durable_autocommit_benchmark.c:975-1026 | after k successes the committed rows are exactly 1 to kW with payload 3 * id + 7; all transactions succeed exactly when no call of the engine fails |
| `DurableRun.RowSums` | packages/libmylite/benchmarks/mylite_durable_autocommit_benchmark.c:1063-1076 | count, id sum and payload sum of those rows |
| `DurableRun.ClosedFormsAreExact` | packages/libmylite/benchmarks/mylite_durable_autocommit_benchmark.c:1063-1076 | the closed forms are those sums and do not overflow for any permitted run |
| `DurableRun.RunBenchmark` | packages/libmylite/benchmarks/mylite_durable_autocommit_benchmark.c:448-470 | a run gets through exactly when no call of the engine fails, and then ends with exactly the expected rows and totals |
| `LatencySummary.SortKeeps` | packages/libmylite/benchmarks/mylite_durable_autocommit_benchmark.c:1167-1167 | sorting permutes |
| `LatencySummary.PercentileExact` | packages/libmylite/benchmarks/mylite_durable_autocommit_benchmark.c:1204-1208 | at least p percent of the samples are at most the reported value, fewer than p percent are below it |
| `LatencySummary.PercentileUnique` | packages/libmylite/benchmarks/mylite_durable_autocommit_benchmark.c:1204-1208 | that determines the value |
| `LatencySummary.MedianDeviation` | packages/libmylite/benchmarks/mylite_durable_autocommit_benchmark.c:1173-1181 | the reported deviation is the median of the distances to p50 |
| `LatencySummary.SummaryDescribes` | packages/libmylite/benchmarks/mylite_durable_autocommit_benchmark.c:1154-1189 | min <= p50 <= p95 <= p99 <= max, all of them about the samples as they came in |
| `LatencySummary.RatesExact` | packages/libmylite/benchmarks/mylite_durable_autocommit_benchmark.c:1182-1187 | the reported rates are count and writes over the total time, over the reals |
| `LatencySummary.SummarizeLatencies` | packages/libmylite/benchmarks/mylite_durable_autocommit_benchmark.c:1154-1189 | the in-place computation reports that summary and rates, or changes nothing without a workspace block |

## Left out

- The SQL lexer and parser: a parameter of `SqlModeReplay` (any function to a tree) and the outcomes given
  to `FailureClassifier`.
- SQLite and MyLite execution: tables with keys and transactions, where any call may fail; isolation is
  assumed to be that uncommitted writes are invisible and discarded on rollback or close.
- Memory order of the atomics: `WorkerProtocol` interleaves whole steps, so release and acquire are taken
  to give sequential consistency on the two flags.
- After a failed join the main thread returns without joining the rest; the model records that
  (`joinFailed`) and promises nothing further about those threads.
- Allocation failure is the parameter `largestBlock`: a block up to that size is always granted.
- File reading, option parsing, clocks, process ids, sleeping, printing and CSV or JSON output.
- Rounding of the floating-point rates, which are over the reals here, and the other benchmarks' averages.
- NULL pointers passed to public functions, and platform-dependent branches.
- The wide SELECT builder, which copies a constant.
- `qsort` is an insertion sort in `LatencySummary`; only sortedness and permutation matter.
- The line, tab and comma loops that the source writes as one loop with a state are nested loops here.
- Status and token-kind names are a parameter of `ExpectationFile`; the enumerations behind them are not
  part of this model.
- Engines that answer an affected-row count other than the rows they wrote are not modelled in
  `DurableRun`.
- DurableRun.RunWarmup: ids are unbounded integers, so stepping past the largest int64 and negating the
  smallest (a product that is 2^63 modulo 2^64), both undefined in C, are not modelled as overflows.
- DurableRun.WarmupIdsClearExactly: likewise about unbounded ids; at a product that is 2^63 modulo 2^64 the
  first id it speaks of is one that int64 cannot hold.
- Seeding.SeedAll: columns that no key refers to are not modelled, nor the largest size_t row count, for
  which the source's loops would not end.
- NestedWkb.MakeNestedWkb: a wrapper count whose block size wraps in size_t is not modelled; the fuzzer
  uses fewer than 55.
- The locale dependence of strtoull and of blank tests.
- The column part of parse-error coordinates, the PHP extensions, the catalog and the public headers.
