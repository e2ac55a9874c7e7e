/** The two statement consumers and the framing of the bytes they hash. */
module ResultStream {
  import opened Sequences
  import opened Words
  import opened Checksum

  datatype Value = Null | Bytes(data: seq<Byte>)

  type Row = seq<Value>

  /** What stepping a statement to its end yields. */
  datatype Ending = Done(affected: Word) | Failed

  // ----- the stream

  function Frame(v: Value): seq<Byte>
    requires Framable(v)
  {
    if v.Null? then WordBytes(SIZE_MAX) else WordBytes(|v.data|) + v.data
  }

  /** Sizes below 2^64 - 1, the word that marks NULL. */
  predicate Framable(v: Value) {
    v.Bytes? ==> |v.data| < SIZE_MAX
  }

  predicate FramableRow(row: Row) {
    |row| < WORD_LIMIT && forall i :: 0 <= i < |row| ==> Framable(row[i])
  }

  predicate FramableRows(rows: seq<Row>) {
    forall i :: 0 <= i < |rows| ==> FramableRow(rows[i])
  }

  function Values(row: Row): seq<Byte>
    requires forall i :: 0 <= i < |row| ==> Framable(row[i])
  {
    if row == [] then [] else Frame(row[0]) + Values(row[1..])
  }

  function RowStream(row: Row): seq<Byte>
    requires FramableRow(row)
  {
    WordBytes(|row|) + Values(row)
  }

  function Stream(rows: seq<Row>): seq<Byte>
    requires FramableRows(rows)
  {
    if rows == [] then [] else RowStream(rows[0]) + Stream(rows[1..])
  }

  /** What one statement contributes: its rows and, for writes that ended well, the affected count. */
  function StatementStream(rows: seq<Row>, ending: Ending, includeAffected: bool): seq<Byte>
    requires FramableRows(rows)
  {
    Stream(rows) + (if ending.Done? && includeAffected then WordBytes(ending.affected) else [])
  }

  // ----- the stream determines the rows

  lemma WordCancels(v: Word, w: Word, x: seq<Byte>, y: seq<Byte>)
    requires WordBytes(v) + x == WordBytes(w) + y
    ensures v == w && x == y
  {
    var s, t := WordBytes(v) + x, WordBytes(w) + y;
    assert s[..8] == WordBytes(v) && t[..8] == WordBytes(w);
    assert s[8..] == x && t[8..] == y;
    WordBytesInjective(v, w);
  }

  lemma SameLengthCancels(a: seq<Byte>, b: seq<Byte>, x: seq<Byte>, y: seq<Byte>)
    requires a + x == b + y && |a| == |b|
    ensures a == b && x == y
  {
    assert (a + x)[..|a|] == a && (b + y)[..|b|] == b;
    assert (a + x)[|a|..] == x && (b + y)[|b|..] == y;
  }

  /** A framed value can be told from any other, NULL included, whatever follows. */
  lemma {:induction false} FrameCancels(v: Value, w: Value, x: seq<Byte>, y: seq<Byte>)
    requires Framable(v) && Framable(w) && Frame(v) + x == Frame(w) + y
    ensures v == w && x == y
  {
    var sizeV := if v.Null? then SIZE_MAX else |v.data|;
    var sizeW := if w.Null? then SIZE_MAX else |w.data|;
    var dataV := if v.Null? then [] else v.data;
    var dataW := if w.Null? then [] else w.data;
    assert Frame(v) == WordBytes(sizeV) + dataV && Frame(w) == WordBytes(sizeW) + dataW;
    Regroup(WordBytes(sizeV), dataV, x);
    Regroup(WordBytes(sizeW), dataW, y);
    WordCancels(sizeV, sizeW, dataV + x, dataW + y);
    SameLengthCancels(dataV, dataW, x, y);
  }

  lemma {:induction false} ValuesCancel(a: Row, b: Row, x: seq<Byte>, y: seq<Byte>)
    requires |a| == |b|
    requires forall i :: 0 <= i < |a| ==> Framable(a[i])
    requires forall i :: 0 <= i < |b| ==> Framable(b[i])
    requires Values(a) + x == Values(b) + y
    ensures a == b && x == y
    decreases |a|
  {
    if a == [] {
      assert [] + x == x && [] + y == y;
    } else {
      Regroup(Frame(a[0]), Values(a[1..]), x);
      Regroup(Frame(b[0]), Values(b[1..]), y);
      FrameCancels(a[0], b[0], Values(a[1..]) + x, Values(b[1..]) + y);
      ValuesCancel(a[1..], b[1..], x, y);
      assert [a[0]] + a[1..] == a && [b[0]] + b[1..] == b;
    }
  }

  lemma {:induction false} RowCancels(a: Row, b: Row, x: seq<Byte>, y: seq<Byte>)
    requires FramableRow(a) && FramableRow(b) && RowStream(a) + x == RowStream(b) + y
    ensures a == b && x == y
  {
    Regroup(WordBytes(|a|), Values(a), x);
    Regroup(WordBytes(|b|), Values(b), y);
    WordCancels(|a|, |b|, Values(a) + x, Values(b) + y);
    ValuesCancel(a, b, x, y);
  }

  lemma {:induction false} StreamNotEmpty(rows: seq<Row>)
    requires FramableRows(rows)
    ensures rows != [] ==> Stream(rows) != []
  {
    if rows != [] {
      assert |RowStream(rows[0])| >= 8;
    }
  }

  /** Different result sets never feed the same bytes. */
  lemma {:induction false} StreamDecodes(a: seq<Row>, b: seq<Row>)
    requires FramableRows(a) && FramableRows(b) && Stream(a) == Stream(b)
    ensures a == b
    decreases |a|
  {
    if a == [] {
      StreamNotEmpty(b);
    } else {
      StreamNotEmpty(a);
      RowCancels(a[0], b[0], Stream(a[1..]), Stream(b[1..]));
      StreamDecodes(a[1..], b[1..]);
      assert [a[0]] + a[1..] == a && [b[0]] + b[1..] == b;
    }
  }

  /** The same for statements that also report affected rows: the count is the last word. */
  lemma WriteStreamDecodes(a: seq<Row>, b: seq<Row>, m: Word, n: Word)
    requires FramableRows(a) && FramableRows(b)
    requires StatementStream(a, Done(m), true) == StatementStream(b, Done(n), true)
    ensures a == b && m == n
  {
    SameLengthCancels(Stream(a), Stream(b), WordBytes(m), WordBytes(n));
    StreamDecodes(a, b);
    WordBytesInjective(m, n);
  }

  /** A single word is a stream of rows only as one row without columns. */
  lemma {:induction false} WordIsNoRow(a: seq<Row>, n: Word)
    requires FramableRows(a)
    ensures Stream(a) == WordBytes(n) <==> a == [[]] && n == 0
  {
    if a != [] {
      var columns, rest := Values(a[0]), Stream(a[1..]);
      Regroup(WordBytes(|a[0]|), columns, rest);
      assert WordBytes(n) + [] == WordBytes(n);
      assert a[0] != [] ==> |columns| >= |Frame(a[0][0])| >= 8;
      if Stream(a) == WordBytes(n) {
        WordCancels(|a[0]|, n, columns + rest, []);
        StreamNotEmpty(a[1..]);
        assert a == [a[0]] + a[1..];
      }
      if a == [[]] && n == 0 {
        assert a[0] == [] && a[1..] == [];
      }
    }
  }

  lemma {:induction false} CountIsNoRow(a: seq<Row>, b: seq<Row>, n: Word)
    requires FramableRows(a) && FramableRows(b)
    ensures Stream(a) == Stream(b) + WordBytes(n) <==> a == b + [[]] && n == 0
    decreases |b|
  {
    if b == [] {
      WordIsNoRow(a, n);
      assert [] + WordBytes(n) == WordBytes(n) && b + [[]] == [[]];
    } else if a != [] {
      CountIsNoRow(a[1..], b[1..], n);
      var later := Stream(b[1..]) + WordBytes(n);
      Regroup(RowStream(b[0]), Stream(b[1..]), WordBytes(n));
      if Stream(a) == Stream(b) + WordBytes(n) {
        RowCancels(a[0], b[0], Stream(a[1..]), later);
      }
      HeadsAndTails(a, b);
    }
  }

  lemma HeadsAndTails(a: seq<Row>, b: seq<Row>)
    requires a != [] && b != []
    ensures a == b + [[]] <==> a[0] == b[0] && a[1..] == b[1..] + [[]]
  {
    if a[0] == b[0] && a[1..] == b[1..] + [[]] {
      assert a == [a[0]] + a[1..] && b == [b[0]] + b[1..];
    }
  }

  /** A statement hashed without its affected count and one hashed with it feed the same bytes exactly
      when the first has one row more, a row without columns, and the count is zero. */
  lemma KindsExactly(a: seq<Row>, b: seq<Row>, m: Word, n: Word)
    requires FramableRows(a) && FramableRows(b)
    ensures StatementStream(a, Done(m), false) == StatementStream(b, Done(n), true) <==> a == b + [[]] && n == 0
  {
    assert Stream(a) + [] == Stream(a);
    CountIsNoRow(a, b, n);
  }

  /** So the two kinds are told apart whenever every row has a column, as every row a step returns does. */
  lemma KindsToldApart(a: seq<Row>, b: seq<Row>, m: Word, n: Word)
    requires FramableRows(a) && FramableRows(b) && forall i :: 0 <= i < |a| ==> a[i] != []
    ensures StatementStream(a, Done(m), false) != StatementStream(b, Done(n), true)
  {
    KindsExactly(a, b, m, n);
    assert (b + [[]])[|b|] == [];
  }

  // ----- the consumers

  lemma {:induction false} StreamSnoc(rows: seq<Row>, row: Row)
    requires FramableRows(rows) && FramableRow(row)
    ensures FramableRows(rows + [row]) && Stream(rows + [row]) == Stream(rows) + RowStream(row)
    decreases |rows|
  {
    var all := rows + [row];
    if rows == [] {
      assert all == [row] && all[1..] == [];
      assert RowStream(row) + [] == [] + RowStream(row);
    } else {
      assert all[0] == rows[0] && all[1..] == rows[1..] + [row];
      StreamSnoc(rows[1..], row);
      Regroup(RowStream(rows[0]), Stream(rows[1..]), RowStream(row));
    }
  }

  lemma {:induction false} ValuesSnoc(row: Row, v: Value)
    requires (forall i :: 0 <= i < |row| ==> Framable(row[i])) && Framable(v)
    ensures forall i :: 0 <= i < |row| + 1 ==> Framable((row + [v])[i])
    ensures Values(row + [v]) == Values(row) + Frame(v)
    decreases |row|
  {
    var all := row + [v];
    if row == [] {
      assert all == [v] && all[1..] == [];
      assert Frame(v) + [] == [] + Frame(v);
    } else {
      assert all[0] == row[0] && all[1..] == row[1..] + [v];
      ValuesSnoc(row[1..], v);
      Regroup(Frame(row[0]), Values(row[1..]), Frame(v));
    }
  }

  /** The hash of a row's column count and its first k values. */
  ghost function HashUpTo(checksum: Word, row: Row, k: nat): Word
    requires FramableRow(row) && k <= |row|
  {
    HashBytes(checksum, WordBytes(|row|) + Values(row[..k]))
  }

  lemma {:induction false} HashEnds(checksum: Word, row: Row)
    requires FramableRow(row)
    ensures HashUpTo(checksum, row, 0) == HashBytes(checksum, WordBytes(|row|))
    ensures HashUpTo(checksum, row, |row|) == HashBytes(checksum, RowStream(row))
  {
    assert row[..0] == [] && row[..|row|] == row;
    assert WordBytes(|row|) + [] == WordBytes(|row|);
  }

  /** Hashing one more value or row is hashing a longer stream. */
  lemma {:induction false} HashOneValue(checksum: Word, row: Row, k: nat)
    requires FramableRow(row) && k < |row|
    ensures HashUpTo(checksum, row, k + 1) == HashBytes(HashUpTo(checksum, row, k), Frame(row[k]))
  {
    var head, done := WordBytes(|row|), Values(row[..k]);
    assert row[..k + 1] == row[..k] + [row[k]];
    ValuesSnoc(row[..k], row[k]);
    Regroup(head, done, Frame(row[k]));
    HashConcat(checksum, head + done, Frame(row[k]));
  }

  lemma {:induction false} HashOneRow(checksum: Word, rows: seq<Row>, k: nat)
    requires FramableRows(rows) && k < |rows|
    ensures HashBytes(checksum, Stream(rows[..k + 1])) ==
              HashBytes(HashBytes(checksum, Stream(rows[..k])), RowStream(rows[k]))
  {
    assert rows[..k + 1] == rows[..k] + [rows[k]];
    StreamSnoc(rows[..k], rows[k]);
    HashConcat(checksum, Stream(rows[..k]), RowStream(rows[k]));
  }

  /** Adds the affected count of a statement that ended well, when it is wanted. */
  method FinishStatement(checksum: Word, hashed: Word, ghost rows: seq<Row>, ending: Ending, includeAffected: bool)
    returns (r: Word, rc: nat)
    requires FramableRows(rows) && hashed == HashBytes(checksum, Stream(rows))
    ensures r == HashBytes(checksum, StatementStream(rows, ending, includeAffected))
    ensures rc == (if ending.Failed? then 1 else 0)
  {
    assert Stream(rows) + [] == Stream(rows);
    if ending.Failed? {
      return hashed, 1;
    }
    r := hashed;
    if includeAffected {
      HashConcat(checksum, Stream(rows), WordBytes(ending.affected));
      r := HashUint64(r, ending.affected);
    }
    return r, 0;
  }

  /** The MyLite consumer: NULL flags, sizes and bytes come from three calls. */
  method ConsumeMyliteStatement(checksum: Word, rows: seq<Row>, ending: Ending, includeAffected: bool)
    returns (r: Word, rc: nat)
    requires FramableRows(rows)
    ensures r == HashBytes(checksum, StatementStream(rows, ending, includeAffected))
    ensures rc == (if ending.Failed? then 1 else 0)
  {
    r := checksum;
    for i := 0 to |rows|
      invariant r == HashBytes(checksum, Stream(rows[..i]))
    {
      HashOneRow(checksum, rows, i);
      r := ConsumeMyliteRow(r, rows[i]);
    }
    assert rows[..|rows|] == rows;
    r, rc := FinishStatement(checksum, r, rows, ending, includeAffected);
  }

  method ConsumeMyliteRow(checksum: Word, row: Row) returns (r: Word)
    requires FramableRow(row)
    ensures r == HashBytes(checksum, RowStream(row))
  {
    r := HashUint64(checksum, |row|);
    HashEnds(checksum, row);
    for column := 0 to |row|
      invariant r == HashUpTo(checksum, row, column)
    {
      HashOneValue(checksum, row, column);
      r := ConsumeMyliteValue(r, row[column]);
    }
  }

  method ConsumeMyliteValue(checksum: Word, v: Value) returns (r: Word)
    requires Framable(v)
    ensures r == HashBytes(checksum, Frame(v))
  {
    if v.Null? {
      r := HashUint64(checksum, SIZE_MAX);
    } else {
      HashConcat(checksum, WordBytes(|v.data|), v.data);
      r := HashUint64(checksum, |v.data|);
      r := HashBytesLoop(r, v.data);
    }
  }

  /** A column as SQLite hands it over: a type, a blob pointer that is null for an empty value, and a
      signed byte count. */
  datatype Column = NullColumn | BlobColumn(isNullPointer: bool, blob: seq<Byte>, byteCount: Int32)

  type Int32 = v: int | -0x8000_0000 <= v < 0x8000_0000

  predicate Presents(column: Column, v: Value) {
    match v
    case Null => column.NullColumn?
    case Bytes(data) =>
      column.BlobColumn? && column.byteCount == |data| &&
      (if column.isNullPointer then data == [] else column.blob == data)
  }

  predicate PresentsRow(columns: seq<Column>, row: Row) {
    |columns| == |row| && forall i :: 0 <= i < |row| ==> Presents(columns[i], row[i])
  }

  method ConsumeSqliteColumn(checksum: Word, column: Column, ghost v: Value) returns (r: Word)
    requires Framable(v) && Presents(column, v)
    ensures r == HashBytes(checksum, Frame(v))
  {
    if column.NullColumn? {
      r := HashUint64(checksum, SIZE_MAX);
    } else {
      HashConcat(checksum, WordBytes(|v.data|), v.data);
      var size := if column.byteCount < 0 then 0 else column.byteCount;
      r := HashUint64(checksum, size);
      if !column.isNullPointer {
        assert column.blob[..size] == v.data;
        r := HashBytesLoop(r, column.blob[..size]);
      }
    }
  }

  method ConsumeSqliteRow(checksum: Word, columns: seq<Column>, ghost row: Row) returns (r: Word)
    requires FramableRow(row) && PresentsRow(columns, row)
    ensures r == HashBytes(checksum, RowStream(row))
  {
    r := HashUint64(checksum, |columns|);
    HashEnds(checksum, row);
    for i := 0 to |columns|
      invariant r == HashUpTo(checksum, row, i)
    {
      HashOneValue(checksum, row, i);
      r := ConsumeSqliteColumn(r, columns[i], row[i]);
    }
  }

  /** The SQLite consumer feeds the same bytes for the same rows. */
  method ConsumeSqliteStatement(checksum: Word, results: seq<seq<Column>>, ghost rows: seq<Row>, ending: Ending,
                                includeAffected: bool)
    returns (r: Word, rc: nat)
    requires FramableRows(rows) && |results| == |rows|
    requires forall i :: 0 <= i < |rows| ==> PresentsRow(results[i], rows[i])
    ensures r == HashBytes(checksum, StatementStream(rows, ending, includeAffected))
    ensures rc == (if ending.Failed? then 1 else 0)
  {
    r := checksum;
    for i := 0 to |results|
      invariant r == HashBytes(checksum, Stream(rows[..i]))
    {
      HashOneRow(checksum, rows, i);
      r := ConsumeSqliteRow(r, results[i], rows[i]);
    }
    assert rows[..|rows|] == rows;
    r, rc := FinishStatement(checksum, r, rows, ending, includeAffected);
  }
}
