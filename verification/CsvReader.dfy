/** The CSV reader as it runs: a cursor over the data, a growing field and a growing query list. */
module CsvReader {
  import opened CStrings
  import opened Sequences
  import opened GrowingBuffers
  import opened CsvFormat

  const FIELD_CAPACITY: nat := 256
  const QUERY_CAPACITY: nat := 128
  const QUERY_SIZE: nat := 24

  datatype Status = Success | Malformed | NoMemory

  /** A block size with which reading n bytes behind m queries cannot run out. */
  function MemoryBound(n: nat, m: nat): nat {
    QUERY_SIZE * (QUERY_CAPACITY + 2 * (n + m))
  }

  ghost predicate FieldValid(field: GrowingBuffer<char>, largestBlock: nat)
    reads field
  {
    && field.Valid() && field.initialCapacity == FIELD_CAPACITY && field.itemSize == 1
    && field.largestBlock == largestBlock
  }

  /** One byte more, or no block for it. */
  method AppendByte(field: GrowingBuffer<char>, c: char) returns (ok: bool)
    requires FieldValid(field, field.largestBlock)
    modifies field, field.items
    ensures FieldValid(field, field.largestBlock) && (field.items == old(field.items) || fresh(field.items))
    ensures field.Contents() == old(field.Contents()) + (if ok then [c] else [])
    ensures !ok ==> field.largestBlock < FIELD_CAPACITY + 2 * |old(field.Contents())|
  {
    ok := field.Append(c);
  }

  method AppendPair(field: GrowingBuffer<char>, a: char, b: char) returns (ok: bool)
    requires FieldValid(field, field.largestBlock)
    modifies field, field.items
    ensures FieldValid(field, field.largestBlock) && (field.items == old(field.items) || fresh(field.items))
    ensures !ok ==> field.count <= old(field.count) + 1
    ensures ok ==> field.Contents() == old(field.Contents()) + [a, b]
    ensures !ok ==> field.largestBlock < FIELD_CAPACITY + 2 * (|old(field.Contents())| + 1)
  {
    ok := AppendByte(field, a);
    if ok {
      ok := AppendByte(field, b);
    }
  }

  ghost function QuotedAt(data: string, cursor: nat): Scan
    requires cursor <= |data|
  {
    ScanQuoted(data[cursor..])
  }

  ghost function PlainAt(data: string, cursor: nat): Scan
    requires cursor <= |data|
  {
    ScanPlain(data[cursor..])
  }

  lemma QuotedStep(data: string, k: nat)
    requires k < |data|
    ensures data[k] == '\\' && k + 1 < |data| && data[k + 1] == '"' ==>
              QuotedAt(data, k) == Prepend("\\\"", QuotedAt(data, k + 2))
    ensures data[k] == '"' && k + 1 < |data| && data[k + 1] == '"' ==>
              QuotedAt(data, k) == Prepend("\"", QuotedAt(data, k + 2))
    ensures data[k] == '"' && !(k + 1 < |data| && data[k + 1] == '"') ==>
              QuotedAt(data, k) == Closed("", data[k + 1..])
    ensures data[k] != '"' && !(data[k] == '\\' && k + 1 < |data| && data[k + 1] == '"') ==>
              QuotedAt(data, k) == Prepend([data[k]], QuotedAt(data, k + 1))
  {
    var s := data[k..];
    assert s[0] == data[k] && s[1..] == data[k + 1..];
    if k + 1 < |data| {
      assert s[1] == data[k + 1] && s[2..] == data[k + 2..];
    }
  }

  lemma PlainStep(data: string, k: nat)
    requires k <= |data|
    ensures k < |data| && !IsLineEnd(data[k]) ==> PlainAt(data, k) == Prepend([data[k]], PlainAt(data, k + 1))
    ensures k == |data| || IsLineEnd(data[k]) ==> PlainAt(data, k) == Closed("", data[k..])
  {
    var s := data[k..];
    if k < |data| {
      assert s[0] == data[k] && s[1..] == data[k + 1..];
    }
  }

  datatype Reading = Ended | More | OutOfMemory

  /** Reads on by one closing quote, one doubled quote, one backslash with its quote or one other byte. */
  method ReadQuotedUnit(data: string, k: nat, field: GrowingBuffer<char>)
    returns (reading: Reading, next: nat, ghost piece: string)
    requires k < |data| && FieldValid(field, field.largestBlock)
    modifies field, field.items
    ensures FieldValid(field, field.largestBlock) && (field.items == old(field.items) || fresh(field.items))
    ensures k < next <= |data| && |piece| <= next - k
    ensures reading == Ended ==>
              field.Contents() == old(field.Contents()) && QuotedAt(data, k) == Closed("", data[next..])
    ensures reading == More ==>
              && field.Contents() == old(field.Contents()) + piece
              && QuotedAt(data, k) == Prepend(piece, QuotedAt(data, next))
    ensures reading == OutOfMemory ==>
              && field.count <= old(field.count) + (next - k)
              && field.largestBlock < FIELD_CAPACITY + 2 * (old(field.count) + 1)
  {
    QuotedStep(data, k);
    var c, ok := data[k], false;
    next, piece := k + 1, [c];
    if c == '\\' && next < |data| && data[next] == '"' {
      ok := AppendPair(field, c, data[next]);
      if !ok {
        return OutOfMemory, next, "";
      }
      return More, next + 1, [c, data[next]];
    }
    if c == '"' {
      if next < |data| && data[next] == '"' {
        next := next + 1;
      } else {
        return Ended, next, "";
      }
    }
    ok := AppendByte(field, c);
    reading := if ok then More else OutOfMemory;
  }

  method ParseQuotedField(data: string, start: nat, field: GrowingBuffer<char>) returns (status: Status, cursor: nat)
    requires start < |data|
    requires FieldValid(field, field.largestBlock) && field.Contents() == ""
    modifies field, field.items
    ensures FieldValid(field, field.largestBlock) && (field.items == old(field.items) || fresh(field.items))
    ensures start < cursor <= |data| && field.count <= cursor - start
    ensures status == Success ==> QuotedAt(data, start + 1) == Closed(field.Contents(), data[cursor..])
    ensures status == Malformed ==> QuotedAt(data, start + 1).Unterminated?
    ensures status == NoMemory ==> field.largestBlock < FIELD_CAPACITY + 2 * |data|
  {
    cursor := start + 1;
    ghost var whole := QuotedAt(data, cursor);
    ghost var done := "";
    while cursor < |data|
      invariant start < cursor <= |data|
      invariant FieldValid(field, field.largestBlock) && (field.items == old(field.items) || fresh(field.items))
      invariant |done| <= cursor - start - 1
      invariant field.Contents() == done
      invariant whole == Prepend(done, QuotedAt(data, cursor))
    {
      var reading, next;
      ghost var piece;
      reading, next, piece := ReadQuotedUnit(data, cursor, field);
      cursor := next;
      match reading {
        case Ended =>
          assert done + "" == done;
          return Success, cursor;
        case OutOfMemory =>
          return NoMemory, cursor;
        case More =>
          PrependTwice(done, piece, QuotedAt(data, cursor));
          done := done + piece;
      }
    }
    return Malformed, cursor;
  }

  method ParseUnquotedField(data: string, start: nat, field: GrowingBuffer<char>) returns (status: Status, cursor: nat)
    requires start <= |data|
    requires FieldValid(field, field.largestBlock) && field.Contents() == ""
    modifies field, field.items
    ensures FieldValid(field, field.largestBlock) && (field.items == old(field.items) || fresh(field.items))
    ensures start <= cursor <= |data| && field.count <= cursor - start && status != Malformed
    ensures status == Success ==> PlainAt(data, start) == Closed(field.Contents(), data[cursor..])
    ensures status == NoMemory ==> field.largestBlock < FIELD_CAPACITY + 2 * |data|
  {
    cursor := start;
    ghost var whole := PlainAt(data, start);
    ghost var done := "";
    while cursor < |data| && data[cursor] != '\r' && data[cursor] != '\n'
      invariant start <= cursor <= |data|
      invariant FieldValid(field, field.largestBlock) && (field.items == old(field.items) || fresh(field.items))
      invariant |done| <= cursor - start
      invariant field.Contents() == done
      invariant whole == Prepend(done, PlainAt(data, cursor))
    {
      PlainStep(data, cursor);
      var ok := AppendByte(field, data[cursor]);
      if !ok {
        return NoMemory, cursor;
      }
      cursor := cursor + 1;
      PrependTwice(done, [data[cursor - 1]], PlainAt(data, cursor));
      done := done + [data[cursor - 1]];
    }
    PlainStep(data, cursor);
    assert done + "" == done;
    return Success, cursor;
  }

  method SkipLine(data: string, start: nat) returns (cursor: nat)
    requires start <= |data|
    ensures start <= cursor <= |data| && data[cursor..] == NextLine(data[start..])
  {
    cursor := start;
    while cursor < |data| && data[cursor] != '\n'
      invariant start <= cursor <= |data|
      invariant NextLine(data[start..]) == NextLine(data[cursor..])
    {
      assert data[cursor..][0] == data[cursor] && data[cursor..][1..] == data[cursor + 1..];
      cursor := cursor + 1;
    }
    if cursor < |data| && data[cursor] == '\n' {
      assert data[cursor..][0] == '\n' && data[cursor..][1..] == data[cursor + 1..];
      cursor := cursor + 1;
    } else {
      assert data[cursor..] == "";
    }
  }

  ghost predicate QueriesValid(queries: GrowingBuffer<string>)
    reads queries
  {
    queries.Valid() && queries.initialCapacity == QUERY_CAPACITY && queries.itemSize == QUERY_SIZE
  }

  method AppendQuery(queries: GrowingBuffer<string>, sql: string) returns (ok: bool)
    requires QueriesValid(queries)
    modifies queries, queries.items
    ensures QueriesValid(queries) && (queries.items == old(queries.items) || fresh(queries.items))
    ensures queries.Contents() == old(queries.Contents()) + (if ok then [sql] else [])
    ensures !ok ==> queries.largestBlock < MemoryBound(|sql|, |old(queries.Contents())|)
  {
    if queries.count == queries.items.Length {
      ok := queries.Grow();
      if !ok {
        return;
      }
    }
    if |sql| + 1 > queries.largestBlock {
      return false;
    }
    ok := queries.Append(sql);
  }

  ghost function Following(done: seq<string>, r: Csv): Csv {
    Csv(done + r.queries, r.complete)
  }

  /** An empty field is no query. */
  ghost function Added(field: string): (added: seq<string>)
    ensures |added| <= |field|
  {
    if field == "" then [] else [field]
  }

  method StoreField(queries: GrowingBuffer<string>, field: GrowingBuffer<char>) returns (ok: bool)
    requires QueriesValid(queries) && field.Valid()
    modifies queries, queries.items
    ensures QueriesValid(queries) && (queries.items == old(queries.items) || fresh(queries.items))
    ensures ok ==> queries.Contents() == old(queries.Contents()) + Added(field.Contents())
    ensures !ok ==> queries.largestBlock < MemoryBound(field.count, |old(queries.Contents())|)
  {
    ok := true;
    if field.count > 0 {
      ok := AppendQuery(queries, field.items[..field.count]);
    }
  }

  lemma FollowingTwice(a: seq<string>, b: seq<string>, r: Csv)
    ensures Following(a, Following(b, r)) == Following(a + b, r)
  {
    Regroup(a, b, r.queries);
  }

  ghost function CsvAt(data: string, cursor: nat): Csv
    requires cursor <= |data|
  {
    ParseCsv(data[cursor..])
  }

  lemma LineEndSkipped(data: string, k: nat)
    requires k < |data| && IsLineEnd(data[k])
    ensures CsvAt(data, k) == CsvAt(data, k + 1)
  {
    assert data[k..][0] == data[k] && data[k..][1..] == data[k + 1..];
  }

  /** What one record contributes. */
  lemma RecordRead(data: string, k: nat, scan: Scan)
    requires k < |data| && !IsLineEnd(data[k])
    requires scan == if data[k] == '"' then QuotedAt(data, k + 1) else PlainAt(data, k)
    ensures scan.Unterminated? ==> CsvAt(data, k) == Csv([], false)
    ensures scan.Closed? ==>
              |scan.rest| < |data| - k && CsvAt(data, k) == Add(scan.field, ParseCsv(NextLine(scan.rest)))
  {
    var s := data[k..];
    assert s[0] == data[k] && s[1..] == data[k + 1..];
    assert Record(s) == scan;
  }

  /** Reads one record at the cursor into the emptied field and moves to the next line. */
  method ReadRecord(data: string, start: nat, field: GrowingBuffer<char>) returns (status: Status, cursor: nat)
    requires start < |data| && !IsLineEnd(data[start])
    requires FieldValid(field, field.largestBlock) && field.Contents() == ""
    modifies field, field.items
    ensures FieldValid(field, field.largestBlock) && (field.items == old(field.items) || fresh(field.items))
    ensures start <= cursor <= |data| && field.count <= cursor - start
    ensures status == Success ==> start < cursor && CsvAt(data, start) == Add(field.Contents(), CsvAt(data, cursor))
    ensures status == Malformed ==> CsvAt(data, start) == Csv([], false)
    ensures status == NoMemory ==> field.largestBlock < FIELD_CAPACITY + 2 * |data|
  {
    if data[start] == '"' {
      status, cursor := ParseQuotedField(data, start, field);
      RecordRead(data, start, QuotedAt(data, start + 1));
    } else {
      status, cursor := ParseUnquotedField(data, start, field);
      RecordRead(data, start, PlainAt(data, start));
    }
    if status == Success {
      assert |data[cursor..]| < |data| - start;
      cursor := SkipLine(data, cursor);
    }
  }

  /** One turn of the file loop: skips a line end, or reads a record and stores its query. */
  method ReadNext(data: string, k: nat, field: GrowingBuffer<char>, queries: GrowingBuffer<string>)
    returns (status: Status, next: nat, ghost added: seq<string>)
    requires k < |data| && FieldValid(field, queries.largestBlock) && QueriesValid(queries)
    modifies field, field.items, queries, queries.items
    ensures FieldValid(field, queries.largestBlock) && (field.items == old(field.items) || fresh(field.items))
    ensures QueriesValid(queries) && (queries.items == old(queries.items) || fresh(queries.items))
    ensures status == Success ==>
              && k < next <= |data| && |added| <= next - k
              && queries.Contents() == old(queries.Contents()) + added
              && CsvAt(data, k) == Following(added, CsvAt(data, next))
    ensures status == Malformed ==> queries.Contents() == old(queries.Contents()) && CsvAt(data, k) == Csv([], false)
    ensures status == NoMemory ==>
              || queries.largestBlock < MemoryBound(|data| - k, |old(queries.Contents())|)
              || queries.largestBlock < FIELD_CAPACITY + 2 * |data|
  {
    added := [];
    field.Clear();
    if data[k] == '\r' || data[k] == '\n' {
      LineEndSkipped(data, k);
      return Success, k + 1, [];
    }
    status, next := ReadRecord(data, k, field);
    if status == Success {
      added := Added(field.Contents());
      var ok := StoreField(queries, field);
      status := if ok then Success else NoMemory;
    }
  }

  /** Reads a whole file behind whatever the list already holds. Success and a malformed file are
      reported exactly as the format says, with every query before the fault kept; running out of
      memory is possible only when some block of the stated size is not to be had. */
  method ParseSingleColumnCsv(data: string, queries: GrowingBuffer<string>) returns (status: Status)
    requires QueriesValid(queries)
    modifies queries, queries.items
    ensures QueriesValid(queries)
    ensures status == Success ==> ParseCsv(data).complete
    ensures status == Malformed ==> !ParseCsv(data).complete
    ensures status != NoMemory ==> queries.Contents() == old(queries.Contents()) + ParseCsv(data).queries
    ensures status == NoMemory ==> queries.largestBlock < MemoryBound(|data|, |old(queries.Contents())|)
  {
    var field := new GrowingBuffer<char>(FIELD_CAPACITY, 1, queries.largestBlock);
    var cursor := 0;
    ghost var before := queries.Contents();
    ghost var done: seq<string> := [];
    assert data[0..] == data;
    while cursor < |data|
      invariant cursor <= |data|
      invariant FieldValid(field, queries.largestBlock) && fresh(field) && fresh(field.items)
      invariant QueriesValid(queries) && (queries.items == old(queries.items) || fresh(queries.items))
      invariant |done| <= cursor
      invariant queries.Contents() == before + done
      invariant ParseCsv(data) == Following(done, CsvAt(data, cursor))
    {
      ghost var added;
      var next;
      status, next, added := ReadNext(data, cursor, field, queries);
      if status != Success {
        assert done + [] == done;
        return;
      }
      FollowingTwice(done, added, CsvAt(data, next));
      Regroup(before, done, added);
      done := done + added;
      cursor := next;
    }
    assert done + [] == done;
    return Success;
  }
}
