/** A reader of the hashed byte streams that knows only their format: words of eight bytes, least
    significant first; a column count in front of every row; a size in front of every value, all ones for
    NULL. */
module StreamReader {
  import opened CStrings
  import opened Sequences
  import opened Words
  import opened Checksum
  import opened ResultStream

  function WordOf(bytes: seq<Byte>): nat {
    if bytes == [] then 0 else bytes[0] + 256 * WordOf(bytes[1..])
  }

  lemma {:induction false} WordOfLowBytes(v: nat, n: nat)
    requires v < Pow256(n)
    ensures WordOf(LowBytes(v, n)) == v
    decreases n
  {
    if n > 0 {
      WordOfLowBytes(v / 256, n - 1);
      assert LowBytes(v, n)[1..] == LowBytes(v / 256, n - 1);
    }
  }

  lemma WordOfBytes(w: Word)
    ensures WordOf(WordBytes(w)) == w
  {
    assert Pow256(4) == 0x1_0000_0000;
    assert Pow256(8) == WORD_LIMIT;
    WordOfLowBytes(w, 8);
  }

  datatype Taken<T> = None | Taken(value: T, rest: seq<Byte>)

  function TakeWord(s: seq<Byte>): Taken<nat> {
    if |s| < 8 then None else Taken(WordOf(s[..8]), s[8..])
  }

  function TakeValue(s: seq<Byte>): Taken<Value> {
    match TakeWord(s)
    case None => None
    case Taken(size, rest) =>
      if size == 0xFFFF_FFFF_FFFF_FFFF then Taken(Null, rest)
      else if |rest| < size then None
      else Taken(Bytes(rest[..size]), rest[size..])
  }

  function TakeValues(s: seq<Byte>, count: nat): Taken<seq<Value>>
    decreases count
  {
    if count == 0 then Taken([], s)
    else
      match TakeValue(s)
      case None => None
      case Taken(v, rest) =>
        match TakeValues(rest, count - 1)
        case None => None
        case Taken(vs, last) => Taken([v] + vs, last)
  }

  function TakeRow(s: seq<Byte>): Taken<Row> {
    match TakeWord(s)
    case None => None
    case Taken(columns, rest) => TakeValues(rest, columns)
  }

  /** All rows of a stream. */
  function ReadRows(s: seq<Byte>): Option<seq<Row>>
    decreases |s|
  {
    if s == [] then Just([])
    else
      match TakeRow(s)
      case None => Nothing
      case Taken(row, rest) =>
        if |rest| >= |s| then Nothing
        else
          match ReadRows(rest)
          case Nothing => Nothing
          case Just(rows) => Just([row] + rows)
  }

  lemma {:induction false} WordTaken(w: Word, rest: seq<Byte>)
    ensures TakeWord(WordBytes(w) + rest) == Taken(w, rest)
  {
    var s := WordBytes(w) + rest;
    assert s[..8] == WordBytes(w) && s[8..] == rest;
    WordOfBytes(w);
  }

  lemma {:induction false} ValueTaken(v: Value, rest: seq<Byte>)
    requires Framable(v)
    ensures TakeValue(Frame(v) + rest) == Taken(v, rest)
  {
    if v.Null? {
      WordTaken(SIZE_MAX, rest);
    } else {
      Regroup(WordBytes(|v.data|), v.data, rest);
      WordTaken(|v.data|, v.data + rest);
      assert (v.data + rest)[..|v.data|] == v.data && (v.data + rest)[|v.data|..] == rest;
    }
  }

  lemma {:induction false} ValuesTaken(row: Row, rest: seq<Byte>)
    requires forall i :: 0 <= i < |row| ==> Framable(row[i])
    ensures TakeValues(Values(row) + rest, |row|) == Taken(row, rest)
    decreases |row|
  {
    if row == [] {
      assert Values(row) + rest == rest;
    } else {
      Regroup(Frame(row[0]), Values(row[1..]), rest);
      ValueTaken(row[0], Values(row[1..]) + rest);
      ValuesTaken(row[1..], rest);
      assert [row[0]] + row[1..] == row;
    }
  }

  lemma {:induction false} RowTaken(row: Row, rest: seq<Byte>)
    requires FramableRow(row)
    ensures TakeRow(RowStream(row) + rest) == Taken(row, rest)
  {
    Regroup(WordBytes(|row|), Values(row), rest);
    WordTaken(|row|, Values(row) + rest);
    ValuesTaken(row, rest);
  }

  /** The stream of a result reads back as exactly its rows. */
  lemma {:induction false} StreamReads(rows: seq<Row>)
    requires FramableRows(rows)
    ensures ReadRows(Stream(rows)) == Just(rows)
    decreases |rows|
  {
    if rows != [] {
      var rest := Stream(rows[1..]);
      RowTaken(rows[0], rest);
      assert |RowStream(rows[0])| >= 8;
      StreamReads(rows[1..]);
      assert [rows[0]] + rows[1..] == rows;
    }
  }

  /** What a statement feeds: the rows, and for a write that ended well the affected count as its last
      word. */
  lemma {:induction false} StatementReads(rows: seq<Row>, ending: Ending, includeAffected: bool)
    requires FramableRows(rows)
    ensures var s := StatementStream(rows, ending, includeAffected);
            if ending.Done? && includeAffected
            then |s| >= 8 && ReadRows(s[..|s| - 8]) == Just(rows) && WordOf(s[|s| - 8..]) == ending.affected
            else ReadRows(s) == Just(rows)
  {
    StreamReads(rows);
    var s := StatementStream(rows, ending, includeAffected);
    if ending.Done? && includeAffected {
      WordOfBytes(ending.affected);
      assert s[..|s| - 8] == Stream(rows) && s[|s| - 8..] == WordBytes(ending.affected);
    } else {
      assert Stream(rows) + [] == Stream(rows);
    }
  }
}
