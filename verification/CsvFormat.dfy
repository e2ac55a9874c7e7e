/** The one-column CSV dialect of the query files, as functions on text: what the reader makes of any
    input, and the quoting it undoes. It is section 2 of RFC 4180 with one more rule: a quote behind a
    backslash belongs to the field, and both characters are kept. */
module CsvFormat {
  import opened CStrings
  import opened Sequences

  datatype Scan = Unterminated | Closed(field: string, rest: string)

  function Prepend(head: string, scan: Scan): Scan {
    if scan.Unterminated? then Unterminated else Closed(head + scan.field, scan.rest)
  }

  /** The text behind an opening quote, up to its closing quote. */
  function ScanQuoted(s: string): (r: Scan)
    ensures r.Closed? ==> |r.rest| < |s|
  {
    if s == "" then Unterminated
    else if s[0] == '\\' && |s| > 1 && s[1] == '"' then Prepend("\\\"", ScanQuoted(s[2..]))
    else if s[0] == '"' then
      if |s| > 1 && s[1] == '"' then Prepend("\"", ScanQuoted(s[2..])) else Closed("", s[1..])
    else Prepend([s[0]], ScanQuoted(s[1..]))
  }

  /** The text up to the first carriage return or line feed. */
  function ScanPlain(s: string): (r: Scan)
    ensures r.Closed? && |r.field| + |r.rest| == |s|
    ensures s != "" && !IsLineEnd(s[0]) ==> r.field != ""
  {
    if s == "" || IsLineEnd(s[0]) then Closed("", s) else Prepend([s[0]], ScanPlain(s[1..]))
  }

  /** What follows the next line feed. */
  function NextLine(s: string): (r: string)
    ensures |r| <= |s|
  {
    if s == "" then "" else if s[0] == '\n' then s[1..] else NextLine(s[1..])
  }

  /** The queries read, and whether the whole input was. */
  datatype Csv = Csv(queries: seq<string>, complete: bool)

  function Add(field: string, r: Csv): Csv {
    if field == "" then r else Csv([field] + r.queries, r.complete)
  }

  function Record(s: string): Scan
    requires s != ""
  {
    if s[0] == '"' then ScanQuoted(s[1..]) else ScanPlain(s)
  }

  function ParseCsv(s: string): Csv
    decreases |s|
  {
    if s == "" then Csv([], true)
    else if IsLineEnd(s[0]) then ParseCsv(s[1..])
    else
      var record := Record(s);
      if record.Unterminated? then Csv([], false)
      else
        assert s[0] != '"' ==> record.field != "" && |record.rest| < |s|;
        Add(record.field, ParseCsv(NextLine(record.rest)))
  }

  // ----- quoting

  predicate EndsInBackslash(s: string) {
    s != "" && s[|s| - 1] == '\\'
  }

  /** Doubles every quote that no backslash directly precedes. */
  function Escape(s: string, afterBackslash: bool): string {
    if s == "" then ""
    else (if s[0] == '"' && !afterBackslash then "\"\"" else [s[0]]) + Escape(s[1..], s[0] == '\\')
  }

  function Quote(s: string): string {
    "\"" + Escape(s, false) + "\""
  }

  /** Section 2 of RFC 4180: double every quote. */
  function Rfc4180Escape(s: string): string {
    if s == "" then "" else (if s[0] == '"' then "\"\"" else [s[0]]) + Rfc4180Escape(s[1..])
  }

  lemma {:induction false} QuotingIsRfc4180(s: string)
    requires '\\' !in s
    ensures Quote(s) == "\"" + Rfc4180Escape(s) + "\""
  {
    EscapeIsRfc4180(s);
  }

  lemma {:induction false} EscapeIsRfc4180(s: string)
    requires '\\' !in s
    ensures Escape(s, false) == Rfc4180Escape(s)
  {
    if s != "" {
      assert s[0] in s;
      EscapeIsRfc4180(s[1..]);
    }
  }

  lemma ScanBackslashQuote(s: string)
    ensures ScanQuoted("\\\"" + s) == Prepend("\\\"", ScanQuoted(s))
  {
    var t := "\\\"" + s;
    assert t[0] == '\\' && t[1] == '"' && t[2..] == s;
  }

  lemma ScanDoubledQuote(s: string)
    ensures ScanQuoted("\"\"" + s) == Prepend("\"", ScanQuoted(s))
  {
    var t := "\"\"" + s;
    assert t[0] == '"' && t[1] == '"' && t[2..] == s;
  }

  lemma ScanOther(c: char, s: string)
    requires c != '"' && (c == '\\' ==> s == "" || s[0] != '"')
    ensures ScanQuoted([c] + s) == Prepend([c], ScanQuoted(s))
  {
    var t := [c] + s;
    assert t[0] == c && t[1..] == s;
    assert |t| > 1 ==> t[1] == s[0];
  }

  lemma ScanClosing(rest: string)
    requires rest == "" || rest[0] != '"'
    ensures ScanQuoted("\"" + rest) == Closed("", rest)
  {
    var t := "\"" + rest;
    assert t[0] == '"' && t[1..] == rest;
    assert |t| > 1 ==> t[1] == rest[0];
  }

  lemma {:induction false} EscapeStep(f: string, afterBackslash: bool)
    requires f != ""
    ensures Escape(f, afterBackslash) ==
              (if f[0] == '"' && !afterBackslash then "\"\"" else [f[0]]) + Escape(f[1..], f[0] == '\\')
  {
  }

  lemma {:induction false} EscapePair(f: string)
    requires |f| >= 2 && f[0] == '\\' && f[1] == '"'
    ensures Escape(f, false) == "\\\"" + Escape(f[2..], false)
  {
    var tail, rest := f[1..], f[2..];
    assert tail[0] == '"' && tail[1..] == rest;
    EscapeStep(f, false);
    EscapeStep(tail, true);
    Regroup("\\", "\"", Escape(rest, false));
    assert "\\" + "\"" == "\\\"";
  }

  /** Behind any character but a quote, and behind a backslash that no quote follows, escaping goes on
      as at the start of a field. */
  lemma EscapeStart(f: string)
    requires f != "" && f[0] != '"' && (f[0] == '\\' ==> |f| == 1 || f[1] != '"')
    ensures Escape(f, false) == [f[0]] + Escape(f[1..], false)
    ensures f[0] == '\\' && |f| > 1 ==> Escape(f[1..], false) != "" && Escape(f[1..], false)[0] != '"'
  {
    if |f| > 1 && f[0] == '\\' {
      assert f[1..][0] == f[1];
    }
  }

  /** Characters the reader takes in one step: a backslash and its quote, or one character. */
  function StepLength(f: string): (k: nat)
    requires f != ""
    ensures 1 <= k <= |f|
  {
    if |f| > 1 && f[0] == '\\' && f[1] == '"' then 2 else 1
  }

  /** One step of reading escaped text consumes exactly one step of the field it was made from. */
  lemma {:induction false} EscapedStep(f: string, tail: string)
    requires f != "" && f != "\\"
    ensures var k := StepLength(f);
            ScanQuoted(Escape(f, false) + tail) == Prepend(f[..k], ScanQuoted(Escape(f[k..], false) + tail))
  {
    var k := StepLength(f);
    var more := Escape(f[k..], false);
    if k == 2 {
      EscapePair(f);
      Regroup("\\\"", more, tail);
      ScanBackslashQuote(more + tail);
      assert f[..2] == "\\\"";
    } else if f[0] == '"' {
      Regroup("\"\"", more, tail);
      ScanDoubledQuote(more + tail);
      assert f[..1] == "\"";
    } else {
      EscapeStart(f);
      Regroup([f[0]], more, tail);
      ScanOther(f[0], more + tail);
      assert f[..1] == [f[0]];
    }
  }

  /** Reading an escaped field and its closing quote gives the field back, and what follows it. */
  lemma {:induction false} ScanEscaped(f: string, rest: string)
    requires !EndsInBackslash(f)
    requires rest == "" || rest[0] != '"'
    ensures ScanQuoted(Escape(f, false) + ("\"" + rest)) == Closed(f, rest)
    decreases |f|
  {
    if f == "" {
      ScanClosing(rest);
      assert Escape(f, false) + ("\"" + rest) == "\"" + rest;
    } else {
      var k := StepLength(f);
      EscapedStep(f, "\"" + rest);
      ScanEscaped(f[k..], rest);
      assert f[..k] + f[k..] == f;
    }
  }

  /** A field that ends in a backslash swallows its closing quote, and goes on into what follows. */
  lemma {:induction false} ScanEscapedBackslash(f: string, tail: string)
    requires EndsInBackslash(f)
    ensures ScanQuoted(Escape(f, false) + ("\"" + tail)) == Prepend(f + "\"", ScanQuoted(tail))
    decreases |f|
  {
    if |f| == 1 {
      assert Escape(f, false) + ("\"" + tail) == "\\\"" + tail;
      ScanBackslashQuote(tail);
    } else {
      var k := StepLength(f);
      EscapedStep(f, "\"" + tail);
      ScanEscapedBackslash(f[k..], tail);
      PrependTwice(f[..k], f[k..] + "\"", ScanQuoted(tail));
      assert f[..k] + (f[k..] + "\"") == f + "\"";
    }
  }

  lemma PrependTwice(a: string, b: string, r: Scan)
    ensures Prepend(a, Prepend(b, r)) == Prepend(a + b, r)
  {
    if r.Closed? {
      Regroup(a, b, r.field);
    }
  }

  /** No accepted quoted field ends in a backslash. */
  lemma {:induction false} ScannedNeverEndsInBackslash(s: string)
    requires ScanQuoted(s).Closed?
    ensures !EndsInBackslash(ScanQuoted(s).field)
    decreases |s|
  {
    if s[0] == '\\' && |s| > 1 && s[1] == '"' {
      ScannedNeverEndsInBackslash(s[2..]);
    } else if s[0] == '"' {
      if |s| > 1 && s[1] == '"' {
        ScannedNeverEndsInBackslash(s[2..]);
      }
    } else {
      ScannedNeverEndsInBackslash(s[1..]);
      if s[0] == '\\' {
        BareBackslashIsNotLast(s[1..]);
      }
    }
  }

  lemma BareBackslashIsNotLast(s: string)
    requires ScanQuoted(s).Closed? && s[0] != '"'
    ensures ScanQuoted(s).field != ""
  {
  }

  /** The strings some quoted field denotes are exactly those not ending in a backslash. */
  lemma QuotedFieldImage(f: string)
    ensures (exists s :: ScanQuoted(s).Closed? && ScanQuoted(s).field == f) <==> !EndsInBackslash(f)
  {
    if !EndsInBackslash(f) {
      ScanEscaped(f, "");
      var s := Escape(f, false) + ("\"" + "");
      assert ScanQuoted(s).Closed? && ScanQuoted(s).field == f;
    }
    forall s | ScanQuoted(s).Closed? && ScanQuoted(s).field == f
      ensures !EndsInBackslash(f)
    {
      ScannedNeverEndsInBackslash(s);
    }
  }

  // ----- files

  predicate Storable(f: string) {
    f != "" && !EndsInBackslash(f)
  }

  /** One quoted field a line, separated by line feeds. */
  function WriteCsv(fields: seq<string>): string {
    if |fields| == 0 then ""
    else if |fields| == 1 then Quote(fields[0])
    else Quote(fields[0]) + ("\n" + WriteCsv(fields[1..]))
  }

  lemma QuotedRecord(f: string, rest: string)
    requires !EndsInBackslash(f) && (rest == "" || rest[0] != '"')
    ensures Quote(f) + rest != "" && (Quote(f) + rest)[0] == '"'
    ensures Record(Quote(f) + rest) == Closed(f, rest)
  {
    var s := Quote(f) + rest;
    assert s[1..] == Escape(f, false) + ("\"" + rest);
    ScanEscaped(f, rest);
  }

  /** Writing a list of queries and reading the file gives the list back, line breaks and quotes inside
      the queries included. */
  lemma {:induction false} CsvRoundTrip(fields: seq<string>)
    requires forall i :: 0 <= i < |fields| ==> Storable(fields[i])
    ensures ParseCsv(WriteCsv(fields)) == Csv(fields, true)
  {
    if fields != [] {
      FirstStorable(fields);
      CsvRoundTrip(fields[1..]);
      assert [fields[0]] + fields[1..] == fields;
    }
  }

  /** A line that needs no quotes. */
  predicate Plain(f: string) {
    f != "" && f[0] != '"' && forall i :: 0 <= i < |f| ==> !IsLineEnd(f[i])
  }

  lemma {:induction false} PlainFieldHasNoLineEnd(s: string)
    ensures forall i :: 0 <= i < |ScanPlain(s).field| ==> !IsLineEnd(ScanPlain(s).field[i])
    ensures s != "" && !IsLineEnd(s[0]) ==> ScanPlain(s).field != "" && ScanPlain(s).field[0] == s[0]
  {
    if s != "" && !IsLineEnd(s[0]) {
      PlainFieldHasNoLineEnd(s[1..]);
    }
  }

  /** Every query the reader yields could have been stored: no query is empty, and one that ends in a
      backslash stood on a line of its own without quotes. */
  lemma {:induction false} QueriesRead(s: string, f: string)
    requires f in ParseCsv(s).queries
    ensures Storable(f) || Plain(f)
    decreases |s|
  {
    if IsLineEnd(s[0]) {
      QueriesRead(s[1..], f);
    } else {
      var record := Record(s);
      if f != record.field {
        QueriesRead(NextLine(record.rest), f);
      } else if f == "" {
        QueriesRead(NextLine(record.rest), f);
      } else if s[0] == '"' {
        ScannedNeverEndsInBackslash(s[1..]);
      } else {
        PlainFieldHasNoLineEnd(s);
      }
    }
  }

  /** The queries some file yields are exactly the nonempty texts that do not end in a backslash or need
      no quotes: only a text that ends in a backslash and also starts with a quote or holds a line break
      has no representation. */
  lemma ReaderImage(f: string)
    ensures (exists s :: f in ParseCsv(s).queries) <==> Storable(f) || Plain(f)
  {
    if Storable(f) {
      CsvRoundTrip([f]);
      assert f in ParseCsv(WriteCsv([f])).queries;
    } else if Plain(f) {
      PlainLine(f, "");
      assert f in ParseCsv(f + ("\n" + "")).queries;
    }
    forall s | f in ParseCsv(s).queries
      ensures Storable(f) || Plain(f)
    {
      QueriesRead(s, f);
    }
  }

  /** One line a query, quoted unless it cannot be. */
  function WriteLines(fields: seq<string>): string {
    if fields == [] then ""
    else (if Storable(fields[0]) then Quote(fields[0]) else fields[0]) + ("\n" + WriteLines(fields[1..]))
  }

  lemma {:induction false} LinesReadBack(fields: seq<string>)
    requires forall i :: 0 <= i < |fields| ==> Storable(fields[i]) || Plain(fields[i])
    ensures ParseCsv(WriteLines(fields)) == Csv(fields, true)
  {
    if fields != [] {
      var f, rest := fields[0], WriteLines(fields[1..]);
      LinesReadBack(fields[1..]);
      if Storable(f) {
        QuotedRecord(f, "\n" + rest);
        assert ("\n" + rest)[0] == '\n' && ("\n" + rest)[1..] == rest;
        assert NextLine("\n" + rest) == rest;
      } else {
        PlainLine(f, rest);
      }
      assert [f] + fields[1..] == fields;
    }
  }

  /** And the lists of queries some file holds are exactly the lists of such texts. */
  lemma ListImage(fields: seq<string>)
    ensures (exists s :: ParseCsv(s) == Csv(fields, true)) <==>
              forall i :: 0 <= i < |fields| ==> Storable(fields[i]) || Plain(fields[i])
  {
    if forall i :: 0 <= i < |fields| ==> Storable(fields[i]) || Plain(fields[i]) {
      LinesReadBack(fields);
    }
    forall s, i | ParseCsv(s) == Csv(fields, true) && 0 <= i < |fields|
      ensures Storable(fields[i]) || Plain(fields[i])
    {
      assert fields[i] in ParseCsv(s).queries;
      QueriesRead(s, fields[i]);
    }
  }

  lemma {:induction false} BackslashRecord(f: string, rest: string)
    requires EndsInBackslash(f)
    ensures var s := Quote(f) + rest; s != "" && s[0] == '"' && Record(s) == Prepend(f + "\"", ScanQuoted(rest))
  {
    var s := Quote(f) + rest;
    assert s[1..] == Escape(f, false) + ("\"" + rest);
    ScanEscapedBackslash(f, rest);
  }

  /** Quoting a text that ends in a backslash never reads back: whatever the reader makes of the file,
      its first query is not that text. */
  lemma {:induction false} BackslashFirst(f: string, rest: string)
    requires EndsInBackslash(f)
    ensures var r := ParseCsv(Quote(f) + rest); r.complete ==> r.queries != [] && r.queries[0] != f
  {
    BackslashRecord(f, rest);
    FirstQuery(Quote(f) + rest);
    var scan := ScanQuoted(rest);
    if scan.Closed? {
      assert |(f + "\"") + scan.field| > |f|;
    }
  }

  lemma {:induction false} FirstQuery(s: string)
    requires s != "" && !IsLineEnd(s[0])
    ensures Record(s).Unterminated? ==> !ParseCsv(s).complete
    ensures Record(s).Closed? && Record(s).field != "" ==>
              ParseCsv(s).queries != [] && ParseCsv(s).queries[0] == Record(s).field
  {
  }

  /** What one storable field contributes to the file. */
  lemma {:induction false} FirstStorable(fields: seq<string>)
    requires fields != [] && Storable(fields[0])
    ensures ParseCsv(WriteCsv(fields)) == Add(fields[0], ParseCsv(WriteCsv(fields[1..])))
  {
    var rest := AfterFirst(fields);
    QuotedRecord(fields[0], rest);
    if |fields| > 1 {
      assert rest[0] == '\n' && rest[1..] == WriteCsv(fields[1..]);
    }
    assert NextLine(rest) == WriteCsv(fields[1..]);
  }

  function AfterFirst(fields: seq<string>): (rest: string)
    requires fields != []
    ensures WriteCsv(fields) == Quote(fields[0]) + rest
  {
    if |fields| == 1 then "" else "\n" + WriteCsv(fields[1..])
  }

  /** The round trip succeeds for exactly the lists of nonempty queries none of which ends in a
      backslash. */
  lemma {:induction false} CsvRoundTripExactly(fields: seq<string>)
    ensures ParseCsv(WriteCsv(fields)) == Csv(fields, true) <==> forall i :: 0 <= i < |fields| ==> Storable(fields[i])
  {
    if forall i :: 0 <= i < |fields| ==> Storable(fields[i]) {
      CsvRoundTrip(fields);
    } else {
      ReadBackIsStorable(fields);
    }
  }

  lemma {:induction false} ReadBackIsStorable(fields: seq<string>)
    ensures ParseCsv(WriteCsv(fields)) == Csv(fields, true) ==> forall i :: 0 <= i < |fields| ==> Storable(fields[i])
  {
    if fields != [] && ParseCsv(WriteCsv(fields)) == Csv(fields, true) {
      assert fields[0] in fields;
      QueriesRead(WriteCsv(fields), fields[0]);
      if EndsInBackslash(fields[0]) {
        BackslashFirst(fields[0], AfterFirst(fields));
      } else {
        FirstStorable(fields);
        assert ([fields[0]] + ParseCsv(WriteCsv(fields[1..])).queries)[1..] == ParseCsv(WriteCsv(fields[1..])).queries;
        ReadBackIsStorable(fields[1..]);
      }
    }
  }

  lemma {:induction false} NextLineBehind(junk: string, rest: string)
    requires '\n' !in junk
    ensures NextLine(junk + ("\n" + rest)) == rest && NextLine(junk) == ""
  {
    var s := junk + ("\n" + rest);
    if junk == "" {
      assert s == "\n" + rest && s[0] == '\n' && s[1..] == rest;
    } else {
      assert s[0] == junk[0] && s[1..] == junk[1..] + ("\n" + rest);
      assert junk[0] in junk;
      NextLineBehind(junk[1..], rest);
    }
  }

  /** Whatever stands between a closing quote and the next line feed is ignored, a carriage return
      included. */
  lemma {:induction false} JunkIgnored(f: string, junk: string, rest: string)
    requires Storable(f) && '\n' !in junk && (junk == "" || junk[0] != '"')
    ensures ParseCsv(Quote(f) + (junk + ("\n" + rest))) == Csv([f] + ParseCsv(rest).queries, ParseCsv(rest).complete)
    ensures ParseCsv(Quote(f) + junk) == Csv([f], true)
  {
    var tail := junk + ("\n" + rest);
    assert tail[0] == if junk == "" then '\n' else junk[0];
    NextLineBehind(junk, rest);
    QuotedRecord(f, tail);
    QuotedRecord(f, junk);
  }

  /** Lines may end in a carriage return and a line feed, and a carriage return alone ends the text of an
      unquoted line. */
  lemma {:induction false} CarriageReturns(f: string, junk: string, rest: string)
    requires Plain(f) && '\n' !in junk
    ensures ParseCsv(f + ("\r" + (junk + ("\n" + rest)))) ==
              Csv([f] + ParseCsv(rest).queries, ParseCsv(rest).complete)
    ensures ParseCsv("\r" + rest) == ParseCsv(rest)
  {
    var tail := "\r" + (junk + ("\n" + rest));
    assert tail == ("\r" + junk) + ("\n" + rest) && tail[0] == '\r';
    PlainScan(f, tail);
    assert (f + tail)[0] == f[0];
    NextLineBehind("\r" + junk, rest);
    assert ("\r" + rest)[0] == '\r' && ("\r" + rest)[1..] == rest;
  }

  /** Unquoted lines keep their text; blank lines are skipped. */
  lemma PlainLine(f: string, rest: string)
    requires Plain(f)
    ensures ParseCsv(f + ("\n" + rest)) == Csv([f] + ParseCsv(rest).queries, ParseCsv(rest).complete)
    ensures ParseCsv("\n" + rest) == ParseCsv(rest)
  {
    PlainScan(f, "\n" + rest);
    var s := f + ("\n" + rest);
    assert s[0] == f[0];
    assert ("\n" + rest)[0] == '\n' && ("\n" + rest)[1..] == rest;
    assert NextLine("\n" + rest) == rest;
  }

  lemma {:induction false} PlainScan(f: string, rest: string)
    requires forall i :: 0 <= i < |f| ==> !IsLineEnd(f[i])
    requires rest == "" || IsLineEnd(rest[0])
    ensures ScanPlain(f + rest) == Closed(f, rest)
  {
    if f != "" {
      PlainScan(f[1..], rest);
      assert (f + rest)[1..] == f[1..] + rest;
      assert [f[0]] + f[1..] == f;
    } else {
      assert f + rest == rest;
    }
  }
}
