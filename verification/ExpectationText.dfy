/** What an expectation file says: reading undoes writing, line by line and for whole files. */
module ExpectationText {
  import opened CStrings
  import opened Sequences
  import opened Decimal
  import opened Words
  import opened ExpectationFile

  // ----- the index field

  lemma {:induction false} SpacesSkipped(blanks: string, rest: string)
    requires (forall i :: 0 <= i < |blanks| ==> IsSpace(blanks[i])) && (rest == "" || !IsSpace(rest[0]))
    ensures SkipSpaces(blanks + rest) == rest
  {
    if blanks == "" {
      assert blanks + rest == rest;
    } else {
      assert (blanks + rest)[0] == blanks[0] && (blanks + rest)[1..] == blanks[1..] + rest;
      SpacesSkipped(blanks[1..], rest);
    }
  }

  lemma WholeIsSeen(s: string)
    requires '\0' !in s
    ensures UpToNul(s) == s
  {
    UpToNulIs(s, |s|);
    assert s[..|s|] == s;
  }

  /** The number a sign and a value stand for; a minus sign negates modulo 2^64. */
  function Signed(minus: bool, value: nat): Option<Word> {
    var w := if minus then (WORD_LIMIT - value % WORD_LIMIT) % WORD_LIMIT else value % WORD_LIMIT;
    if value >= WORD_LIMIT || w == 0 then Nothing else Just(w)
  }

  lemma {:induction false} NumberRead(blanks: string, sign: string, digits: string)
    requires (forall i :: 0 <= i < |blanks| ==> IsSpace(blanks[i])) && (sign == "" || sign == "+" || sign == "-")
    requires digits != "" && AllDigits(digits)
    ensures UnsignedOf(blanks + (sign + digits)) ==
              if Value(digits) > SIZE_MAX then Nothing
              else if sign == "-" then Just((WORD_LIMIT - Value(digits)) % WORD_LIMIT)
              else Just(Value(digits))
  {
    var number := sign + digits;
    assert sign == "" ==> number == digits;
    assert sign != "" ==> number[0] == sign[0] && number[1..] == digits;
    assert '\0' !in blanks && '\0' !in sign && '\0' !in digits;
    WholeIsSeen(blanks + number);
    SpacesSkipped(blanks, number);
  }

  /** An index field of blanks, a sign and digits, as strtoull reads it: at most 31 characters, below 2^64
      and not zero. Plain digits are the number they denote. */
  lemma {:induction false} IndexFieldRead(blanks: string, sign: string, digits: string)
    requires (forall i :: 0 <= i < |blanks| ==> IsSpace(blanks[i])) && (sign == "" || sign == "+" || sign == "-")
    requires digits != "" && AllDigits(digits)
    ensures QueryIndexOf(blanks + (sign + digits)) ==
              if |blanks| + |sign| + |digits| > 31 then Nothing else Signed(sign == "-", Value(digits))
  {
    NumberRead(blanks, sign, digits);
  }

  // ----- one line

  /** What can be written: a nonzero index, a status and a token the parser knows and a reason. */
  predicate Writable(names: Names, e: Expectation) {
    && e.queryIndex != 0 && e.reason != ""
    && e.status in names.statuses && TabFree(e.status)
    && e.token in names.tokens && TabFree(e.token)
  }

  function LineOf(e: Expectation): string {
    JoinTabs([Digits(e.queryIndex), e.status, e.token, e.reason])
  }

  lemma DigitsAreTabFree(n: nat)
    ensures TabFree(Digits(n))
  {
  }

  lemma {:induction false} LineSplits(e: Expectation, fields: seq<string>)
    requires TabFree(e.status) && TabFree(e.token)
    requires fields == [Digits(e.queryIndex), e.status, e.token, e.reason]
    ensures Split(LineOf(e), 3) == Just(fields)
  {
    DigitsAreTabFree(e.queryIndex);
    assert Joins(LineOf(e), fields);
    SplitExactly(LineOf(e), fields, 3);
  }

  lemma {:induction false} LineStarts(e: Expectation)
    ensures LineOf(e) != "" && IsDigit(LineOf(e)[0])
  {
    var d := Digits(e.queryIndex);
    var fields := [d, e.status, e.token, e.reason];
    assert JoinTabs(fields) == d + ("\t" + JoinTabs(fields[1..]));
    assert IsDigit(d[0]);
  }

  /** A written line reads back as its expectation: first the index, then status, token and reason. */
  lemma {:induction false} LineReads(names: Names, e: Expectation)
    requires Writable(names, e)
    ensures ParseLine(names, LineOf(e)) == Entry(e)
  {
    var fields := [Digits(e.queryIndex), e.status, e.token, e.reason];
    LineStarts(e);
    LineSplits(e, fields);
    PlainIndexRead(e.queryIndex);
  }

  // ----- whole files

  /** A line of a file: an expectation, or an empty line or comment. */
  datatype Item = Note(text: string) | Stated(expectation: Expectation)

  predicate OneLine(s: string) {
    forall i :: 0 <= i < |s| ==> !IsLineEnd(s[i])
  }

  predicate AllOneLine(lines: seq<string>) {
    forall i :: 0 <= i < |lines| ==> OneLine(lines[i])
  }

  predicate IsNote(s: string) {
    s == "" || s[0] == '#'
  }

  function TextOf(item: Item): string {
    match item
    case Note(text) => text
    case Stated(e) => LineOf(e)
  }

  predicate WritableItem(names: Names, item: Item) {
    && OneLine(TextOf(item))
    && match item
       case Note(text) => IsNote(text)
       case Stated(e) => Writable(names, e)
  }

  function Texts(items: seq<Item>): seq<string> {
    if items == [] then [] else [TextOf(items[0])] + Texts(items[1..])
  }

  /** The expectations of a file, in order. */
  function Statements(items: seq<Item>): seq<Expectation> {
    if items == [] then []
    else (if items[0].Stated? then [items[0].expectation] else []) + Statements(items[1..])
  }

  predicate IsBreak(b: string) {
    b == "\n" || b == "\r\n" || b == "\r"
  }

  /** Every line with its break. */
  function FileText(lines: seq<string>, b: string): string {
    if lines == [] then "" else lines[0] + (b + FileText(lines[1..], b))
  }

  lemma {:induction false} LineEndsAtBreak(line: string, rest: string)
    requires OneLine(line) && rest != "" && IsLineEnd(rest[0])
    ensures LineLength(line + rest) == |line|
  {
    if line == "" {
      assert line + rest == rest;
    } else {
      assert (line + rest)[0] == line[0] && (line + rest)[1..] == line[1..] + rest;
      LineEndsAtBreak(line[1..], rest);
    }
  }

  lemma BreakTaken(b: string, rest: string)
    requires IsBreak(b) && (b == "\r" ==> rest == "" || rest[0] != '\n')
    ensures b + rest != "" && IsLineEnd((b + rest)[0]) && BreakLength(b + rest) == |b|
  {
    var s := b + rest;
    assert s[0] == b[0];
    if |b| == 2 {
      assert s[1] == b[1];
    } else if rest != "" {
      assert s[1] == rest[0];
    }
  }

  lemma {:induction false} FirstLineRead(line: string, b: string, rest: string)
    requires OneLine(line) && IsBreak(b) && (b == "\r" ==> rest == "" || rest[0] != '\n')
    ensures Lines(line + (b + rest)) == [line] + Lines(rest)
  {
    var s := line + (b + rest);
    BreakTaken(b, rest);
    LineEndsAtBreak(line, b + rest);
    assert s[..|line|] == line && s[|line|..] == b + rest;
    assert s[|line| + |b|..] == rest;
  }

  lemma {:induction false} NoLineFeedFirst(lines: seq<string>, b: string)
    requires b == "\r" && AllOneLine(lines)
    ensures FileText(lines, b) == "" || FileText(lines, b)[0] != '\n'
  {
    if lines != [] && lines[0] != "" {
      assert FileText(lines, b)[0] == lines[0][0];
    }
  }

  /** The lines of a file are the lines it was written from, whichever line break it uses. */
  lemma {:induction false} LinesOfText(lines: seq<string>, b: string)
    requires IsBreak(b) && AllOneLine(lines)
    ensures Lines(FileText(lines, b)) == lines
  {
    if lines != [] {
      FirstOfText(lines, b);
      LinesOfText(lines[1..], b);
      assert [lines[0]] + lines[1..] == lines;
    }
  }

  lemma {:induction false} FirstOfText(lines: seq<string>, b: string)
    requires IsBreak(b) && AllOneLine(lines) && lines != []
    ensures Lines(FileText(lines, b)) == [lines[0]] + Lines(FileText(lines[1..], b))
  {
    if b == "\r" {
      NoLineFeedFirst(lines[1..], b);
    }
    FirstLineRead(lines[0], b, FileText(lines[1..], b));
  }

  lemma NoteIgnored(names: Names, text: string)
    requires IsNote(text)
    ensures ParseLine(names, text) == Ignored
  {
  }

  lemma {:induction false} TextsRead(names: Names, items: seq<Item>)
    requires forall i :: 0 <= i < |items| ==> WritableItem(names, items[i])
    ensures Entries(names, Texts(items)) == Statements(items) && AllValid(names, Texts(items))
    ensures AllOneLine(Texts(items))
  {
    if items != [] {
      var texts := Texts(items);
      TextsRead(names, items[1..]);
      assert texts[0] == TextOf(items[0]) && texts[1..] == Texts(items[1..]);
      match items[0] {
        case Note(text) => NoteIgnored(names, text);
        case Stated(e) => LineReads(names, e);
      }
      ValidTail(names, texts);
    }
  }

  /** A file written from expectations with distinct indexes, with comments and empty lines anywhere
      between them and any line break, loads as exactly those expectations in their order. */
  lemma {:induction false} FileReads(names: Names, items: seq<Item>, b: string)
    requires IsBreak(b) && forall i :: 0 <= i < |items| ==> WritableItem(names, items[i])
    ensures var lines := Lines(FileText(Texts(items), b));
            && AllValid(names, lines) && Entries(names, lines) == Statements(items)
            && (Distinct(Statements(items)) ==> Load(names, lines, []) == Just(Statements(items)))
            && (!Distinct(Statements(items)) ==> Load(names, lines, []).Nothing?)
  {
    TextsRead(names, items);
    LinesOfText(Texts(items), b);
    LoadExactly(names, Texts(items), []);
    assert [] + Statements(items) == Statements(items);
  }
}
