/** The expected-parse-failure file: tab-separated lines, each naming a query by its one-based index
    and the status and token kind it must fail with. */
module ExpectationFile {
  import opened CStrings
  import opened Sequences
  import opened Decimal
  import opened Words
  import opened GrowingBuffers

  const EXPECTATION_CAPACITY: nat := 32
  const EXPECTATION_SIZE: nat := 32
  const MAX_INDEX_FIELD: nat := 31

  datatype Expectation = Expectation(queryIndex: Word, status: string, token: string, reason: string)

  /** The status and token-kind names the SQL parser can report. */
  datatype Names = Names(statuses: set<string>, tokens: set<string>)

  // ----- lines

  function LineLength(s: string): (k: nat)
    ensures k <= |s|
    ensures forall i :: 0 <= i < k ==> !IsLineEnd(s[i])
    ensures k < |s| ==> IsLineEnd(s[k])
  {
    if s == "" || IsLineEnd(s[0]) then 0 else 1 + LineLength(s[1..])
  }

  /** Characters of the line break at the start of s: a carriage return, a line feed, or both. */
  function BreakLength(s: string): (k: nat)
    ensures k <= |s| && (s != "" && IsLineEnd(s[0]) ==> k > 0)
  {
    if s == "" then 0
    else if s[0] == '\r' then (if |s| > 1 && s[1] == '\n' then 2 else 1)
    else if s[0] == '\n' then 1 else 0
  }

  /** Where the next line starts. */
  function LineEnd(s: string): (k: nat)
    ensures LineLength(s) <= k <= |s| && (s != "" ==> k > 0)
  {
    LineLength(s) + BreakLength(s[LineLength(s)..])
  }

  function Lines(s: string): seq<string>
    decreases |s|
  {
    if s == "" then [] else [s[..LineLength(s)]] + Lines(s[LineEnd(s)..])
  }

  // ----- fields

  predicate TabFree(s: string) {
    '\t' !in s
  }

  /** The first tab, or the end of the text. */
  function TabIndex(s: string): (k: nat)
    ensures k <= |s|
  {
    if s == "" || s[0] == '\t' then 0 else 1 + TabIndex(s[1..])
  }

  /** The text cut at its first cuts tabs; what follows the last cut is kept whole. */
  function Split(s: string, cuts: nat): (r: Option<seq<string>>)
    ensures r.Just? ==> |r.value| == cuts + 1
    decreases cuts
  {
    if cuts == 0 then Just([s])
    else
      var k := TabIndex(s);
      if k == |s| then Nothing else Prefixed([s[..k]], Split(s[k + 1..], cuts - 1))
  }

  function Prefixed(fields: seq<string>, r: Option<seq<string>>): Option<seq<string>> {
    if r.Nothing? then Nothing else Just(fields + r.value)
  }

  function JoinTabs(fields: seq<string>): string
    requires |fields| >= 1
  {
    if |fields| == 1 then fields[0] else fields[0] + ("\t" + JoinTabs(fields[1..]))
  }

  lemma {:induction false} TabIndexOf(head: string, tail: string)
    requires TabFree(head)
    ensures TabIndex(head + ("\t" + tail)) == |head|
  {
    var s := head + ("\t" + tail);
    if head != "" {
      assert s[0] == head[0] && s[1..] == head[1..] + ("\t" + tail);
      TabIndexOf(head[1..], tail);
    }
  }

  lemma {:induction false} TabIndexIs(s: string)
    ensures TabIndex(s) < |s| ==> s[TabIndex(s)] == '\t'
    ensures forall i :: 0 <= i < TabIndex(s) ==> s[i] != '\t'
  {
    if s != "" && s[0] != '\t' {
      TabIndexIs(s[1..]);
    }
  }

  lemma {:induction false} TabIndexCuts(s: string, k: nat)
    requires k == TabIndex(s) < |s|
    ensures s == s[..k] + ("\t" + s[k + 1..]) && TabFree(s[..k])
  {
    TabIndexIs(s);
  }

  lemma TabFreeTail(fields: seq<string>)
    requires |fields| > 1
    ensures (forall i :: 0 <= i < |fields| - 1 ==> TabFree(fields[i])) <==>
            TabFree(fields[0]) && (forall i :: 0 <= i < |fields[1..]| - 1 ==> TabFree(fields[1..][i]))
  {
    assert forall i :: 0 <= i < |fields[1..]| ==> fields[1..][i] == fields[i + 1];
  }

  /** A text has a tab-free head and the given text behind a tab exactly when its first tab says so. */
  lemma {:induction false} FirstTabCuts(line: string, head: string, tail: string)
    ensures var k := TabIndex(line);
            k < |line| && line[..k] == head && line[k + 1..] == tail <==> TabFree(head) && line == head + ("\t" + tail)
  {
    var k := TabIndex(line);
    if k < |line| {
      TabIndexCuts(line, k);
    }
    if TabFree(head) && line == head + ("\t" + tail) {
      TabIndexOf(head, tail);
    }
  }

  /** The line is the fields joined by tabs, and only the last of them holds further tabs. */
  ghost predicate Joins(line: string, fields: seq<string>)
    requires |fields| >= 1
  {
    line == JoinTabs(fields) && forall i :: 0 <= i < |fields| - 1 ==> TabFree(fields[i])
  }

  lemma {:induction false} JoinsStep(line: string, fields: seq<string>, k: nat)
    requires |fields| > 1 && k == TabIndex(line)
    ensures Joins(line, fields) <==> k < |line| && line[..k] == fields[0] && Joins(line[k + 1..], fields[1..])
  {
    FirstTabCuts(line, fields[0], JoinTabs(fields[1..]));
    TabFreeTail(fields);
  }

  lemma {:induction false} SplitStep(line: string, fields: seq<string>, k: nat, cuts: nat)
    requires |fields| == cuts + 1 && cuts > 0 && k == TabIndex(line)
    ensures SplitsInto(line, cuts, fields) <==>
              k < |line| && line[..k] == fields[0] && SplitsInto(line[k + 1..], cuts - 1, fields[1..])
  {
    if k < |line| {
      var r := Split(line[k + 1..], cuts - 1);
      if r.Just? {
        HeadAndTail(line[..k], r.value, fields);
      }
    }
  }

  lemma HeadAndTail(head: string, tail: seq<string>, fields: seq<string>)
    requires fields != []
    ensures [head] + tail == fields <==> head == fields[0] && tail == fields[1..]
  {
    assert ([head] + tail)[0] == head && ([head] + tail)[1..] == tail;
    assert fields == [fields[0]] + fields[1..];
  }

  lemma {:induction false} SplitWhole(line: string, fields: seq<string>)
    requires |fields| == 1
    ensures Split(line, 0) == Just(fields) <==> Joins(line, fields)
  {
    assert fields == [fields[0]];
  }

  ghost predicate SplitsInto(line: string, cuts: nat, fields: seq<string>) {
    Split(line, cuts) == Just(fields)
  }

  /** Splitting undoes joining: a line has the given fields exactly when it joins them. */
  lemma {:induction false} SplitExactly(line: string, fields: seq<string>, cuts: nat)
    requires |fields| == cuts + 1
    ensures SplitsInto(line, cuts, fields) <==> Joins(line, fields)
    decreases cuts
  {
    if cuts == 0 {
      SplitWhole(line, fields);
    } else {
      var k := TabIndex(line);
      SplitStep(line, fields, k, cuts);
      JoinsStep(line, fields, k);
      if k < |line| {
        SplitExactly(line[k + 1..], fields[1..], cuts - 1);
      }
    }
  }

  lemma {:induction false} SplitAtTab(line: string, start: nat, index: nat, cuts: nat)
    requires start <= index < |line| && TabIndex(line[start..]) == index - start && cuts > 0
    ensures Split(line[start..], cuts) == Prefixed([line[start..index]], Split(line[index + 1..], cuts - 1))
  {
    var s := line[start..];
    assert s[..index - start] == line[start..index];
    assert s[index - start + 1..] == line[index + 1..];
  }

  lemma {:induction false} TabIndexStep(line: string, index: nat)
    requires index < |line|
    ensures TabIndex(line[index..]) == if line[index] == '\t' then 0 else 1 + TabIndex(line[index + 1..])
  {
    assert line[index..][0] == line[index] && line[index..][1..] == line[index + 1..];
  }

  lemma PrefixedNone(r: Option<seq<string>>)
    ensures Prefixed([], r) == r
  {
    if r.Just? {
      assert [] + r.value == r.value;
    }
  }

  lemma PrefixedTwice(a: seq<string>, b: seq<string>, r: Option<seq<string>>)
    ensures Prefixed(a, Prefixed(b, r)) == Prefixed(a + b, r)
  {
    if r.Just? {
      assert a + (b + r.value) == (a + b) + r.value;
    }
  }

  /** The split of a line of which some fields have been cut off. */
  ghost function SplitFrom(line: string, start: nat, left: nat, fields: seq<string>): Option<seq<string>>
    requires start <= |line|
  {
    Prefixed(fields, Split(line[start..], left))
  }

  /** Cutting off one more field keeps it; there is none without a further tab. */
  lemma {:induction false} SplitAdvances(line: string, start: nat, index: nat, left: nat, fields: seq<string>)
    requires start <= index <= |line| && TabIndex(line[start..]) == index - start && left > 0
    ensures SplitFrom(line, start, left, fields) ==
            if index == |line| then Nothing else SplitFrom(line, index + 1, left - 1, fields + [line[start..index]])
  {
    if index < |line| {
      SplitAtTab(line, start, index, left);
      PrefixedTwice(fields, [line[start..index]], Split(line[index + 1..], left - 1));
    }
  }

  lemma {:induction false} SplitEnds(line: string, cuts: nat)
    ensures SplitFrom(line, 0, cuts, []) == Split(line, cuts)
  {
    assert line[0..] == line;
    PrefixedNone(Split(line, cuts));
  }

  const FIELD_CUTS: nat := 3

  /** Walks on to the next tab, or to the end of the line. */
  method FindTab(line: string, start: nat) returns (index: nat)
    requires start <= |line|
    ensures start <= index <= |line| && index == start + TabIndex(line[start..])
  {
    index := start;
    while index < |line| && line[index] != '\t'
      invariant start <= index <= |line|
      invariant TabIndex(line[start..]) == index - start + TabIndex(line[index..])
    {
      TabIndexStep(line, index);
      index := index + 1;
    }
    if index < |line| {
      TabIndexStep(line, index);
    }
  }

  /** Walks a line once, cutting it at its first tabs. */
  method SplitAtTabs(line: string, cuts: nat) returns (r: Option<seq<string>>)
    ensures r == Split(line, cuts)
  {
    var fields: seq<string> := [];
    var left, start := cuts, 0;
    SplitEnds(line, cuts);
    while left > 0
      invariant 0 <= start <= |line|
      invariant Split(line, cuts) == SplitFrom(line, start, left, fields)
    {
      var index := FindTab(line, start);
      SplitAdvances(line, start, index, left, fields);
      if index == |line| {
        return Nothing;
      }
      fields := fields + [line[start..index]];
      left := left - 1;
      start := index + 1;
    }
    return Just(fields + [line[start..]]);
  }

  /** Every field is part of its line. */
  lemma {:induction false} FieldsFit(s: string, cuts: nat)
    requires Split(s, cuts).Just?
    ensures forall i :: 0 <= i <= cuts ==> |Split(s, cuts).value[i]| <= |s|
    decreases cuts
  {
    if cuts > 0 {
      var k := TabIndex(s);
      FieldsFit(s[k + 1..], cuts - 1);
    }
  }

  // ----- the index field

  predicate IsSpace(c: char) {
    c == ' ' || c == '\t' || c == '\n' || c == '\r' || c == 11 as char || c == 12 as char
  }

  function SkipSpaces(s: string): string {
    if s != "" && IsSpace(s[0]) then SkipSpaces(s[1..]) else s
  }

  /** strtoull in base ten over a whole C string: leading blanks, one sign, digits; a minus sign
      negates modulo 2^64; no digits, trailing text or overflow is no number. */
  function UnsignedOf(text: string): Option<Word> {
    var s := SkipSpaces(UpToNul(text));
    var signed := s != "" && (s[0] == '+' || s[0] == '-');
    var digits := if signed then s[1..] else s;
    if digits == "" || !AllDigits(digits) || Value(digits) > SIZE_MAX then Nothing
    else if signed && s[0] == '-' then Just((WORD_LIMIT - Value(digits)) % WORD_LIMIT)
    else Just(Value(digits))
  }

  function QueryIndexOf(text: string): (r: Option<Word>)
    ensures r.Just? ==> r.value != 0
  {
    if text == "" || |text| > MAX_INDEX_FIELD then Nothing
    else
      var r := UnsignedOf(text);
      if r.Nothing? || r.value == 0 then Nothing else r
  }

  /** A query index written in plain digits is read as that number. */
  lemma {:induction false} PlainIndexRead(n: Word)
    requires n != 0
    ensures QueryIndexOf(Digits(n)) == Just(n)
  {
    TwentyDigits(n);
    UpToNulIs(Digits(n), |Digits(n)|);
    assert Digits(n)[..|Digits(n)|] == Digits(n);
    ValueOfDigits(n);
  }

  // ----- entries

  datatype Line = Ignored | Invalid | Entry(expectation: Expectation)

  function ParseLine(names: Names, line: string): (r: Line)
    ensures r.Entry? ==> r.expectation.queryIndex != 0
  {
    if line == "" || line[0] == '#' then Ignored
    else
      var split := Split(line, FIELD_CUTS);
      if split.Nothing? then Invalid
      else
        var f := split.value;
        var index := QueryIndexOf(f[0]);
        if index.Nothing? || f[1] !in names.statuses || f[2] !in names.tokens || f[3] == "" then Invalid
        else Entry(Expectation(index.value, f[1], f[2], f[3]))
  }

  predicate Distinct(es: seq<Expectation>) {
    forall i, j :: 0 <= i < j < |es| ==> es[i].queryIndex != es[j].queryIndex
  }

  predicate Nonzero(es: seq<Expectation>) {
    forall i :: 0 <= i < |es| ==> es[i].queryIndex != 0
  }

  predicate Mentions(es: seq<Expectation>, index: Word) {
    exists i :: 0 <= i < |es| && es[i].queryIndex == index
  }

  /** What the file says, read without regard to duplicates. */
  function Entries(names: Names, lines: seq<string>): seq<Expectation> {
    if lines == [] then []
    else
      var line := ParseLine(names, lines[0]);
      (if line.Entry? then [line.expectation] else []) + Entries(names, lines[1..])
  }

  predicate AllValid(names: Names, lines: seq<string>) {
    forall i :: 0 <= i < |lines| ==> !ParseLine(names, lines[i]).Invalid?
  }

  /** How the reader goes through the lines, stopping at the first invalid or duplicate one. */
  function Load(names: Names, lines: seq<string>, es: seq<Expectation>): Option<seq<Expectation>>
    decreases |lines|
  {
    if lines == [] then Just(es)
    else
      match ParseLine(names, lines[0])
      case Ignored => Load(names, lines[1..], es)
      case Invalid => Nothing
      case Entry(e) => if Mentions(es, e.queryIndex) then Nothing else Load(names, lines[1..], es + [e])
  }

  /** Loading succeeds exactly when every line is valid and no index occurs twice, and then yields the
      entries in file order, with pairwise distinct nonzero indexes. */
  lemma {:induction false} LoadExactly(names: Names, lines: seq<string>, es: seq<Expectation>)
    requires Distinct(es) && Nonzero(es)
    ensures Load(names, lines, es).Just? <==> AllValid(names, lines) && Distinct(es + Entries(names, lines))
    ensures Load(names, lines, es).Just? ==>
              && Load(names, lines, es).value == es + Entries(names, lines)
              && Distinct(Load(names, lines, es).value) && Nonzero(Load(names, lines, es).value)
    decreases |lines|
  {
    if lines == [] {
      assert es + [] == es;
    } else {
      var line, tail := ParseLine(names, lines[0]), lines[1..];
      ValidTail(names, lines);
      if line.Ignored? {
        LoadExactly(names, tail, es);
        assert [] + Entries(names, tail) == Entries(names, tail);
      } else if line.Entry? {
        var e := line.expectation;
        Regroup(es, [e], Entries(names, tail));
        if Mentions(es, e.queryIndex) {
          MentionedTwice(es, e, Entries(names, tail));
        } else {
          LoadExactly(names, tail, es + [e]);
        }
      }
    }
  }

  lemma ValidTail(names: Names, lines: seq<string>)
    requires lines != []
    ensures AllValid(names, lines) <==> !ParseLine(names, lines[0]).Invalid? && AllValid(names, lines[1..])
  {
    assert forall i :: 0 < i < |lines| ==> lines[i] == lines[1..][i - 1];
  }

  lemma MentionedTwice(es: seq<Expectation>, e: Expectation, rest: seq<Expectation>)
    requires Mentions(es, e.queryIndex)
    ensures !Distinct((es + [e]) + rest)
  {
    var all := (es + [e]) + rest;
    var i :| 0 <= i < |es| && es[i].queryIndex == e.queryIndex;
    assert all[i] == es[i] && all[|es|] == e;
  }

  // ----- the reader

  ghost predicate ListValid(list: GrowingBuffer<Expectation>)
    reads list
  {
    list.Valid() && list.initialCapacity == EXPECTATION_CAPACITY && list.itemSize == EXPECTATION_SIZE
  }

  method FindExpectation(es: seq<Expectation>, index: Word) returns (r: Option<nat>)
    ensures r.Just? ==>
              && r.value < |es| && es[r.value].queryIndex == index
              && forall i :: 0 <= i < r.value ==> es[i].queryIndex != index
    ensures r.Just? <==> Mentions(es, index)
  {
    for i := 0 to |es|
      invariant forall j :: 0 <= j < i ==> es[j].queryIndex != index
    {
      if es[i].queryIndex == index {
        return Just(i);
      }
    }
    return Nothing;
  }

  datatype Status = Success | Rejected | NoMemory

  /** A copy of a field also needs its terminator. */
  predicate CopyFits(field: string, largestBlock: nat) {
    |field| + 1 <= largestBlock
  }

  /** Stores the expectation of one line, unless the line is ignored, invalid or repeats an index. */
  method ParseExpectedFailureLine(names: Names, line: string, list: GrowingBuffer<Expectation>) returns (status: Status)
    requires ListValid(list)
    modifies list, list.items
    ensures ListValid(list) && (list.items == old(list.items) || fresh(list.items))
    ensures var parsed := ParseLine(names, line); var before := old(list.Contents());
            && (status == Success ==>
                  && !parsed.Invalid?
                  && (parsed.Ignored? ==> list.Contents() == before)
                  && (parsed.Entry? ==>
                        && !Mentions(before, parsed.expectation.queryIndex)
                        && list.Contents() == before + [parsed.expectation]))
            && (status == Rejected ==>
                   parsed.Invalid? || (parsed.Entry? && Mentions(before, parsed.expectation.queryIndex)))
            && (status == NoMemory ==>
                  || list.largestBlock < EXPECTATION_SIZE * (EXPECTATION_CAPACITY + 2 * |before|)
                  || list.largestBlock <= |line|)
  {
    if line == "" || line[0] == '#' {
      return Success;
    }
    var split := SplitAtTabs(line, FIELD_CUTS);
    if split.Nothing? {
      return Rejected;
    }
    var f := split.value;
    var index := QueryIndexOf(f[0]);
    if index.Nothing? {
      return Rejected;
    }
    if f[1] !in names.statuses || f[2] !in names.tokens || f[3] == "" {
      return Rejected;
    }
    var duplicate := FindExpectation(list.items[..list.count], index.value);
    if duplicate.Just? {
      return Rejected;
    }
    FieldsFit(line, FIELD_CUTS);
    if !CopyFits(f[1], list.largestBlock) || !CopyFits(f[2], list.largestBlock) || !CopyFits(f[3], list.largestBlock) {
      return NoMemory;
    }
    var ok := list.Append(Expectation(index.value, f[1], f[2], f[3]));
    return if ok then Success else NoMemory;
  }

  lemma {:induction false} LinesAt(data: string, k: nat, end: nat, next: nat)
    requires k < |data| && end == k + LineLength(data[k..]) && next == k + LineEnd(data[k..])
    ensures Lines(data[k..]) == [data[k..end]] + Lines(data[next..])
  {
    var s := data[k..];
    RestSlices(data, k, end);
    RestSlices(data, k, next);
    assert Lines(s) == [s[..end - k]] + Lines(s[next - k..]);
  }

  ghost function LoadAt(names: Names, data: string, k: nat, es: seq<Expectation>): Option<seq<Expectation>>
    requires k <= |data|
  {
    Load(names, Lines(data[k..]), es)
  }

  /** One line of the file is one step of loading it. */
  lemma {:induction false} LoadLine(names: Names, data: string, k: nat, end: nat, next: nat, es: seq<Expectation>)
    requires k < |data| && end == k + LineLength(data[k..]) && next == k + LineEnd(data[k..])
    ensures LoadAt(names, data, k, es) ==
            match ParseLine(names, data[k..end])
            case Ignored => LoadAt(names, data, next, es)
            case Invalid => Nothing
            case Entry(e) => if Mentions(es, e.queryIndex) then Nothing else LoadAt(names, data, next, es + [e])
  {
    LinesAt(data, k, end, next);
    var rest := Lines(data[next..]);
    assert ([data[k..end]] + rest)[1..] == rest;
  }

  /** Advances over one line and its break. */
  method ScanLine(data: string, start: nat) returns (end: nat, next: nat)
    requires start < |data|
    ensures start <= end <= next <= |data| && start < next
    ensures end == start + LineLength(data[start..]) && next == start + LineEnd(data[start..])
  {
    end := start;
    while end < |data| && data[end] != '\r' && data[end] != '\n'
      invariant start <= end <= |data|
      invariant LineLength(data[start..]) == end - start + LineLength(data[end..])
    {
      assert data[end..][0] == data[end] && data[end..][1..] == data[end + 1..];
      end := end + 1;
    }
    assert end < |data| ==> data[end..][0] == data[end];
    next := end;
    if next < |data| && data[next] == '\r' {
      next := next + 1;
    }
    if next < |data| && data[next] == '\n' {
      next := next + 1;
    }
    assert end + 1 < |data| ==> data[end..][1] == data[end + 1];
    RestSlices(data, start, end);
  }

  /** Reads a whole file behind the expectations the list already holds. A file that is not accepted
      leaves the list empty. */
  method ParseExpectedParseFailures(names: Names, data: string, list: GrowingBuffer<Expectation>)
    returns (status: Status)
    requires ListValid(list)
    modifies list, list.items
    ensures ListValid(list)
    ensures status == Success ==> Load(names, Lines(data), old(list.Contents())) == Just(list.Contents())
    ensures status == Rejected ==> Load(names, Lines(data), old(list.Contents())).Nothing?
    ensures status != Success ==> list.Contents() == []
    ensures status == NoMemory ==>
              list.largestBlock < EXPECTATION_SIZE * (EXPECTATION_CAPACITY + 2 * (|old(list.Contents())| + |data|))
  {
    var cursor := 0;
    ghost var before := list.Contents();
    ghost var es := before;
    assert data[0..] == data;
    while cursor < |data|
      invariant cursor <= |data|
      invariant ListValid(list) && (list.items == old(list.items) || fresh(list.items))
      invariant list.Contents() == es && |es| <= |before| + cursor
      invariant Load(names, Lines(data), before) == LoadAt(names, data, cursor, es)
    {
      var end, next := ScanLine(data, cursor);
      LoadLine(names, data, cursor, end, next, es);
      status := ParseExpectedFailureLine(names, data[cursor..end], list);
      if status != Success {
        list.Deinit();
        return;
      }
      cursor := next;
      es := list.Contents();
    }
    return Success;
  }
}
