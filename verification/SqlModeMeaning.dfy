/** What each kind of SET does to the mode recorded for the next query, bit by bit. */
module SqlModeMeaning {
  import opened CStrings
  import opened SqlModeText
  import opened SqlModeList
  import opened SqlModeScanner
  import opened SqlModeLiteral
  import opened SqlModeTable
  import opened SqlModeReplay
  import opened SqlModeRun
  import opened SqlModeIdioms
  import opened SqlModeSpelling

  // ----- values

  /** Some word of the text is a mode name that sets the bit. */
  ghost predicate Names(ds: seq<Descriptor>, span: string, b: nat) {
    exists i :: 0 <= i < |Runs(span)| && b in ModesOrNone(ds, Runs(span)[i])
  }

  /** Some word of the text is a mode name. */
  ghost predicate NamesAny(ds: seq<Descriptor>, span: string) {
    exists i :: 0 <= i < |Runs(span)| && Lookup(ds, Runs(span)[i]).Just?
  }

  /** list_add turns the named bits on and keeps the others; list_drop, without it, turns them off and
      keeps the others; without either, or without a mode name, there is no change. */
  lemma {:induction false} ListChangeBits(ds: seq<Descriptor>, modes: Modes, span: string, b: nat)
    ensures ListChange(ds, modes, span).Just? <==>
              NamesAny(ds, span) && (ContainsToken(span, "list_add") || ContainsToken(span, "list_drop"))
    ensures NamesAny(ds, span) && ContainsToken(span, "list_add") ==>
              (b in ListChange(ds, modes, span).value <==> b in modes || Names(ds, span, b))
    ensures NamesAny(ds, span) && !ContainsToken(span, "list_add") && ContainsToken(span, "list_drop") ==>
              (b in ListChange(ds, modes, span).value <==> b in modes && !Names(ds, span, b))
  {
    BitInModes(ds, Runs(span), b);
  }

  /** A call over sql_mode: list_add and list_drop as above, concat adds like list_add. */
  lemma {:induction false} FunctionalBits(ds: seq<Descriptor>, c: Context, span: string, b: nat)
    requires ContainsToken(span, "sql_mode") && NamesAny(ds, span)
    ensures ContainsToken(span, "list_add") ==>
              && FunctionalValue(ds, c, span).Just?
              && (b in FunctionalValue(ds, c, span).value <==> b in c.modes || Names(ds, span, b))
    ensures !ContainsToken(span, "list_add") && ContainsToken(span, "list_drop") ==>
              && FunctionalValue(ds, c, span).Just?
              && (b in FunctionalValue(ds, c, span).value <==> b in c.modes && !Names(ds, span, b))
    ensures !ContainsToken(span, "list_add") && !ContainsToken(span, "list_drop") && ContainsToken(span, "concat") ==>
              && FunctionalValue(ds, c, span).Just?
              && (b in FunctionalValue(ds, c, span).value <==> b in c.modes || Names(ds, span, b))
  {
    ListChangeBits(ds, c.modes, span, b);
    BitInModes(ds, Runs(span), b);
  }

  /** Outside such calls, and without a mode name, sql_mode in a value means nothing special. */
  lemma NotFunctional(ds: seq<Descriptor>, c: Context, span: string)
    requires || !ContainsToken(span, "sql_mode") || !NamesAny(ds, span)
             || !(ContainsToken(span, "list_add") || ContainsToken(span, "list_drop") || ContainsToken(span, "concat"))
    ensures FunctionalValue(ds, c, span).Nothing?
  {
  }

  // ----- one query

  /** The query is SET sql_mode = v, read under mode m. */
  predicate SetsMode(parse: Parser, sql: string, m: Modes, v: Node) {
    && OnlyAssignment(parse(sql, m)).Just?
    && AssignsMode(OnlyAssignment(parse(sql, m)).value, v)
  }

  predicate AssignsMode(n: Node, v: Node) {
    && n.kind == SetAssignment && |n.children| >= 2 && n.children[1] == v
    && n.children[0].kind == SetSystemVariableTarget
    && ContainsToken(n.children[0].span, "sql_mode") && !OtherScope(n.children[0].span)
  }

  /** The text names a scope other than the session. */
  predicate OtherScope(span: string) {
    ContainsToken(span, "global") || ContainsToken(span, "persist") || ContainsToken(span, "persist_only")
  }

  lemma {:induction false} AssignmentSets(ds: seq<Descriptor>, c: Context, n: Node, v: Node)
    requires AssignsMode(n, v)
    ensures ApplyAssignment(ds, c, n) ==
            match Evaluate(ds, c, Just(v))
            case Just(x) => Effect(c.(modes := x), true)
            case Nothing => Effect(c, false)
  {
    assert Child(n, 1) == Just(v);
  }

  lemma {:induction false} QuerySets(parse: Parser, ds: seq<Descriptor>, c: Context, sql: string, v: Node)
    requires SetsMode(parse, sql, c.modes, v) && Evaluate(ds, c, Just(v)).Just?
    ensures ApplyQuery(parse, ds, c, sql) == Just(c.(modes := Evaluate(ds, c, Just(v)).value))
  {
    OnlyAssignmentApplies(parse, ds, c, sql, c.modes, true);
    AssignmentSets(ds, c, OnlyAssignment(parse(sql, c.modes)).value, v);
  }

  /** A query that does not parse under the mode in force is read again under no mode, if it starts with
      SET and there is a mode in force; its value is then the second reading's. */
  lemma {:induction false} QuerySetsOnRetry(parse: Parser, ds: seq<Descriptor>, c: Context, sql: string, v: Node)
    requires parse(sql, c.modes).Unparsable? && c.modes != {} && StartsWithKeyword(sql, "set")
    requires SetsMode(parse, sql, {}, v) && Evaluate(ds, c, Just(v)).Just?
    ensures ApplyQuery(parse, ds, c, sql) == Just(c.(modes := Evaluate(ds, c, Just(v)).value))
  {
    OnlyAssignmentApplies(parse, ds, c, sql, {}, false);
    AssignmentSets(ds, c, OnlyAssignment(parse(sql, {})).value, v);
  }

  /** Otherwise a query that does not parse leaves everything as it is. */
  lemma {:induction false} UnparsableIgnored(parse: Parser, ds: seq<Descriptor>, c: Context, sql: string)
    requires parse(sql, c.modes).Unparsable?
    requires c.modes == {} || !StartsWithKeyword(sql, "set") || parse(sql, {}).Unparsable?
    ensures ApplyQuery(parse, ds, c, sql) == Just(c)
  {
  }

  // ----- recorded modes

  /** What a SET leaves behind in a log: its value, and nothing else changes. */
  lemma {:induction false} SetIsRecorded(parse: Parser, ds: seq<Descriptor>, log: seq<string>, i: nat, v: Node)
    requires i < |log| && AfterFirst(parse, ds, log, i).Just?
    requires var c := AfterFirst(parse, ds, log, i).value;
             && Evaluate(ds, c, Just(v)).Just?
             && (SetsMode(parse, log[i], c.modes, v) ||
                 (parse(log[i], c.modes).Unparsable? && c.modes != {} && StartsWithKeyword(log[i], "set") &&
                  SetsMode(parse, log[i], {}, v)))
    ensures var c := AfterFirst(parse, ds, log, i).value;
            AfterFirst(parse, ds, log, i + 1) == Just(c.(modes := Evaluate(ds, c, Just(v)).value))
  {
    var c := AfterFirst(parse, ds, log, i).value;
    AfterOneMore(parse, ds, log, i);
    if SetsMode(parse, log[i], c.modes, v) {
      QuerySets(parse, ds, c, log[i], v);
    } else {
      QuerySetsOnRetry(parse, ds, c, log[i], v);
    }
  }

  /** The mode recorded for query i of a log. */
  ghost function ModeAt(parse: Parser, ds: seq<Descriptor>, log: seq<string>, i: nat): Modes
    requires i <= |log| && AfterFirst(parse, ds, log, i).Just?
  {
    AfterFirst(parse, ds, log, i).value.modes
  }

  /** SET sql_mode = DEFAULT: the next query is recorded with no mode. */
  lemma {:induction false} DefaultClears(parse: Parser, ds: seq<Descriptor>, log: seq<string>, i: nat, v: Node)
    requires i < |log| && AfterFirst(parse, ds, log, i).Just? && v.kind == SetDefaultValue
    requires SetsMode(parse, log[i], ModeAt(parse, ds, log, i), v)
    ensures AfterFirst(parse, ds, log, i + 1).Just? && ModeAt(parse, ds, log, i + 1) == {}
  {
    SetIsRecorded(parse, ds, log, i, v);
  }

  /** SET sql_mode = list_add(@@sql_mode, ...), list_drop(...) or concat(...): which bits the next query is
      recorded with. */
  lemma {:induction false} FunctionalIsRecorded(parse: Parser, ds: seq<Descriptor>, log: seq<string>, i: nat,
                                                v: Node, b: nat)
    requires i < |log| && AfterFirst(parse, ds, log, i).Just? && v.kind == OtherKind
    requires SetsMode(parse, log[i], ModeAt(parse, ds, log, i), v)
    requires ContainsToken(v.span, "sql_mode") && NamesAny(ds, v.span)
    requires ContainsToken(v.span, "list_add") || ContainsToken(v.span, "list_drop") || ContainsToken(v.span, "concat")
    ensures AfterFirst(parse, ds, log, i + 1).Just?
    ensures var before, after := ModeAt(parse, ds, log, i), ModeAt(parse, ds, log, i + 1);
            if !ContainsToken(v.span, "list_add") && ContainsToken(v.span, "list_drop")
            then b in after <==> b in before && !Names(ds, v.span, b)
            else b in after <==> b in before || Names(ds, v.span, b)
  {
    FunctionalBits(ds, AfterFirst(parse, ds, log, i).value, v.span, b);
    SetIsRecorded(parse, ds, log, i, v);
  }

  /** SET sql_mode = 'text': the next query is recorded with the modes of the text, quoted for the mode in
      force. */
  lemma {:induction false} LiteralIsRecorded(parse: Parser, ds: seq<Descriptor>, log: seq<string>, i: nat, v: Node,
                                             text: string, quote: char)
    requires i < |log| && AfterFirst(parse, ds, log, i).Just? && v.kind == OtherKind
    requires SetsMode(parse, log[i], ModeAt(parse, ds, log, i), v)
    requires IsQuote(quote) && |text| < 1024 && ValueModes(ds, text).Just?
    requires v.span == Literal(text, quote, 1 !in ModeAt(parse, ds, log, i)) && !ContainsToken(v.span, "sql_mode")
    ensures AfterFirst(parse, ds, log, i + 1).Just?
    ensures ModeAt(parse, ds, log, i + 1) == ValueModes(ds, text).value
  {
    LiteralValue(ds, AfterFirst(parse, ds, log, i).value, v, text, quote);
    SetIsRecorded(parse, ds, log, i, v);
  }

  lemma {:induction false} LiteralValue(ds: seq<Descriptor>, c: Context, v: Node, text: string, quote: char)
    requires v.kind == OtherKind && IsQuote(quote) && |text| < 1024
    requires v.span == Literal(text, quote, 1 !in c.modes) && !ContainsToken(v.span, "sql_mode")
    ensures Evaluate(ds, c, Just(v)) == ValueModes(ds, text)
  {
    assert NO_BACKSLASH_ESCAPES <= c.modes <==> 1 in c.modes;
    QuotedValueReadsBack(ds, text, quote, c.modes);
  }

  /** SET sql_mode = word: an unquoted value means its text too. */
  lemma {:induction false} BareIsRecorded(parse: Parser, ds: seq<Descriptor>, log: seq<string>, i: nat, v: Node)
    requires i < |log| && AfterFirst(parse, ds, log, i).Just? && v.kind == OtherKind
    requires SetsMode(parse, log[i], ModeAt(parse, ds, log, i), v)
    requires Bare(v.span) && |v.span| < 1024 && (v.span == "" || !IsQuote(v.span[0]))
    requires !ContainsToken(v.span, "sql_mode") && ValueModes(ds, v.span).Just?
    ensures AfterFirst(parse, ds, log, i + 1).Just?
    ensures ModeAt(parse, ds, log, i + 1) == ValueModes(ds, v.span).value
  {
    BareIsTrimmed(v.span);
    SetIsRecorded(parse, ds, log, i, v);
  }

  /** A value of 1024 characters or more is refused. */
  lemma LongValuesRefused(ds: seq<Descriptor>, text: string, quote: char, modes: Modes)
    requires IsQuote(quote) && |text| >= 1024
    ensures SpanValue(ds, Literal(text, quote, !(NO_BACKSLASH_ESCAPES <= modes)), modes).Nothing?
    ensures Bare(text) && !IsQuote(text[0]) ==> SpanValue(ds, text, modes).Nothing?
  {
    var plain := NO_BACKSLASH_ESCAPES <= modes;
    LiteralRoundTrip(text, quote, plain);
    QuotedIsTrimmed(Literal(text, quote, !plain));
    if Bare(text) {
      BareIsTrimmed(text);
    }
  }

  /** A query that is not exactly one statement changes nothing. */
  lemma {:induction false} ScriptsIgnored(parse: Parser, ds: seq<Descriptor>, log: seq<string>, i: nat)
    requires i < |log| && AfterFirst(parse, ds, log, i).Just?
    requires forall m :: parse(log[i], m).Parsed? &&
                         (parse(log[i], m).root.Just? ==> |parse(log[i], m).root.value.children| != 1)
    ensures AfterFirst(parse, ds, log, i + 1) == AfterFirst(parse, ds, log, i)
  {
    AfterOneMore(parse, ds, log, i);
  }

  /** The assignment is to another variable of the system, or to another scope than the session. */
  predicate AssignsElsewhere(n: Node) {
    && n.kind == SetAssignment && |n.children| >= 2 && n.children[0].kind != UserVariable
    && (!ContainsToken(n.children[0].span, "sql_mode") || OtherScope(n.children[0].span))
  }

  lemma {:induction false} ElsewhereIgnored(ds: seq<Descriptor>, c: Context, n: Node)
    requires AssignsElsewhere(n)
    ensures ApplyAssignment(ds, c, n) == Effect(c, false)
  {
  }

  /** SET GLOBAL, PERSIST or PERSIST_ONLY, or of another variable of the system: the log goes on as if the
      query were not there. */
  lemma {:induction false} GlobalChangesNothing(parse: Parser, ds: seq<Descriptor>, log: seq<string>, i: nat)
    requires i < |log| && AfterFirst(parse, ds, log, i).Just?
    requires forall m :: OnlyAssignment(parse(log[i], m)).Just? &&
                         AssignsElsewhere(OnlyAssignment(parse(log[i], m)).value)
    ensures AfterFirst(parse, ds, log, i + 1) == AfterFirst(parse, ds, log, i)
  {
    var c := AfterFirst(parse, ds, log, i).value;
    AfterOneMore(parse, ds, log, i);
    OnlyAssignmentApplies(parse, ds, c, log[i], c.modes, true);
    ElsewhereIgnored(ds, c, OnlyAssignment(parse(log[i], c.modes)).value);
    OnlyAssignmentApplies(parse, ds, c, log[i], {}, false);
    ElsewhereIgnored(ds, c, OnlyAssignment(parse(log[i], {})).value);
  }

  /** The assignments of one SET take effect from left to right: a list is its first part and then its
      second. */
  lemma {:induction false} AssignmentsCompose(ds: seq<Descriptor>, c: Context, a: seq<Node>, b: seq<Node>)
    ensures var first := ApplyAssignments(ds, c, a);
            var second := ApplyAssignments(ds, first.context, b);
            ApplyAssignments(ds, c, a + b) == Effect(second.context, first.applied || second.applied)
    decreases |a|
  {
    if a == [] {
      assert a + b == b;
    } else {
      assert (a + b)[0] == a[0] && (a + b)[1..] == a[1..] + b;
      AssignmentsCompose(ds, ApplyAssignment(ds, c, a[0]).context, a[1..], b);
    }
  }

  // ----- placeholder statements

  /** The query is one statement the parser keeps whole, a SET of the session's sql_mode. */
  predicate KeptWhole(p: Parse, span: string) {
    && p.Parsed? && p.root.Just? && p.root.value.kind == Script && |p.root.value.children| == 1
    && p.root.value.children[0].kind != SetStatement && p.root.value.children[0].span == span
    && ContainsToken(span, "set") && ContainsToken(span, "sql_mode") && !OtherScope(span)
  }

  /** Such a statement with list_add or list_drop changes the mode like the function does. */
  lemma {:induction false} PlaceholderIsRecorded(parse: Parser, ds: seq<Descriptor>, log: seq<string>, i: nat,
                                                 span: string, b: nat)
    requires i < |log| && AfterFirst(parse, ds, log, i).Just? && NamesAny(ds, span)
    requires KeptWhole(parse(log[i], ModeAt(parse, ds, log, i)), span)
    requires ContainsToken(span, "list_add") || ContainsToken(span, "list_drop")
    ensures AfterFirst(parse, ds, log, i + 1).Just?
    ensures var before, after := ModeAt(parse, ds, log, i), ModeAt(parse, ds, log, i + 1);
            if ContainsToken(span, "list_add") then b in after <==> b in before || Names(ds, span, b)
            else b in after <==> b in before && !Names(ds, span, b)
  {
    ListChangeBits(ds, ModeAt(parse, ds, log, i), span, b);
    AfterOneMore(parse, ds, log, i);
  }
}
