/** Replaying a query log to find the SQL mode each query runs under. The SQL parser is a parameter:
    a function from text and mode to a syntax tree. */
module SqlModeReplay {
  import opened CStrings
  import opened SqlModeText
  import opened SqlModeList
  import opened SqlModeScanner
  import opened SqlModeLiteral
  import opened SqlModeTable

  const NAME_CAPACITY: nat := 64

  datatype Kind =
    | Script
    | SetStatement
    | SetAssignmentList
    | SetAssignment
    | UserVariable
    | SetDefaultValue
    | SystemVariable
    | SetSystemVariableTarget
    | OtherKind

  datatype Node = Node(kind: Kind, span: string, children: seq<Node>)

  /** What parsing gives: a tree, a query that does not parse, or a failure of the parser itself. */
  datatype Parse = Parsed(root: Option<Node>) | Unparsable | ParserFailed

  type Parser = (string, Modes) -> Parse

  function Child(n: Node, i: nat): Option<Node> {
    if i < |n.children| then Just(n.children[i]) else Nothing
  }

  // ----- token tests

  predicate TokenAt(text: string, token: string, i: nat)
    requires i + |token| <= |text|
  {
    && (i == 0 || !IsIdentifierByte(text[i - 1]))
    && (i + |token| == |text| || !IsIdentifierByte(text[i + |token|]))
    && TokenEquals(text[i..i + |token|], token)
  }

  predicate ContainsFrom(text: string, token: string, i: nat)
    decreases |text| - i
  {
    i + |token| <= |text| && (TokenAt(text, token, i) || ContainsFrom(text, token, i + 1))
  }

  predicate ContainsToken(text: string, token: string) {
    token != "" && ContainsFrom(text, token, 0)
  }

  /** The token occurs in the text as a whole word, whatever its case. */
  lemma {:induction false} ContainsExactly(text: string, token: string, from: nat)
    ensures ContainsFrom(text, token, from) <==> exists i :: from <= i <= |text| - |token| && TokenAt(text, token, i)
    decreases |text| - from
  {
    if from + |token| <= |text| && !TokenAt(text, token, from) {
      ContainsExactly(text, token, from + 1);
    }
  }

  method TextContainsToken(text: string, token: string) returns (r: bool)
    ensures r == ContainsToken(text, token)
  {
    if |token| == 0 || |token| > |text| {
      return false;
    }
    var index := 0;
    while index + |token| <= |text|
      invariant 0 <= index <= |text| - |token| + 1
      invariant ContainsFrom(text, token, 0) == ContainsFrom(text, token, index)
    {
      if TokenAt(text, token, index) {
        return true;
      }
      index := index + 1;
    }
    return false;
  }

  predicate StartsWithKeyword(text: string, keyword: string) {
    var t := TrimLeft(text);
    keyword != "" && |keyword| <= |t| && TokenEquals(t[..|keyword|], keyword) &&
    (|t| == |keyword| || !IsIdentifierByte(t[|keyword|]))
  }

  predicate IsGlobalTarget(span: string) {
    ContainsToken(span, "global") || ContainsToken(span, "persist") || ContainsToken(span, "persist_only")
  }

  predicate IsSessionTarget(span: string) {
    ContainsToken(span, "sql_mode") && !IsGlobalTarget(span)
  }

  function StripAt(s: string): string {
    if s != "" && s[0] == '@' then StripAt(s[1..]) else s
  }

  /** The folded name of a user variable, as C string code keeps it. */
  function VariableName(n: Node): Option<string> {
    var s := StripAt(n.span);
    if n.kind != UserVariable || s == "" || |s| >= NAME_CAPACITY then Nothing else Just(UpToNul(LowerAll(s)))
  }

  // ----- values

  datatype Context = Context(modes: Modes, table: seq<Variable>, saves: seq<Variable>)

  /** The literal or bare text of a value, when it fits the value buffer. */
  function UnquotedText(span: string, modes: Modes): Option<string> {
    var t := Trim(span);
    if |t| >= 2 && IsQuote(t[0]) then
      var decoded := DecodeLiteral(t, NO_BACKSLASH_ESCAPES <= modes);
      if decoded.Just? && |decoded.value| < VALUE_CAPACITY then decoded else Nothing
    else if |t| + 1 > VALUE_CAPACITY then Nothing
    else Just(t)
  }

  function SpanValue(ds: seq<Descriptor>, span: string, modes: Modes): Option<Modes> {
    var text := UnquotedText(span, modes);
    if text.Nothing? then Nothing else ValueModes(ds, text.value)
  }

  /** What a list_add or list_drop call over the modes a text names makes of the current ones. */
  function ListChange(ds: seq<Descriptor>, modes: Modes, span: string): Option<Modes> {
    if !SomeKnown(ds, Runs(span)) then Nothing
    else if ContainsToken(span, "list_add") then Just(modes + ModesOf(ds, Runs(span)))
    else if ContainsToken(span, "list_drop") then Just(modes - ModesOf(ds, Runs(span)))
    else Nothing
  }

  /** list_add, list_drop and concat calls over sql_mode. */
  function FunctionalValue(ds: seq<Descriptor>, c: Context, span: string): Option<Modes> {
    if !ContainsToken(span, "sql_mode") then Nothing
    else if ListChange(ds, c.modes, span).Just? then ListChange(ds, c.modes, span)
    else if ContainsToken(span, "concat") && SomeKnown(ds, Runs(span)) then Just(c.modes + ModesOf(ds, Runs(span)))
    else Nothing
  }

  function Evaluate(ds: seq<Descriptor>, c: Context, value: Option<Node>): Option<Modes> {
    if value.Nothing? then Nothing
    else
      var n := value.value;
      if n.kind == SetDefaultValue then Just({})
      else if n.kind == SystemVariable && IsSessionTarget(n.span) then Just(c.modes)
      else if VariableName(n).Just? then Loaded(c.table, VariableName(n).value)
      else if FunctionalValue(ds, c, n.span).Just? then FunctionalValue(ds, c, n.span)
      else SpanValue(ds, n.span, c.modes)
  }

  // ----- statements

  datatype Effect = Effect(context: Context, applied: bool)

  function Save(c: Context, v: Variable): Context {
    c.(table := Saved(c.table, v), saves := c.saves + [v])
  }

  function ApplyAssignment(ds: seq<Descriptor>, c: Context, n: Node): Effect {
    var target := Child(n, 0);
    var value := Evaluate(ds, c, Child(n, 1));
    if n.kind != SetAssignment || target.Nothing? || value.Nothing? then Effect(c, false)
    else if VariableName(target.value).Just? then
      Effect(Save(c, Variable(VariableName(target.value).value, value.value)), true)
    else if target.value.kind == SetSystemVariableTarget && IsSessionTarget(target.value.span) then
      Effect(c.(modes := value.value), true)
    else Effect(c, false)
  }

  function ApplyAssignments(ds: seq<Descriptor>, c: Context, ns: seq<Node>): Effect
    decreases |ns|
  {
    if ns == [] then Effect(c, false)
    else
      var first := ApplyAssignment(ds, c, ns[0]);
      var rest := ApplyAssignments(ds, first.context, ns[1..]);
      Effect(rest.context, first.applied || rest.applied)
  }

  function ApplyPlaceholder(ds: seq<Descriptor>, c: Context, span: string): Effect {
    var change := ListChange(ds, c.modes, span);
    if !ContainsToken(span, "set") || !ContainsToken(span, "sql_mode") || IsGlobalTarget(span) || change.Nothing?
    then Effect(c, false)
    else Effect(c.(modes := change.value), true)
  }

  function ApplyParsed(ds: seq<Descriptor>, c: Context, root: Option<Node>, placeholders: bool): Effect {
    if root.Nothing? || root.value.kind != Script || |root.value.children| != 1 then Effect(c, false)
    else
      var statement := root.value.children[0];
      if statement.kind == SetStatement then
        var list := Child(statement, 0);
        if list.Nothing? || list.value.kind != SetAssignmentList then Effect(c, false)
        else ApplyAssignments(ds, c, list.value.children)
      else if placeholders then ApplyPlaceholder(ds, c, statement.span)
      else Effect(c, false)
  }

  /** One parse of a query and its effect; Nothing when the parser itself fails. */
  function Attempt(parse: Parser, ds: seq<Descriptor>, c: Context, sql: string, modes: Modes,
                   placeholders: bool): Option<Effect> {
    match parse(sql, modes)
    case ParserFailed => Nothing
    case Unparsable => Just(Effect(c, false))
    case Parsed(root) => Just(ApplyParsed(ds, c, root, placeholders))
  }

  /** A query is parsed under the current mode and, when it is a SET that had no effect under a mode
      other than none, once more under no mode. */
  function ApplyQuery(parse: Parser, ds: seq<Descriptor>, c: Context, sql: string): Option<Context> {
    var first := Attempt(parse, ds, c, sql, c.modes, true);
    if first.Nothing? then Nothing
    else
      var after := first.value.context;
      if first.value.applied || after.modes == {} || !StartsWithKeyword(sql, "set") then Just(after)
      else
        var second := Attempt(parse, ds, after, sql, {}, false);
        if second.Nothing? then Nothing else Just(second.value.context)
  }

  const EMPTY_CONTEXT := Context({}, [], [])

  /** The context behind a log, or Nothing once the parser has failed. */
  function After(parse: Parser, ds: seq<Descriptor>, log: seq<string>): Option<Context> {
    if log == [] then Just(EMPTY_CONTEXT)
    else
      var before := After(parse, ds, log[..|log| - 1]);
      if before.Nothing? then Nothing else ApplyQuery(parse, ds, before.value, log[|log| - 1])
  }

  // ----- what every step keeps

  /** All masks are lexer masks, and the table is the one the saves make. */
  ghost predicate Sound(c: Context) {
    && IsLexerMask(c.modes)
    && (forall i :: 0 <= i < |c.saves| ==> IsLexerMask(c.saves[i].modes))
    && (forall i :: 0 <= i < |c.table| ==> IsLexerMask(c.table[i].modes))
    && c.table == TableAfter(c.saves)
  }

  lemma {:induction false} FunctionalIsLexerMask(ds: seq<Descriptor>, c: Context, span: string)
    requires GoodTable(ds) && IsLexerMask(c.modes) && FunctionalValue(ds, c, span).Just?
    ensures IsLexerMask(FunctionalValue(ds, c, span).value)
  {
    ModesAreLexerBits(ds, Runs(span));
  }

  lemma {:induction false} SpanIsLexerMask(ds: seq<Descriptor>, span: string, modes: Modes)
    requires GoodTable(ds) && SpanValue(ds, span, modes).Just?
    ensures IsLexerMask(SpanValue(ds, span, modes).value)
  {
    ModesAreLexerBits(ds, Items(Trim(UnquotedText(span, modes).value)));
  }

  lemma {:induction false} ValueIsLexerMask(ds: seq<Descriptor>, c: Context, value: Option<Node>)
    requires GoodTable(ds) && Sound(c) && Evaluate(ds, c, value).Just?
    ensures IsLexerMask(Evaluate(ds, c, value).value)
  {
    var n := value.value;
    if FunctionalValue(ds, c, n.span).Just? {
      FunctionalIsLexerMask(ds, c, n.span);
    }
    if SpanValue(ds, n.span, c.modes).Just? {
      SpanIsLexerMask(ds, n.span, c.modes);
    }
  }

  lemma {:induction false} SaveIsSound(c: Context, v: Variable)
    requires Sound(c) && IsLexerMask(v.modes)
    ensures Sound(Save(c, v))
  {
    assert (c.saves + [v])[..|c.saves|] == c.saves;
  }

  lemma {:induction false} AssignmentIsSound(ds: seq<Descriptor>, c: Context, n: Node)
    requires GoodTable(ds) && Sound(c)
    ensures Sound(ApplyAssignment(ds, c, n).context)
  {
    var target := Child(n, 0);
    var value := Evaluate(ds, c, Child(n, 1));
    if value.Just? {
      ValueIsLexerMask(ds, c, Child(n, 1));
      if target.Just? && VariableName(target.value).Just? {
        SaveIsSound(c, Variable(VariableName(target.value).value, value.value));
      }
    }
  }

  lemma {:induction false} AssignmentsAreSound(ds: seq<Descriptor>, c: Context, ns: seq<Node>)
    requires GoodTable(ds) && Sound(c)
    ensures Sound(ApplyAssignments(ds, c, ns).context)
    decreases |ns|
  {
    if ns != [] {
      AssignmentIsSound(ds, c, ns[0]);
      AssignmentsAreSound(ds, ApplyAssignment(ds, c, ns[0]).context, ns[1..]);
    }
  }

  lemma {:induction false} ParsedIsSound(ds: seq<Descriptor>, c: Context, root: Option<Node>, placeholders: bool)
    requires GoodTable(ds) && Sound(c)
    ensures Sound(ApplyParsed(ds, c, root, placeholders).context)
  {
    if root.Just? && |root.value.children| == 1 {
      var statement := root.value.children[0];
      ModesAreLexerBits(ds, Runs(statement.span));
      if Child(statement, 0).Just? {
        AssignmentsAreSound(ds, c, Child(statement, 0).value.children);
      }
    }
  }

  lemma {:induction false} QueryIsSound(parse: Parser, ds: seq<Descriptor>, c: Context, sql: string)
    requires GoodTable(ds) && Sound(c) && ApplyQuery(parse, ds, c, sql).Just?
    ensures Sound(ApplyQuery(parse, ds, c, sql).value)
  {
    var first := parse(sql, c.modes);
    if first.Parsed? {
      ParsedIsSound(ds, c, first.root, true);
    }
    var after := Attempt(parse, ds, c, sql, c.modes, true).value.context;
    var second := parse(sql, {});
    if second.Parsed? {
      ParsedIsSound(ds, after, second.root, false);
    }
  }

  /** Behind every log, whatever the parser makes of it: all recorded and stored masks are within the
      four lexer bits, and a variable loads as its last saved value exactly when its name is among the
      first 32 saved. */
  lemma {:induction false} ReplayIsSound(parse: Parser, ds: seq<Descriptor>, log: seq<string>)
    requires GoodTable(ds) && After(parse, ds, log).Just?
    ensures Sound(After(parse, ds, log).value)
  {
    if log != [] {
      ReplayIsSound(parse, ds, log[..|log| - 1]);
      QueryIsSound(parse, ds, After(parse, ds, log[..|log| - 1]).value, log[|log| - 1]);
    }
  }

  lemma ReplayTable(parse: Parser, ds: seq<Descriptor>, log: seq<string>, name: string)
    requires GoodTable(ds) && After(parse, ds, log).Just?
    ensures var c := After(parse, ds, log).value;
            && |c.table| <= TABLE_CAPACITY
            && Loaded(c.table, name) ==
                   if name in FirstNames(c.saves)[..Kept(c.saves)] then LastWrite(c.saves, name) else Nothing
  {
    ReplayIsSound(parse, ds, log);
    LoadedExactly(After(parse, ds, log).value.saves, name);
  }
}
