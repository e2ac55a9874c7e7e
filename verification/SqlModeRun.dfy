/** The replay as it runs: one context object updated in place while the log is walked. */
module SqlModeRun {
  import opened CStrings
  import opened SqlModeText
  import opened SqlModeList
  import opened SqlModeScanner
  import opened SqlModeLiteral
  import opened SqlModeTable
  import opened SqlModeReplay

  class ModeContext {
    var modes: Modes
    const variables: array<Variable>
    var variableCount: nat
    ghost var saves: seq<Variable>

    ghost predicate Valid()
      reads this
    {
      variables.Length == TABLE_CAPACITY && variableCount <= TABLE_CAPACITY
    }

    ghost function View(): Context
      requires Valid()
      reads this, variables
    {
      Context(modes, variables[..variableCount], saves)
    }

    constructor ()
      ensures Valid() && fresh(variables) && View() == EMPTY_CONTEXT
    {
      modes := {};
      variables := new Variable[TABLE_CAPACITY](_ => Variable("", {}));
      variableCount := 0;
      saves := [];
    }

    method SaveUserVariable(name: string, value: Modes)
      requires Valid()
      modifies this, variables
      ensures Valid() && View() == Save(old(View()), Variable(name, value))
    {
      ghost var table := variables[..variableCount];
      saves := saves + [Variable(name, value)];
      var index := FindVariable(name);
      if index < variableCount {
        variables[index] := Variable(name, value);
        assert variables[..variableCount] == table[index := Variable(name, value)];
        return;
      }
      if variableCount >= TABLE_CAPACITY {
        return;
      }
      variables[variableCount] := Variable(name, value);
      variableCount := variableCount + 1;
      assert variables[..variableCount] == table + [Variable(name, value)];
    }

    method FindVariable(name: string) returns (index: nat)
      requires Valid()
      ensures index == IndexOf(variables[..variableCount], name)
    {
      index := 0;
      while index < variableCount && variables[index].name != name
        invariant index <= variableCount
        invariant forall i :: 0 <= i < index ==> variables[i].name != name
      {
        index := index + 1;
      }
    }

    method LoadUserVariable(name: string) returns (r: Option<Modes>)
      requires Valid()
      ensures r == Loaded(View().table, name)
    {
      var index := FindVariable(name);
      return if index < variableCount then Just(variables[index].modes) else Nothing;
    }

    /** Scans a text for mode names and for the calls that add or drop them. */
    method ReadListChange(ds: seq<Descriptor>, span: string) returns (change: Option<Modes>, tokens: Modes, found: bool)
      requires Valid()
      ensures change == ListChange(ds, modes, span)
      ensures tokens == ModesOf(ds, Runs(span)) && (found <==> SomeKnown(ds, Runs(span)))
    {
      tokens, found := CollectSqlModeTokens(ds, span);
      var adds := TextContainsToken(span, "list_add");
      var drops := TextContainsToken(span, "list_drop");
      change :=
        if !found then Nothing
        else if adds then Just(modes + tokens)
        else if drops then Just(modes - tokens)
        else Nothing;
    }

    method EvaluateSpan(ds: seq<Descriptor>, span: string) returns (r: Option<Modes>)
      requires Valid() && GoodTable(ds)
      ensures r == SpanValue(ds, span, modes)
    {
      var lo, hi := TrimSpan(span);
      var t := span[lo..hi];
      var text := t;
      if |t| >= 2 && IsQuote(t[0]) {
        var buffer := new char[VALUE_CAPACITY];
        var ok, length := DecodeQuotedSqlModeValue(t, NO_BACKSLASH_ESCAPES <= modes, buffer);
        if !ok {
          return Nothing;
        }
        text := buffer[..length];
      } else if |t| + 1 > VALUE_CAPACITY {
        return Nothing;
      }
      r := ParseSqlModeValueText(ds, text);
    }

    method EvaluateSqlModeValue(ds: seq<Descriptor>, value: Option<Node>) returns (r: Option<Modes>)
      requires Valid() && GoodTable(ds)
      ensures r == Evaluate(ds, View(), value)
    {
      if value.Nothing? {
        return Nothing;
      }
      var n := value.value;
      if n.kind == SetDefaultValue {
        return Just({});
      }
      if n.kind == SystemVariable && IsSessionTarget(n.span) {
        return Just(modes);
      }
      if VariableName(n).Just? {
        r := LoadUserVariable(VariableName(n).value);
        return;
      }
      var mentions := TextContainsToken(n.span, "sql_mode");
      if mentions {
        var change, tokens, found := ReadListChange(ds, n.span);
        var concats := TextContainsToken(n.span, "concat");
        if change.Just? {
          return change;
        }
        if concats && found {
          return Just(modes + tokens);
        }
      }
      r := EvaluateSpan(ds, n.span);
    }

    method ApplySetAssignment(ds: seq<Descriptor>, n: Node) returns (applied: bool)
      requires Valid() && GoodTable(ds)
      modifies this, variables
      ensures Valid() && Effect(View(), applied) == ApplyAssignment(ds, old(View()), n)
    {
      if n.kind != SetAssignment {
        return false;
      }
      var target := Child(n, 0);
      var value := EvaluateSqlModeValue(ds, Child(n, 1));
      if target.Nothing? || value.Nothing? {
        return false;
      }
      if VariableName(target.value).Just? {
        SaveUserVariable(VariableName(target.value).value, value.value);
        return true;
      }
      if target.value.kind != SetSystemVariableTarget || !IsSessionTarget(target.value.span) {
        return false;
      }
      modes := value.value;
      return true;
    }

    method ApplySetAssignments(ds: seq<Descriptor>, ns: seq<Node>) returns (applied: bool)
      requires Valid() && GoodTable(ds)
      modifies this, variables
      ensures Valid() && Effect(View(), applied) == ApplyAssignments(ds, old(View()), ns)
    {
      applied := false;
      ghost var goal := ApplyAssignments(ds, View(), ns);
      assert ns[0..] == ns;
      for i := 0 to |ns|
        invariant Valid()
        invariant goal == Joined(applied, ApplyAssignments(ds, View(), ns[i..]))
      {
        assert ns[i..][0] == ns[i] && ns[i..][1..] == ns[i + 1..];
        var one := ApplySetAssignment(ds, ns[i]);
        applied := one || applied;
      }
    }

    method ApplyParsedQuery(ds: seq<Descriptor>, root: Option<Node>, placeholders: bool) returns (applied: bool)
      requires Valid() && GoodTable(ds)
      modifies this, variables
      ensures Valid() && Effect(View(), applied) == ApplyParsed(ds, old(View()), root, placeholders)
    {
      if root.Nothing? || root.value.kind != Script || |root.value.children| != 1 {
        return false;
      }
      var statement := root.value.children[0];
      if statement.kind == SetStatement {
        var list := Child(statement, 0);
        if list.Nothing? || list.value.kind != SetAssignmentList {
          return false;
        }
        applied := ApplySetAssignments(ds, list.value.children);
      } else if placeholders {
        var sets := TextContainsToken(statement.span, "set");
        var mentions := TextContainsToken(statement.span, "sql_mode");
        var change, _, _ := ReadListChange(ds, statement.span);
        applied := sets && mentions && !IsGlobalTarget(statement.span) && change.Just?;
        if applied {
          modes := change.value;
        }
      } else {
        applied := false;
      }
    }

    /** One parse of the query; failed when the parser itself gives up. */
    method AttemptQuery(parse: Parser, ds: seq<Descriptor>, sql: string, under: Modes, placeholders: bool)
      returns (failed: bool, applied: bool)
      requires Valid() && GoodTable(ds)
      modifies this, variables
      ensures Valid()
      ensures failed <==> Attempt(parse, ds, old(View()), sql, under, placeholders).Nothing?
      ensures !failed ==> Just(Effect(View(), applied)) == Attempt(parse, ds, old(View()), sql, under, placeholders)
      ensures failed ==> View() == old(View())
    {
      applied := false;
      match parse(sql, under)
      case ParserFailed => failed := true;
      case Unparsable => failed := false;
      case Parsed(root) =>
        failed := false;
        applied := ApplyParsedQuery(ds, root, placeholders);
    }

    method ApplyQueryEffect(parse: Parser, ds: seq<Descriptor>, sql: string) returns (ok: bool)
      requires Valid() && GoodTable(ds)
      modifies this, variables
      ensures Valid()
      ensures ok <==> ApplyQuery(parse, ds, old(View()), sql).Just?
      ensures ok ==> Just(View()) == ApplyQuery(parse, ds, old(View()), sql)
    {
      var failed, applied := AttemptQuery(parse, ds, sql, modes, true);
      if failed {
        return false;
      }
      if applied || modes == {} || !StartsWithKeyword(sql, "set") {
        return true;
      }
      failed, applied := AttemptQuery(parse, ds, sql, {}, false);
      return !failed;
    }
  }

  ghost function Joined(applied: bool, e: Effect): Effect {
    Effect(e.context, applied || e.applied)
  }

  datatype Query = Query(sql: string, modes: Modes)

  ghost function LogOf(queries: seq<Query>): (log: seq<string>)
    ensures |log| == |queries| && forall i :: 0 <= i < |queries| ==> log[i] == queries[i].sql
  {
    if queries == [] then [] else [queries[0].sql] + LogOf(queries[1..])
  }

  ghost function AfterFirst(parse: Parser, ds: seq<Descriptor>, log: seq<string>, i: nat): Option<Context>
    requires i <= |log|
  {
    After(parse, ds, log[..i])
  }

  lemma {:induction false} AfterOneMore(parse: Parser, ds: seq<Descriptor>, log: seq<string>, i: nat)
    requires i < |log|
    ensures AfterFirst(parse, ds, log, i).Nothing? ==> AfterFirst(parse, ds, log, i + 1).Nothing?
    ensures AfterFirst(parse, ds, log, i).Just? ==>
              AfterFirst(parse, ds, log, i + 1) == ApplyQuery(parse, ds, AfterFirst(parse, ds, log, i).value, log[i])
  {
    assert log[..i + 1][..i] == log[..i];
  }

  lemma {:induction false} NeverRecovers(parse: Parser, ds: seq<Descriptor>, log: seq<string>, i: nat, k: nat)
    requires i <= k <= |log| && AfterFirst(parse, ds, log, i).Nothing?
    ensures AfterFirst(parse, ds, log, k).Nothing?
  {
    if i < k {
      NeverRecovers(parse, ds, log, i, k - 1);
      AfterOneMore(parse, ds, log, k - 1);
    }
  }

  /** The mode query i is assigned: the one behind the queries before it, or whatever it had when the
      parser failed before it was reached. */
  ghost function AssignedMode(parse: Parser, ds: seq<Descriptor>, log: seq<string>, i: nat, before: Modes): Modes
    requires i <= |log|
  {
    match AfterFirst(parse, ds, log, i)
    case Just(c) => c.modes
    case Nothing => before
  }

  /** The queries before i have their modes, the others are as they were. */
  ghost predicate Assigned(parse: Parser, ds: seq<Descriptor>, before: seq<Query>, now: seq<Query>, i: nat) {
    && |now| == |before| == |LogOf(before)|
    && (forall k :: 0 <= k < |now| && k < i ==>
          now[k] == Query(before[k].sql, AssignedMode(parse, ds, LogOf(before), k, before[k].modes)))
    && (forall k :: i <= k < |now| ==> now[k] == before[k])
  }

  lemma {:induction false} AssignOne(parse: Parser, ds: seq<Descriptor>, before: seq<Query>, now: seq<Query>,
                                     i: nat, c: Context)
    requires Assigned(parse, ds, before, now, i) && i < |now| && AfterFirst(parse, ds, LogOf(before), i) == Just(c)
    ensures Assigned(parse, ds, before, now[i := Query(before[i].sql, c.modes)], i + 1)
  {
  }

  /** Once the parser has failed, what stands there is already the final assignment. */
  lemma {:induction false} RestUnassigned(parse: Parser, ds: seq<Descriptor>, before: seq<Query>, now: seq<Query>,
                                          i: nat)
    requires Assigned(parse, ds, before, now, i) && i <= |now| && AfterFirst(parse, ds, LogOf(before), i).Nothing?
    ensures Assigned(parse, ds, before, now, |now|)
  {
    forall k | i <= k < |now|
      ensures now[k] == Query(before[k].sql, AssignedMode(parse, ds, LogOf(before), k, before[k].modes))
    {
      NeverRecovers(parse, ds, LogOf(before), i, k);
    }
  }

  ghost predicate Reached(parse: Parser, ds: seq<Descriptor>, before: seq<Query>, i: nat, c: Context) {
    i <= |before| && AfterFirst(parse, ds, LogOf(before), i) == Just(c)
  }

  /** The parser fails on some query of the log. */
  ghost predicate Failed(parse: Parser, ds: seq<Descriptor>, before: seq<Query>) {
    AfterFirst(parse, ds, LogOf(before), |before|).Nothing?
  }

  /** Records the present mode for query i and applies the query. */
  method AssignNext(parse: Parser, ds: seq<Descriptor>, context: ModeContext, queries: array<Query>, i: nat,
                    ghost before: seq<Query>)
    returns (ok: bool)
    requires GoodTable(ds) && context.Valid() && i < queries.Length
    requires Assigned(parse, ds, before, queries[..], i)
    requires Reached(parse, ds, before, i, context.View())
    modifies context, context.variables, queries
    ensures context.Valid()
    ensures ok ==> Reached(parse, ds, before, i + 1, context.View()) && Assigned(parse, ds, before, queries[..], i + 1)
    ensures !ok ==> Failed(parse, ds, before) && Assigned(parse, ds, before, queries[..], queries.Length)
  {
    AssignOne(parse, ds, before, queries[..], i, context.View());
    AfterOneMore(parse, ds, LogOf(before), i);
    ghost var now := queries[..];
    var sql := queries[i].sql;
    queries[i] := Query(sql, context.modes);
    assert queries[..] == now[i := Query(sql, context.modes)];
    ok := context.ApplyQueryEffect(parse, ds, sql);
    if !ok {
      RestUnassigned(parse, ds, before, queries[..], i + 1);
      NeverRecovers(parse, ds, LogOf(before), i + 1, |before|);
    }
  }

  lemma {:induction false} NothingAssigned(parse: Parser, ds: seq<Descriptor>, before: seq<Query>)
    ensures Reached(parse, ds, before, 0, EMPTY_CONTEXT) && Assigned(parse, ds, before, before, 0)
  {
    assert LogOf(before)[..0] == [];
  }

  /** Assigns every query the mode that the queries before it, and nothing else, leave behind. If the
      parser fails on some query, that query and those before it still have their modes and the rest
      are untouched. */
  method AssignSqlModes(parse: Parser, ds: seq<Descriptor>, queries: array<Query>) returns (rc: nat)
    requires GoodTable(ds)
    modifies queries
    ensures Assigned(parse, ds, old(queries[..]), queries[..], queries.Length)
    ensures rc == 0 <==> !Failed(parse, ds, old(queries[..]))
  {
    var context := new ModeContext();
    ghost var before := queries[..];
    NothingAssigned(parse, ds, before);
    for i := 0 to queries.Length
      invariant context.Valid() && fresh(context) && fresh(context.variables)
      invariant Reached(parse, ds, before, i, context.View())
      invariant Assigned(parse, ds, before, queries[..], i)
    {
      var ok := AssignNext(parse, ds, context, queries, i, before);
      if !ok {
        return 1;
      }
    }
    return 0;
  }

  /** With the server's mode names, whatever the parser makes of the log: every mode recorded is within
      the four lexer bits, and when the parser never fails every query has one. */
  lemma {:induction false} RecordedModesAreLexerMasks(parse: Parser, before: seq<Query>, now: seq<Query>)
    requires Assigned(parse, DESCRIPTORS, before, now, |now|)
    ensures forall i :: 0 <= i < |now| ==> IsLexerMask(now[i].modes) || now[i] == before[i]
    ensures !Failed(parse, DESCRIPTORS, before) ==> forall i :: 0 <= i < |now| ==> IsLexerMask(now[i].modes)
  {
    DescriptorsAreGood();
    AllRecorded(parse, DESCRIPTORS, before, now);
  }

  lemma {:induction false} AllRecorded(parse: Parser, ds: seq<Descriptor>, before: seq<Query>, now: seq<Query>)
    requires GoodTable(ds) && Assigned(parse, ds, before, now, |now|)
    ensures forall i :: 0 <= i < |now| ==> IsLexerMask(now[i].modes) || now[i] == before[i]
    ensures !Failed(parse, ds, before) ==> forall i :: 0 <= i < |now| ==> IsLexerMask(now[i].modes)
  {
    var log := LogOf(before);
    forall i | 0 <= i < |now|
      ensures IsLexerMask(now[i].modes) || now[i] == before[i]
      ensures !Failed(parse, ds, before) ==> IsLexerMask(now[i].modes)
    {
      if AfterFirst(parse, ds, log, i).Just? {
        ReplayIsSound(parse, ds, log[..i]);
      } else {
        NeverRecovers(parse, ds, log, i, |log|);
      }
    }
  }
}
