/** What the replay promises to logs that set, save and restore the mode. */
module SqlModeIdioms {
  import opened CStrings
  import opened SqlModeText
  import opened SqlModeList
  import opened SqlModeLiteral
  import opened SqlModeTable
  import opened SqlModeReplay
  import opened SqlModeRun

  // ----- quoted values

  lemma {:induction false} QuotedIsTrimmed(t: string)
    requires |t| >= 2 && !IsBlank(t[0]) && !IsBlank(t[|t| - 1])
    ensures Trim(t) == t
  {
  }

  /** A value quoted for the mode in force means what its text means, accepted or not, for both quote
      characters and every text that fits the value buffer. */
  lemma QuotedValueReadsBack(ds: seq<Descriptor>, text: string, quote: char, modes: Modes)
    requires IsQuote(quote) && |text| < VALUE_CAPACITY
    ensures SpanValue(ds, Literal(text, quote, !(NO_BACKSLASH_ESCAPES <= modes)), modes) == ValueModes(ds, text)
  {
    var plain := NO_BACKSLASH_ESCAPES <= modes;
    var literal := Literal(text, quote, !plain);
    LiteralRoundTrip(text, quote, plain);
    QuotedIsTrimmed(literal);
  }

  // ----- saving and restoring the mode

  /** SET @x = @@sql_mode */
  predicate IsSave(n: Node, x: string) {
    && n.kind == SetAssignment && |n.children| >= 2
    && VariableName(n.children[0]) == Just(x)
    && n.children[1].kind == SystemVariable && IsSessionTarget(n.children[1].span)
  }

  /** SET sql_mode = @x */
  predicate IsRestore(n: Node, x: string) {
    && n.kind == SetAssignment && |n.children| >= 2
    && n.children[0].kind == SetSystemVariableTarget && IsSessionTarget(n.children[0].span)
    && VariableName(n.children[1]) == Just(x)
  }

  predicate AssignmentAvoids(n: Node, x: string) {
    Child(n, 0).Just? ==> VariableName(Child(n, 0).value) != Just(x)
  }

  /** No assignment of the parsed query writes variable x. */
  predicate TreeAvoids(root: Node, x: string) {
    forall i, j :: 0 <= i < |root.children| && 0 <= j < |root.children[i].children| ==>
      var list := root.children[i].children[j];
      forall k :: 0 <= k < |list.children| ==> AssignmentAvoids(list.children[k], x)
  }

  ghost predicate QueryAvoids(parse: Parser, sql: string, x: string) {
    forall m :: parse(sql, m).Parsed? && parse(sql, m).root.Just? ==> TreeAvoids(parse(sql, m).root.value, x)
  }

  /** The table has an entry for x, or room for one. */
  predicate Holdable(table: seq<Variable>, x: string) {
    IndexOf(table, x) < |table| || |table| < TABLE_CAPACITY
  }

  lemma {:induction false} SavedLoads(table: seq<Variable>, v: Variable)
    requires |table| <= TABLE_CAPACITY
    ensures Loaded(Saved(table, v), v.name) == if Holdable(table, v.name) then Just(v.modes) else Nothing
  {
    if Holdable(table, v.name) {
      assert Saved(table, v)[IndexOf(table, v.name)] == v;
    }
  }

  lemma {:induction false} SavedKeepsOthers(table: seq<Variable>, v: Variable, x: string)
    requires v.name != x
    ensures Loaded(Saved(table, v), x) == Loaded(table, x)
  {
    var i, j := IndexOf(table, x), IndexOf(Saved(table, v), x);
    if i < |table| {
      assert Saved(table, v)[i].name == x;
    }
  }

  lemma {:induction false} AssignmentKeepsVariable(ds: seq<Descriptor>, c: Context, n: Node, x: string)
    requires AssignmentAvoids(n, x)
    ensures Loaded(ApplyAssignment(ds, c, n).context.table, x) == Loaded(c.table, x)
  {
    var target, value := Child(n, 0), Evaluate(ds, c, Child(n, 1));
    if target.Just? && value.Just? && VariableName(target.value).Just? {
      SavedKeepsOthers(c.table, Variable(VariableName(target.value).value, value.value), x);
    }
  }

  lemma {:induction false} AssignmentsKeepVariable(ds: seq<Descriptor>, c: Context, ns: seq<Node>, x: string)
    requires forall k :: 0 <= k < |ns| ==> AssignmentAvoids(ns[k], x)
    ensures Loaded(ApplyAssignments(ds, c, ns).context.table, x) == Loaded(c.table, x)
    decreases |ns|
  {
    if ns != [] {
      AssignmentKeepsVariable(ds, c, ns[0], x);
      AssignmentsKeepVariable(ds, ApplyAssignment(ds, c, ns[0]).context, ns[1..], x);
    }
  }

  lemma {:induction false} TreeKeepsVariable(ds: seq<Descriptor>, c: Context, root: Option<Node>,
                                             placeholders: bool, x: string)
    requires root.Just? ==> TreeAvoids(root.value, x)
    ensures Loaded(ApplyParsed(ds, c, root, placeholders).context.table, x) == Loaded(c.table, x)
  {
    if root.Just? && |root.value.children| == 1 && Child(root.value.children[0], 0).Just? {
      var list := root.value.children[0].children[0];
      AssignmentsKeepVariable(ds, c, list.children, x);
    }
  }

  lemma {:induction false} AttemptKeepsVariable(parse: Parser, ds: seq<Descriptor>, c: Context, sql: string,
                                                modes: Modes, placeholders: bool, x: string)
    requires QueryAvoids(parse, sql, x) && Attempt(parse, ds, c, sql, modes, placeholders).Just?
    ensures Loaded(Attempt(parse, ds, c, sql, modes, placeholders).value.context.table, x) == Loaded(c.table, x)
  {
    var parsed := parse(sql, modes);
    if parsed.Parsed? {
      TreeKeepsVariable(ds, c, parsed.root, placeholders, x);
    }
  }

  lemma {:induction false} QueryKeepsVariable(parse: Parser, ds: seq<Descriptor>, c: Context, sql: string, x: string)
    requires QueryAvoids(parse, sql, x) && ApplyQuery(parse, ds, c, sql).Just?
    ensures Loaded(ApplyQuery(parse, ds, c, sql).value.table, x) == Loaded(c.table, x)
  {
    AttemptKeepsVariable(parse, ds, c, sql, c.modes, true, x);
    var after := Attempt(parse, ds, c, sql, c.modes, true).value.context;
    if Attempt(parse, ds, after, sql, {}, false).Just? {
      AttemptKeepsVariable(parse, ds, after, sql, {}, false, x);
    }
  }

  /** Between two places of a log, queries that do not assign a variable leave what it loads alone. */
  lemma {:induction false} LogKeepsVariable(parse: Parser, ds: seq<Descriptor>, log: seq<string>, i: nat, k: nat,
                                            x: string)
    requires i <= k <= |log| && forall q :: i <= q < k ==> QueryAvoids(parse, log[q], x)
    requires AfterFirst(parse, ds, log, k).Just?
    ensures AfterFirst(parse, ds, log, i).Just?
    ensures Loaded(AfterFirst(parse, ds, log, k).value.table, x) == Loaded(AfterFirst(parse, ds, log, i).value.table, x)
  {
    if i < k {
      AfterOneMore(parse, ds, log, k - 1);
      QueryKeepsVariable(parse, ds, AfterFirst(parse, ds, log, k - 1).value, log[k - 1], x);
      LogKeepsVariable(parse, ds, log, i, k - 1, x);
    }
  }

  lemma {:induction false} SaveStores(ds: seq<Descriptor>, c: Context, save: Node, x: string)
    requires IsSave(save, x)
    ensures ApplyAssignment(ds, c, save) == Effect(Save(c, Variable(x, c.modes)), true)
  {
    assert Evaluate(ds, c, Child(save, 1)) == Just(c.modes);
  }

  lemma {:induction false} RestoreLoads(ds: seq<Descriptor>, c: Context, restore: Node, x: string)
    requires IsRestore(restore, x)
    ensures ApplyAssignment(ds, c, restore) ==
            match Loaded(c.table, x)
            case Just(modes) => Effect(c.(modes := modes), true)
            case Nothing => Effect(c, false)
  {
    assert Evaluate(ds, c, Child(restore, 1)) == Loaded(c.table, x);
  }

  /** The assignment of a query that is one SET statement with one assignment. */
  function OnlyAssignment(p: Parse): Option<Node> {
    if p.Parsed? && p.root.Just? && p.root.value.kind == Script && |p.root.value.children| == 1 then
      var statement := p.root.value.children[0];
      if statement.kind == SetStatement && Child(statement, 0).Just? &&
         statement.children[0].kind == SetAssignmentList && |statement.children[0].children| == 1
      then Just(statement.children[0].children[0]) else Nothing
    else Nothing
  }

  /** The query is SET @x = @@sql_mode, under every mode. */
  ghost predicate SavesIn(parse: Parser, sql: string, x: string) {
    forall m :: OnlyAssignment(parse(sql, m)).Just? && IsSave(OnlyAssignment(parse(sql, m)).value, x)
  }

  /** The query is SET sql_mode = @x, under every mode. */
  ghost predicate RestoresIn(parse: Parser, sql: string, x: string) {
    forall m :: OnlyAssignment(parse(sql, m)).Just? && IsRestore(OnlyAssignment(parse(sql, m)).value, x)
  }

  lemma {:induction false} OnlyAssignmentApplies(parse: Parser, ds: seq<Descriptor>, c: Context, sql: string,
                                                 modes: Modes, placeholders: bool)
    requires OnlyAssignment(parse(sql, modes)).Just?
    ensures Attempt(parse, ds, c, sql, modes, placeholders)
         == Just(ApplyAssignment(ds, c, OnlyAssignment(parse(sql, modes)).value))
  {
    OneAssignment(ds, c, OnlyAssignment(parse(sql, modes)).value);
    var list := parse(sql, modes).root.value.children[0].children[0];
    assert list.children == [OnlyAssignment(parse(sql, modes)).value];
  }

  lemma {:induction false} OneAssignment(ds: seq<Descriptor>, c: Context, n: Node)
    ensures ApplyAssignments(ds, c, [n]) == ApplyAssignment(ds, c, n)
  {
    assert [n][1..] == [];
    assert ApplyAssignments(ds, ApplyAssignment(ds, c, n).context, []) ==
        Effect(ApplyAssignment(ds, c, n).context, false);
  }

  lemma {:induction false} SaveQuery(parse: Parser, ds: seq<Descriptor>, c: Context, sql: string, x: string)
    requires SavesIn(parse, sql, x)
    ensures ApplyQuery(parse, ds, c, sql) == Just(Save(c, Variable(x, c.modes)))
  {
    OnlyAssignmentApplies(parse, ds, c, sql, c.modes, true);
    SaveStores(ds, c, OnlyAssignment(parse(sql, c.modes)).value, x);
  }

  lemma {:induction false} RestoreQuery(parse: Parser, ds: seq<Descriptor>, c: Context, sql: string, x: string)
    requires RestoresIn(parse, sql, x)
    ensures ApplyQuery(parse, ds, c, sql) ==
            match Loaded(c.table, x)
            case Just(modes) => Just(c.(modes := modes))
            case Nothing => Just(c)
  {
    OnlyAssignmentApplies(parse, ds, c, sql, c.modes, true);
    RestoreLoads(ds, c, OnlyAssignment(parse(sql, c.modes)).value, x);
    OnlyAssignmentApplies(parse, ds, c, sql, {}, false);
    RestoreLoads(ds, c, OnlyAssignment(parse(sql, {})).value, x);
  }

  /** In any log: query i saves the mode in a variable, no query between assigns the variable, and query
      j restores from it. The restore brings back the mode of the save exactly when the variable had an
      entry or room for one then; otherwise it does nothing at all. */
  lemma {:induction false} SaveAndRestore(parse: Parser, ds: seq<Descriptor>, log: seq<string>, i: nat, j: nat,
                                          x: string)
    requires GoodTable(ds) && i < j < |log| && AfterFirst(parse, ds, log, j).Just?
    requires SavesIn(parse, log[i], x) && RestoresIn(parse, log[j], x)
    requires forall q :: i < q < j ==> QueryAvoids(parse, log[q], x)
    ensures AfterFirst(parse, ds, log, i).Just?
    ensures var atSave, before := AfterFirst(parse, ds, log, i).value, AfterFirst(parse, ds, log, j).value;
            AfterFirst(parse, ds, log, j + 1) ==
              Just(if Holdable(atSave.table, x) then before.(modes := atSave.modes) else before)
  {
    LogKeepsVariable(parse, ds, log, i + 1, j, x);
    AfterOneMore(parse, ds, log, i);
    var atSave := AfterFirst(parse, ds, log, i).value;
    SaveQuery(parse, ds, atSave, log[i], x);
    ReplayIsSound(parse, ds, log[..i]);
    LoadedExactly(atSave.saves, x);
    SavedLoads(atSave.table, Variable(x, atSave.modes));
    AfterOneMore(parse, ds, log, j);
    RestoreQuery(parse, ds, AfterFirst(parse, ds, log, j).value, log[j], x);
  }

  /** So the query behind the restore is recorded with the mode that was recorded for the save. */
  lemma {:induction false} RestoredModeIsRecorded(parse: Parser, ds: seq<Descriptor>, log: seq<string>, i: nat, j: nat,
                                                  x: string, wasAtSave: Modes, was: Modes)
    requires GoodTable(ds) && i < j && j + 1 < |log| && AfterFirst(parse, ds, log, j).Just?
    requires SavesIn(parse, log[i], x) && RestoresIn(parse, log[j], x)
    requires forall q :: i < q < j ==> QueryAvoids(parse, log[q], x)
    requires AfterFirst(parse, ds, log, i).Just? && Holdable(AfterFirst(parse, ds, log, i).value.table, x)
    ensures AssignedMode(parse, ds, log, j + 1, was) == AssignedMode(parse, ds, log, i, wasAtSave)
  {
    SaveAndRestore(parse, ds, log, i, j, x);
  }
}
