/** What the whole generated statements say: a reader of the two filtering queries down to the ids they
    select, and a reader of every list statement down to its item numbers. Neither reader knows the
    generator's texts. */
module StatementMeaning {
  import opened CStrings
  import opened Sequences
  import opened Decimal
  import opened Words
  import opened BalancedOr
  import opened LargeQueries
  import opened PredicateMeaning
  import opened GeneratedSql

  /** What follows a word at the start of a text. */
  function Behind(text: string, word: string): Option<string> {
    if word <= text then Just(text[|word|..]) else Nothing
  }

  lemma BehindWord(word: string, rest: string)
    ensures Behind(word + rest, word) == Just(rest)
  {
    assert (word + rest)[..|word|] == word;
    assert (word + rest)[|word|..] == rest;
  }

  // ----- filtering queries

  datatype Condition = Among(ids: seq<nat>) | Matching(tree: Predicate)

  datatype Query = Query(table: string, condition: Condition)

  predicate IsNameChar(c: char) {
    'a' <= c <= 'z' || c == '_'
  }

  predicate IsTableName(s: string) {
    s != "" && forall i :: 0 <= i < |s| ==> IsNameChar(s[i])
  }

  function NameLength(s: string): (k: nat)
    ensures k <= |s|
  {
    if s == "" || !IsNameChar(s[0]) then 0 else 1 + NameLength(s[1..])
  }

  lemma {:induction false} NameTaken(name: string, rest: string)
    requires (forall i :: 0 <= i < |name| ==> IsNameChar(name[i])) && (rest == "" || !IsNameChar(rest[0]))
    ensures NameLength(name + rest) == |name|
  {
    if name == "" {
      assert name + rest == rest;
    } else {
      assert (name + rest)[0] == name[0] && (name + rest)[1..] == name[1..] + rest;
      NameTaken(name[1..], rest);
    }
  }

  /** A list of numbers in parentheses, or a predicate up to the end of the text. */
  function ReadCondition(s: string): Option<Condition> {
    match Behind(s, "id IN (")
    case Just(list) =>
      if list == "" || list[|list| - 1] != ')' then Nothing
      else
        var numbers := ParseNumbers(list[..|list| - 1]);
        if numbers.BadList? then Nothing else Just(Among(numbers.values))
    case Nothing =>
      var p := Parse(s);
      if p.Failed? || p.rest != "" then Nothing else Just(Matching(p.tree))
  }

  function ReadAfterTable(table: string, s: string): Option<Query> {
    match Behind(s, " WHERE ")
    case Nothing => Nothing
    case Just(condition) =>
      var c := ReadCondition(condition);
      if c.Nothing? then Nothing else Just(Query(table, c.value))
  }

  /** SELECT id FROM table WHERE condition. */
  function ReadQuery(text: string): Option<Query> {
    match Behind(text, "SELECT id FROM ")
    case Nothing => Nothing
    case Just(s) =>
      var k := NameLength(s);
      if k == 0 then Nothing else ReadAfterTable(s[..k], s[k..])
  }

  /** The ids of the rows a query returns. */
  predicate Selects(q: Query, id: int) {
    match q.condition
    case Among(ids) => id in ids
    case Matching(tree) => Holds(tree, id)
  }

  lemma {:induction false} QueryReads(table: string, condition: string)
    requires IsTableName(table)
    ensures ReadQuery("SELECT id FROM " + (table + (" WHERE " + condition))) ==
              var c := ReadCondition(condition);
              if c.Nothing? then Nothing else Just(Query(table, c.value))
  {
    var tail := " WHERE " + condition;
    BehindWord("SELECT id FROM ", table + tail);
    assert tail[0] == ' ';
    NameTaken(table, tail);
    assert (table + tail)[..|table|] == table && (table + tail)[|table|..] == tail;
    BehindWord(" WHERE ", condition);
  }

  lemma InTexts()
    ensures IN_LIST.lead == IN_LIST.trail == "" && IN_LIST.suffix == ")"
  {
  }

  lemma OrTexts()
    ensures OR_PREFIX == "SELECT id FROM " + ("predicate_values" + " WHERE ")
  {
    Regroup("SELECT id FROM ", "predicate_values", " WHERE ");
  }

  lemma TableNames()
    ensures IsTableName("benchmark_values") && IsTableName("predicate_values")
  {
  }

  lemma Grouped(a: string, b: string, c: string, d: string, e: string)
    ensures (a + (b + (c + d))) + e == a + (b + (c + (d + e)))
  {
    Regroup(a, b + (c + d), e);
    Regroup(b, c + d, e);
    Regroup(c, d, e);
  }

  lemma {:induction false} InConditionReads(n: nat)
    ensures ReadCondition("id IN (" + (IdList(n) + ")")) == if n == 0 then Nothing else Just(Among(UpTo(n)))
  {
    var list := IdList(n) + ")";
    BehindWord("id IN (", list);
    assert list[|list| - 1] == ')' && list[..|list| - 1] == IdList(n);
    if n > 0 {
      ParseItems(n);
    }
  }

  /** The whole IN statement reads as the query for the ids 0 to n - 1; only without any item is it no
      query. */
  lemma {:induction false} InStatementReads(n: nat)
    ensures ReadQuery(Statement(IN_LIST, n)) ==
              if n == 0 then Nothing else Just(Query("benchmark_values", Among(UpTo(n))))
  {
    InPrefixIs();
    InTexts();
    TableNames();
    InConditionReads(n);
    PrefixedReads(IN_LIST.prefix, "benchmark_values", "id IN (", IdList(n), ")");
  }

  lemma InPrefixIs()
    ensures IN_LIST.prefix == "SELECT id FROM " + ("benchmark_values" + (" WHERE " + "id IN ("))
  {
    Regroup("SELECT id FROM ", "benchmark_values", " WHERE ");
    Regroup("SELECT id FROM ", "benchmark_values" + " WHERE ", "id IN (");
    Regroup("benchmark_values", " WHERE ", "id IN (");
  }

  lemma {:induction false} PrefixedReads(prefix: string, table: string, opening: string, list: string, closing: string)
    requires prefix == "SELECT id FROM " + (table + (" WHERE " + opening)) && IsTableName(table)
    ensures ReadQuery(prefix + list + closing) ==
              var c := ReadCondition(opening + (list + closing));
              if c.Nothing? then Nothing else Just(Query(table, c.value))
  {
    Regroup(prefix, list, closing);
    Grouped("SELECT id FROM ", table, " WHERE ", opening, list + closing);
    QueryReads(table, opening + (list + closing));
  }

  lemma {:induction false} OrConditionReads(n: nat)
    requires 1 <= n <= SIZE_MAX
    ensures Parse(OrText(0, n)).Parsed?
    ensures ReadCondition(OrText(0, n)) == Just(Matching(Parse(OrText(0, n)).tree))
  {
    OrSelects(n, 0);
    OrTextStarts(n);
  }

  lemma {:induction false} OrTextStarts(n: nat)
    requires 1 <= n <= SIZE_MAX
    ensures Behind(OrText(0, n), "id IN (").Nothing?
  {
    var text := OrText(0, n);
    if n == 1 {
      assert text[3] == '=';
    } else {
      assert text[0] == '(';
    }
  }

  lemma {:induction false} OrStatementReads(n: nat)
    requires 1 <= n <= SIZE_MAX
    ensures Parse(OrText(0, n)).Parsed?
    ensures ReadQuery(OR_PREFIX + OrText(0, n)) ==
              Just(Query("predicate_values", Matching(Parse(OrText(0, n)).tree)))
  {
    OrTexts();
    TableNames();
    OrConditionReads(n);
    Regroup("SELECT id FROM ", "predicate_values" + " WHERE ", OrText(0, n));
    Regroup("predicate_values", " WHERE ", OrText(0, n));
    QueryReads("predicate_values", OrText(0, n));
  }

  /** For every count both whole statements are queries, and both return exactly the rows with ids 0 to
      n - 1. */
  lemma {:induction false} InAndOrSelectTheSame(n: nat, id: int)
    requires 1 <= n <= SIZE_MAX
    ensures ReadQuery(Statement(IN_LIST, n)).Just? && ReadQuery(OR_PREFIX + OrText(0, n)).Just?
    ensures Selects(ReadQuery(Statement(IN_LIST, n)).value, id) <==> 0 <= id < n
    ensures Selects(ReadQuery(OR_PREFIX + OrText(0, n)).value, id) <==> 0 <= id < n
  {
    InStatementReads(n);
    OrStatementReads(n);
    InSelects(n, id);
    ParseItems(n);
    OrSelects(n, id);
  }

  // ----- list statements

  function Prepended(k: nat, r: Option<seq<nat>>): Option<seq<nat>> {
    if r.Nothing? then Nothing else Just([k] + r.value)
  }

  /** Numbers, each between lead and trail, separated by commas and followed by tail. */
  function ReadItems(lead: string, trail: string, tail: string, s: string): Option<seq<nat>>
    decreases |s|
  {
    var a := Behind(s, lead);
    if a.Nothing? then Nothing
    else
      var k := DigitRun(a.value);
      if k == 0 then Nothing
      else ReadNext(lead, trail, tail, Value(a.value[..k]), a.value[k..])
  }

  function ReadNext(lead: string, trail: string, tail: string, k: nat, s: string): Option<seq<nat>>
    decreases |s|
  {
    var rest := Behind(s, trail);
    if rest.Nothing? then Nothing
    else if rest.value == tail then Just([k])
    else if rest.value == "" || rest.value[0] != ',' then Nothing
    else Prepended(k, ReadItems(lead, trail, tail, rest.value[1..]))
  }

  function ReadList(head: string, lead: string, trail: string, tail: string, text: string): Option<seq<nat>> {
    var s := Behind(text, head);
    if s.Nothing? then Nothing
    else if s.value == tail then Just([])
    else ReadItems(lead, trail, tail, s.value)
  }

  predicate StartsNoDigit(s: string) {
    s != "" ==> !IsDigit(s[0])
  }

  /** The texts around the numbers do not run into them. */
  predicate Readable(s: Shape) {
    StartsNoDigit(s.trail) && StartsNoDigit(s.suffix)
  }

  lemma NoDigitFollows(a: string, b: string)
    requires StartsNoDigit(a) && StartsNoDigit(b)
    ensures StartsNoDigit(a + b)
  {
    assert a == "" ==> a + b == b;
  }

  lemma {:induction false} ItemReads(lead: string, trail: string, tail: string, k: nat, rest: string)
    requires StartsNoDigit(trail + rest)
    ensures ReadItems(lead, trail, tail, Indexed(lead, k, trail) + rest) == ReadNext(lead, trail, tail, k, trail + rest)
  {
    var ds, more := Digits(k), trail + rest;
    Regroup(lead + ds, trail, rest);
    Regroup(lead, ds, more);
    BehindWord(lead, ds + more);
    DigitRunOfPrefix(ds, more);
    assert (ds + more)[..|ds|] == ds && (ds + more)[|ds|..] == more;
    ValueOfDigits(k);
  }

  lemma {:induction false} LastItemReads(lead: string, trail: string, tail: string, k: nat)
    requires StartsNoDigit(trail + tail)
    ensures ReadItems(lead, trail, tail, Indexed(lead, k, trail) + tail) == Just([k])
  {
    ItemReads(lead, trail, tail, k, tail);
    BehindWord(trail, tail);
  }

  lemma {:induction false} ItemThenReads(lead: string, trail: string, tail: string, k: nat, more: string)
    requires StartsNoDigit(trail) && |more| >= |tail|
    ensures ReadItems(lead, trail, tail, Indexed(lead, k, trail) + ("," + more))
         == Prepended(k, ReadItems(lead, trail, tail, more))
  {
    var rest := "," + more;
    assert trail == "" ==> trail + rest == rest;
    ItemReads(lead, trail, tail, k, rest);
    BehindWord(trail, rest);
    assert rest[0] == ',' && rest[1..] == more;
  }

  lemma {:induction false} LastOfList(lead: string, trail: string, n: nat)
    requires n >= 1
    ensures n == 1 ==> ItemList(lead, trail, n) == Indexed(lead, 0, trail)
    ensures n > 1 ==> ItemList(lead, trail, n) == ItemList(lead, trail, n - 1) + ("," + Indexed(lead, n - 1, trail))
  {
    if n == 1 {
      assert ItemList(lead, trail, 0) + "" + Indexed(lead, 0, trail) == Indexed(lead, 0, trail);
    } else {
      Regroup(ItemList(lead, trail, n - 1), ",", Indexed(lead, n - 1, trail));
    }
  }

  function Following(n: nat, r: Option<seq<nat>>): Option<seq<nat>> {
    if r.Nothing? then Nothing else Just(UpTo(n) + r.value)
  }

  lemma {:induction false} FollowingStep(n: nat, r: Option<seq<nat>>)
    requires n >= 1
    ensures Following(n, r) == if n == 1 then Prepended(0, r) else Following(n - 1, Prepended(n - 1, r))
  {
    if r.Just? {
      UpToStep(n, r.value);
    }
  }

  /** A reader takes items one by one. */
  ghost predicate TakesItems(read: string -> Option<seq<nat>>, lead: string, trail: string, least: nat) {
    forall k: nat, more: string :: |more| >= least ==>
      read(Indexed(lead, k, trail) + ("," + more)) == Prepended(k, read(more))
  }

  /** To such a reader the items 0 to n - 1 read as such, in front of whatever items come after them. */
  lemma {:induction false} TakesList(read: string -> Option<seq<nat>>, lead: string, trail: string, least: nat, n: nat,
                                     more: string)
    requires TakesItems(read, lead, trail, least) && n >= 1 && |more| >= least
    ensures read(ItemList(lead, trail, n) + ("," + more)) == Following(n, read(more))
    decreases n
  {
    var last := Indexed(lead, n - 1, trail);
    LastOfList(lead, trail, n);
    FollowingStep(n, read(more));
    if n > 1 {
      TakesList(read, lead, trail, least, n - 1, last + ("," + more));
      CommaShifts(ItemList(lead, trail, n - 1), last, more);
    }
  }

  lemma {:induction false} ItemsThenRead(lead: string, trail: string, tail: string, n: nat, more: string)
    requires n >= 1 && StartsNoDigit(trail) && |more| >= |tail|
    ensures ReadItems(lead, trail, tail, ItemList(lead, trail, n) + ("," + more))
         == Following(n, ReadItems(lead, trail, tail, more))
  {
    var read := s => ReadItems(lead, trail, tail, s);
    forall k: nat, later: string | |later| >= |tail|
      ensures read(Indexed(lead, k, trail) + ("," + later)) == Prepended(k, read(later))
    {
      ItemThenReads(lead, trail, tail, k, later);
    }
    TakesList(read, lead, trail, |tail|, n, more);
  }

  /** Every list statement has exactly one reading by its own texts: the numbers 0 to n - 1. */
  lemma {:induction false} StatementReads(s: Shape, n: nat)
    requires Readable(s)
    ensures ReadList(s.prefix, s.lead, s.trail, s.suffix, Statement(s, n)) == Just(UpTo(n))
  {
    var items := ItemList(s.lead, s.trail, n);
    Regroup(s.prefix, items, s.suffix);
    BehindWord(s.prefix, items + s.suffix);
    if n == 0 {
      assert items + s.suffix == s.suffix;
    } else {
      ListReads(s, n);
      ItemListNonempty(s.lead, s.trail, n);
      assert |items + s.suffix| > |s.suffix|;
    }
  }

  lemma {:induction false} ItemListNonempty(lead: string, trail: string, n: nat)
    requires n >= 1
    ensures ItemList(lead, trail, n) != ""
  {
    assert |Indexed(lead, n - 1, trail)| > 0;
  }

  lemma {:induction false} ListReads(s: Shape, n: nat)
    requires n >= 1 && Readable(s)
    ensures ReadItems(s.lead, s.trail, s.suffix, ItemList(s.lead, s.trail, n) + s.suffix) == Just(UpTo(n))
  {
    var last := Indexed(s.lead, n - 1, s.trail);
    LastOfList(s.lead, s.trail, n);
    NoDigitFollows(s.trail, s.suffix);
    LastItemReads(s.lead, s.trail, s.suffix, n - 1);
    UpToStep(n, []);
    if n > 1 {
      ItemsThenRead(s.lead, s.trail, s.suffix, n - 1, last + s.suffix);
      Regroup(ItemList(s.lead, s.trail, n - 1), "," + last, s.suffix);
      Regroup(",", last, s.suffix);
    }
  }

  lemma ScalarTexts()
    ensures SCALAR == Shape("SELECT ", "CONCAT(name,'x') AS value_", "", " FROM scalar_values")
    ensures Readable(SCALAR)
  {
  }

  /** Each builder's statement, taken apart by the texts of the SQL it stands for. */
  lemma {:induction false} ScalarReads(n: nat)
    ensures ReadList("SELECT ", "CONCAT(name,'x') AS value_", "", " FROM scalar_values", Statement(SCALAR, n))
         == Just(UpTo(n))
  {
    ScalarTexts();
    StatementReads(SCALAR, n);
  }

  lemma GroupedTexts()
    ensures GROUPED == Shape("SELECT ", "column_0 AS projection_", "",
                             "," + "COUNT(*) AS aggregate_count" + " FROM wide_table GROUP BY column_0")
    ensures Readable(GROUPED)
  {
    assert GROUPED.suffix[0] == ',';
  }

  lemma {:induction false} GroupedReads(n: nat)
    ensures ReadList("SELECT ", "column_0 AS projection_", "",
                     "," + "COUNT(*) AS aggregate_count" + " FROM wide_table GROUP BY column_0", Statement(GROUPED, n))
         == Just(UpTo(n))
  {
    GroupedTexts();
    StatementReads(GROUPED, n);
  }

  lemma WideTexts()
    ensures WIDE_TABLE == Shape("CREATE TABLE wide_table (", "column_", " BIGINT", ")")
    ensures Readable(WIDE_TABLE)
  {
  }

  lemma {:induction false} WideTableReads(n: nat)
    ensures ReadList("CREATE TABLE wide_table (", "column_", " BIGINT", ")", Statement(WIDE_TABLE, n)) == Just(UpTo(n))
  {
    WideTexts();
    StatementReads(WIDE_TABLE, n);
  }

  lemma OrderTexts()
    ensures WIDE_ORDER == Shape("SELECT column_0 FROM wide_table ORDER BY ", "column_", "", "")
    ensures Readable(WIDE_ORDER)
  {
  }

  lemma {:induction false} WideOrderReads(n: nat)
    ensures ReadList("SELECT column_0 FROM wide_table ORDER BY ", "column_", "", "", Statement(WIDE_ORDER, n))
         == Just(UpTo(n))
  {
    OrderTexts();
    StatementReads(WIDE_ORDER, n);
  }
}
