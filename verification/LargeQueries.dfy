/** The large-statement builders: what they print, and for which item counts the block of
    128 + 32 * count bytes has room for it. */
module LargeQueries {
  import opened Sequences
  import opened Decimal
  import opened Words
  import opened GeneratedSql
  import opened BalancedOr

  const OR_PREFIX := "SELECT id FROM " + "predicate_values" + " WHERE "

  /** A statement around a comma-separated list of items, each a number between two fixed texts. */
  datatype Shape = Shape(prefix: string, lead: string, trail: string, suffix: string)

  const IN_LIST := Shape("SELECT id FROM " + "benchmark_values" + " WHERE " + "id IN (", "", "", ")")
  const SCALAR := Shape("SELECT ", "CONCAT(name,'x') AS value_", "", " FROM scalar_values")
  const GROUPED :=
    Shape("SELECT ", "column_0 AS projection_", "",
          "," + "COUNT(*) AS aggregate_count" + " FROM wide_table GROUP BY column_0")
  const WIDE_TABLE := Shape("CREATE TABLE wide_table (", "column_", " BIGINT", ")")
  const WIDE_ORDER := Shape("SELECT column_0 FROM wide_table ORDER BY ", "column_", "", "")

  /** Items 0 to count - 1, separated by commas. */
  ghost function ItemList(lead: string, trail: string, count: nat): string {
    if count == 0 then ""
    else ItemList(lead, trail, count - 1) + (if count == 1 then "" else ",") + Indexed(lead, count - 1, trail)
  }

  ghost function Statement(s: Shape, count: nat): string {
    s.prefix + ItemList(s.lead, s.trail, count) + s.suffix
  }

  // ----- how many digits the items need

  /** Digits needed to write 0 to count - 1. */
  ghost function DigitTotal(count: nat): nat {
    if count == 0 then 0 else DigitTotal(count - 1) + |Digits(count - 1)|
  }

  lemma OneMore(width: nat, count: nat)
    requires count >= 1
    ensures width * count == width * (count - 1) + width
  {
  }

  lemma {:induction false} ItemListLength(lead: string, trail: string, count: nat)
    ensures |ItemList(lead, trail, count)|
         == (|lead| + |trail|) * count + DigitTotal(count) + (if count == 0 then 0 else count - 1)
  {
    if count > 0 {
      ItemListLength(lead, trail, count - 1);
      OneMore(|lead| + |trail|, count);
    }
  }

  lemma {:induction false} DigitsExactly(n: nat, k: nat)
    requires Pow10(k) <= n < Pow10(k + 1)
    ensures |Digits(n)| == k + 1
  {
    if k > 0 {
      DigitsExactly(n / 10, k - 1);
    }
  }

  lemma {:induction false} DigitsAtLeast(n: nat, k: nat)
    requires Pow10(k) <= n
    ensures |Digits(n)| >= k + 1
  {
    if k > 0 {
      DigitsAtLeast(n / 10, k - 1);
    }
  }

  /** 10 + 100 + ... + 10^k: how far the numbers below 10^k fall short of k + 1 digits each. */
  ghost function Shortfall(k: nat): nat {
    if k == 0 then 0 else Shortfall(k - 1) + Pow10(k)
  }

  lemma {:induction false} BelowDecade(k: nat, count: nat)
    requires 1 <= k && count <= Pow10(k)
    ensures DigitTotal(count) <= k * count
  {
    if count > 0 {
      BelowDecade(k, count - 1);
      DigitsLength(count - 1, k);
      OneMore(k, count);
    }
  }

  lemma {:induction false} ShortfallStep(k: nat, low: nat, total: nat)
    requires k > 0 && low == Pow10(k) && total + Shortfall(k - 1) == k * low
    ensures total + Shortfall(k) == (k + 1) * low
  {
  }

  lemma {:induction false} FirstDigit(one: nat)
    requires one == 1
    ensures DigitTotal(one) == 1
  {
    assert DigitTotal(one) == DigitTotal(one - 1) + |Digits(one - 1)|;
  }

  /** Between two powers of ten the total is that of the longer width, less the shortfall. */
  lemma {:induction false} WithinDecade(k: nat, low: nat, count: nat)
    requires low == Pow10(k) <= count <= Pow10(k + 1)
    ensures DigitTotal(count) + Shortfall(k) == (k + 1) * count
    decreases k, count
  {
    if count > low {
      WithinDecade(k, low, count - 1);
      DigitsExactly(count - 1, k);
      OneMore(k + 1, count);
    } else {
      DecadeStart(k, low);
    }
  }

  lemma {:induction false} DecadeStart(k: nat, low: nat)
    requires low == Pow10(k)
    ensures DigitTotal(low) + Shortfall(k) == (k + 1) * low
    decreases k, 0
  {
    if k > 0 {
      WithinDecade(k - 1, Pow10(k - 1), low);
      ShortfallStep(k, low, DigitTotal(low));
    } else {
      FirstDigit(low);
    }
  }

  /** And it never falls behind that later. */
  lemma {:induction false} BeyondDecade(k: nat, low: nat, count: nat)
    requires low == Pow10(k) <= count
    ensures DigitTotal(count) + Shortfall(k) >= (k + 1) * count
    decreases count
  {
    if count > low {
      BeyondDecade(k, low, count - 1);
      DigitsAtLeast(count - 1, k);
      OneMore(k + 1, count);
    } else {
      WithinDecade(k, low, count);
    }
  }

  lemma {:induction false} ShortfallBounds(k: nat)
    requires k >= 1
    ensures Pow10(k) <= Shortfall(k) && 9 * Shortfall(k) <= 10 * Pow10(k)
  {
    if k > 1 {
      ShortfallBounds(k - 1);
    }
  }

  lemma {:induction false} AtLeastHundred(k: nat)
    requires k >= 2
    ensures Pow10(k) >= 100
  {
    if k > 2 {
      AtLeastHundred(k - 1);
    }
  }

  /** A budget of k digits a number and some to spare lasts exactly until the spare digits and the
      shortfall are used up. */
  lemma DigitBudget(k: nat, spare: nat, count: nat)
    requires k >= 2 && 1 <= spare <= 129
    ensures DigitTotal(count) < k * count + spare <==> count < spare + Shortfall(k)
  {
    var low := Pow10(k);
    ShortfallBounds(k);
    AtLeastHundred(k);
    assert (k + 1) * count == k * count + count;
    if count <= low {
      BelowDecade(k, count);
    } else if count <= Pow10(k + 1) {
      WithinDecade(k, low, count);
    } else {
      BeyondDecade(k, low, count);
    }
  }

  // ----- which counts fit the block

  function ItemWidth(s: Shape): nat {
    |s.lead| + |s.trail|
  }

  function FixedWidth(s: Shape): nat {
    |s.prefix| + |s.suffix|
  }

  /** Items of a width that leaves each number at least two digits of its 32 bytes. */
  predicate Budgeted(s: Shape) {
    ItemWidth(s) <= 29 && FixedWidth(s) < BASE_CAPACITY
  }

  /** The most items the block of 128 + 32 * count bytes has room for. */
  ghost function MostItems(s: Shape): nat
    requires Budgeted(s)
  {
    MostOf(ItemWidth(s), FixedWidth(s))
  }

  ghost function MostOf(width: nat, fixed: nat): nat
    requires width <= 29 && fixed < BASE_CAPACITY
  {
    BASE_CAPACITY - fixed + Shortfall(31 - width)
  }

  /** The statement fits its block exactly up to that many items, whatever its texts. */
  lemma FitsExactly(s: Shape, count: nat)
    requires Budgeted(s)
    ensures |Statement(s, count)| < BASE_CAPACITY + count * ITEM_CAPACITY <==> count <= MostItems(s)
  {
    StatementLength(s, count);
    DigitBudget(31 - ItemWidth(s), BASE_CAPACITY + 1 - FixedWidth(s), count);
    Shares(ItemWidth(s), 31 - ItemWidth(s), count);
  }

  lemma StatementLength(s: Shape, count: nat)
    ensures |Statement(s, count)|
         == FixedWidth(s) + ItemWidth(s) * count + DigitTotal(count) + (if count == 0 then 0 else count - 1)
  {
    ItemListLength(s.lead, s.trail, count);
  }

  lemma Shares(a: nat, b: nat, count: nat)
    requires a + b == 31
    ensures a * count + b * count == 31 * count
  {
  }

  lemma {:induction false} ShortfallMonotone(a: nat, b: nat)
    requires a <= b
    ensures Shortfall(a) <= Shortfall(b)
  {
    if a < b {
      ShortfallMonotone(a, b - 1);
    }
  }

  lemma ShortfallValues(k: nat)
    ensures k == 5 ==> Shortfall(k) == 111_110
    ensures k == 8 ==> Shortfall(k) == 111_111_110
    ensures k == 17 ==> Shortfall(k) == 111_111_111_111_111_110
    ensures k >= 18 ==> Shortfall(k) > MAX_ITEMS
  {
    assert Shortfall(4) == 11_110 && Pow10(4) == 10_000;
    assert Shortfall(8) == 111_111_110 && Pow10(8) == 100_000_000;
    assert Shortfall(12) == 1_111_111_111_110 && Pow10(12) == 1_000_000_000_000;
    assert Shortfall(17) == 111_111_111_111_111_110 && Pow10(17) == 100_000_000_000_000_000;
    assert Shortfall(18) == 1_111_111_111_111_111_110;
    if k >= 18 {
      ShortfallMonotone(18, k);
    }
  }

  lemma MostOfValues(width: nat, fixed: nat)
    requires width <= 29 && fixed < BASE_CAPACITY
    ensures width <= 13 ==> MostOf(width, fixed) > MAX_ITEMS
    ensures width == 14 ==> MostOf(width, fixed) == 111_111_111_111_111_238 - fixed
    ensures width == 23 ==> MostOf(width, fixed) == 111_111_238 - fixed
    ensures width == 26 ==> MostOf(width, fixed) == 111_238 - fixed
  {
    ShortfallValues(31 - width);
  }

  /** The IN and ORDER BY lists never outgrow the block; the other three do, from these counts on. */
  lemma InListLimit()
    ensures Budgeted(IN_LIST) && MostItems(IN_LIST) > MAX_ITEMS
  {
    assert ItemWidth(IN_LIST) == 0 && FixedWidth(IN_LIST) == 46;
    MostOfValues(ItemWidth(IN_LIST), FixedWidth(IN_LIST));
  }

  lemma WideOrderLimit()
    ensures Budgeted(WIDE_ORDER) && MostItems(WIDE_ORDER) > MAX_ITEMS
  {
    assert ItemWidth(WIDE_ORDER) == 7 && FixedWidth(WIDE_ORDER) == 41;
    MostOfValues(ItemWidth(WIDE_ORDER), FixedWidth(WIDE_ORDER));
  }

  lemma ScalarLimit()
    ensures Budgeted(SCALAR) && MostItems(SCALAR) == 111_212
  {
    assert ItemWidth(SCALAR) == 26 && FixedWidth(SCALAR) == 26;
    MostOfValues(ItemWidth(SCALAR), FixedWidth(SCALAR));
  }

  lemma GroupedLimit()
    ensures Budgeted(GROUPED) && MostItems(GROUPED) == 111_111_169
  {
    assert ItemWidth(GROUPED) == 23 && FixedWidth(GROUPED) == 69;
    MostOfValues(ItemWidth(GROUPED), FixedWidth(GROUPED));
  }

  lemma WideTableLimit()
    ensures Budgeted(WIDE_TABLE) && MostItems(WIDE_TABLE) == 111_111_111_111_111_212 < MAX_ITEMS
  {
    assert ItemWidth(WIDE_TABLE) == 14 && FixedWidth(WIDE_TABLE) == 26;
    MostOfValues(ItemWidth(WIDE_TABLE), FixedWidth(WIDE_TABLE));
  }

  // ----- the builders

  lemma {:induction false} ItemListMonotone(lead: string, trail: string, a: nat, b: nat)
    requires a <= b
    ensures |ItemList(lead, trail, a)| <= |ItemList(lead, trail, b)|
  {
    if a < b {
      ItemListMonotone(lead, trail, a, b - 1);
    }
  }

  /** The list so far with the comma that the next item needs. */
  ghost function Separated(lead: string, trail: string, index: nat): (text: string)
    ensures |text| <= |ItemList(lead, trail, index + 1)|
    ensures text + Indexed(lead, index, trail) == ItemList(lead, trail, index + 1)
  {
    ItemList(lead, trail, index) + (if index == 0 then "" else ",")
  }

  /** One item, after its comma. */
  method AppendItem(buffer: SqlBuffer, lead: string, trail: string, index: nat, ghost start: string) returns (ok: bool)
    requires buffer.Valid() && buffer.Contents() == start + ItemList(lead, trail, index)
    modifies buffer, buffer.data
    ensures buffer.Valid()
    ensures ok <==> |start| + |ItemList(lead, trail, index + 1)| < buffer.data.Length
    ensures ok ==> buffer.Contents() == start + ItemList(lead, trail, index + 1)
  {
    ghost var separated := Separated(lead, trail, index);
    if index != 0 {
      ok := buffer.Append(",");
      if !ok {
        return;
      }
      Regroup(start, ItemList(lead, trail, index), ",");
    } else {
      assert ItemList(lead, trail, 0) + "" == ItemList(lead, trail, 0);
    }
    assert buffer.Contents() == start + separated;
    ok := buffer.AppendIndexed(lead, index, trail);
    Regroup(start, separated, Indexed(lead, index, trail));
  }

  method AppendItems(buffer: SqlBuffer, lead: string, trail: string, count: nat) returns (ok: bool)
    requires buffer.Valid()
    modifies buffer, buffer.data
    ensures buffer.Valid()
    ensures count > 0 ==> (ok <==> old(buffer.length) + |ItemList(lead, trail, count)| < buffer.data.Length)
    ensures count == 0 ==> ok
    ensures ok ==> buffer.Contents() == old(buffer.Contents()) + ItemList(lead, trail, count)
  {
    ghost var start := buffer.Contents();
    assert start + "" == start;
    for index := 0 to count
      invariant buffer.Valid()
      invariant buffer.Contents() == start + ItemList(lead, trail, index)
      invariant index > 0 ==> buffer.length < buffer.data.Length
    {
      ItemListMonotone(lead, trail, index + 1, count);
      ok := AppendItem(buffer, lead, trail, index, start);
      if !ok {
        return;
      }
    }
    ok := true;
  }

  /** Prefix, items and suffix; complete exactly when the block has room. An empty suffix always fits
      behind a complete list. */
  method AppendStatement(buffer: SqlBuffer, s: Shape, count: nat) returns (ok: bool)
    requires buffer.Valid() && buffer.Contents() == ""
    modifies buffer, buffer.data
    ensures buffer.Valid()
    ensures ok <==> |Statement(s, count)| < buffer.data.Length
    ensures ok ==> buffer.Contents() == Statement(s, count)
    ensures ok ==> buffer.data[buffer.length] == '\0'
  {
    ok := buffer.Append(s.prefix);
    if !ok {
      return;
    }
    ok := AppendItems(buffer, s.lead, s.trail, count);
    if !ok {
      return;
    }
    ok := buffer.Append(s.suffix);
  }

  /** Built exactly when the allocator accepts the count and the block has room for that many items. */
  method BuildStatement(s: Shape, count: Word, largestBlock: nat) returns (sql: SqlBuffer?)
    requires Budgeted(s)
    ensures sql != null <==>
              count <= MAX_ITEMS && BASE_CAPACITY + count * ITEM_CAPACITY <= largestBlock && count <= MostItems(s)
    ensures sql != null ==> fresh(sql) && sql.Valid() && sql.Contents() == Statement(s, count)
    ensures sql != null ==> sql.length < sql.data.Length && sql.data[sql.length] == '\0'
  {
    sql := AllocateGeneratedSql(count, largestBlock);
    if sql == null {
      return;
    }
    FitsExactly(s, count);
    var ok := AppendStatement(sql, s, count);
    if !ok {
      sql := null;
    }
  }

  /** The IN statement is built for every count the allocator accepts, zero included. */
  method BuildLargeInQuery(valueCount: Word, largestBlock: nat) returns (sql: SqlBuffer?)
    ensures sql != null <==> valueCount <= MAX_ITEMS && BASE_CAPACITY + valueCount * ITEM_CAPACITY <= largestBlock
    ensures sql != null ==> fresh(sql) && sql.Valid() && sql.Contents() == Statement(IN_LIST, valueCount)
    ensures sql != null ==> sql.length < sql.data.Length && sql.data[sql.length] == '\0'
  {
    InListLimit();
    sql := BuildStatement(IN_LIST, valueCount, largestBlock);
  }

  /** The scalar projection outgrows its block past 111212 expressions. */
  method BuildScalarProjectionQuery(expressionCount: Word, largestBlock: nat) returns (sql: SqlBuffer?)
    ensures sql != null <==>
              expressionCount <= 111_212 && BASE_CAPACITY + expressionCount * ITEM_CAPACITY <= largestBlock
    ensures sql != null ==> fresh(sql) && sql.Valid() && sql.Contents() == Statement(SCALAR, expressionCount)
  {
    ScalarLimit();
    sql := BuildStatement(SCALAR, expressionCount, largestBlock);
  }

  // ----- the OR statement

  lemma Pow10Of18()
    ensures Pow10(18) == 1_000_000_000_000_000_000
  {
    assert Pow10(6) == 1_000_000;
    assert Pow10(12) == 1_000_000_000_000;
  }

  /** n leaves and n - 1 inner nodes over numbers of at most 18 digits. */
  lemma {:induction false} OrTextLength(first: Word, count: nat, limit: Word)
    requires 1 <= count && first + count <= limit
    requires forall n: nat :: n < limit ==> |Digits(n)| <= 18
    ensures |OrText(first, count)| <= 29 * count - 6
    decreases count
  {
    if count > 1 {
      OrTextLength(first, count / 2, limit);
      OrTextLength((first + count / 2) % WORD_LIMIT, count - count / 2, limit);
    }
  }

  lemma EighteenDigits(n: nat)
    requires n <= MAX_ITEMS
    ensures |Digits(n)| <= 18
  {
    Pow10Of18();
    DigitsLength(n, 18);
  }

  /** The OR statement is built for every count the allocator accepts except zero: the block never
      runs out. */
  method BuildLargeOrQuery(termCount: Word, largestBlock: nat) returns (sql: SqlBuffer?)
    ensures sql != null <==>
              && 1 <= termCount <= MAX_ITEMS
              && BASE_CAPACITY + termCount * ITEM_CAPACITY <= largestBlock
    ensures sql != null ==> fresh(sql) && sql.Valid() && sql.Contents() == OR_PREFIX + OrText(0, termCount)
    ensures sql != null ==> sql.length < sql.data.Length && sql.data[sql.length] == '\0'
  {
    sql := AllocateGeneratedSql(termCount, largestBlock);
    if sql == null {
      return;
    }
    var ok := sql.Append(OR_PREFIX);
    assert ok;
    ghost var peak;
    if termCount > 0 {
      forall n: nat | n < termCount
        ensures |Digits(n)| <= 18
      {
        EighteenDigits(n);
      }
      OrTextLength(0, termCount, termCount);
    }
    ok, peak := AppendBalancedOr(sql, 0, termCount);
    if !ok {
      sql := null;
    }
  }
}
