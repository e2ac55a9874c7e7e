/** What the generated predicates mean: an independent reader for the two predicate shapes, and the
    set of ids each text selects. */
module PredicateMeaning {
  import opened Sequences
  import opened Decimal
  import opened Words
  import opened BalancedOr
  import opened LargeQueries

  datatype Predicate = Equals(id: nat) | Or(left: Predicate, right: Predicate)

  /** SQL truth of the predicate for a row. */
  predicate Holds(p: Predicate, id: int) {
    match p
    case Equals(k) => id == k
    case Or(l, r) => Holds(l, id) || Holds(r, id)
  }

  function Leaves(p: Predicate): nat {
    if p.Equals? then 1 else Leaves(p.left) + Leaves(p.right)
  }

  function Levels(p: Predicate): nat {
    if p.Equals? then 1 else 1 + Max(Levels(p.left), Levels(p.right))
  }

  /** Every inner node's subtrees differ by at most one term. */
  predicate Balanced(p: Predicate) {
    p.Or? ==>
      && Balanced(p.left) && Balanced(p.right)
      && Leaves(p.left) <= Leaves(p.right) <= Leaves(p.left) + 1
  }

  /** The grammar: a comparison, or a parenthesised disjunction of two predicates. */
  function Print(p: Predicate): string {
    match p
    case Equals(k) => "id = " + Digits(k)
    case Or(l, r) => "(" + Print(l) + " OR " + Print(r) + ")"
  }

  datatype Parsed = Failed | Parsed(tree: Predicate, rest: string)

  /** A reader of that grammar that knows nothing of the generator. */
  function Parse(s: string): (r: Parsed)
    ensures r.Parsed? ==> |r.rest| < |s|
    decreases |s|
  {
    if "id = " <= s then
      var k := DigitRun(s[5..]);
      if k == 0 then Failed else Parsed(Equals(Value(s[5..][..k])), s[5 + k..])
    else if "(" <= s then
      var left := Parse(s[1..]);
      if left.Failed? || !(" OR " <= left.rest) then Failed else
      var right := Parse(left.rest[4..]);
      if right.Failed? || !(")" <= right.rest) then Failed else
      Parsed(Or(left.tree, right.tree), right.rest[1..])
    else Failed
  }

  lemma ParseEquals(k: nat, rest: string)
    requires rest == "" || !IsDigit(rest[0])
    ensures Parse("id = " + (Digits(k) + rest)) == Parsed(Equals(k), rest)
  {
    var ds := Digits(k);
    var s := "id = " + (ds + rest);
    assert s[5..] == ds + rest;
    DigitRunOfPrefix(ds, rest);
    assert (ds + rest)[..|ds|] == ds;
    ValueOfDigits(k);
    assert s[5 + |ds|..] == rest;
  }

  /** How the reader takes a parenthesised text apart. */
  lemma {:induction false} ParseOr(s: string, l: Predicate, afterLeft: string, r: Predicate, afterRight: string)
    requires Parse(s) == Parsed(l, " OR " + afterLeft)
    requires Parse(afterLeft) == Parsed(r, ")" + afterRight)
    ensures Parse("(" + s) == Parsed(Or(l, r), afterRight)
  {
    var t := "(" + s;
    assert t[0] == '(' && t[1..] == s;
    assert !("id = " <= t);
    PrefixTaken(" OR ", afterLeft);
    PrefixTaken(")", afterRight);
  }

  lemma PrefixTaken(prefix: string, rest: string)
    ensures prefix <= prefix + rest && (prefix + rest)[|prefix|..] == rest
  {
  }

  /** The reader undoes the printer, whatever follows the printed text. */
  lemma {:induction false} ParsePrint(p: Predicate, rest: string)
    requires rest == "" || !IsDigit(rest[0])
    ensures Parse(Print(p) + rest) == Parsed(p, rest)
  {
    match p
    case Equals(k) =>
      ParseEquals(k, rest);
      Regroup("id = ", Digits(k), rest);
    case Or(l, r) =>
      var afterRight := ")" + rest;
      var afterLeft := Print(r) + afterRight;
      ParsePrint(r, afterRight);
      ParsePrint(l, " OR " + afterLeft);
      ParseOr(Print(l) + (" OR " + afterLeft), l, afterLeft, r, rest);
      PrintOrThen(Print(l), Print(r), rest);
  }

  lemma PrintOrThen(l: string, r: string, rest: string)
    ensures "(" + l + " OR " + r + ")" + rest == "(" + (l + (" OR " + (r + (")" + rest))))
  {
  }

  lemma {:induction false} PrintInjective(p: Predicate, q: Predicate)
    requires Print(p) == Print(q)
    ensures p == q
  {
    ParsePrint(p, "");
    ParsePrint(q, "");
    assert Print(p) + "" == Print(p) && Print(q) + "" == Print(q);
  }

  /** The tree over count consecutive terms, split in half at every node. */
  function BalancedTree(first: Word, count: nat): Predicate
    requires 1 <= count
    decreases count
  {
    if count == 1 then Equals(first)
    else Or(BalancedTree(first, count / 2),
            BalancedTree((first + count / 2) % WORD_LIMIT, count - count / 2))
  }

  lemma {:induction false} OrTextIsPrinted(first: Word, count: nat)
    requires 1 <= count
    ensures OrText(first, count) == Print(BalancedTree(first, count))
    decreases count
  {
    if count > 1 {
      OrTextIsPrinted(first, count / 2);
      OrTextIsPrinted((first + count / 2) % WORD_LIMIT, count - count / 2);
    }
  }

  /** A tree that halves its terms at every node. */
  predicate Halves(t: Predicate, count: nat) {
    match t
    case Equals(_) => count == 1
    case Or(l, r) => count > 1 && Halves(l, count / 2) && Halves(r, count - count / 2)
  }

  lemma {:induction false} BalancedTreeHalves(first: Word, count: nat)
    requires 1 <= count
    ensures Halves(BalancedTree(first, count), count)
    decreases count
  {
    if count > 1 {
      BalancedTreeHalves(first, count / 2);
      BalancedTreeHalves((first + count / 2) % WORD_LIMIT, count - count / 2);
    }
  }

  lemma {:induction false} HalvesLeaves(t: Predicate, count: nat)
    requires Halves(t, count)
    ensures Leaves(t) == count >= 1 && Balanced(t)
  {
    if t.Or? {
      HalvesLeaves(t.left, count / 2);
      HalvesLeaves(t.right, count - count / 2);
    }
  }

  lemma {:induction false} HalvesLevels(t: Predicate, count: nat)
    requires Halves(t, count) && count >= 1
    ensures Levels(t) == Depth(count)
  {
    if t.Or? {
      var half := count / 2;
      HalvesLevels(t.left, half);
      HalvesLevels(t.right, count - half);
      DepthMonotone(half, count - half);
      assert Depth(count) == 1 + Depth(count - half);
    }
  }

  lemma {:induction false} TreeShape(first: Word, count: nat)
    requires 1 <= count
    ensures var t := BalancedTree(first, count); Leaves(t) == count && Balanced(t) && Levels(t) == Depth(count)
  {
    BalancedTreeHalves(first, count);
    HalvesLeaves(BalancedTree(first, count), count);
    HalvesLevels(BalancedTree(first, count), count);
  }

  /** How far id lies after first on the wrapping circle of size_t values. */
  function Ahead(first: Word, id: Word): Word {
    if id >= first then id - first else id - first + WORD_LIMIT
  }

  function Advance(first: Word, steps: Word): Word {
    if first + steps < WORD_LIMIT then first + steps else first + steps - WORD_LIMIT
  }

  lemma AdvanceIsModular(first: Word, steps: Word)
    ensures (first + steps) % WORD_LIMIT == Advance(first, steps)
  {
  }

  lemma CircleSplits(first: Word, half: Word, count: nat, id: Word)
    requires half <= count <= WORD_LIMIT
    ensures Ahead(first, id) < count <==> Ahead(first, id) < half || Ahead(Advance(first, half), id) < count - half
  {
  }

  /** A tree over count terms from first holds of exactly the ids less than count places ahead. */
  lemma {:induction false} TreeHolds(first: Word, count: nat, id: int)
    requires 1 <= count <= WORD_LIMIT
    ensures Holds(BalancedTree(first, count), id) <==> 0 <= id < WORD_LIMIT && Ahead(first, id) < count
    decreases count
  {
    if count > 1 {
      var half := count / 2;
      AdvanceIsModular(first, half);
      TreeHolds(first, half, id);
      TreeHolds(Advance(first, half), count - half, id);
      if 0 <= id < WORD_LIMIT {
        CircleSplits(first, half, count, id);
      }
    }
  }

  /** The OR text has exactly one reading: a balanced tree of minimal height over the n terms, true
      of exactly the ids 0 to n - 1. */
  lemma LargeOrMeaning(n: nat)
    requires 1 <= n <= SIZE_MAX
    ensures var r := Parse(OrText(0, n));
            && r.Parsed? && r.rest == ""
            && Balanced(r.tree) && Leaves(r.tree) == n && Levels(r.tree) == Depth(n)
            && (forall id: int :: Holds(r.tree, id) <==> 0 <= id < n)
    ensures forall q :: Print(q) == OrText(0, n) ==> q == Parse(OrText(0, n)).tree
  {
    var t := BalancedTree(0, n);
    OrTextIsPrinted(0, n);
    ParsePrint(t, "");
    assert Print(t) + "" == Print(t);
    TreeShape(0, n);
    forall id: int
      ensures Holds(t, id) <==> 0 <= id < n
    {
      TreeHolds(0, n, id);
    }
    forall q | Print(q) == OrText(0, n)
      ensures q == t
    {
      PrintInjective(q, t);
    }
  }

  datatype ParsedList = BadList | ParsedList(values: seq<nat>)

  /** A reader of comma-separated numbers. */
  function ParseNumbers(s: string): ParsedList
    decreases |s|
  {
    var k := DigitRun(s);
    if k == 0 then BadList
    else if k == |s| then ParsedList([Value(s)])
    else if s[k] != ',' then BadList
    else
      var tail := ParseNumbers(s[k + 1..]);
      if tail.BadList? then BadList else ParsedList([Value(s[..k])] + tail.values)
  }

  lemma ParseOneNumber(k: nat)
    ensures ParseNumbers(Digits(k)) == ParsedList([k])
  {
    DigitRunOfPrefix(Digits(k), "");
    assert Digits(k) + "" == Digits(k);
    ValueOfDigits(k);
  }

  lemma ParseNumberThen(k: nat, tail: string)
    requires ParseNumbers(tail).ParsedList?
    ensures ParseNumbers(Digits(k) + ("," + tail)) == ParsedList([k] + ParseNumbers(tail).values)
  {
    var ds := Digits(k);
    var s := ds + ("," + tail);
    DigitRunOfPrefix(ds, "," + tail);
    assert s[..|ds|] == ds && s[|ds|] == ',' && s[|ds| + 1..] == tail;
    ValueOfDigits(k);
  }

  function UpTo(n: nat): (s: seq<nat>)
    ensures |s| == n
    ensures forall i :: 0 <= i < n ==> s[i] == i
  {
    if n == 0 then [] else UpTo(n - 1) + [n - 1]
  }

  /** The list between the parentheses of the IN statement. */
  ghost function IdList(n: nat): string {
    ItemList("", "", n)
  }

  lemma LastItem(n: nat)
    requires n >= 1
    ensures n == 1 ==> IdList(n) == Digits(n - 1)
    ensures n > 1 ==> IdList(n) == IdList(n - 1) + ("," + Digits(n - 1))
  {
    assert "" + Digits(n - 1) == Digits(n - 1);
    if n == 1 {
      assert "" + "" + Digits(0) == Digits(0);
    } else {
      Regroup(IdList(n - 1), ",", Digits(n - 1));
    }
  }

  lemma CommaShifts(items: string, last: string, tail: string)
    ensures (items + ("," + last)) + ("," + tail) == items + ("," + (last + ("," + tail)))
  {
    Regroup(items, "," + last, "," + tail);
    Regroup(",", last, "," + tail);
  }

  /** Reading a printed list gives 0, 1, ..., n - 1, followed by whatever list comes after it. */
  lemma {:induction false} ParseItemsThen(n: nat, tail: string)
    requires 1 <= n && ParseNumbers(tail).ParsedList?
    ensures ParseNumbers(IdList(n) + ("," + tail)) == ParsedList(UpTo(n) + ParseNumbers(tail).values)
  {
    var last, values := Digits(n - 1), ParseNumbers(tail).values;
    ParseNumberThen(n - 1, tail);
    LastItem(n);
    UpToStep(n, values);
    if n > 1 {
      ParseItemsThen(n - 1, last + ("," + tail));
      CommaShifts(IdList(n - 1), last, tail);
    }
  }

  lemma UpToStep(n: nat, values: seq<nat>)
    requires n >= 1
    ensures UpTo(n) + values == UpTo(n - 1) + ([n - 1] + values)
    ensures n == 1 ==> UpTo(n) == [0]
  {
    Regroup(UpTo(n - 1), [n - 1], values);
  }

  lemma {:induction false} ParseItems(n: nat)
    requires 1 <= n
    ensures ParseNumbers(IdList(n)) == ParsedList(UpTo(n))
  {
    LastItem(n);
    ParseOneNumber(n - 1);
    UpToStep(n, []);
    if n > 1 {
      ParseItemsThen(n - 1, Digits(n - 1));
    }
  }

  lemma {:induction false} InSelects(n: nat, id: int)
    requires 1 <= n
    ensures ParseNumbers(IdList(n)).ParsedList?
    ensures id in ParseNumbers(IdList(n)).values <==> 0 <= id < n
  {
    ParseItems(n);
    if 0 <= id < n {
      assert UpTo(n)[id] == id;
    }
  }

  lemma {:induction false} OrSelects(n: nat, id: int)
    requires 1 <= n <= SIZE_MAX
    ensures Parse(OrText(0, n)).Parsed? && Parse(OrText(0, n)).rest == ""
    ensures Holds(Parse(OrText(0, n)).tree, id) <==> 0 <= id < n
  {
    LargeOrMeaning(n);
  }
}
