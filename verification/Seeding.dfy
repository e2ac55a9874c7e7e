/** Seeding the large-dataset tables under their declared keys, and the parameters bound against the
    seeded rows. */
module Seeding {
  import opened Words

  const MINIMUM_ACCOUNTS: nat := 100
  const MINIMUM_TAGS: nat := 100
  const MAXIMUM_TAGS: nat := 2000
  const ROWS_PER_ACCOUNT: nat := 100
  const REGIONS: nat := 32
  const FANOUT_PARENTS: nat := 100
  const BASIS_POINTS: nat := 10000

  function AccountCount(rows: nat): nat {
    if rows / ROWS_PER_ACCOUNT < MINIMUM_ACCOUNTS then MINIMUM_ACCOUNTS else rows / ROWS_PER_ACCOUNT
  }

  function TagCount(rows: nat): nat {
    var count := rows / ROWS_PER_ACCOUNT;
    if count < MINIMUM_TAGS then MINIMUM_TAGS else if count > MAXIMUM_TAGS then MAXIMUM_TAGS else count
  }

  function FanoutParentCount(rows: nat): nat {
    if rows < FANOUT_PARENTS then rows else FANOUT_PARENTS
  }

  /** At least 100 accounts, and one for every 100 rows beyond. */
  lemma AccountCounts(rows: nat)
    ensures AccountCount(rows) >= 100
    ensures rows < 10_100 ==> AccountCount(rows) == 100
    ensures rows >= 10_000 ==> AccountCount(rows) * 100 <= rows < (AccountCount(rows) + 1) * 100
  {
  }

  /** One tag for every 100 rows, but from 100 to 2000 of them. */
  lemma TagCounts(rows: nat)
    ensures 100 <= TagCount(rows) <= 2000
    ensures rows < 10_100 ==> TagCount(rows) == 100
    ensures rows >= 200_000 ==> TagCount(rows) == 2000
    ensures 10_000 <= rows < 200_100 ==> TagCount(rows) * 100 <= rows < (TagCount(rows) + 1) * 100
  {
  }

  lemma FanoutParentCounts(rows: nat)
    ensures rows <= 100 ==> FanoutParentCount(rows) == rows
    ensures rows >= 100 ==> FanoutParentCount(rows) == 100
  {
  }

  /** A table with a primary key. An insert is refused when it repeats a key or its foreign key has no
      row to point to. */
  class Table<K(==), V> {
    var rows: map<K, V>

    constructor ()
      ensures rows == map[]
    {
      rows := map[];
    }

    method Insert(key: K, value: V, parentExists: bool) returns (ok: bool)
      modifies this
      ensures ok <==> key !in old(rows) && parentExists
      ensures rows == if ok then old(rows)[key := value] else old(rows)
    {
      ok := key !in rows && parentExists;
      if ok {
        rows := rows[key := value];
      }
    }
  }

  // ----- what the tables hold

  predicate InRange(id: nat, n: nat) {
    1 <= id <= n
  }

  /** Which parent child id is given when p parents take turns. */
  function ParentOf(id: nat, p: nat): nat
    requires id >= 1 && p >= 1
  {
    (id - 1) % p + 1
  }

  lemma ParentInRange(id: nat, p: nat)
    requires id >= 1 && p >= 1
    ensures InRange(ParentOf(id, p), p)
  {
  }

  /** Exactly the keys 1 to n, each with the value f gives it. */
  ghost predicate Holds<V>(rows: map<nat, V>, n: nat, f: nat -> V) {
    forall id: nat :: (id in rows <==> InRange(id, n)) && (id in rows ==> rows[id] == f(id))
  }

  ghost predicate HoldsPairs(rows: map<(nat, nat), nat>, n: nat, second: nat -> nat) {
    forall a: nat, b: nat :: (a, b) in rows <==> InRange(a, n) && b == second(a)
  }

  /** Ids are bound as int64. The binding keeps keys apart and parents with their children for every
      size_t id, also where it turns large ids negative. */
  lemma BindingKeepsKeys(id: Word, other: Word)
    ensures AsInt64(id) == AsInt64(other) <==> id == other
  {
  }

  // ----- row counts

  lemma {:induction false} RangeCount(keys: set<nat>, n: nat)
    requires forall id: nat :: id in keys <==> InRange(id, n)
    ensures |keys| == n
    decreases n
  {
    if n == 0 {
      assert keys == {};
    } else {
      RangeCount(keys - {n}, n - 1);
      assert keys == (keys - {n}) + {n};
    }
  }

  lemma HoldsCount<V>(rows: map<nat, V>, n: nat, f: nat -> V)
    requires Holds(rows, n, f)
    ensures |rows| == n
  {
    RangeCount(rows.Keys, n);
  }

  lemma {:induction false} PairCount(keys: set<(nat, nat)>, n: nat, second: nat -> nat)
    requires forall a: nat, b: nat :: (a, b) in keys <==> InRange(a, n) && b == second(a)
    ensures |keys| == n
    decreases n
  {
    if n == 0 {
      assert forall k :: k in keys ==> k == (k.0, k.1);
    } else {
      var last := (n, second(n));
      PairCount(keys - {last}, n - 1, second);
      assert keys == (keys - {last}) + {last};
    }
  }

  lemma HoldsPairsCount(rows: map<(nat, nat), nat>, n: nat, second: nat -> nat)
    requires HoldsPairs(rows, n, second)
    ensures |rows| == n
  {
    PairCount(rows.Keys, n, second);
  }

  // ----- the seed loops; each reports whether every insert was accepted

  /** Inserts keys 1 to n into an empty table whose rows point nowhere. */
  method SeedParents<V>(table: Table<nat, V>, n: nat, f: nat -> V) returns (accepted: bool)
    requires table.rows == map[]
    modifies table
    ensures accepted && Holds(table.rows, n, f)
  {
    accepted := true;
    for id := 1 to n + 1
      invariant accepted && Holds(table.rows, id - 1, f)
    {
      accepted := table.Insert(id, f(id), true);
    }
  }

  /** The region of an account, also the shard of a composite parent. */
  function RegionOf(id: nat): nat {
    id % REGIONS
  }

  /** Regions and shards are numbered 0 to 31 in turn. */
  lemma RegionsCycle(id: nat)
    ensures RegionOf(id) < 32 && (id < 32 ==> RegionOf(id) == id) && RegionOf(id + 32) == RegionOf(id)
  {
  }

  function TagAmong(tags: nat): nat -> nat
    requires tags >= 1
  {
    id => id % tags
  }

  function Same(id: nat): nat {
    id
  }

  /** Columns nothing points to are not told apart. */
  function Plain(id: nat): nat {
    0
  }

  function Dealt(p: nat): nat -> nat
    requires p >= 1
  {
    id => if id >= 1 then ParentOf(id, p) else 0
  }

  /** Inserts children 1 to n, dealt out over the parents in turn. */
  method SeedChildren(children: Table<nat, nat>, parents: Table<nat, nat>, n: nat, p: nat) returns (accepted: bool)
    requires children.rows == map[] && p >= 1 && children != parents
    requires forall id: nat :: InRange(id, p) ==> id in parents.rows
    modifies children
    ensures accepted && Holds(children.rows, n, Dealt(p))
  {
    accepted := true;
    for id := 1 to n + 1
      invariant parents.rows == old(parents.rows)
      invariant accepted && Holds(children.rows, id - 1, Dealt(p))
    {
      ParentInRange(id, p);
      accepted := children.Insert(id, ParentOf(id, p), ParentOf(id, p) in parents.rows);
    }
  }

  /** Inserts the tag rows (id, tag) of the items 1 to n. */
  method SeedTags(tags: Table<(nat, nat), nat>, items: Table<nat, nat>, n: nat, tagOf: nat -> nat)
    returns (accepted: bool)
    requires tags.rows == map[] && forall id: nat :: InRange(id, n) ==> id in items.rows
    modifies tags
    ensures accepted && HoldsPairs(tags.rows, n, tagOf)
  {
    accepted := true;
    ghost var before := items.rows;
    for id := 1 to n + 1
      invariant items.rows == before
      invariant accepted && HoldsPairs(tags.rows, id - 1, tagOf)
    {
      accepted := tags.Insert((id, tagOf(id)), 0, id in items.rows);
    }
  }

  /** Upsert targets and composite parents in one loop. */
  method SeedUpsertAndComposite(n: nat)
    returns (targets: map<nat, nat>, composite: map<(nat, nat), nat>, accepted: bool)
    ensures accepted && Holds(targets, n, Plain) && HoldsPairs(composite, n, RegionOf)
  {
    var targetTable := new Table<nat, nat>();
    var compositeTable := new Table<(nat, nat), nat>();
    accepted := true;
    for id := 1 to n + 1
      invariant accepted && Holds(targetTable.rows, id - 1, Plain)
      invariant HoldsPairs(compositeTable.rows, id - 1, RegionOf)
    {
      var first := targetTable.Insert(id, 0, true);
      var second := compositeTable.Insert((id, RegionOf(id)), 0, true);
      accepted := first && second;
    }
    return targetTable.rows, compositeTable.rows, accepted;
  }

  /** Restrict tables: every parent but the last gets one child. */
  method SeedRestrict(p: nat) returns (parents: map<nat, nat>, children: map<nat, nat>, accepted: bool)
    ensures accepted <==> p >= 1
    ensures accepted ==> Holds(parents, p, Plain) && Holds(children, p - 1, Same)
  {
    if p == 0 {
      return map[], map[], false;
    }
    var parentTable := new Table<nat, nat>();
    var childTable := new Table<nat, nat>();
    accepted := true;
    for id := 1 to p + 1
      invariant accepted && Holds(parentTable.rows, id - 1, Plain)
      invariant Holds(childTable.rows, if id <= p then id - 1 else p - 1, Same)
    {
      accepted := parentTable.Insert(id, 0, true);
      if id < p {
        var child := childTable.Insert(id, id, id in parentTable.rows);
        accepted := accepted && child;
      }
    }
    return parentTable.rows, childTable.rows, accepted;
  }

  /** What every seeded table holds. */
  datatype Dataset = Dataset(
    accounts: map<nat, nat>,
    items: map<nat, nat>,
    itemTags: map<(nat, nat), nat>,
    upsertTargets: map<nat, nat>,
    compositeParents: map<(nat, nat), nat>,
    fanoutParents: map<nat, nat>,
    fanoutChildren: map<nat, nat>,
    restrictParents: map<nat, nat>,
    restrictChildren: map<nat, nat>,
    setNullParents: map<nat, nat>,
    setNullChildren: map<nat, nat>
  )

  ghost predicate Seeded(d: Dataset, rows: nat)
    requires rows >= 1
  {
    var a, p := AccountCount(rows), FanoutParentCount(rows);
    && Holds(d.accounts, a, RegionOf)
    && Holds(d.items, rows, Dealt(a))
    && HoldsPairs(d.itemTags, rows, TagAmong(TagCount(rows)))
    && Holds(d.upsertTargets, a, Plain)
    && HoldsPairs(d.compositeParents, a, RegionOf)
    && Holds(d.fanoutParents, p, Plain) && Holds(d.fanoutChildren, rows, Dealt(p))
    && Holds(d.restrictParents, p, Plain) && Holds(d.restrictChildren, p - 1, Same)
    && Holds(d.setNullParents, p, Plain) && Holds(d.setNullChildren, rows, Dealt(p))
  }

  /** Accounts, their items dealt out in turn, and one tag for each item. */
  method SeedItems(rows: nat, a: nat, tags: nat)
    returns (accounts: map<nat, nat>, items: map<nat, nat>, itemTags: map<(nat, nat), nat>, accepted: bool)
    requires a >= 1 && tags >= 1
    ensures accepted
    ensures Holds(accounts, a, RegionOf) && Holds(items, rows, Dealt(a)) && HoldsPairs(itemTags, rows, TagAmong(tags))
  {
    var accountTable := new Table<nat, nat>();
    var itemTable := new Table<nat, nat>();
    var tagTable := new Table<(nat, nat), nat>();
    var accountsOk := SeedParents(accountTable, a, RegionOf);
    var itemsOk := SeedChildren(itemTable, accountTable, rows, a);
    var tagsOk := SeedTags(tagTable, itemTable, rows, TagAmong(tags));
    return accountTable.rows, itemTable.rows, tagTable.rows, accountsOk && itemsOk && tagsOk;
  }

  /** Seeds everything in the benchmark's order. No insert ever breaks a declared primary or foreign
      key; the only refusal is that of no rows at all, which leaves the fan-out tables no parent. */
  method SeedAll(rows: nat) returns (d: Dataset, accepted: bool)
    ensures accepted <==> rows >= 1
    ensures accepted ==> Seeded(d, rows)
  {
    var a, p := AccountCount(rows), FanoutParentCount(rows);
    var accounts, items, itemTags, itemsOk := SeedItems(rows, a, TagCount(rows));
    var targets, composite, compositeOk := SeedUpsertAndComposite(a);
    var fanoutParents, fanoutChildren, fanoutOk := SeedFanout(rows, p);
    var restrictParents, restrictChildren, restrictOk := SeedRestrict(p);
    var setNullParents, setNullChildren, setNullOk := SeedFanout(rows, p);
    accepted := itemsOk && compositeOk && fanoutOk && restrictOk && setNullOk;
    d := Dataset(accounts, items, itemTags, targets, composite, fanoutParents, fanoutChildren,
                 restrictParents, restrictChildren, setNullParents, setNullChildren);
  }

  /** The fan-out and set-null pairs of tables are seeded alike. */
  method SeedFanout(rows: nat, p: nat) returns (parents: map<nat, nat>, children: map<nat, nat>, accepted: bool)
    ensures accepted <==> p >= 1
    ensures accepted ==> Holds(parents, p, Plain) && Holds(children, rows, Dealt(p))
  {
    if p == 0 {
      return map[], map[], false;
    }
    var parentTable := new Table<nat, nat>();
    var childTable := new Table<nat, nat>();
    var parentsOk := SeedParents(parentTable, p, Plain);
    var childrenOk := SeedChildren(childTable, parentTable, rows, p);
    return parentTable.rows, childTable.rows, parentsOk && childrenOk;
  }

  /** The counts the verification query expects are the counts seeding gives. */
  lemma SeededCounts(d: Dataset, rows: nat)
    requires rows >= 1 && Seeded(d, rows)
    ensures |d.accounts| == |d.upsertTargets| == |d.compositeParents| == AccountCount(rows)
    ensures |d.items| == |d.itemTags| == |d.fanoutChildren| == |d.setNullChildren| == rows
    ensures |d.fanoutParents| == |d.restrictParents| == |d.setNullParents| == FanoutParentCount(rows)
    ensures |d.restrictChildren| == FanoutParentCount(rows) - 1
  {
    var a, p := AccountCount(rows), FanoutParentCount(rows);
    HoldsCount(d.accounts, a, RegionOf);
    HoldsCount(d.items, rows, Dealt(a));
    HoldsPairsCount(d.itemTags, rows, TagAmong(TagCount(rows)));
    HoldsCount(d.upsertTargets, a, Plain);
    HoldsPairsCount(d.compositeParents, a, RegionOf);
    HoldsCount(d.fanoutParents, p, Plain);
    HoldsCount(d.fanoutChildren, rows, Dealt(p));
    HoldsCount(d.restrictParents, p, Plain);
    HoldsCount(d.restrictChildren, p - 1, Same);
    HoldsCount(d.setNullParents, p, Plain);
    HoldsCount(d.setNullChildren, rows, Dealt(p));
  }

  // ----- fan-out

  /** Children among the first n whose parent is k. */
  ghost function ChildrenOf(parent: nat -> nat, n: nat, k: nat): nat {
    if n == 0 then 0 else ChildrenOf(parent, n - 1, k) + (if parent(n) == k then 1 else 0)
  }

  /** The rows of a table that point to k. */
  ghost function PointingTo(children: map<nat, nat>, k: nat): set<nat> {
    set id | id in children && children[id] == k
  }

  /** It counts the rows of the table that point to k. */
  lemma {:induction false} RowsPointingTo(children: map<nat, nat>, parent: nat -> nat, n: nat, k: nat)
    requires Holds(children, n, parent)
    ensures |PointingTo(children, k)| == ChildrenOf(parent, n, k)
    decreases n
  {
    if n == 0 {
      assert PointingTo(children, k) == {};
    } else {
      var fewer := children - {n};
      RowsPointingTo(fewer, parent, n - 1, k);
      assert children[n] == parent(n);
      if parent(n) == k {
        assert PointingTo(children, k) == PointingTo(fewer, k) + {n};
      } else {
        assert PointingTo(children, k) == PointingTo(fewer, k);
      }
    }
  }

  lemma Multiples(e: int, p: nat)
    ensures e > 0 ==> e * p >= p
    ensures e < 0 ==> e * p <= -(p as int)
  {
    if e < 0 {
      assert e * p == -((-e - 1) * p) - p;
    }
  }

  lemma QuotientIs(x: nat, p: nat, q: nat, r: nat)
    requires p > 0 && x == q * p + r && r < p
    ensures x / p == q && x % p == r
  {
    var e := x / p - q;
    assert x == (x / p) * p + x % p;
    assert (x / p) * p == q * p + e * p;
    Multiples(e, p);
  }

  /** Counting on by one moves the remainder up, or wraps it and moves the quotient. */
  lemma CountOn(n: nat, p: nat)
    requires p >= 1
    ensures var q, r := n / p, n % p;
            if r + 1 < p then (n + 1) / p == q && (n + 1) % p == r + 1 else (n + 1) / p == q + 1 && (n + 1) % p == 0
  {
    var q, r := n / p, n % p;
    assert n == q * p + r;
    if r + 1 < p {
      QuotientIs(n + 1, p, q, r + 1);
    } else {
      assert (q + 1) * p == q * p + p;
      QuotientIs(n + 1, p, q + 1, 0);
    }
  }

  /** Dealing n children over p parents in turn gives parent k one child a round: its share is exactly
      the number of rounds that reached it. */
  lemma {:induction false} DealtEvenly(n: nat, p: nat, k: nat)
    requires p >= 1 && InRange(k, p)
    ensures ChildrenOf(Dealt(p), n, k) == n / p + (if k <= n % p then 1 else 0)
  {
    if n == 0 {
      QuotientIs(0, p, 0, 0);
    } else {
      DealtEvenly(n - 1, p, k);
      CountOn(n - 1, p);
    }
  }

  lemma RoundedUp(n: nat, p: nat)
    requires p >= 1
    ensures (n + p - 1) / p == n / p + (if n % p == 0 then 0 else 1)
  {
    var q, r := n / p, n % p;
    assert n == q * p + r;
    if r == 0 {
      QuotientIs(n + p - 1, p, q, p - 1);
    } else {
      assert (q + 1) * p == q * p + p;
      QuotientIs(n + p - 1, p, q + 1, r - 1);
    }
  }

  /** So every share is the quotient rounded down or up. */
  lemma SharesAreBalanced(n: nat, p: nat, k: nat)
    requires p >= 1 && InRange(k, p)
    ensures n / p <= ChildrenOf(Dealt(p), n, k) <= (n + p - 1) / p
  {
    DealtEvenly(n, p, k);
    RoundedUp(n, p);
  }

  /** In a table of n children dealt over p parents, each parent has the quotient of children, rounded
      down or up. */
  lemma FanoutShares(children: map<nat, nat>, n: nat, p: nat, k: nat)
    requires p >= 1 && Holds(children, n, Dealt(p)) && InRange(k, p)
    ensures n / p <= |PointingTo(children, k)| <= (n + p - 1) / p
  {
    RowsPointingTo(children, Dealt(p), n, k);
    SharesAreBalanced(n, p, k);
  }

  /** Every restrict parent but the last has exactly one child, the last none. */
  lemma RestrictShares(d: Dataset, rows: nat, k: nat)
    requires rows >= 1 && Seeded(d, rows) && k in d.restrictParents
    ensures PointingTo(d.restrictChildren, k) == if k < FanoutParentCount(rows) then {k} else {}
  {
  }

  /** The tag of an item is its number among the tags in turn. */
  lemma TagsCycle(tags: nat, id: nat)
    requires tags >= 1
    ensures TagAmong(tags)(id) < tags && (id < tags ==> TagAmong(tags)(id) == id)
    ensures TagAmong(tags)(id + tags) == TagAmong(tags)(id)
  {
    var q, r := id / tags, id % tags;
    assert id == q * tags + r;
    assert (q + 1) * tags == q * tags + tags;
    QuotientIs(id + tags, tags, q + 1, r);
    if id < tags {
      QuotientIs(id, tags, 0, id);
    }
  }

  // ----- bound parameters

  /** An id picked by remainder is the id of a row. */
  function Wrapped(x: nat, n: nat): nat
    requires n >= 1
  {
    x % n + 1
  }

  lemma WrappedInRange(x: nat, n: nat)
    requires n >= 1
    ensures InRange(Wrapped(x, n), n)
  {
  }

  /** The foreign-key scenarios bind parents that exist, except where an error is wanted: the restrict
      scenario deletes a parent without children, the valid composite key has its parent and the
      invalid one never does. */
  lemma ForeignKeyBindings(d: Dataset, rows: nat, pseudoRandom: nat, iteration: nat)
    requires rows >= 1 && Seeded(d, rows)
    ensures Wrapped(pseudoRandom, rows) in d.items
    ensures Wrapped(iteration, FanoutParentCount(rows)) in d.fanoutParents &&
              Wrapped(iteration, FanoutParentCount(rows)) in d.setNullParents
    ensures FanoutParentCount(rows) in d.restrictParents
    ensures forall child :: child in d.restrictChildren ==> d.restrictChildren[child] != FanoutParentCount(rows)
    ensures var parent := Wrapped(pseudoRandom, AccountCount(rows));
            (parent, RegionOf(parent)) in d.compositeParents && (parent, REGIONS) !in d.compositeParents
  {
    WrappedInRange(pseudoRandom, rows);
    WrappedInRange(iteration, FanoutParentCount(rows));
    WrappedInRange(pseudoRandom, AccountCount(rows));
  }

  /** The size computation multiplies in size_t, so the product wraps. */
  function RangeSize(rows: nat, basisPoints: nat): nat {
    var count := rows * basisPoints % WORD_LIMIT / BASIS_POINTS;
    if count == 0 then 1 else count
  }

  /** The selectivity's share of the rows, rounded down but at least one. */
  function RangeShare(rows: nat, basisPoints: nat): nat {
    var share := rows * basisPoints / BASIS_POINTS;
    if share == 0 then 1 else share
  }

  /** Wrapping a number lowers it, and then lowers its quotient too. */
  lemma WrapsDown(x: nat)
    ensures x % WORD_LIMIT <= x
    ensures x < WORD_LIMIT ==> x % WORD_LIMIT == x
    ensures x >= WORD_LIMIT ==> x % WORD_LIMIT / BASIS_POINTS < x / BASIS_POINTS && x / BASIS_POINTS > 1
  {
    if x >= WORD_LIMIT {
      assert x % WORD_LIMIT <= x - WORD_LIMIT;
    }
  }

  /** Wrapped or not, the size is at least one and fits the rows. */
  lemma RangeSizeBounds(rows: nat, basisPoints: nat)
    requires rows >= 1 && basisPoints <= BASIS_POINTS
    ensures 1 <= RangeSize(rows, basisPoints) <= RangeShare(rows, basisPoints) <= rows
  {
    var product := rows * basisPoints;
    assert product <= rows * BASIS_POINTS;
    WrapsDown(product);
  }

  /** The size is the selectivity's share of the rows exactly when its product fits size_t. */
  lemma RangeSizeExactly(rows: nat, basisPoints: nat)
    ensures RangeSize(rows, basisPoints) == RangeShare(rows, basisPoints) <==> rows * basisPoints < WORD_LIMIT
  {
    WrapsDown(rows * basisPoints);
  }

  /** The fewest rows whose full selectivity wraps: one row is selected instead of all. */
  lemma RangeSizeWraps()
    ensures var rows := 1_844_674_407_370_956;
            && RangeSize(rows, BASIS_POINTS) == 1 && RangeShare(rows, BASIS_POINTS) == rows
            && (rows - 1) * BASIS_POINTS < WORD_LIMIT
  {
  }

  lemma {:induction false} SpanSize(keys: set<nat>, lower: nat, count: nat)
    requires count >= 1 && forall id: nat :: lower <= id <= lower + count - 1 ==> id in keys
    ensures |set id | id in keys && lower <= id <= lower + count - 1| == count
  {
    var span := set id | id in keys && lower <= id <= lower + count - 1;
    if count == 1 {
      assert span == {lower};
    } else {
      SpanSize(keys, lower, count - 1);
      assert span == (set id | id in keys && lower <= id <= lower + (count - 1) - 1) + {lower + count - 1};
    }
  }

  /** An id-range binding lies inside 1 to rows and selects exactly the computed number of items. */
  lemma RangeBinding(items: map<nat, nat>, parent: nat -> nat, rows: nat, basisPoints: nat, scrambled: nat)
    requires rows >= 1 && basisPoints <= BASIS_POINTS && Holds(items, rows, parent)
    ensures var count := RangeSize(rows, basisPoints);
            && 1 <= count <= rows
            && var lower := Wrapped(scrambled, rows - count + 1);
            && var upper := lower + count - 1;
            && 1 <= lower <= upper <= rows
            && |set id | id in items && lower <= id <= upper| == count
  {
    RangeSizeBounds(rows, basisPoints);
    BindingSelects(items, parent, rows, RangeSize(rows, basisPoints), scrambled);
  }

  lemma BindingSelects(items: map<nat, nat>, parent: nat -> nat, rows: nat, count: nat, scrambled: nat)
    requires 1 <= count <= rows && Holds(items, rows, parent)
    ensures var lower := Wrapped(scrambled, rows - count + 1);
            && var upper := lower + count - 1;
            && 1 <= lower <= upper <= rows
            && |set id | id in items && lower <= id <= upper| == count
  {
    var lower := Wrapped(scrambled, rows - count + 1);
    WrappedInRange(scrambled, rows - count + 1);
    SpanSize(items.Keys, lower, count);
    assert (set id | id in items && lower <= id <= lower + count - 1)
        == (set id | id in items.Keys && lower <= id <= lower + count - 1);
  }
}
