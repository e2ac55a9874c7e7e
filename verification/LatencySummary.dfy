/** The latency summary of the durable benchmark: nearest-rank percentiles and the median absolute
    deviation. */
module LatencySummary {
  import opened Words

  const DEVIATION_SIZE: nat := 8

  // ----- sorting

  predicate Sorted(s: seq<nat>) {
    forall i, j :: 0 <= i <= j < |s| ==> s[i] <= s[j]
  }

  function Insert(x: nat, s: seq<nat>): seq<nat> {
    if s == [] || x <= s[0] then [x] + s else [s[0]] + Insert(x, s[1..])
  }

  /** What qsort with the integer comparison leaves behind. */
  function Sort(s: seq<nat>): seq<nat> {
    if s == [] then [] else Insert(s[0], Sort(s[1..]))
  }

  /** How many samples are less than v. */
  function Below(s: seq<nat>, v: nat): nat {
    if s == [] then 0 else (if s[0] < v then 1 else 0) + Below(s[1..], v)
  }

  /** How many samples are at most v. */
  function AtMost(s: seq<nat>, v: nat): nat {
    Below(s, v + 1)
  }

  lemma {:induction false} InsertKeeps(x: nat, s: seq<nat>)
    requires Sorted(s)
    ensures Sorted(Insert(x, s)) && |Insert(x, s)| == |s| + 1
    ensures Insert(x, s)[0] == if s == [] || x <= s[0] then x else s[0]
  {
    if s != [] && x > s[0] {
      InsertKeeps(x, s[1..]);
      SortedCons(s[0], Insert(x, s[1..]));
    } else {
      SortedCons(x, s);
    }
  }

  lemma SortedCons(x: nat, s: seq<nat>)
    requires Sorted(s) && (s == [] || x <= s[0])
    ensures Sorted([x] + s)
  {
  }

  lemma {:induction false} InsertPermutes(x: nat, s: seq<nat>)
    ensures multiset(Insert(x, s)) == multiset(s) + multiset{x}
  {
    if s != [] && x > s[0] {
      InsertPermutes(x, s[1..]);
      assert s == [s[0]] + s[1..];
    }
  }

  lemma {:induction false} InsertCounts(x: nat, s: seq<nat>, v: nat)
    ensures Below(Insert(x, s), v) == Below(s, v) + (if x < v then 1 else 0)
  {
    if s == [] || x <= s[0] {
      assert ([x] + s)[1..] == s;
    } else {
      InsertCounts(x, s[1..], v);
      assert ([s[0]] + Insert(x, s[1..]))[1..] == Insert(x, s[1..]);
    }
  }

  /** Sorting is a permutation, in order, that keeps every count. */
  lemma {:induction false} SortKeeps(s: seq<nat>)
    ensures Sorted(Sort(s)) && |Sort(s)| == |s| && multiset(Sort(s)) == multiset(s)
  {
    if s != [] {
      SortKeeps(s[1..]);
      InsertKeeps(s[0], Sort(s[1..]));
      InsertPermutes(s[0], Sort(s[1..]));
      assert s == [s[0]] + s[1..];
    }
  }

  lemma {:induction false} SortCounts(s: seq<nat>, v: nat)
    ensures Below(Sort(s), v) == Below(s, v)
  {
    if s != [] {
      SortCounts(s[1..], v);
      InsertCounts(s[0], Sort(s[1..]), v);
    }
  }

  // ----- ranks

  lemma {:induction false} BelowConcat(a: seq<nat>, b: seq<nat>, v: nat)
    ensures Below(a + b, v) == Below(a, v) + Below(b, v)
  {
    if a == [] {
      assert a + b == b;
    } else {
      assert (a + b)[1..] == a[1..] + b;
      BelowConcat(a[1..], b, v);
    }
  }

  lemma {:induction false} BelowBounds(s: seq<nat>, v: nat)
    ensures Below(s, v) <= |s|
    ensures (forall i :: 0 <= i < |s| ==> s[i] >= v) ==> Below(s, v) == 0
    ensures (forall i :: 0 <= i < |s| ==> s[i] < v) ==> Below(s, v) == |s|
  {
    if s != [] {
      BelowBounds(s[1..], v);
    }
  }

  /** In a sorted sequence at most k samples are below the one at index k. */
  lemma {:induction false} FewBelow(t: seq<nat>, k: nat)
    requires Sorted(t) && k < |t|
    ensures Below(t, t[k]) <= k
  {
    assert t == t[..k] + t[k..];
    BelowConcat(t[..k], t[k..], t[k]);
    BelowBounds(t[..k], t[k]);
    BelowBounds(t[k..], t[k]);
  }

  /** And more than k are at most it. */
  lemma {:induction false} ManyAtMost(t: seq<nat>, k: nat)
    requires Sorted(t) && k < |t|
    ensures AtMost(t, t[k]) >= k + 1
  {
    assert t == t[..k + 1] + t[k + 1..];
    BelowConcat(t[..k + 1], t[k + 1..], t[k] + 1);
    BelowBounds(t[..k + 1], t[k] + 1);
  }

  function Rank(count: nat, percent: nat): nat {
    (percent * count + 99) / 100
  }

  function PercentileIndex(count: nat, percent: nat): nat {
    if Rank(count, percent) == 0 then 0 else Rank(count, percent) - 1
  }

  lemma RankInRange(count: nat, percent: nat)
    requires count >= 1 && percent <= 100
    ensures PercentileIndex(count, percent) < count
    ensures percent >= 1 ==> percent * count <= 100 * (PercentileIndex(count, percent) + 1) < percent * count + 100
  {
    RankOf(percent * count, count, percent);
  }

  lemma RankOf(product: nat, count: nat, percent: nat)
    requires count >= 1 && percent <= 100 && product == percent * count
    ensures percent >= 1 ==> product >= count
    ensures product <= 100 * count
    ensures var rank := (product + 99) / 100; product <= 100 * rank < product + 100
  {
  }

  lemma RankMonotone(count: nat, p: nat, q: nat)
    requires p <= q
    ensures PercentileIndex(count, p) <= PercentileIndex(count, q)
  {
    assert p * count <= q * count;
  }

  function Percentile(t: seq<nat>, percent: nat): nat
    requires t != [] && percent <= 100
  {
    RankInRange(|t|, percent);
    t[PercentileIndex(|t|, percent)]
  }

  /** v is the p-th percentile of the samples: at least p percent of them are at most v, and fewer than
      p percent are below it. */
  predicate IsPercentile(samples: seq<nat>, percent: nat, v: nat) {
    100 * AtMost(samples, v) >= percent * |samples| && 100 * Below(samples, v) < percent * |samples|
  }

  /** The reported value of a sorted copy is a percentile of the samples themselves. */
  lemma {:induction false} PercentileExact(samples: seq<nat>, percent: nat)
    requires samples != [] && 1 <= percent <= 100
    ensures |Sort(samples)| == |samples| && IsPercentile(samples, percent, Percentile(Sort(samples), percent))
  {
    SortKeeps(samples);
    var t := Sort(samples);
    var k := PercentileIndex(|t|, percent);
    RankInRange(|t|, percent);
    FewBelow(t, k);
    ManyAtMost(t, k);
    SortCounts(samples, t[k]);
    SortCounts(samples, t[k] + 1);
  }

  /** No smaller and no larger value has the property: it determines the percentile. */
  lemma {:induction false} PercentileUnique(samples: seq<nat>, percent: nat, v: nat, w: nat)
    requires IsPercentile(samples, percent, v) && IsPercentile(samples, percent, w)
    ensures v == w
  {
    if v < w {
      BelowMonotone(samples, v + 1, w);
    } else if w < v {
      BelowMonotone(samples, w + 1, v);
    }
  }

  lemma {:induction false} BelowMonotone(s: seq<nat>, v: nat, w: nat)
    requires v <= w
    ensures Below(s, v) <= Below(s, w)
  {
    if s != [] {
      BelowMonotone(s[1..], v, w);
    }
  }

  // ----- the summary

  function Distance(x: nat, y: nat): nat {
    if x > y then x - y else y - x
  }

  function Deviations(s: seq<nat>, center: nat): (d: seq<nat>)
    ensures |d| == |s| && forall i :: 0 <= i < |s| ==> d[i] == Distance(s[i], center)
  {
    if s == [] then [] else [Distance(s[0], center)] + Deviations(s[1..], center)
  }

  lemma {:induction false} DeviationsOfInsert(x: nat, s: seq<nat>, center: nat, v: nat)
    ensures Below(Deviations(Insert(x, s), center), v)
         == Below(Deviations(s, center), v) + (if Distance(x, center) < v then 1 else 0)
  {
    if s == [] || x <= s[0] {
      assert ([x] + s)[1..] == s;
    } else {
      DeviationsOfInsert(x, s[1..], center, v);
      assert ([s[0]] + Insert(x, s[1..]))[1..] == Insert(x, s[1..]);
    }
  }

  lemma {:induction false} DeviationsOfSort(s: seq<nat>, center: nat, v: nat)
    ensures Below(Deviations(Sort(s), center), v) == Below(Deviations(s, center), v)
  {
    if s != [] {
      DeviationsOfSort(s[1..], center, v);
      DeviationsOfInsert(s[0], Sort(s[1..]), center, v);
    }
  }

  datatype Summary = Summary(minimum: nat, maximum: nat, p50: nat, p95: nat, p99: nat, deviation: nat,
                             perSecond: real, writesPerSecond: real)

  const NANOSECONDS: real := 1_000_000_000.0

  function Sum(s: seq<nat>): nat {
    if s == [] then 0 else s[0] + Sum(s[1..])
  }

  lemma {:induction false} SumOfInsert(x: nat, s: seq<nat>)
    ensures Sum(Insert(x, s)) == x + Sum(s)
  {
    if s == [] || x <= s[0] {
      assert ([x] + s)[1..] == s;
    } else {
      SumOfInsert(x, s[1..]);
      assert ([s[0]] + Insert(x, s[1..]))[1..] == Insert(x, s[1..]);
    }
  }

  lemma {:induction false} SumOfSort(s: seq<nat>)
    ensures Sum(Sort(s)) == Sum(s)
  {
    if s != [] {
      SumOfSort(s[1..]);
      SumOfInsert(s[0], Sort(s[1..]));
    }
  }

  lemma {:induction false} SumUpTo(s: seq<nat>, k: nat)
    requires k < |s|
    ensures Sum(s[..k + 1]) == Sum(s[..k]) + s[k]
  {
    if k > 0 {
      SumUpTo(s[1..], k - 1);
      assert s[..k + 1][1..] == s[1..][..k] && s[..k][1..] == s[1..][..k - 1];
    } else {
      assert s[..1][1..] == [];
    }
  }

  method SortInPlace(a: array<nat>)
    modifies a
    ensures a[..] == Sort(old(a[..]))
  {
    var sorted := Sort(a[..]);
    SortKeeps(a[..]);
    forall i | 0 <= i < a.Length {
      a[i] := sorted[i];
    }
    assert a[..] == sorted;
  }

  /** What a summary says about the samples. */
  ghost predicate Describes(samples: seq<nat>, r: Summary) {
    && r.minimum in samples && r.maximum in samples
    && (forall i :: 0 <= i < |samples| ==> r.minimum <= samples[i] <= r.maximum)
    && r.minimum <= r.p50 <= r.p95 <= r.p99 <= r.maximum
    && IsPercentile(samples, 50, r.p50) && IsPercentile(samples, 95, r.p95) && IsPercentile(samples, 99, r.p99)
    && IsPercentile(Deviations(samples, r.p50), 50, r.deviation)
  }

  /** The rates are those of the total time, as uint64 adds it up; without any time they are zero. */
  ghost predicate Rated(samples: seq<nat>, writes: nat, r: Summary) {
    AreRates(|samples|, writes, Sum(samples) % WORD_LIMIT, r.perSecond, r.writesPerSecond)
  }

  predicate AreRates(count: nat, writes: nat, total: nat, perSecond: real, writesPerSecond: real) {
    if total == 0 then perSecond == 0.0 && writesPerSecond == 0.0
    else
      && perSecond * (total as real) == (count as real) * NANOSECONDS
      && writesPerSecond == perSecond * (writes as real)
  }

  function SummaryOf(t: seq<nat>, deviation: nat, perSecond: real, writesPerSecond: real): Summary
    requires t != []
  {
    Summary(t[0], t[|t| - 1], Percentile(t, 50), Percentile(t, 95), Percentile(t, 99), deviation,
            perSecond, writesPerSecond)
  }

  lemma {:induction false} SummaryDescribes(samples: seq<nat>, t: seq<nat>, deviation: nat, perSecond: real,
                                            writesPerSecond: real)
    requires samples != [] && t == Sort(samples) && t != []
    requires IsPercentile(Deviations(t, Percentile(t, 50)), 50, deviation)
    ensures Describes(samples, SummaryOf(t, deviation, perSecond, writesPerSecond))
  {
    SortKeeps(samples);
    PercentileExact(samples, 50);
    PercentileExact(samples, 95);
    PercentileExact(samples, 99);
    PercentilesOrdered(t);
    DeviationsOfSort(samples, Percentile(t, 50), deviation);
    DeviationsOfSort(samples, Percentile(t, 50), deviation + 1);
    Extremes(samples, t);
  }

  function Rate(count: nat, total: nat): real {
    if total == 0 then 0.0 else (count as real) * NANOSECONDS / (total as real)
  }

  lemma RatesExact(count: nat, writes: nat, total: nat)
    ensures AreRates(count, writes, total, Rate(count, total), Rate(count * writes, total))
  {
    if total != 0 {
      var n, w, t := count as real, writes as real, total as real;
      assert (count * writes) as real == n * w;
      QuotientTimes(n * NANOSECONDS, 1.0, t);
      QuotientTimes(n * NANOSECONDS, w, t);
      assert n * w * NANOSECONDS == n * NANOSECONDS * w;
    }
  }

  lemma QuotientTimes(x: real, w: real, t: real)
    requires t > 0.0
    ensures x * w / t == x / t * w && x / t * t == x
  {
    var q := x / t;
    assert q * t == x;
    assert (q * w) * t == x * w;
  }

  /** Sorts the latencies in place and summarizes them. The percentiles, the median deviation and the
      rates are those of the samples as they came in. Without a block for the deviations nothing is
      done. */
  method SummarizeLatencies(latencies: array<nat>, writes: nat, largestBlock: nat) returns (rc: nat, r: Summary)
    requires latencies.Length > 0
    modifies latencies
    ensures rc == if latencies.Length * DEVIATION_SIZE <= largestBlock then 0 else 1
    ensures rc == 0 ==>
              && latencies[..] == Sort(old(latencies[..]))
              && Describes(old(latencies[..]), r) && Rated(old(latencies[..]), writes, r)
    ensures rc == 1 ==> latencies[..] == old(latencies[..])
  {
    r := Summary(0, 0, 0, 0, 0, 0, 0.0, 0.0);
    if latencies.Length * DEVIATION_SIZE > largestBlock {
      return 1, r;
    }
    ghost var samples := latencies[..];
    SortKeeps(samples);
    SumOfSort(samples);
    SortInPlace(latencies);
    var t := latencies[..];
    var deviation := MedianDeviation(t, Percentile(t, 50));
    var total := TotalTime(t);
    SummaryDescribes(samples, t, deviation, Rate(|t|, total), Rate(|t| * writes, total));
    RatesExact(|t|, writes, total);
    return 0, SummaryOf(t, deviation, Rate(|t|, total), Rate(|t| * writes, total));
  }

  method TotalTime(t: seq<nat>) returns (total: Word)
    ensures total == Sum(t) % WORD_LIMIT
  {
    total := 0;
    for index := 0 to |t|
      invariant total == Sum(t[..index]) % WORD_LIMIT
    {
      SumUpTo(t, index);
      total := (total + t[index]) % WORD_LIMIT;
    }
    assert t[..|t|] == t;
  }

  method MedianDeviation(t: seq<nat>, center: nat) returns (r: nat)
    requires t != []
    ensures IsPercentile(Deviations(t, center), 50, r)
  {
    var deviations := new nat[|t|];
    for index := 0 to |t|
      invariant forall i :: 0 <= i < index ==> deviations[i] == Distance(t[i], center)
    {
      deviations[index] := if t[index] > center then t[index] - center else center - t[index];
    }
    assert deviations[..] == Deviations(t, center);
    SortInPlace(deviations);
    r := Percentile(deviations[..], 50);
    PercentileExact(Deviations(t, center), 50);
  }

  lemma {:induction false} PercentilesOrdered(t: seq<nat>)
    requires Sorted(t) && t != []
    ensures t[0] <= Percentile(t, 50) <= Percentile(t, 95) <= Percentile(t, 99) <= t[|t| - 1]
  {
    RankMonotone(|t|, 50, 95);
    RankMonotone(|t|, 95, 99);
    RankInRange(|t|, 50);
    RankInRange(|t|, 95);
    RankInRange(|t|, 99);
  }

  lemma {:induction false} Extremes(samples: seq<nat>, t: seq<nat>)
    requires samples != [] && t == Sort(samples)
    ensures t != [] && t[0] in samples && t[|t| - 1] in samples
    ensures forall i :: 0 <= i < |samples| ==> t[0] <= samples[i] <= t[|t| - 1]
  {
    SortKeeps(samples);
    assert t[0] in multiset(t) && t[|t| - 1] in multiset(t);
    forall i | 0 <= i < |samples|
      ensures t[0] <= samples[i] <= t[|t| - 1]
    {
      assert samples[i] in multiset(samples);
      assert samples[i] in multiset(t);
      var k :| 0 <= k < |t| && t[k] == samples[i];
    }
  }
}
