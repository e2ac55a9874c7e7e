/** Comparing the queries that fail to parse with the expected failures. */
module FailureClassifier {
  import opened CStrings
  import opened Words
  import opened GrowingBuffers
  import opened ExpectationFile

  /** What the SQL parser makes of one query. */
  datatype Outcome = Parses | Fails(status: string, token: string)

  datatype Summary = Summary(total: nat, matched: nat, unexpected: nat, mismatched: nat, missing: nat)

  datatype Verdict = Passed | Matched | Mismatched | Unexpected

  // ----- what the counts mean

  /** The first expectation for an index, or |es|. */
  ghost function Find(es: seq<Expectation>, index: int): (k: nat)
    ensures k <= |es|
    ensures k < |es| ==> es[k].queryIndex == index
    ensures forall i :: 0 <= i < k ==> es[i].queryIndex != index
  {
    if es == [] || es[0].queryIndex == index then 0 else 1 + Find(es[1..], index)
  }

  ghost function VerdictOf(outcomes: seq<Outcome>, es: seq<Expectation>, i: nat): Verdict
    requires i < |outcomes|
  {
    var k := Find(es, i + 1);
    if outcomes[i].Parses? then Passed
    else if k == |es| then Unexpected
    else if Agrees(es[k], outcomes[i]) then Matched
    else Mismatched
  }

  predicate Agrees(e: Expectation, o: Outcome) {
    o.Fails? && e.status == o.status && e.token == o.token
  }

  /** How many of the first n queries have a verdict. */
  ghost function Tally(outcomes: seq<Outcome>, es: seq<Expectation>, v: Verdict, n: nat): nat
    requires n <= |outcomes|
  {
    if n == 0 then 0
    else Tally(outcomes, es, v, n - 1) + (if VerdictOf(outcomes, es, n - 1) == v then 1 else 0)
  }

  function CountTrue(seen: seq<bool>): nat {
    if seen == [] then 0 else (if seen[0] then 1 else 0) + CountTrue(seen[1..])
  }

  /** The queries that fail, and the failures expected, as sets of index, status and token. */
  ghost function FailureSet(outcomes: seq<Outcome>): set<(int, string, string)> {
    set i | 0 <= i < |outcomes| && outcomes[i].Fails? :: (i + 1, outcomes[i].status, outcomes[i].token)
  }

  ghost function ExpectedSet(es: seq<Expectation>): set<(int, string, string)> {
    set j | 0 <= j < |es| :: (es[j].queryIndex as int, es[j].status, es[j].token)
  }

  /** Expectation j has been met by a failing query among the first n. */
  ghost predicate Met(outcomes: seq<Outcome>, es: seq<Expectation>, n: nat, j: nat)
    requires n <= |outcomes| && j < |es|
  {
    var i := es[j].queryIndex - 1;
    0 <= i < n && outcomes[i].Fails? && Find(es, i + 1) == j
  }

  // ----- counting lemmas

  lemma {:induction false} CountUpdate(seen: seq<bool>, k: nat)
    requires k < |seen| && !seen[k]
    ensures CountTrue(seen[k := true]) == CountTrue(seen) + 1
  {
    if k > 0 {
      assert seen[k := true][1..] == seen[1..][k - 1 := true];
      CountUpdate(seen[1..], k - 1);
    } else {
      assert seen[k := true][1..] == seen[1..];
    }
  }

  lemma {:induction false} CountNone(seen: seq<bool>)
    requires forall i :: 0 <= i < |seen| ==> !seen[i]
    ensures CountTrue(seen) == 0
  {
    if seen != [] {
      CountNone(seen[1..]);
    }
  }

  lemma {:induction false} CountAll(seen: seq<bool>)
    ensures CountTrue(seen) <= |seen|
    ensures CountTrue(seen) == |seen| <==> forall i :: 0 <= i < |seen| ==> seen[i]
  {
    if seen != [] {
      CountAll(seen[1..]);
      assert forall i :: 0 < i < |seen| ==> seen[i] == seen[1..][i - 1];
    }
  }

  lemma {:induction false} TalliesAddUp(outcomes: seq<Outcome>, es: seq<Expectation>, n: nat)
    requires n <= |outcomes|
    ensures Tally(outcomes, es, Passed, n) + Tally(outcomes, es, Matched, n)
          + Tally(outcomes, es, Mismatched, n) + Tally(outcomes, es, Unexpected, n) == n
  {
    if n > 0 {
      TalliesAddUp(outcomes, es, n - 1);
    }
  }

  lemma {:induction false} TallyZero(outcomes: seq<Outcome>, es: seq<Expectation>, v: Verdict, n: nat)
    requires n <= |outcomes|
    ensures Tally(outcomes, es, v, n) == 0 <==> forall i :: 0 <= i < n ==> VerdictOf(outcomes, es, i) != v
  {
    if n > 0 {
      TallyZero(outcomes, es, v, n - 1);
    }
  }

  lemma FindDistinct(es: seq<Expectation>, j: nat)
    requires Distinct(es) && j < |es|
    ensures Find(es, es[j].queryIndex as int) == j
  {
  }

  /** A failing query meets the expectation found for it and no other. */
  lemma MetStep(outcomes: seq<Outcome>, es: seq<Expectation>, i: nat, j: nat)
    requires i < |outcomes| && outcomes[i].Fails? && j < |es| && Find(es, i + 1) == j
    ensures !Met(outcomes, es, i, j)
    ensures forall k :: 0 <= k < |es| ==> (Met(outcomes, es, i + 1, k) <==> Met(outcomes, es, i, k) || k == j)
  {
  }

  // ----- the classifier

  /** The counts kept while the queries are gone through. */
  ghost predicate Counted(outcomes: seq<Outcome>, es: seq<Expectation>, s: Summary, n: nat)
    requires n <= |outcomes|
  {
    && s.total == |es| && s.missing == 0
    && s.matched == Tally(outcomes, es, Matched, n)
    && s.mismatched == Tally(outcomes, es, Mismatched, n)
    && s.unexpected == Tally(outcomes, es, Unexpected, n)
  }

  function Count(s: Summary, v: Verdict): Summary {
    match v
    case Passed => s
    case Matched => s.(matched := s.matched + 1)
    case Mismatched => s.(mismatched := s.mismatched + 1)
    case Unexpected => s.(unexpected := s.unexpected + 1)
  }

  lemma CountedStep(outcomes: seq<Outcome>, es: seq<Expectation>, s: Summary, n: nat)
    requires n < |outcomes| && Counted(outcomes, es, s, n)
    ensures Counted(outcomes, es, Count(s, VerdictOf(outcomes, es, n)), n + 1)
  {
  }

  ghost predicate Marked(outcomes: seq<Outcome>, es: seq<Expectation>, seen: seq<bool>, n: nat)
    requires n <= |outcomes|
  {
    |seen| == |es| && forall j :: 0 <= j < |es| ==> (seen[j] <==> Met(outcomes, es, n, j))
  }

  /** A query that does not fail, or fails unexpectedly, marks nothing; any other marks one expectation
      that no query before it has marked. */
  lemma MarkStep(outcomes: seq<Outcome>, es: seq<Expectation>, seen: seq<bool>, n: nat)
    requires n < |outcomes| && Marked(outcomes, es, seen, n)
    ensures var j := Find(es, n + 1);
            if outcomes[n].Parses? || j == |es| then Marked(outcomes, es, seen, n + 1)
            else Marked(outcomes, es, seen[j := true], n + 1) && CountTrue(seen[j := true]) == CountTrue(seen) + 1
  {
    var j := Find(es, n + 1);
    if outcomes[n].Fails? && j < |es| {
      MetStep(outcomes, es, n, j);
      CountUpdate(seen, j);
    }
  }

  /** Handles one query: its verdict, and the mark it leaves. */
  method ClassifyQuery(outcomes: seq<Outcome>, es: seq<Expectation>, i: nat, seen: array<bool>)
    returns (verdict: Verdict)
    requires i < |outcomes| < SIZE_MAX && Marked(outcomes, es, seen[..], i)
    modifies seen
    ensures verdict == VerdictOf(outcomes, es, i) && Marked(outcomes, es, seen[..], i + 1)
    ensures CountTrue(seen[..])
         == old(CountTrue(seen[..])) + (if verdict == Matched || verdict == Mismatched then 1 else 0)
  {
    MarkStep(outcomes, es, seen[..], i);
    var found := FindExpectation(es, i + 1);
    if outcomes[i].Parses? {
      return Passed;
    }
    if found.Nothing? {
      assert Find(es, i + 1) == |es|;
      return Unexpected;
    }
    var j := found.value;
    assert Find(es, i + 1) == j;
    ghost var before := seen[..];
    seen[j] := true;
    assert seen[..] == before[j := true];
    return if Agrees(es[j], outcomes[i]) then Matched else Mismatched;
  }

  /** Runs through the queries once, marking the expectation each failure belongs to, and counts the
      marks that are left over. Without a block for the marks it fails before any count. */
  method ClassifyExpectedParseFailures(outcomes: seq<Outcome>, es: seq<Expectation>, largestBlock: nat)
    returns (summary: Summary, rc: nat)
    requires |outcomes| < SIZE_MAX
    ensures summary.total == |es| && rc <= 1
    ensures |es| > largestBlock ==> summary == Summary(|es|, 0, 0, 0, 0) && rc == 1
    ensures |es| <= largestBlock ==>
              && summary.matched == Tally(outcomes, es, Matched, |outcomes|)
              && summary.mismatched == Tally(outcomes, es, Mismatched, |outcomes|)
              && summary.unexpected == Tally(outcomes, es, Unexpected, |outcomes|)
              && summary.matched + summary.mismatched + summary.missing == |es|
              && summary.matched + summary.mismatched + summary.unexpected
                 == |outcomes| - Tally(outcomes, es, Passed, |outcomes|)
              && (summary.missing == 0 <==> forall j :: 0 <= j < |es| ==> Met(outcomes, es, |outcomes|, j))
              && (rc == 0 <==> summary.unexpected == 0 && summary.mismatched == 0 && summary.missing == 0)
  {
    summary := Summary(|es|, 0, 0, 0, 0);
    if |es| > largestBlock {
      return summary, 1;
    }
    var seen := new bool[|es|](_ => false);
    CountNone(seen[..]);
    for i := 0 to |outcomes|
      invariant Counted(outcomes, es, summary, i) && Marked(outcomes, es, seen[..], i)
      invariant CountTrue(seen[..]) == summary.matched + summary.mismatched
    {
      CountedStep(outcomes, es, summary, i);
      var verdict := ClassifyQuery(outcomes, es, i, seen);
      summary := Count(summary, verdict);
    }
    var missing := CountMissing(seen);
    CountAll(seen[..]);
    TalliesAddUp(outcomes, es, |outcomes|);
    summary := summary.(missing := missing);
    rc := if summary.unexpected == 0 && summary.mismatched == 0 && summary.missing == 0 then 0 else 1;
  }

  method CountMissing(seen: array<bool>) returns (missing: nat)
    ensures missing + CountTrue(seen[..]) == seen.Length
  {
    missing := 0;
    for j := 0 to seen.Length
      invariant missing + CountTrue(seen[..j]) == j
    {
      assert seen[..j + 1] == seen[..j] + [seen[j]];
      CountSnoc(seen[..j], seen[j]);
      if !seen[j] {
        missing := missing + 1;
      }
    }
    assert seen[..seen.Length] == seen[..];
  }

  lemma {:induction false} CountSnoc(seen: seq<bool>, b: bool)
    ensures CountTrue(seen + [b]) == CountTrue(seen) + (if b then 1 else 0)
  {
    if seen != [] {
      assert (seen + [b])[1..] == seen[1..] + [b];
      CountSnoc(seen[1..], b);
    } else {
      assert seen + [b] == [b];
    }
  }

  // ----- what success means

  ghost predicate Clean(outcomes: seq<Outcome>, es: seq<Expectation>) {
    && Tally(outcomes, es, Unexpected, |outcomes|) == 0
    && Tally(outcomes, es, Mismatched, |outcomes|) == 0
    && forall j :: 0 <= j < |es| ==> Met(outcomes, es, |outcomes|, j)
  }

  lemma CleanMeansEqual(outcomes: seq<Outcome>, es: seq<Expectation>)
    requires Clean(outcomes, es)
    ensures Distinct(es) && FailureSet(outcomes) == ExpectedSet(es)
  {
    TallyZero(outcomes, es, Unexpected, |outcomes|);
    TallyZero(outcomes, es, Mismatched, |outcomes|);
    forall i, j | 0 <= i < j < |es|
      ensures es[i].queryIndex != es[j].queryIndex
    {
      assert Met(outcomes, es, |outcomes|, i) && Met(outcomes, es, |outcomes|, j);
    }
    forall x | x in FailureSet(outcomes)
      ensures x in ExpectedSet(es)
    {
      var i :| 0 <= i < |outcomes| && outcomes[i].Fails? && x == (i + 1, outcomes[i].status, outcomes[i].token);
      assert VerdictOf(outcomes, es, i) == Matched;
      var k := Find(es, i + 1);
      assert x == (es[k].queryIndex as int, es[k].status, es[k].token);
    }
    forall x | x in ExpectedSet(es)
      ensures x in FailureSet(outcomes)
    {
      var j :| 0 <= j < |es| && x == (es[j].queryIndex as int, es[j].status, es[j].token);
      assert Met(outcomes, es, |outcomes|, j);
      var i := es[j].queryIndex - 1;
      assert VerdictOf(outcomes, es, i) == Matched;
      assert x == (i + 1, outcomes[i].status, outcomes[i].token);
    }
  }

  lemma EqualMeansClean(outcomes: seq<Outcome>, es: seq<Expectation>)
    requires Distinct(es) && FailureSet(outcomes) == ExpectedSet(es)
    ensures Clean(outcomes, es)
  {
    forall i | 0 <= i < |outcomes| && outcomes[i].Fails?
      ensures VerdictOf(outcomes, es, i) == Matched
    {
      assert (i + 1, outcomes[i].status, outcomes[i].token) in FailureSet(outcomes);
      var j :| 0 <= j < |es| &&
          (i + 1, outcomes[i].status, outcomes[i].token) == (es[j].queryIndex as int, es[j].status, es[j].token);
      FindDistinct(es, j);
    }
    TallyZero(outcomes, es, Unexpected, |outcomes|);
    TallyZero(outcomes, es, Mismatched, |outcomes|);
    forall j | 0 <= j < |es|
      ensures Met(outcomes, es, |outcomes|, j)
    {
      assert (es[j].queryIndex as int, es[j].status, es[j].token) in ExpectedSet(es);
      var i :| 0 <= i < |outcomes| && outcomes[i].Fails? &&
          (i + 1, outcomes[i].status, outcomes[i].token) == (es[j].queryIndex as int, es[j].status, es[j].token);
      FindDistinct(es, j);
    }
  }

  /** Classification succeeds exactly when no index is expected twice and the failing queries, with
      their status and token names, are exactly the expected failures. */
  lemma CleanExactly(outcomes: seq<Outcome>, es: seq<Expectation>)
    ensures Clean(outcomes, es) <==> Distinct(es) && FailureSet(outcomes) == ExpectedSet(es)
  {
    if Clean(outcomes, es) {
      CleanMeansEqual(outcomes, es);
    } else if Distinct(es) && FailureSet(outcomes) == ExpectedSet(es) {
      EqualMeansClean(outcomes, es);
    }
  }

  /** A whole run: load the expectation file into an empty list and classify the queries. It succeeds
      exactly when the file is valid and says exactly which queries fail, and how. */
  method VerifyExpectedFailures(names: Names, data: string, outcomes: seq<Outcome>, largestBlock: nat)
    returns (status: Status, summary: Summary, rc: nat)
    requires |outcomes| < SIZE_MAX && largestBlock <= SIZE_MAX
    ensures var entries := Entries(names, Lines(data));
            status == Success ==>
              && AllValid(names, Lines(data)) && Distinct(entries) && Nonzero(entries)
              && summary.total == |entries|
              && (rc == 0 <==> FailureSet(outcomes) == ExpectedSet(entries))
    ensures status == Rejected ==> !(AllValid(names, Lines(data)) && Distinct(Entries(names, Lines(data))))
    ensures status == NoMemory ==> largestBlock < EXPECTATION_SIZE * (EXPECTATION_CAPACITY + 2 * |data|)
    ensures status != Success ==> rc == 1
  {
    var list := new GrowingBuffer<Expectation>(EXPECTATION_CAPACITY, EXPECTATION_SIZE, largestBlock);
    LoadExactly(names, Lines(data), []);
    assert [] + Entries(names, Lines(data)) == Entries(names, Lines(data));
    status := ParseExpectedParseFailures(names, data, list);
    if status != Success {
      return status, Summary(0, 0, 0, 0, 0), 1;
    }
    var es := list.items[..list.count];
    summary, rc := ClassifyExpectedParseFailures(outcomes, es, largestBlock);
    CleanExactly(outcomes, es);
  }
}
