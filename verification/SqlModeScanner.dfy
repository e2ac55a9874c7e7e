/** The scanner that collects mode names from arbitrary SQL text, and its agreement with the strict
    list reader. */
module SqlModeScanner {
  import opened CStrings
  import opened SqlModeText
  import opened SqlModeList

  /** Identifier bytes at the start of a text. */
  function RunLength(s: string): (k: nat)
    ensures k <= |s| && (s != "" && IsIdentifierByte(s[0]) ==> k > 0)
  {
    if s == "" || !IsIdentifierByte(s[0]) then 0 else 1 + RunLength(s[1..])
  }

  /** The maximal identifier runs of a text. */
  function Runs(s: string): seq<string>
    decreases |s|
  {
    if s == "" then []
    else if IsIdentifierByte(s[0]) then [s[..RunLength(s)]] + Runs(s[RunLength(s)..])
    else Runs(s[1..])
  }

  // ----- the scanner

  method ScanRun(s: string, start: nat) returns (index: nat)
    requires start <= |s|
    ensures start <= index <= |s| && index == start + RunLength(s[start..])
  {
    index := start;
    while index < |s| && IsIdentifierByte(s[index])
      invariant start <= index <= |s|
      invariant RunLength(s[start..]) == index - start + RunLength(s[index..])
    {
      assert s[index..][0] == s[index] && s[index..][1..] == s[index + 1..];
      index := index + 1;
    }
    assert index < |s| ==> s[index..][0] == s[index];
  }

  ghost function RunsAt(s: string, k: nat): seq<string>
    requires k <= |s|
  {
    Runs(s[k..])
  }

  lemma {:induction false} RunsStep(s: string, k: nat, index: nat)
    requires k < |s| && index == k + RunLength(s[k..]) <= |s|
    ensures IsIdentifierByte(s[k]) ==> k < index && RunsAt(s, k) == [s[k..index]] + RunsAt(s, index)
    ensures !IsIdentifierByte(s[k]) ==> RunsAt(s, k) == RunsAt(s, k + 1)
  {
    var t := s[k..];
    assert t[0] == s[k] && t[1..] == s[k + 1..];
    assert t[..index - k] == s[k..index] && t[index - k..] == s[index..];
  }

  lemma {:induction false} TokenAdded(ds: seq<Descriptor>, token: string, rest: seq<string>)
    ensures ModesOf(ds, [token] + rest) == ModesOrNone(ds, token) + ModesOf(ds, rest)
    ensures SomeKnown(ds, [token] + rest) <==> Lookup(ds, token).Just? || SomeKnown(ds, rest)
  {
    var all := [token] + rest;
    assert all[0] == token && all[1..] == rest;
    if SomeKnown(ds, rest) {
      var i :| 0 <= i < |rest| && Lookup(ds, rest[i]).Just?;
      assert all[i + 1] == rest[i];
    }
    if SomeKnown(ds, all) {
      var i :| 0 <= i < |all| && Lookup(ds, all[i]).Just?;
      if i > 0 {
        assert all[i] == rest[i - 1];
      }
    }
  }

  /** Collects the modes of all runs that are mode names, and whether there is one. */
  method CollectSqlModeTokens(ds: seq<Descriptor>, text: string) returns (modes: Modes, found: bool)
    ensures modes == ModesOf(ds, Runs(text))
    ensures found <==> SomeKnown(ds, Runs(text))
  {
    var index := 0;
    modes, found := {}, false;
    ghost var all := RunsAt(text, 0);
    assert text[0..] == text;
    while index < |text|
      invariant 0 <= index <= |text|
      invariant ModesOf(ds, all) == modes + ModesOf(ds, RunsAt(text, index))
      invariant SomeKnown(ds, all) <==> found || SomeKnown(ds, RunsAt(text, index))
    {
      var next := ScanRun(text, index);
      RunsStep(text, index, next);
      if IsIdentifierByte(text[index]) {
        var token := LookupSqlModeToken(ds, text[index..next]);
        TokenAdded(ds, text[index..next], RunsAt(text, next));
        if token.Just? {
          modes := modes + token.value;
          found := true;
        }
        index := next;
      } else {
        index := index + 1;
      }
    }
    assert RunsAt(text, index) == [];
  }

  // ----- agreement

  lemma {:induction false} RunBefore(a: string, rest: string)
    requires rest == "" || !IsIdentifierByte(rest[0])
    ensures RunLength(a + rest) == RunLength(a)
  {
    if a == "" {
      assert a + rest == rest;
    } else {
      assert (a + rest)[0] == a[0] && (a + rest)[1..] == a[1..] + rest;
      if IsIdentifierByte(a[0]) {
        RunBefore(a[1..], rest);
      }
    }
  }

  lemma {:induction false} FirstRun(a: string, rest: string)
    requires a != "" && IsIdentifierByte(a[0]) && (rest == "" || !IsIdentifierByte(rest[0]))
    ensures var k := RunLength(a); k > 0 && Runs(a + rest) == [a[..k]] + Runs(a[k..] + rest)
  {
    RunBefore(a, rest);
    var s, k := a + rest, RunLength(a);
    assert s[0] == a[0] && s[..k] == a[..k] && s[k..] == a[k..] + rest;
  }

  /** Runs do not reach over any other character. */
  lemma {:induction false} RunsSplit(a: string, c: char, b: string)
    requires !IsIdentifierByte(c)
    ensures Runs(a + ([c] + b)) == Runs(a) + Runs(b)
    decreases |a|
  {
    var rest := [c] + b;
    var s := a + rest;
    assert rest[0] == c && rest[1..] == b;
    if a == "" {
      assert s == rest;
      assert [] + Runs(b) == Runs(b);
    } else if IsIdentifierByte(a[0]) {
      FirstRun(a, rest);
      var k := RunLength(a);
      RunsSplit(a[k..], c, b);
      assert [a[..k]] + (Runs(a[k..]) + Runs(b)) == ([a[..k]] + Runs(a[k..])) + Runs(b);
    } else {
      assert s[0] == a[0] && s[1..] == a[1..] + rest;
      RunsSplit(a[1..], c, b);
    }
  }

  lemma {:induction false} RunsOfTrimLeft(s: string)
    ensures Runs(TrimLeft(s)) == Runs(s)
  {
    if s != "" && IsBlank(s[0]) {
      RunsOfTrimLeft(s[1..]);
    }
  }

  lemma {:induction false} RunsOfTrimRight(s: string)
    ensures Runs(TrimRight(s)) == Runs(s)
  {
    if s != "" && IsBlank(s[|s| - 1]) {
      var a := s[..|s| - 1];
      RunsOfTrimRight(a);
      RunsSplit(a, s[|s| - 1], "");
      assert a + ([s[|s| - 1]] + "") == s;
      assert Runs(a) + Runs("") == Runs(a);
    }
  }

  lemma RunsOfTrim(s: string)
    ensures Runs(Trim(s)) == Runs(s)
  {
    RunsOfTrimLeft(s);
    RunsOfTrimRight(TrimLeft(s));
  }

  lemma {:induction false} RunOfName(s: string)
    requires forall i :: 0 <= i < |s| ==> IsIdentifierByte(s[i])
    ensures RunLength(s) == |s|
  {
    if s != "" {
      RunOfName(s[1..]);
    }
  }

  lemma {:induction false} RunsOfName(s: string)
    requires IsName(s)
    ensures Runs(s) == [s]
  {
    RunOfName(s);
    assert s[..|s|] == s && s[|s|..] == "";
  }

  lemma KnownTail(ds: seq<Descriptor>, items: seq<string>)
    requires items != [] && AllKnown(ds, items)
    ensures AllKnown(ds, items[1..])
  {
    assert forall i :: 0 <= i < |items[1..]| ==> items[1..][i] == items[i + 1];
  }

  /** In a list of known modes the identifier runs are exactly the items. */
  lemma {:induction false} RunsAreItems(ds: seq<Descriptor>, t: string)
    requires GoodTable(ds) && AllKnown(ds, Items(t))
    ensures Runs(t) == Items(t)
    decreases |t|
  {
    var k := CommaIndex(t);
    var items := Items(t);
    assert items[0] == Trim(t[..k]);
    KnownTokens(ds, items[0]);
    RunsOfTrim(t[..k]);
    RunsOfName(items[0]);
    if k == |t| {
      assert t[..k] == t;
    } else {
      assert items[1..] == Items(t[k + 1..]);
      KnownTail(ds, items);
      RunsAreItems(ds, t[k + 1..]);
      RunsSplit(t[..k], ',', t[k + 1..]);
      assert t[..k] + ([','] + t[k + 1..]) == t;
    }
  }

  lemma NoRuns(ds: seq<Descriptor>, t: string)
    requires GoodTable(ds) && IsEmptyValue(t)
    ensures !SomeKnown(ds, Runs(t)) && ModesOf(ds, Runs(t)) == {}
  {
    if t != "" {
      assert IsName("default") && IsName("0");
      if t != "0" {
        SameCaseFolding(t, "default");
      }
      RunsOfName(t);
      if Lookup(ds, t).Just? {
        KnownTokens(ds, t);
      }
      assert Runs(t)[0] == t && Runs(t)[1..] == [];
    }
  }

  /** Whenever the strict reader accepts a value, the scanner run over the same text finds the same
      modes, and it reports a find exactly when the value is a list of modes. */
  lemma ScannerAgrees(ds: seq<Descriptor>, text: string)
    requires GoodTable(ds) && ValueModes(ds, text).Just?
    ensures ModesOf(ds, Runs(text)) == ValueModes(ds, text).value
    ensures SomeKnown(ds, Runs(text)) <==> !IsEmptyValue(Trim(text))
  {
    var t := Trim(text);
    RunsOfTrim(text);
    if IsEmptyValue(t) {
      NoRuns(ds, t);
    } else {
      RunsAreItems(ds, t);
      assert Lookup(ds, Items(t)[0]).Just?;
    }
  }
}
