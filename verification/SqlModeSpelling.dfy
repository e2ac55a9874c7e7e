/** How values, tokens and names are spelled: laws that tie the readers of SQL-mode text to the texts
    they are meant for. */
module SqlModeSpelling {
  import opened CStrings
  import opened Sequences
  import opened SqlModeText
  import opened SqlModeList
  import opened SqlModeScanner
  import opened SqlModeTable
  import opened SqlModeReplay

  // ----- whole words

  lemma {:induction false} RunLengthIsMaximal(s: string)
    ensures forall i :: 0 <= i < RunLength(s) ==> IsIdentifierByte(s[i])
    ensures RunLength(s) < |s| ==> !IsIdentifierByte(s[RunLength(s)])
  {
    if s != "" && IsIdentifierByte(s[0]) {
      RunLengthIsMaximal(s[1..]);
    }
  }

  /** r stands in s as a whole word at i. */
  predicate WordAt(s: string, r: string, i: nat) {
    && i + |r| <= |s| && s[i..i + |r|] == r
    && (i == 0 || !IsIdentifierByte(s[i - 1]))
    && (i + |r| == |s| || !IsIdentifierByte(s[i + |r|]))
  }

  lemma WordMoves(s: string, k: nat, r: string, j: nat)
    requires k <= |s| && WordAt(s[k..], r, j) && (j == 0 && k > 0 ==> !IsIdentifierByte(s[k - 1]))
    ensures WordAt(s, r, k + j)
  {
    assert s[k..][j..j + |r|] == s[k + j..k + j + |r|];
  }

  lemma {:induction false} RunsOccur(s: string, r: string) returns (i: nat)
    requires r in Runs(s)
    ensures IsName(r) && WordAt(s, r, i)
    decreases |s|
  {
    RunLengthIsMaximal(s);
    if !IsIdentifierByte(s[0]) {
      var j := RunsOccur(s[1..], r);
      WordMoves(s, 1, r, j);
      i := 1 + j;
    } else {
      var k := RunLength(s);
      if r == s[..k] {
        i := 0;
      } else {
        assert k < |s| ==> s[k..][0] == s[k];
        var j := RunsOccur(s[k..], r);
        WordMoves(s, k, r, j);
        i := k + j;
      }
    }
  }

  lemma {:induction false} NameIsRun(r: string, rest: string)
    requires IsName(r) && (rest == "" || !IsIdentifierByte(rest[0]))
    ensures r in Runs(r + rest)
  {
    FirstRun(r, rest);
    RunOfName(r);
    assert r[..|r|] == r;
    assert ([r] + Runs(r[|r|..] + rest))[0] == r;
  }

  lemma {:induction false} WordsAreRuns(s: string, r: string, i: nat)
    requires IsName(r) && WordAt(s, r, i)
    ensures r in Runs(s)
  {
    var rest := s[i + |r|..];
    assert rest != "" ==> rest[0] == s[i + |r|];
    NameIsRun(r, rest);
    assert s[i..] == r + rest;
    RunsBehind(s, i);
  }

  /** The runs of a text that starts behind a word's end are runs of the whole. */
  lemma {:induction false} RunsBehind(s: string, i: nat)
    requires i <= |s| && (i == 0 || !IsIdentifierByte(s[i - 1]))
    ensures forall r :: r in Runs(s[i..]) ==> r in Runs(s)
  {
    if i == 0 {
      assert s[0..] == s;
    } else {
      RunsSplit(s[..i - 1], s[i - 1], s[i..]);
      assert s == s[..i - 1] + ([s[i - 1]] + s[i..]);
    }
  }

  lemma {:induction false} FoundIsRun(text: string, token: string) returns (r: string)
    requires IsName(token) && ContainsToken(text, token)
    ensures r in Runs(text) && TokenEquals(r, token)
  {
    ContainsExactly(text, token, 0);
    var i: nat :| i <= |text| - |token| && TokenAt(text, token, i);
    r := text[i..i + |token|];
    SameCaseFolding(r, token);
    assert WordAt(text, r, i);
    WordsAreRuns(text, r, i);
  }

  lemma {:induction false} RunIsFound(text: string, token: string, r: string)
    requires IsName(token) && r in Runs(text) && TokenEquals(r, token)
    ensures ContainsToken(text, token)
  {
    ContainsExactly(text, token, 0);
    var i := RunsOccur(text, r);
    assert TokenAt(text, token, i);
  }

  /** The search for a token finds it exactly when one of the identifier runs of the text is that token,
      whatever the case: both scanners agree on what a word is. */
  lemma {:induction false} TokensAreRuns(text: string, token: string)
    requires IsName(token)
    ensures ContainsToken(text, token) <==> exists r :: r in Runs(text) && TokenEquals(r, token)
  {
    if ContainsToken(text, token) {
      var r := FoundIsRun(text, token);
    }
    forall r | r in Runs(text) && TokenEquals(r, token)
      ensures ContainsToken(text, token)
    {
      RunIsFound(text, token, r);
    }
  }

  /** A query starts with a keyword exactly when its first word, behind blanks only, is that keyword. */
  lemma {:induction false} KeywordIsFirstRun(text: string, keyword: string)
    requires IsName(keyword)
    ensures var t := TrimLeft(text);
            StartsWithKeyword(text, keyword) <==>
              t != "" && IsIdentifierByte(t[0]) && TokenEquals(t[..RunLength(t)], keyword)
  {
    var t := TrimLeft(text);
    RunLengthIsMaximal(t);
    if StartsWithKeyword(text, keyword) {
      var r, rest := t[..|keyword|], t[|keyword|..];
      SameCaseFolding(r, keyword);
      RunBefore(r, rest);
      RunOfName(r);
      assert r + rest == t;
    }
  }

  // ----- lists

  predicate Blank(s: string) {
    forall i :: 0 <= i < |s| ==> IsBlank(s[i])
  }

  /** Nothing to trim. */
  predicate Bare(s: string) {
    s == "" || (!IsBlank(s[0]) && !IsBlank(s[|s| - 1]))
  }

  lemma {:induction false} LeftPadding(a: string, s: string)
    requires Blank(a) && (s == "" || !IsBlank(s[0]))
    ensures TrimLeft(a + s) == s
  {
    if a == "" {
      assert a + s == s;
    } else {
      assert (a + s)[0] == a[0] && (a + s)[1..] == a[1..] + s;
      LeftPadding(a[1..], s);
    }
  }

  lemma {:induction false} RightPadding(s: string, b: string)
    requires Blank(b) && (s == "" || !IsBlank(s[|s| - 1]))
    ensures TrimRight(s + b) == s
    decreases |b|
  {
    if b == "" {
      assert s + b == s;
    } else {
      var t := s + b;
      assert t[|t| - 1] == b[|b| - 1] && t[..|t| - 1] == s + b[..|b| - 1];
      RightPadding(s, b[..|b| - 1]);
    }
  }

  /** Trimming takes off exactly the padding. */
  lemma {:induction false} PaddingTrimmed(a: string, s: string, b: string)
    requires Blank(a) && Blank(b) && Bare(s)
    ensures Trim(a + (s + b)) == s
  {
    if s == "" {
      assert a + (s + b) == (a + b) + "";
      LeftPadding(a + b, "");
    } else {
      assert (s + b)[0] == s[0];
      LeftPadding(a, s + b);
      RightPadding(s, b);
    }
  }

  function JoinCommas(items: seq<string>): string
    requires items != []
  {
    if |items| == 1 then items[0] else items[0] + ("," + JoinCommas(items[1..]))
  }

  function Trimmed(items: seq<string>): (r: seq<string>)
    ensures |r| == |items| && forall i :: 0 <= i < |items| ==> r[i] == Trim(items[i])
  {
    if items == [] then [] else [Trim(items[0])] + Trimmed(items[1..])
  }

  lemma {:induction false} CommaFound(a: string, rest: string)
    requires ',' !in a
    ensures CommaIndex(a + ("," + rest)) == |a|
    ensures CommaIndex(a) == |a|
  {
    var s := a + ("," + rest);
    if a != "" {
      assert s[0] == a[0] && s[1..] == a[1..] + ("," + rest);
      assert a[0] in a;
      CommaFound(a[1..], rest);
    }
  }

  /** The items of a text are what stands between its commas, trimmed. */
  lemma {:induction false} ItemsOfJoined(items: seq<string>)
    requires items != [] && forall i :: 0 <= i < |items| ==> ',' !in items[i]
    ensures Items(JoinCommas(items)) == Trimmed(items)
  {
    if |items| == 1 {
      OneItem(items[0]);
      assert items[1..] == [];
    } else {
      FirstItem(items[0], JoinCommas(items[1..]));
      ItemsOfJoined(items[1..]);
    }
  }

  lemma {:induction false} OneItem(a: string)
    requires ',' !in a
    ensures Items(a) == [Trim(a)]
  {
    CommaFound(a, "");
    assert a[..|a|] == a;
  }

  lemma {:induction false} FirstItem(a: string, rest: string)
    requires ',' !in a
    ensures Items(a + ("," + rest)) == [Trim(a)] + Items(rest)
  {
    CommaFound(a, rest);
    CutAtComma(a, rest);
    ItemsUnfold(a + ("," + rest), |a|);
  }

  lemma CutAtComma(a: string, rest: string)
    ensures var s := a + ("," + rest); |a| < |s| && s[..|a|] == a && s[|a| + 1..] == rest
  {
  }

  lemma {:induction false} ItemsUnfold(s: string, k: nat)
    requires k == CommaIndex(s) < |s|
    ensures Items(s) == [Trim(s[..k])] + Items(s[k + 1..])
  {
  }

  /** Blanks around a value do not matter. */
  lemma PaddingIgnored(ds: seq<Descriptor>, a: string, s: string, b: string)
    requires Blank(a) && Blank(b) && Bare(s)
    ensures ValueModes(ds, a + (s + b)) == ValueModes(ds, s)
  {
    PaddingTrimmed(a, s, b);
    BareIsTrimmed(s);
  }

  /** No text, DEFAULT in any case and 0 stand for no mode. */
  lemma EmptyValues(ds: seq<Descriptor>, s: string)
    requires s == "" || s == "0" || LowerAll(s) == "default"
    ensures ValueModes(ds, s) == Just({})
  {
    if s != "" && s != "0" {
      DefaultIsEmpty(s);
    }
    BareIsTrimmed(s);
  }

  lemma DefaultIsEmpty(s: string)
    requires LowerAll(s) == "default"
    ensures TokenEquals(s, "default") && Bare(s)
  {
    DefaultIsLower();
    TokenEqualsFolds(s, "default");
    assert Lower(s[0]) == 'd' && Lower(s[|s| - 1]) == 't';
  }

  lemma DefaultIsLower()
    ensures LowerAll("default") == "default"
  {
  }

  lemma BareIsTrimmed(s: string)
    requires Bare(s)
    ensures Trim(s) == s
  {
    PaddingTrimmed("", s, "");
    assert "" + (s + "") == s;
  }

  /** Any other value is a list: every item a mode, or it is refused; the union of the modes of its items
      otherwise. */
  lemma ListValues(ds: seq<Descriptor>, items: seq<string>)
    requires items != [] && forall i :: 0 <= i < |items| ==> ',' !in items[i]
    requires Bare(JoinCommas(items)) && !IsEmptyValue(JoinCommas(items))
    ensures ValueModes(ds, JoinCommas(items)) ==
              if AllKnown(ds, Trimmed(items)) then Just(ModesOf(ds, Trimmed(items))) else Nothing
  {
    var s := JoinCommas(items);
    BareIsTrimmed(s);
    ItemsOfJoined(items);
  }

  // ----- names

  lemma {:induction false} AtSignsStripped(ats: string, name: string)
    requires (forall i :: 0 <= i < |ats| ==> ats[i] == '@') && name != "" && name[0] != '@'
    ensures StripAt(ats + name) == name
  {
    if ats == "" {
      assert ats + name == name;
    } else {
      assert (ats + name)[0] == '@' && (ats + name)[1..] == ats[1..] + name;
      AtSignsStripped(ats[1..], name);
    }
  }

  /** A user variable is known by what follows its at signs, whatever the case, if that is shorter than 64
      bytes. */
  lemma VariableNames(n: Node, ats: string, name: string)
    requires n.kind == UserVariable && n.span == ats + name
    requires (forall i :: 0 <= i < |ats| ==> ats[i] == '@') && name != "" && name[0] != '@' && '\0' !in name
    ensures VariableName(n) == if |name| >= 64 then Nothing else Just(LowerAll(name))
  {
    AtSignsStripped(ats, name);
    assert '\0' !in LowerAll(name);
    UpToNulIs(LowerAll(name), |name|);
    assert LowerAll(name)[..|name|] == LowerAll(name);
  }

  // ----- the mode names

  lemma {:induction false} LookupAt(ds: seq<Descriptor>, token: string, k: nat)
    requires k < |ds| && TokenEquals(token, ds[k].name)
    requires forall i :: 0 <= i < k ==> !TokenEquals(token, ds[i].name)
    ensures Lookup(ds, token) == Just(ds[k].modes)
  {
    if k > 0 {
      LookupAt(ds[1..], token, k - 1);
    }
  }

  lemma Reflexive(s: string)
    ensures TokenEquals(s, s)
  {
  }

  lemma AnsiQuotes()
    ensures Lookup(DESCRIPTORS, "ANSI_QUOTES") == Just({0})
  {
    Reflexive("ANSI_QUOTES");
    LookupAt(DESCRIPTORS, "ANSI_QUOTES", 1);
  }

  lemma NoBackslashEscapes()
    ensures Lookup(DESCRIPTORS, "NO_BACKSLASH_ESCAPES") == Just({1})
  {
    Reflexive("NO_BACKSLASH_ESCAPES");
    LookupAt(DESCRIPTORS, "NO_BACKSLASH_ESCAPES", 6);
  }

  lemma IgnoreSpace()
    ensures Lookup(DESCRIPTORS, "IGNORE_SPACE") == Just({2})
  {
    Reflexive("IGNORE_SPACE");
    LookupAt(DESCRIPTORS, "IGNORE_SPACE", 4);
  }

  lemma PipesAsConcat()
    ensures Lookup(DESCRIPTORS, "PIPES_AS_CONCAT") == Just({3})
  {
    Reflexive("PIPES_AS_CONCAT");
    assert DESCRIPTORS[11].name[0] == 'N';
    LookupAt(DESCRIPTORS, "PIPES_AS_CONCAT", 14);
  }

  lemma Ansi()
    ensures Lookup(DESCRIPTORS, "ANSI") == Just({0, 2, 3})
  {
    Reflexive("ANSI");
    LookupAt(DESCRIPTORS, "ANSI", 19);
    assert DESCRIPTORS[19].modes == {0, 2, 3};
  }

  /** No other name stands for a lexer bit. */
  lemma OtherNames(i: nat)
    requires i < |DESCRIPTORS| && i !in {1, 4, 6, 14, 19}
    ensures DESCRIPTORS[i].modes == {}
  {
  }
}
