/** Characters, tokens and the table of mode names that the readers of SQL-mode values share. */
module SqlModeText {
  import opened CStrings

  /** A mode mask, as the set of its bit numbers: | is union, & ~ is difference. */
  type Modes = set<nat>

  const ANSI_QUOTES: Modes := {0}
  const NO_BACKSLASH_ESCAPES: Modes := {1}
  const IGNORE_SPACE: Modes := {2}
  const PIPES_AS_CONCAT: Modes := {3}
  const LEXER_MODES: Modes := {0, 1, 2, 3}

  predicate IsLexerMask(m: Modes) {
    m <= LEXER_MODES
  }

  // ----- characters

  predicate IsIdentifierByte(c: char) {
    'A' <= c <= 'Z' || 'a' <= c <= 'z' || '0' <= c <= '9' || c == '_'
  }

  function Lower(c: char): char {
    if 'A' <= c <= 'Z' then (c as int - 'A' as int + 'a' as int) as char else c
  }

  function LowerAll(s: string): (t: string)
    ensures |t| == |s| && forall i :: 0 <= i < |s| ==> t[i] == Lower(s[i])
  {
    if s == "" then "" else [Lower(s[0])] + LowerAll(s[1..])
  }

  predicate IsBlank(c: char) {
    c == ' ' || c == '\t' || c == '\r' || c == '\n'
  }

  predicate IsName(s: string) {
    s != "" && forall i :: 0 <= i < |s| ==> IsIdentifierByte(s[i])
  }

  // ----- the known modes

  datatype Descriptor = Descriptor(name: string, modes: Modes)

  const DESCRIPTORS: seq<Descriptor> := [
    Descriptor("ALLOW_INVALID_DATES", {}),
    Descriptor("ANSI_QUOTES", ANSI_QUOTES),
    Descriptor("ERROR_FOR_DIVISION_BY_ZERO", {}),
    Descriptor("HIGH_NOT_PRECEDENCE", {}),
    Descriptor("IGNORE_SPACE", IGNORE_SPACE),
    Descriptor("NO_AUTO_VALUE_ON_ZERO", {}),
    Descriptor("NO_BACKSLASH_ESCAPES", NO_BACKSLASH_ESCAPES),
    Descriptor("NO_DIR_IN_CREATE", {}),
    Descriptor("NO_ENGINE_SUBSTITUTION", {}),
    Descriptor("NO_UNSIGNED_SUBTRACTION", {}),
    Descriptor("NO_ZERO_DATE", {}),
    Descriptor("NO_ZERO_IN_DATE", {}),
    Descriptor("ONLY_FULL_GROUP_BY", {}),
    Descriptor("PAD_CHAR_TO_FULL_LENGTH", {}),
    Descriptor("PIPES_AS_CONCAT", PIPES_AS_CONCAT),
    Descriptor("REAL_AS_FLOAT", {}),
    Descriptor("STRICT_ALL_TABLES", {}),
    Descriptor("STRICT_TRANS_TABLES", {}),
    Descriptor("TIME_TRUNCATE_FRACTIONAL", {}),
    Descriptor("ANSI", ANSI_QUOTES + IGNORE_SPACE + PIPES_AS_CONCAT),
    Descriptor("TRADITIONAL", {})
  ]

  /** Equal up to ASCII case. */
  predicate TokenEquals(text: string, expected: string) {
    |text| == |expected| && forall i :: 0 <= i < |text| ==> Lower(text[i]) == Lower(expected[i])
  }

  lemma TokenEqualsFolds(a: string, b: string)
    ensures TokenEquals(a, b) <==> LowerAll(a) == LowerAll(b)
  {
    if LowerAll(a) == LowerAll(b) {
      assert forall i :: 0 <= i < |a| ==> LowerAll(a)[i] == Lower(a[i]);
    }
  }

  /** The modes of the first descriptor whose name is the token, whatever the case. */
  function Lookup(ds: seq<Descriptor>, token: string): Option<Modes> {
    if ds == [] then Nothing
    else if TokenEquals(token, ds[0].name) then Just(ds[0].modes)
    else Lookup(ds[1..], token)
  }

  /** What the readers rely on: names are identifiers other than DEFAULT and 0, and stand for lexer
      bits only. */
  predicate GoodDescriptor(d: Descriptor) {
    && IsName(d.name) && IsLexerMask(d.modes)
    && !TokenEquals(d.name, "default") && !TokenEquals(d.name, "0")
  }

  predicate GoodTable(ds: seq<Descriptor>) {
    forall i :: 0 <= i < |ds| ==> GoodDescriptor(ds[i])
  }

  lemma Names0()
    ensures IsName("ALLOW_INVALID_DATES") && IsName("ANSI_QUOTES") && IsName("ERROR_FOR_DIVISION_BY_ZERO")
  {
  }

  lemma Names1()
    ensures IsName("HIGH_NOT_PRECEDENCE") && IsName("IGNORE_SPACE") && IsName("NO_AUTO_VALUE_ON_ZERO")
  {
  }

  lemma Names2()
    ensures IsName("NO_BACKSLASH_ESCAPES") && IsName("NO_DIR_IN_CREATE") && IsName("NO_ENGINE_SUBSTITUTION")
  {
  }

  lemma Names3()
    ensures IsName("NO_UNSIGNED_SUBTRACTION") && IsName("NO_ZERO_DATE") && IsName("NO_ZERO_IN_DATE")
  {
  }

  lemma Names4()
    ensures IsName("ONLY_FULL_GROUP_BY") && IsName("PAD_CHAR_TO_FULL_LENGTH") && IsName("PIPES_AS_CONCAT")
  {
  }

  lemma Names5()
    ensures IsName("REAL_AS_FLOAT") && IsName("STRICT_ALL_TABLES") && IsName("STRICT_TRANS_TABLES")
  {
  }

  lemma Names6()
    ensures IsName("TIME_TRUNCATE_FRACTIONAL") && IsName("ANSI") && IsName("TRADITIONAL")
  {
  }

  lemma MakeGood(d: Descriptor)
    requires IsName(d.name) && IsLexerMask(d.modes) && |d.name| != 7 && |d.name| != 1
    ensures GoodDescriptor(d)
  {
  }

  lemma GoodFirst()
    ensures forall i :: 0 <= i < 9 ==> GoodDescriptor(DESCRIPTORS[i])
  {
    Names0();
    Names1();
    Names2();
    forall i | 0 <= i < 9
      ensures GoodDescriptor(DESCRIPTORS[i])
    {
      MakeGood(DESCRIPTORS[i]);
    }
  }

  lemma GoodMiddle()
    ensures forall i :: 9 <= i < 15 ==> GoodDescriptor(DESCRIPTORS[i])
  {
    Names3();
    Names4();
    forall i | 9 <= i < 15
      ensures GoodDescriptor(DESCRIPTORS[i])
    {
      MakeGood(DESCRIPTORS[i]);
    }
  }

  lemma GoodLast()
    ensures forall i :: 15 <= i < |DESCRIPTORS| ==> GoodDescriptor(DESCRIPTORS[i])
  {
    Names5();
    Names6();
    forall i | 15 <= i < |DESCRIPTORS|
      ensures GoodDescriptor(DESCRIPTORS[i])
    {
      MakeGood(DESCRIPTORS[i]);
    }
  }

  lemma DescriptorsAreGood()
    ensures GoodTable(DESCRIPTORS)
  {
    GoodFirst();
    GoodMiddle();
    GoodLast();
  }

  /** Known tokens are identifiers other than DEFAULT and 0, and stand for lexer bits only. */
  lemma {:induction false} KnownTokens(ds: seq<Descriptor>, token: string)
    requires GoodTable(ds) && Lookup(ds, token).Just?
    ensures IsName(token) && IsLexerMask(Lookup(ds, token).value)
    ensures !TokenEquals(token, "default") && !TokenEquals(token, "0")
  {
    if TokenEquals(token, ds[0].name) {
      assert GoodDescriptor(ds[0]);
      SameCaseFolding(token, ds[0].name);
      SameCaseDiffers(token, ds[0].name, "default");
      SameCaseDiffers(token, ds[0].name, "0");
    } else {
      KnownTokens(ds[1..], token);
    }
  }

  lemma SameCaseFolding(a: string, b: string)
    requires TokenEquals(a, b) && IsName(b)
    ensures IsName(a)
  {
    forall i | 0 <= i < |a|
      ensures IsIdentifierByte(a[i])
    {
      assert Lower(a[i]) == Lower(b[i]) && IsIdentifierByte(b[i]);
    }
  }

  lemma SameCaseDiffers(a: string, b: string, other: string)
    requires TokenEquals(a, b) && !TokenEquals(b, other)
    ensures !TokenEquals(a, other)
  {
    if |a| == |other| {
      var i :| 0 <= i < |b| && Lower(b[i]) != Lower(other[i]);
      assert Lower(a[i]) == Lower(b[i]);
    }
  }

  lemma {:induction false} LookupFoldsCase(ds: seq<Descriptor>, a: string, b: string)
    requires LowerAll(a) == LowerAll(b)
    ensures Lookup(ds, a) == Lookup(ds, b)
  {
    if ds != [] {
      TokenEqualsFolds(a, ds[0].name);
      TokenEqualsFolds(b, ds[0].name);
      LookupFoldsCase(ds[1..], a, b);
    }
  }
}
