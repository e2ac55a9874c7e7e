/** The strict reader of a SQL-mode value: trimming, splitting at commas and looking up every item. */
module SqlModeList {
  import opened CStrings
  import opened SqlModeText

  // ----- trimming

  function TrimLeft(s: string): (t: string)
    ensures |t| <= |s| && (t != "" ==> !IsBlank(t[0]))
  {
    if s != "" && IsBlank(s[0]) then TrimLeft(s[1..]) else s
  }

  function TrimRight(s: string): (t: string)
    ensures |t| <= |s| && (t != "" ==> !IsBlank(t[|t| - 1]))
  {
    if s != "" && IsBlank(s[|s| - 1]) then TrimRight(s[..|s| - 1]) else s
  }

  function Trim(s: string): string {
    TrimRight(TrimLeft(s))
  }

  ghost function LeftAt(s: string, lo: nat): string
    requires lo <= |s|
  {
    TrimLeft(s[lo..])
  }

  ghost function RightAt(s: string, lo: nat, hi: nat): string
    requires lo <= hi <= |s|
  {
    TrimRight(s[lo..hi])
  }

  lemma {:induction false} LeftStep(s: string, lo: nat)
    requires lo <= |s|
    ensures LeftAt(s, lo) == if lo < |s| && IsBlank(s[lo]) then LeftAt(s, lo + 1) else s[lo..]
  {
    if lo < |s| {
      assert s[lo..][0] == s[lo] && s[lo..][1..] == s[lo + 1..];
    }
  }

  lemma {:induction false} RightStep(s: string, lo: nat, hi: nat)
    requires lo <= hi <= |s|
    ensures RightAt(s, lo, hi) == if lo < hi && IsBlank(s[hi - 1]) then RightAt(s, lo, hi - 1) else s[lo..hi]
  {
    if lo < hi {
      assert s[lo..hi][hi - lo - 1] == s[hi - 1] && s[lo..hi][..hi - lo - 1] == s[lo..hi - 1];
    }
  }

  /** The two trimming loops. */
  method TrimSpan(s: string) returns (lo: nat, hi: nat)
    ensures lo <= hi <= |s| && s[lo..hi] == Trim(s)
  {
    lo, hi := 0, |s|;
    assert s[0..] == s;
    while lo < hi && IsBlank(s[lo])
      invariant lo <= hi == |s|
      invariant TrimLeft(s) == LeftAt(s, lo)
    {
      LeftStep(s, lo);
      lo := lo + 1;
    }
    assert s[lo..hi] == s[lo..];
    LeftStep(s, lo);
    while lo < hi && IsBlank(s[hi - 1])
      invariant lo <= hi <= |s|
      invariant Trim(s) == RightAt(s, lo, hi)
    {
      RightStep(s, lo, hi);
      hi := hi - 1;
    }
    RightStep(s, lo, hi);
  }

  // ----- tokens and their modes

  /** The union of the modes of the known tokens. */
  function ModesOf(ds: seq<Descriptor>, tokens: seq<string>): Modes {
    if tokens == [] then {} else ModesOrNone(ds, tokens[0]) + ModesOf(ds, tokens[1..])
  }

  function ModesOrNone(ds: seq<Descriptor>, token: string): Modes {
    if Lookup(ds, token).Just? then Lookup(ds, token).value else {}
  }

  predicate AllKnown(ds: seq<Descriptor>, tokens: seq<string>) {
    forall i :: 0 <= i < |tokens| ==> Lookup(ds, tokens[i]).Just?
  }

  predicate SomeKnown(ds: seq<Descriptor>, tokens: seq<string>) {
    exists i :: 0 <= i < |tokens| && Lookup(ds, tokens[i]).Just?
  }

  lemma {:induction false} ModesOfConcat(ds: seq<Descriptor>, a: seq<string>, b: seq<string>)
    ensures ModesOf(ds, a + b) == ModesOf(ds, a) + ModesOf(ds, b)
  {
    if a == [] {
      assert a + b == b;
    } else {
      assert (a + b)[1..] == a[1..] + b;
      ModesOfConcat(ds, a[1..], b);
    }
  }

  /** A bit is in the union exactly when some known token sets it. */
  lemma {:induction false} BitInModes(ds: seq<Descriptor>, tokens: seq<string>, b: nat)
    ensures b in ModesOf(ds, tokens) <==> exists i :: 0 <= i < |tokens| && b in ModesOrNone(ds, tokens[i])
  {
    if tokens != [] {
      BitInModes(ds, tokens[1..], b);
      if exists i :: 0 <= i < |tokens| && b in ModesOrNone(ds, tokens[i]) {
        var i :| 0 <= i < |tokens| && b in ModesOrNone(ds, tokens[i]);
        if i > 0 {
          assert tokens[1..][i - 1] == tokens[i];
        }
      }
      if exists i :: 0 <= i < |tokens[1..]| && b in ModesOrNone(ds, tokens[1..][i]) {
        var i :| 0 <= i < |tokens[1..]| && b in ModesOrNone(ds, tokens[1..][i]);
        assert tokens[i + 1] == tokens[1..][i];
      }
    }
  }

  ghost function Folded(tokens: seq<string>): set<string> {
    set i | 0 <= i < |tokens| :: LowerAll(tokens[i])
  }

  lemma {:induction false} CoveredByFolded(ds: seq<Descriptor>, a: seq<string>, b: seq<string>)
    requires Folded(a) <= Folded(b)
    ensures ModesOf(ds, a) <= ModesOf(ds, b)
  {
    forall bit | bit in ModesOf(ds, a)
      ensures bit in ModesOf(ds, b)
    {
      BitInModes(ds, a, bit);
      var i :| 0 <= i < |a| && bit in ModesOrNone(ds, a[i]);
      assert LowerAll(a[i]) in Folded(a);
      var j :| 0 <= j < |b| && LowerAll(b[j]) == LowerAll(a[i]);
      LookupFoldsCase(ds, a[i], b[j]);
      BitInModes(ds, b, bit);
    }
  }

  /** The union does not depend on the order, the case or the repetition of tokens. */
  lemma ModesIgnoreOrderAndCase(ds: seq<Descriptor>, a: seq<string>, b: seq<string>)
    requires Folded(a) == Folded(b)
    ensures ModesOf(ds, a) == ModesOf(ds, b)
  {
    CoveredByFolded(ds, a, b);
    CoveredByFolded(ds, b, a);
  }

  /** Every union of modes stays within the four lexer bits. */
  lemma {:induction false} ModesAreLexerBits(ds: seq<Descriptor>, tokens: seq<string>)
    requires GoodTable(ds)
    ensures IsLexerMask(ModesOf(ds, tokens))
  {
    if tokens != [] {
      ModesAreLexerBits(ds, tokens[1..]);
      if Lookup(ds, tokens[0]).Just? {
        KnownTokens(ds, tokens[0]);
      }
    }
  }

  // ----- the list reader

  function CommaIndex(s: string): (k: nat)
    ensures k <= |s| && (k < |s| ==> s[k] == ',')
  {
    if s == "" || s[0] == ',' then 0 else 1 + CommaIndex(s[1..])
  }

  /** The comma-separated items of a text, each trimmed. */
  function Items(s: string): (items: seq<string>)
    ensures |items| >= 1
    decreases |s|
  {
    var k := CommaIndex(s);
    [Trim(s[..k])] + (if k == |s| then [] else Items(s[k + 1..]))
  }

  predicate IsEmptyValue(t: string) {
    t == "" || TokenEquals(t, "default") || t == "0"
  }

  /** The modes a value text stands for: none for a blank text, DEFAULT or 0; else the union of a list
      in which every item is a known mode. */
  function ValueModes(ds: seq<Descriptor>, text: string): Option<Modes> {
    var t := Trim(text);
    if IsEmptyValue(t) then Just({})
    else if AllKnown(ds, Items(t)) then Just(ModesOf(ds, Items(t)))
    else Nothing
  }

  method LookupSqlModeToken(ds: seq<Descriptor>, token: string) returns (r: Option<Modes>)
    ensures r == Lookup(ds, token)
  {
    assert ds[0..] == ds;
    for i := 0 to |ds|
      invariant Lookup(ds, token) == Lookup(ds[i..], token)
    {
      DescriptorStep(ds, i, token);
      if TokenEquals(token, ds[i].name) {
        return Just(ds[i].modes);
      }
    }
    return Nothing;
  }

  lemma DescriptorStep(ds: seq<Descriptor>, i: nat, token: string)
    requires i < |ds|
    ensures Lookup(ds[i..], token) ==
            if TokenEquals(token, ds[i].name) then Just(ds[i].modes) else Lookup(ds[i + 1..], token)
  {
    assert ds[i..][0] == ds[i] && ds[i..][1..] == ds[i + 1..];
  }

  method FindComma(s: string, start: nat) returns (index: nat)
    requires start <= |s|
    ensures start <= index <= |s| && index == start + CommaIndex(s[start..])
  {
    index := start;
    while index < |s| && s[index] != ','
      invariant start <= index <= |s|
      invariant CommaIndex(s[start..]) == index - start + CommaIndex(s[index..])
    {
      assert s[index..][0] == s[index] && s[index..][1..] == s[index + 1..];
      index := index + 1;
    }
    assert index < |s| ==> s[index..][0] == s[index];
  }

  lemma ItemsAt(t: string, start: nat, index: nat)
    requires start <= index <= |t| && index == start + CommaIndex(t[start..])
    ensures Items(t[start..]) == [Trim(t[start..index])] + (if index == |t| then [] else Items(t[index + 1..]))
  {
    assert t[start..][..index - start] == t[start..index];
    if index < |t| {
      assert t[start..][index - start + 1..] == t[index + 1..];
    }
  }

  lemma {:induction false} KnownConcat(ds: seq<Descriptor>, a: seq<string>, b: seq<string>)
    ensures AllKnown(ds, a + b) <==> AllKnown(ds, a) && AllKnown(ds, b)
  {
    assert forall i :: 0 <= i < |a| ==> (a + b)[i] == a[i];
    assert forall i :: 0 <= i < |b| ==> (a + b)[|a| + i] == b[i];
  }

  lemma {:induction false} ListStep(ds: seq<Descriptor>, done: Modes, item: string, rest: seq<string>,
                                    whole: Option<Modes>)
    requires whole == (if AllKnown(ds, [item] + rest) then Just(done + ModesOf(ds, [item] + rest)) else Nothing)
    ensures Lookup(ds, item).Nothing? ==> whole == Nothing
    ensures Lookup(ds, item).Just? ==>
              whole == if AllKnown(ds, rest) then Just((done + Lookup(ds, item).value) + ModesOf(ds, rest)) else Nothing
  {
    KnownConcat(ds, [item], rest);
    assert ([item] + rest)[1..] == rest;
    assert AllKnown(ds, [item]) <==> Lookup(ds, item).Just? by {
      assert [item][0] == item;
    }
    if Lookup(ds, item).Just? {
      assert (done + Lookup(ds, item).value) + ModesOf(ds, rest) == done + (Lookup(ds, item).value + ModesOf(ds, rest));
    }
  }

  /** Finds the item that starts at start and looks it up. */
  method ReadItem(ds: seq<Descriptor>, t: string, start: nat) returns (index: nat, found: Option<Modes>)
    requires GoodTable(ds) && start <= |t|
    ensures start <= index <= |t| && index == start + CommaIndex(t[start..])
    ensures found == Lookup(ds, Trim(t[start..index]))
  {
    index := FindComma(t, start);
    var a, b := TrimSpan(t[start..index]);
    var token := t[start..index][a..b];
    if token == "" {
      EmptyTokenUnknown(ds, token);
      return index, Nothing;
    }
    found := LookupSqlModeToken(ds, token);
  }

  /** The modes read so far, joined with those of the items to come. */
  ghost function Pending(ds: seq<Descriptor>, modes: Modes, items: seq<string>): Option<Modes> {
    if AllKnown(ds, items) then Just(modes + ModesOf(ds, items)) else Nothing
  }

  ghost function PendingAt(ds: seq<Descriptor>, modes: Modes, t: string, start: nat): Option<Modes>
    requires start <= |t|
  {
    Pending(ds, modes, Items(t[start..]))
  }

  lemma {:induction false} PendingStep(ds: seq<Descriptor>, modes: Modes, t: string, start: nat, index: nat,
                                       found: Option<Modes>)
    requires start <= index <= |t| && index == start + CommaIndex(t[start..])
    requires found == Lookup(ds, Trim(t[start..index]))
    ensures found.Nothing? ==> PendingAt(ds, modes, t, start) == Nothing
    ensures found.Just? && index == |t| ==> PendingAt(ds, modes, t, start) == Just(modes + found.value)
    ensures found.Just? && index < |t| ==>
              PendingAt(ds, modes, t, start) == PendingAt(ds, modes + found.value, t, index + 1)
  {
    var item := Trim(t[start..index]);
    var rest := if index == |t| then [] else Items(t[index + 1..]);
    ItemsAt(t, start, index);
    ListStep(ds, modes, item, rest, Pending(ds, modes, [item] + rest));
    if index == |t| && found.Just? {
      assert (modes + found.value) + ModesOf(ds, []) == modes + found.value;
    }
  }

  /** Reads a comma-separated list, stopping at the first item that is no mode. */
  method ParseModeList(ds: seq<Descriptor>, t: string) returns (r: Option<Modes>)
    requires GoodTable(ds)
    ensures r == Pending(ds, {}, Items(t))
  {
    var start := 0;
    var modes: Modes := {};
    ghost var goal := PendingAt(ds, {}, t, 0);
    assert t[0..] == t;
    while true
      invariant 0 <= start <= |t|
      invariant goal == PendingAt(ds, modes, t, start)
      decreases |t| - start
    {
      var index, found := ReadItem(ds, t, start);
      PendingStep(ds, modes, t, start, index, found);
      if found.Nothing? {
        return Nothing;
      }
      modes := modes + found.value;
      if index == |t| {
        return Just(modes);
      }
      start := index + 1;
    }
  }

  /** Reads a value text. */
  method ParseSqlModeValueText(ds: seq<Descriptor>, text: string) returns (r: Option<Modes>)
    requires GoodTable(ds)
    ensures r == ValueModes(ds, text)
  {
    var lo, hi := TrimSpan(text);
    var t := text[lo..hi];
    if t == "" || TokenEquals(t, "default") || t == "0" {
      return Just({});
    }
    r := ParseModeList(ds, t);
    assert {} + ModesOf(ds, Items(t)) == ModesOf(ds, Items(t));
  }

  lemma EmptyTokenUnknown(ds: seq<Descriptor>, token: string)
    requires GoodTable(ds)
    ensures token == "" ==> Lookup(ds, token).Nothing?
  {
    if Lookup(ds, token).Just? {
      KnownTokens(ds, token);
    }
  }
}
