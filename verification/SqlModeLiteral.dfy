/** Quoted SQL string literals: the decoder of SQL-mode values, and the escaper the load benchmark
    wraps file names with. */
module SqlModeLiteral {
  import opened CStrings
  import opened Sequences

  const VALUE_CAPACITY: nat := 1024

  predicate IsQuote(c: char) {
    c == '\'' || c == '"'
  }

  /** What lies between the quotes, decoded: a doubled quote is one quote, and unless backslashes are
      plain a backslash takes the next character literally. A last lone quote or backslash stands for
      itself. */
  function DecodeBody(s: string, quote: char, plain: bool): (r: string)
    ensures |r| <= |s|
  {
    if s == "" then ""
    else if s[0] == quote && |s| > 1 && s[1] == quote then [quote] + DecodeBody(s[2..], quote, plain)
    else if s[0] == '\\' && !plain && |s| > 1 then [s[1]] + DecodeBody(s[2..], quote, plain)
    else [s[0]] + DecodeBody(s[1..], quote, plain)
  }

  predicate IsLiteral(text: string) {
    |text| >= 2 && IsQuote(text[0]) && text[|text| - 1] == text[0]
  }

  function Body(text: string): string
    requires IsLiteral(text)
  {
    text[1..|text| - 1]
  }

  function DecodeLiteral(text: string, plain: bool): Option<string> {
    if IsLiteral(text) then Just(DecodeBody(Body(text), text[0], plain)) else Nothing
  }

  ghost function BodyAt(text: string, index: nat, plain: bool): string
    requires IsLiteral(text) && 1 <= index <= |text| - 1
  {
    DecodeBody(text[index..|text| - 1], text[0], plain)
  }

  lemma {:induction false} BodyStep(text: string, index: nat, plain: bool)
    requires IsLiteral(text) && 1 <= index < |text| - 1
    ensures var more := index + 1 < |text| - 1;
            && (text[index] == text[0] && more && text[index + 1] == text[0] ==>
                  BodyAt(text, index, plain) == [text[0]] + BodyAt(text, index + 2, plain))
            && (text[index] == '\\' && !plain && more ==>
                  BodyAt(text, index, plain) == [text[index + 1]] + BodyAt(text, index + 2, plain))
            && (!(text[index] == text[0] && more && text[index + 1] == text[0]) &&
                !(text[index] == '\\' && !plain && more) ==>
                  BodyAt(text, index, plain) == [text[index]] + BodyAt(text, index + 1, plain))
  {
    var last := |text| - 1;
    var s := text[index..last];
    assert s[0] == text[index] && s[1..] == text[index + 1..last];
    if index + 1 < last {
      assert s[1] == text[index + 1] && s[2..] == text[index + 2..last];
    }
  }

  /** The decoding loop, into a fixed buffer that also needs room for a terminator. */
  method DecodeQuotedSqlModeValue(text: string, plain: bool, buffer: array<char>) returns (ok: bool, length: nat)
    requires buffer.Length > 0
    modifies buffer
    ensures ok <==> IsLiteral(text) && |DecodeBody(Body(text), text[0], plain)| < buffer.Length
    ensures ok ==> length < buffer.Length && buffer[length] == '\0'
    ensures ok ==> buffer[..length] == DecodeBody(Body(text), text[0], plain)
  {
    length := 0;
    if |text| < 2 || !IsQuote(text[0]) || text[|text| - 1] != text[0] {
      return false, 0;
    }
    var quote := text[0];
    var index := 1;
    ghost var goal := BodyAt(text, 1, plain);
    ghost var done := "";
    while index + 1 < |text|
      invariant 1 <= index <= |text| - 1
      invariant |done| == length < buffer.Length && buffer[..length] == done
      invariant goal == done + BodyAt(text, index, plain)
    {
      BodyStep(text, index, plain);
      var c := text[index];
      var next := index + 1;
      if c == quote && index + 1 < |text| - 1 && text[index + 1] == quote {
        next := index + 2;
      } else if c == '\\' && !plain && index + 1 < |text| - 1 {
        next := index + 2;
        c := text[index + 1];
      }
      Regroup(done, [c], BodyAt(text, next, plain));
      if length + 1 >= buffer.Length {
        return false, length;
      }
      buffer[length] := c;
      length := length + 1;
      done := done + [c];
      index := next;
    }
    assert done + "" == done;
    buffer[length] := '\0';
    return true, length;
  }

  // ----- quoting

  /** Doubles every quote, and every backslash too when asked. */
  function Encode(s: string, quote: char, backslashes: bool): string {
    if s == "" then ""
    else
      (if s[0] == quote || (backslashes && s[0] == '\\') then [s[0], s[0]] else [s[0]]) +
      Encode(s[1..], quote, backslashes)
  }

  function Literal(s: string, quote: char, backslashes: bool): string {
    [quote] + Encode(s, quote, backslashes) + [quote]
  }

  lemma DecodePair(c: char, rest: string, quote: char, plain: bool)
    requires c == quote || (c == '\\' && !plain)
    ensures DecodeBody([c, c] + rest, quote, plain) == [c] + DecodeBody(rest, quote, plain)
  {
    var s := [c, c] + rest;
    assert s[0] == c && s[1] == c && s[2..] == rest;
  }

  lemma DecodeOther(c: char, rest: string, quote: char, plain: bool)
    requires c == quote ==> rest == "" || rest[0] != quote
    requires c == '\\' ==> plain || rest == ""
    ensures DecodeBody([c] + rest, quote, plain) == [c] + DecodeBody(rest, quote, plain)
  {
    var s := [c] + rest;
    assert s[0] == c && s[1..] == rest;
    assert |s| > 1 ==> s[1] == rest[0];
  }

  lemma DecodeEscape(c: char, rest: string, quote: char)
    requires quote != '\\'
    ensures DecodeBody(['\\', c] + rest, quote, false) == [c] + DecodeBody(rest, quote, false)
  {
    var s := ['\\', c] + rest;
    assert s[0] == '\\' && s[1] == c && s[2..] == rest;
  }

  lemma {:induction false} DecodeEncode(s: string, quote: char, plain: bool)
    requires IsQuote(quote)
    ensures DecodeBody(Encode(s, quote, !plain), quote, plain) == s
  {
    if s != "" {
      var rest := Encode(s[1..], quote, !plain);
      DecodeEncode(s[1..], quote, plain);
      if s[0] == quote || (!plain && s[0] == '\\') {
        DecodePair(s[0], rest, quote, plain);
      } else {
        DecodeOther(s[0], rest, quote, plain);
      }
      assert [s[0]] + s[1..] == s;
    }
  }

  /** Decoding undoes quoting, for either quote character: doubling the quotes is enough when
      backslashes are plain, doubling quotes and backslashes otherwise. */
  lemma LiteralRoundTrip(s: string, quote: char, plain: bool)
    requires IsQuote(quote)
    ensures DecodeLiteral(Literal(s, quote, !plain), plain) == Just(s)
  {
    var text := Literal(s, quote, !plain);
    assert text[1..|text| - 1] == Encode(s, quote, !plain);
    DecodeEncode(s, quote, plain);
  }

  // ----- escape_sql_string

  function EscapeSql(s: string): string {
    Encode(s, '\'', false)
  }

  lemma {:induction false} EscapeAppend(s: string, c: char)
    ensures EscapeSql(s + [c]) == EscapeSql(s) + (if c == '\'' then "''" else [c])
  {
    if s == "" {
      assert s + [c] == [c];
      assert [c][1..] == "";
    } else {
      assert (s + [c])[0] == s[0] && (s + [c])[1..] == s[1..] + [c];
      EscapeAppend(s[1..], c);
    }
  }

  lemma {:induction false} EscapeMonotone(s: string, k: nat)
    requires k <= |s|
    ensures |EscapeSql(s[..k])| <= |EscapeSql(s)|
    decreases |s|
  {
    if k < |s| {
      var shorter := s[..|s| - 1];
      EscapeMonotone(shorter, k);
      assert shorter[..k] == s[..k];
      EscapeAppend(shorter, s[|s| - 1]);
      assert shorter + [s[|s| - 1]] == s;
    } else {
      assert s[..k] == s;
    }
  }

  /** The escaper reserves two bytes and a terminator for every character, the last one included, so
      it gives up exactly when the escaped text before the last character leaves less than that. */
  method EscapeSqlString(input: string, output: array<char>) returns (rc: nat)
    requires output.Length > 0
    modifies output
    ensures rc <= 1
    ensures var s := UpToNul(input);
            && (rc == 0 <==> s == "" || |EscapeSql(s[..|s| - 1])| + 2 < output.Length)
            && (rc == 0 ==>
                  && |EscapeSql(s)| < output.Length
                  && output[..|EscapeSql(s)|] == EscapeSql(s) && output[|EscapeSql(s)|] == '\0')
  {
    var length := 0;
    var index := 0;
    ghost var s := UpToNul(input);
    while index < |input| && input[index] != '\0'
      invariant 0 <= index <= |input| && '\0' !in input[..index]
      invariant index <= |s| && s[..index] == input[..index]
      invariant length == |EscapeSql(s[..index])| < output.Length
      invariant output[..length] == EscapeSql(s[..index])
      invariant index == |s| && s != "" ==> |EscapeSql(s[..|s| - 1])| + 2 < output.Length
    {
      PrefixSeen(input, index);
      assert input[..index + 1] == input[..index] + [input[index]];
      ghost var before := s[..index];
      if length + 2 >= output.Length {
        EscapeMonotone(s[..|s| - 1], index);
        assert s[..|s| - 1][..index] == before;
        return 1;
      }
      assert s[..index + 1] == before + [input[index]];
      EscapeAppend(before, input[index]);
      output[length] := input[index];
      length := length + 1;
      if input[index] == '\'' {
        output[length] := '\'';
        length := length + 1;
      }
      index := index + 1;
    }
    UpToNulIs(input, index);
    assert s[..index] == s;
    output[length] := '\0';
    return 0;
  }

  predicate NoEarlyBackslash(s: string) {
    s == "" || '\\' !in s[..|s| - 1]
  }

  /** Decoding escaped text never yields more characters than went in, also behind half of a doubled
      quote. */
  lemma {:induction false} DecodedLength(s: string)
    ensures |DecodeBody(EscapeSql(s), '\'', false)| <= |s|
    ensures |DecodeBody("'" + EscapeSql(s), '\'', false)| <= |s| + 1
    decreases |s|
  {
    if s == "" {
      DecodeOther('\'', "", '\'', false);
    } else {
      var rest := EscapeSql(s[1..]);
      DecodedLength(s[1..]);
      if s[0] == '\'' {
        DecodePair('\'', rest, '\'', false);
        assert EscapeSql(s) == "''" + rest;
        DecodePair('\'', "'" + rest, '\'', false);
        assert "'" + ("''" + rest) == "''" + ("'" + rest);
      } else {
        assert EscapeSql(s) == [s[0]] + rest;
        DecodeOther('\'', [s[0]] + rest, '\'', false);
        if s[0] != '\\' || rest == "" {
          DecodeOther(s[0], rest, '\'', false);
        } else {
          EscapedBackslash(s);
          DecodedLength(s[2..]);
        }
      }
    }
  }

  /** What a backslash that is not last does to the text behind it. */
  lemma EscapedBackslash(s: string)
    requires |s| >= 2 && s[0] == '\\'
    ensures DecodeBody(EscapeSql(s), '\'', false) ==
            [s[1]] + (if s[1] == '\'' then DecodeBody("'" + EscapeSql(s[2..]), '\'', false)
                      else DecodeBody(EscapeSql(s[2..]), '\'', false))
  {
    var rest := EscapeSql(s[2..]);
    assert s[1..][0] == s[1] && s[1..][1..] == s[2..];
    var tail := EscapeSql(s[1..]);
    assert EscapeSql(s) == ['\\'] + tail;
    if s[1] == '\'' {
      assert tail == "''" + rest;
      assert ['\\'] + ("''" + rest) == ['\\', '\''] + ("'" + rest);
      DecodeEscape('\'', "'" + rest, '\'');
    } else {
      assert tail == [s[1]] + rest;
      assert ['\\'] + ([s[1]] + rest) == ['\\', s[1]] + rest;
      DecodeEscape(s[1], rest, '\'');
    }
  }

  /** With backslash escapes on, escaping without doubling backslashes reads back exactly for the
      strings that have no backslash before their last character. */
  lemma {:induction false} EscapedReadsBackExactly(s: string)
    ensures DecodeBody(EscapeSql(s), '\'', false) == s <==> NoEarlyBackslash(s)
    decreases |s|
  {
    if s == "" {
    } else if s[0] == '\\' && |s| >= 2 {
      EscapedBackslash(s);
      assert s[..|s| - 1][0] == '\\';
      if s[1] == '\\' {
        DecodedLength(s[2..]);
      }
    } else {
      var rest := EscapeSql(s[1..]);
      if s[0] == '\'' {
        DecodePair('\'', rest, '\'', false);
      } else {
        DecodeOther(s[0], rest, '\'', false);
      }
      EscapedReadsBackExactly(s[1..]);
      assert [s[0]] + s[1..] == s;
      if |s| >= 2 {
        assert s[..|s| - 1] == [s[0]] + s[1..][..|s| - 2];
      }
    }
  }

  /** The escaped text in single quotes reads back always under NO_BACKSLASH_ESCAPES, and otherwise
      exactly when no backslash comes before the last character. */
  lemma EscapeRoundTrip(s: string, plain: bool)
    ensures DecodeLiteral("'" + EscapeSql(s) + "'", plain) == Just(s) <==> plain || NoEarlyBackslash(s)
  {
    var text := "'" + EscapeSql(s) + "'";
    assert text[1..|text| - 1] == EscapeSql(s);
    if plain {
      DecodeEncode(s, '\'', true);
    } else {
      EscapedReadsBackExactly(s);
    }
  }

  /** The smallest text that does not survive: a backslash before another character. */
  lemma EscapeLosesBackslash()
    ensures DecodeLiteral("'" + EscapeSql("\\n") + "'", false) == Just("n")
  {
    var s := "\\n";
    EscapedBackslash(s);
    assert s[2..] == "" && EscapeSql("") == "";
    var text := "'" + EscapeSql(s) + "'";
    assert text[1..|text| - 1] == EscapeSql(s);
    assert DecodeBody("", '\'', false) == "";
    assert [s[1]] + "" == "n";
  }
}
