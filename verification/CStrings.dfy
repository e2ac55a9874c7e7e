/** Text as C string code sees it: a character stands for one byte, and a NUL ends the string. */
module CStrings {

  datatype Option<T> = Nothing | Just(value: T)

  predicate IsLineEnd(c: char) {
    c == '\r' || c == '\n'
  }

  /** The part of a text that C string code sees. */
  function UpToNul(s: string): (t: string)
    ensures t <= s && '\0' !in t && (|t| < |s| ==> s[|t|] == '\0')
  {
    if s == [] || s[0] == '\0' then [] else [s[0]] + UpToNul(s[1..])
  }

  lemma UpToNulReaches(s: string, k: nat)
    requires k <= |s| && '\0' !in s[..k]
    ensures k <= |UpToNul(s)|
  {
    assert forall i :: 0 <= i < k ==> s[i] in s[..k];
  }

  lemma UpToNulIs(s: string, k: nat)
    requires k <= |s| && '\0' !in s[..k] && (k < |s| ==> s[k] == '\0')
    ensures UpToNul(s) == s[..k]
  {
    UpToNulReaches(s, k);
    assert forall i :: 0 <= i < |UpToNul(s)| ==> UpToNul(s)[i] != '\0';
  }

  lemma PrefixSeen(s: string, k: nat)
    requires k < |s| && s[k] != '\0' && '\0' !in s[..k]
    ensures k < |UpToNul(s)| && UpToNul(s)[..k + 1] == s[..k + 1]
  {
    assert s[..k + 1] == s[..k] + [s[k]];
    UpToNulReaches(s, k + 1);
  }
}
