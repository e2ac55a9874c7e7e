/** Small facts shared by the text and byte models. */
module Sequences {
  function Max(a: nat, b: nat): nat {
    if a < b then b else a
  }

  lemma Regroup<T>(a: seq<T>, b: seq<T>, c: seq<T>)
    ensures (a + b) + c == a + (b + c)
  {
  }

  /** Slicing a rest of a sequence is slicing the sequence. */
  lemma RestSlices<T>(s: seq<T>, from: nat, to: nat)
    requires from <= to <= |s|
    ensures s[from..][..to - from] == s[from..to] && s[from..][to - from..] == s[to..]
  {
  }
}
