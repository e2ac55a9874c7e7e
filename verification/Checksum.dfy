/** The running FNV checksum of the dataset benchmarks, over bytes and over words in both of its forms. */
module Checksum {
  import opened Words

  const FNV_PRIME: nat := 1099511628211
  /** The inverse of the prime modulo 2^64, and the quotient that shows it. */
  const FNV_INVERSE: nat := 14886173955864302971
  const FNV_QUOTIENT: nat := 887285111055

  type Byte = b: nat | b < 256

  // ----- the hash

  function HashByte(hash: Word, b: Byte): Word {
    (WordOp(XorBits, hash, b) * FNV_PRIME) % WORD_LIMIT
  }

  function HashBytes(hash: Word, bytes: seq<Byte>): Word
    decreases |bytes|
  {
    if bytes == [] then hash else HashBytes(HashByte(hash, bytes[0]), bytes[1..])
  }

  lemma {:induction false} HashConcat(hash: Word, a: seq<Byte>, b: seq<Byte>)
    ensures HashBytes(hash, a + b) == HashBytes(HashBytes(hash, a), b)
    decreases |a|
  {
    if a == [] {
      assert a + b == b;
    } else {
      assert (a + b)[0] == a[0] && (a + b)[1..] == a[1..] + b;
      HashConcat(HashByte(hash, a[0]), a[1..], b);
    }
  }

  /** Multiplying by the prime can be undone. */
  lemma PrimeIsInvertible(x: Word)
    ensures (((x * FNV_PRIME) % WORD_LIMIT) * FNV_INVERSE) % WORD_LIMIT == x
  {
    var q, r := (x * FNV_PRIME) / WORD_LIMIT, (x * FNV_PRIME) % WORD_LIMIT;
    assert x * FNV_PRIME == q * WORD_LIMIT + r;
    var m := x * FNV_QUOTIENT - q * FNV_INVERSE;
    assert FNV_PRIME * FNV_INVERSE == 1 + FNV_QUOTIENT * WORD_LIMIT;
    assert r * FNV_INVERSE == x + m * WORD_LIMIT;
    RemainderOf(r * FNV_INVERSE, m, x);
  }

  lemma RemainderOf(n: int, m: int, x: Word)
    requires n == x + m * WORD_LIMIT
    ensures n % WORD_LIMIT == x
  {
  }

  lemma StepKeepsApart(g: Word, h: Word, b: Byte)
    requires g != h
    ensures HashByte(g, b) != HashByte(h, b)
  {
    XorCancels(g, b);
    XorCancels(h, b);
    PrimeIsInvertible(WordOp(XorBits, g, b));
    PrimeIsInvertible(WordOp(XorBits, h, b));
  }

  /** Checksums that differ stay different under any identical later bytes. */
  lemma {:induction false} HashKeepsApart(g: Word, h: Word, bytes: seq<Byte>)
    requires g != h
    ensures HashBytes(g, bytes) != HashBytes(h, bytes)
    decreases |bytes|
  {
    if bytes != [] {
      StepKeepsApart(g, h, bytes[0]);
      HashKeepsApart(HashByte(g, bytes[0]), HashByte(h, bytes[0]), bytes[1..]);
    }
  }

  /** Takes one byte out of a hash again: the last step was an exclusive or and then a multiplication. */
  function UnhashByte(hash: Word, b: Byte): Word {
    WordOp(XorBits, hash * FNV_INVERSE % WORD_LIMIT, b)
  }

  function UnhashBytes(hash: Word, bytes: seq<Byte>): Word
    decreases |bytes|
  {
    if bytes == [] then hash else UnhashByte(UnhashBytes(hash, bytes[1..]), bytes[0])
  }

  lemma ByteUndone(hash: Word, b: Byte)
    ensures UnhashByte(HashByte(hash, b), b) == hash
  {
    PrimeIsInvertible(WordOp(XorBits, hash, b));
    XorCancels(hash, b);
  }

  /** Hashing is undone byte by byte: the hash and the bytes give back the hash they started from. */
  lemma {:induction false} HashUndone(hash: Word, bytes: seq<Byte>)
    ensures UnhashBytes(HashBytes(hash, bytes), bytes) == hash
    decreases |bytes|
  {
    if bytes != [] {
      HashUndone(HashByte(hash, bytes[0]), bytes[1..]);
      ByteUndone(hash, bytes[0]);
    }
  }

  /** The step on a single byte from zero is a multiplication by the prime. */
  lemma OneByteFromZero(b: Byte)
    ensures HashBytes(0, [b]) == b * 1099511628211 % WORD_LIMIT
  {
    ZeroXor(b);
    assert [b][1..] == [];
  }

  lemma ZeroXor(b: Word)
    ensures WordOp(XorBits, 0, b) == b
  {
    forall i: nat | i < WORD_BITS
      ensures Bit(WordOp(XorBits, 0, b), i) == Bit(b, i)
    {
      WordOpBits(XorBits, 0, b, i);
      ZeroBits(i);
    }
    WordsDetermined(WordOp(XorBits, 0, b), b);
  }

  method HashBytesLoop(hash: Word, bytes: seq<Byte>) returns (r: Word)
    ensures r == HashBytes(hash, bytes)
  {
    r := hash;
    assert bytes[0..] == bytes;
    for i := 0 to |bytes|
      invariant HashBytes(hash, bytes) == HashBytes(r, bytes[i..])
    {
      assert bytes[i..][0] == bytes[i] && bytes[i..][1..] == bytes[i + 1..];
      r := WordOp(XorBits, r, bytes[i]);
      r := (r * FNV_PRIME) % WORD_LIMIT;
    }
  }

  // ----- eight-byte words

  /** The low n bytes of a word, least significant first. */
  function LowBytes(v: nat, n: nat): (bytes: seq<Byte>)
    ensures |bytes| == n
    decreases n
  {
    if n == 0 then [] else [v % 256] + LowBytes(v / 256, n - 1)
  }

  function WordBytes(v: Word): (bytes: seq<Byte>)
    ensures |bytes| == 8
  {
    LowBytes(v, 8)
  }

  function Pow256(n: nat): (p: nat)
    ensures p >= 1
  {
    if n == 0 then 1 else 256 * Pow256(n - 1)
  }

  lemma {:induction false} LowBytesInjective(v: nat, w: nat, n: nat)
    requires v < Pow256(n) && w < Pow256(n) && LowBytes(v, n) == LowBytes(w, n)
    ensures v == w
    decreases n
  {
    if n > 0 {
      assert LowBytes(v, n)[0] == v % 256 && LowBytes(v, n)[1..] == LowBytes(v / 256, n - 1);
      assert LowBytes(w, n)[0] == w % 256 && LowBytes(w, n)[1..] == LowBytes(w / 256, n - 1);
      LowBytesInjective(v / 256, w / 256, n - 1);
    }
  }

  lemma WordBytesInjective(v: Word, w: Word)
    requires WordBytes(v) == WordBytes(w)
    ensures v == w
  {
    assert Pow256(8) == WORD_LIMIT;
    var n: nat :| n == 8;
    LowBytesInjective(v, w, n);
  }

  lemma {:induction false} ShiftRightAdds(v: Word, a: nat, b: nat)
    ensures ShiftRight(ShiftRight(v, a), b) == ShiftRight(v, a + b)
    decreases a
  {
    if a > 0 {
      ShiftRightAdds(v / 2, a - 1, b);
    }
  }

  lemma ShiftRightByte(v: Word)
    ensures ShiftRight(v, 8) == v / 256
  {
    assert ShiftRight(v, 4) == v / 16;
    assert ShiftRight(v / 16, 4) == v / 256;
    ShiftRightAdds(v, 4, 4);
  }

  lemma {:induction false} LowBytesAt(v: Word, n: nat, i: nat)
    requires i < n
    ensures LowBytes(v, n)[i] == ShiftRight(v, 8 * i) % 256
    decreases n
  {
    if i > 0 {
      LowBytesAt(v / 256, n - 1, i - 1);
      ShiftRightByte(v);
      ShiftRightAdds(v, 8, 8 * (i - 1));
    }
  }

  /** The form that first fills an array with the shifted bytes. */
  method HashUint64(hash: Word, value: Word) returns (r: Word)
    ensures r == HashBytes(hash, WordBytes(value))
  {
    var bytes := new Byte[8];
    for index := 0 to 8
      invariant forall i :: 0 <= i < index ==> bytes[i] == WordBytes(value)[i]
    {
      LowBytesAt(value, 8, index);
      bytes[index] := ShiftRight(value, 8 * index) % 256;
    }
    assert bytes[..] == WordBytes(value);
    r := HashBytesLoop(hash, bytes[..]);
  }

  /** The form that shifts the value as it goes: the same hash. */
  method HashUint64Shifting(hash: Word, value: Word) returns (r: Word)
    ensures r == HashBytes(hash, WordBytes(value))
  {
    r := hash;
    var rest := value;
    ghost var goal := HashBytes(hash, WordBytes(value));
    for index := 0 to 8
      invariant goal == HashBytes(r, LowBytes(rest, 8 - index))
    {
      ghost var bytes := LowBytes(rest, 8 - index);
      assert bytes[0] == rest % 256 && bytes[1..] == LowBytes(rest / 256, 7 - index);
      r := WordOp(XorBits, r, rest % 256);
      r := (r * FNV_PRIME) % WORD_LIMIT;
      ShiftRightByte(rest);
      rest := ShiftRight(rest, 8);
    }
  }
}
