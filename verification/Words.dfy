/** Sizes and bit-level operations of the unsigned 64-bit words the C code computes with. A word is
    a natural number below 2^64; every operation that can wrap in C is written with its modulus. */
module Words {

  const WORD_BITS: nat := 64
  const WORD_LIMIT: nat := 0x1_0000_0000_0000_0000
  const SIZE_MAX: nat := WORD_LIMIT - 1

  type Word = w: nat | w < WORD_LIMIT

  /** A word bound as a signed 64-bit value. */
  function AsInt64(w: Word): int {
    if w < 0x8000_0000_0000_0000 then w else w - WORD_LIMIT
  }

  function Pow2(k: nat): (p: nat)
    ensures p >= 1
  {
    if k == 0 then 1 else 2 * Pow2(k - 1)
  }

  lemma Pow2Of63()
    ensures Pow2(63) == 0x8000_0000_0000_0000
    ensures Pow2(64) == WORD_LIMIT
  {
    assert Pow2(16) == 0x1_0000;
    assert Pow2(32) == 0x1_0000_0000 by { Pow2Add(16, 16); }
    assert Pow2(48) == 0x1_0000_0000_0000 by { Pow2Add(32, 16); }
    assert Pow2(63) == Pow2(48) * Pow2(15) by { Pow2Add(48, 15); }
    assert Pow2(15) == 0x8000;
  }

  lemma {:induction false} Pow2Add(a: nat, b: nat)
    ensures Pow2(a + b) == Pow2(a) * Pow2(b)
  {
    if a > 0 {
      Pow2Add(a - 1, b);
    }
  }

  lemma {:induction false} Pow2Monotone(a: nat, b: nat)
    requires a <= b
    ensures Pow2(a) <= Pow2(b)
  {
    if a < b {
      Pow2Monotone(a, b - 1);
    }
  }

  // ----- bits

  /** Bit i of x, counted from the least significant one. */
  predicate Bit(x: nat, i: nat)
    decreases i
  {
    if i == 0 then x % 2 == 1 else Bit(x / 2, i - 1)
  }

  lemma {:induction false} ZeroBits(i: nat)
    ensures !Bit(0, i)
  {
    if i > 0 {
      ZeroBits(i - 1);
    }
  }

  datatype Logic = AndBits | OrBits | XorBits

  predicate Combine(op: Logic, a: bool, b: bool) {
    match op
    case AndBits => a && b
    case OrBits => a || b
    case XorBits => a != b
  }

  /** The bitwise operation on the low width bits. */
  function Bitwise(op: Logic, x: nat, y: nat, width: nat): (r: nat)
    ensures r < Pow2(width)
  {
    if width == 0 then 0
    else (if Combine(op, x % 2 == 1, y % 2 == 1) then 1 else 0) + 2 * Bitwise(op, x / 2, y / 2, width - 1)
  }

  function WordOp(op: Logic, x: Word, y: Word): Word {
    Pow2Of63();
    Bitwise(op, x, y, WORD_BITS)
  }

  function Complement(x: Word): Word {
    WORD_LIMIT - 1 - x
  }

  /** A left shift doubles s times and drops what leaves the word. */
  function ShiftLeft(x: Word, s: nat): Word
    decreases s
  {
    if s == 0 then x else ShiftLeft((2 * x) % WORD_LIMIT, s - 1)
  }

  /** A right shift halves s times. */
  function ShiftRight(x: Word, s: nat): Word
    decreases s
  {
    if s == 0 then x else ShiftRight(x / 2, s - 1)
  }

  lemma {:induction false} BitwiseBits(op: Logic, x: nat, y: nat, width: nat, i: nat)
    requires i < width
    ensures Bit(Bitwise(op, x, y, width), i) == Combine(op, Bit(x, i), Bit(y, i))
  {
    if i > 0 {
      BitwiseBits(op, x / 2, y / 2, width - 1, i - 1);
    }
  }

  /** Numbers below 2^width are equal when their bits are. */
  lemma {:induction false} BitsDetermine(x: nat, y: nat, width: nat)
    requires x < Pow2(width) && y < Pow2(width)
    requires forall i :: 0 <= i < width ==> Bit(x, i) == Bit(y, i)
    ensures x == y
  {
    if width > 0 {
      assert Bit(x, 0) == Bit(y, 0);
      forall i | 0 <= i < width - 1
        ensures Bit(x / 2, i) == Bit(y / 2, i)
      {
        assert Bit(x, i + 1) == Bit(y, i + 1);
      }
      BitsDetermine(x / 2, y / 2, width - 1);
    }
  }

  lemma {:induction false} ComplementBits(x: nat, width: nat, i: nat)
    requires x < Pow2(width) && i < width
    ensures Bit(Pow2(width) - 1 - x, i) == !Bit(x, i)
  {
    var n := Pow2(width) - 1 - x;
    assert n / 2 == Pow2(width - 1) - 1 - x / 2;
    if i > 0 {
      ComplementBits(x / 2, width - 1, i - 1);
    }
  }

  lemma {:induction false} DroppedTopBit(x: nat, width: nat, i: nat)
    requires Pow2(width) <= x && i < width
    ensures Bit(x - Pow2(width), i) == Bit(x, i)
  {
    assert (x - Pow2(width)) / 2 == x / 2 - Pow2(width - 1);
    if i > 0 {
      DroppedTopBit(x / 2, width - 1, i - 1);
    }
  }

  lemma DoubledBits(x: Word, i: nat)
    requires i < WORD_BITS
    ensures Bit((2 * x) % WORD_LIMIT, i) <==> i > 0 && Bit(x, i - 1)
  {
    Pow2Of63();
    DoubledWord(x);
    EvenBits(x, i);
    if 2 * x >= WORD_LIMIT {
      DroppedTopBit(2 * x, WORD_BITS, i);
    }
  }

  lemma DoubledWord(x: Word)
    ensures (2 * x) % WORD_LIMIT == if 2 * x < WORD_LIMIT then 2 * x else 2 * x - WORD_LIMIT
  {
  }

  lemma {:induction false} EvenBits(x: nat, i: nat)
    ensures Bit(2 * x, i) <==> i > 0 && Bit(x, i - 1)
  {
  }

  lemma {:induction false} HighBitsZero(x: nat, width: nat, i: nat)
    requires x < Pow2(width) && width <= i
    ensures !Bit(x, i)
    decreases i
  {
    if i > 0 {
      HighBitsZero(x / 2, if width == 0 then 0 else width - 1, i - 1);
    }
  }

  /** What the word operations do to each bit. */
  lemma WordOpBits(op: Logic, x: Word, y: Word, i: nat)
    requires i < WORD_BITS
    ensures Bit(WordOp(op, x, y), i) == Combine(op, Bit(x, i), Bit(y, i))
    ensures Bit(Complement(x), i) == !Bit(x, i)
  {
    Pow2Of63();
    BitwiseBits(op, x, y, WORD_BITS, i);
    ComplementBits(x, WORD_BITS, i);
  }

  lemma {:induction false} ShiftLeftBits(x: Word, s: nat, i: nat)
    requires i < WORD_BITS
    ensures Bit(ShiftLeft(x, s), i) <==> i >= s && Bit(x, i - s)
    decreases s
  {
    if s > 0 {
      ShiftLeftBits((2 * x) % WORD_LIMIT, s - 1, i);
      if i >= s - 1 {
        DoubledBits(x, i - (s - 1));
      }
    }
  }

  lemma {:induction false} ShiftRightBits(x: Word, s: nat, i: nat)
    requires i < WORD_BITS
    ensures Bit(ShiftRight(x, s), i) <==> i + s < WORD_BITS && Bit(x, i + s)
    decreases s
  {
    if s > 0 {
      ShiftRightBits(x / 2, s - 1, i);
      assert Bit(x, i + s) == Bit(x / 2, i + s - 1);
      if i + s == WORD_BITS {
        Pow2Of63();
        HighBitsZero(x, WORD_BITS, i + s);
      }
    } else {
      assert Bit(ShiftRight(x, s), i) == Bit(x, i);
    }
  }

  /** Words with equal bits are equal. */
  lemma WordsDetermined(x: Word, y: Word)
    requires forall i :: 0 <= i < WORD_BITS ==> Bit(x, i) == Bit(y, i)
    ensures x == y
  {
    Pow2Of63();
    BitsDetermine(x, y, WORD_BITS);
  }

  /** Exclusive or undoes itself. */
  lemma XorCancels(x: Word, y: Word)
    ensures WordOp(XorBits, WordOp(XorBits, x, y), y) == x
  {
    var z := WordOp(XorBits, x, y);
    forall i | 0 <= i < WORD_BITS
      ensures Bit(WordOp(XorBits, z, y), i) == Bit(x, i)
    {
      WordOpBits(XorBits, x, y, i);
      WordOpBits(XorBits, z, y, i);
    }
    WordsDetermined(WordOp(XorBits, z, y), x);
  }
}
