/** The 64-bit bitwise SQL functions. A word travels between nested calls as an SQLite integer when it
    fits int64 and as decimal text otherwise. */
module BitwiseFunctions {
  import opened CStrings
  import opened Decimal
  import opened Words

  const INT64_MAX: nat := 0x7FFF_FFFF_FFFF_FFFF
  const DECIMAL_CAPACITY: nat := 32

  type Int64 = v: int | -0x8000_0000_0000_0000 <= v <= 0x7FFF_FFFF_FFFF_FFFF

  datatype SqlValue = Null | Integer(value: Int64) | Text(text: string) | RealOrBlob

  datatype Result = Ok(v: SqlValue) | Error

  datatype Operation = None | Not | And | Or | Xor | LeftShift | RightShift

  // ----- arguments

  predicate IsWordText(s: string) {
    s != "" && AllDigits(s) && Value(s) < WORD_LIMIT
  }

  /** The digit loop with its overflow guard accepts exactly the nonempty digit strings up to
      2^64 - 1, leading zeros included, and returns the number they denote. */
  method ParseUnsignedDecimalText(text: string) returns (r: Option<Word>)
    ensures r.Just? <==> IsWordText(UpToNul(text))
    ensures r.Just? ==> r.value == Value(UpToNul(text))
  {
    if |text| == 0 || text[0] == '\0' {
      return Nothing;
    }
    var value: Word := 0;
    var index := 0;
    while index < |text| && text[index] != '\0'
      invariant 0 <= index <= |text|
      invariant Reads(text, index, value)
    {
      if !IsDigit(text[index]) {
        PrefixSeen(text, index);
        NotADigit(UpToNul(text), index);
        return Nothing;
      }
      var digit := DigitValue(text[index]);
      ReadsOn(text, index, value);
      GuardExact(value, digit);
      if value > (SIZE_MAX - digit) / 10 {
        return Nothing;
      }
      value := value * 10 + digit;
      index := index + 1;
    }
    UpToNulIs(text, index);
    return Just(value);
  }

  /** The first index characters are digits and denote value. */
  ghost predicate Reads(text: string, index: nat, value: nat) {
    index <= |text| && '\0' !in text[..index] && AllDigits(text[..index]) && value == Value(text[..index])
  }

  /** One more digit denotes ten times as much and the digit; a prefix that is too large rules out the
      whole text. */
  lemma {:induction false} ReadsOn(text: string, index: nat, value: nat)
    requires Reads(text, index, value) && index < |text| && IsDigit(text[index])
    ensures Reads(text, index + 1, value * 10 + DigitValue(text[index]))
    ensures value * 10 + DigitValue(text[index]) >= WORD_LIMIT ==> !IsWordText(UpToNul(text))
  {
    PrefixSeen(text, index);
    assert text[..index + 1] == text[..index] + [text[index]];
    ValueAppend(text[..index], text[index]);
    if AllDigits(UpToNul(text)) {
      ValueOfPrefix(UpToNul(text), index + 1);
    }
  }

  /** The division test is the overflow test. */
  lemma GuardExact(value: Word, digit: nat)
    requires digit < 10
    ensures value > (SIZE_MAX - digit) / 10 <==> value * 10 + digit >= WORD_LIMIT
  {
  }

  lemma NotADigit(s: string, k: nat)
    requires k < |s| && !IsDigit(s[k])
    ensures !AllDigits(s)
  {
  }

  lemma {:induction false} ValueOfPrefix(s: string, k: nat)
    requires AllDigits(s) && k <= |s|
    ensures Value(s[..k]) <= Value(s)
    decreases |s|
  {
    if k < |s| {
      var shorter := s[..|s| - 1];
      ValueOfPrefix(shorter, k);
      assert shorter[..k] == s[..k];
    } else {
      assert s[..k] == s;
    }
  }

  datatype Argument = NullArgument | WordArgument(word: Word) | BadArgument

  /** What an argument means: a word, NULL, or nothing usable. Integers are taken modulo 2^64. */
  function ArgumentOf(v: SqlValue): Argument {
    match v
    case Null => NullArgument
    case Integer(i) => WordArgument(if i < 0 then i + WORD_LIMIT else i)
    case Text(t) =>
      var s := UpToNul(t);
      if IsWordText(s) then WordArgument(Value(s)) else BadArgument
    case RealOrBlob => BadArgument
  }

  /** An integer is taken as the word with its bits: signed again, the word is the integer. */
  lemma IntegerArgument(i: Int64)
    ensures ArgumentOf(Integer(i)).WordArgument? && AsInt64(ArgumentOf(Integer(i)).word) == i
  {
  }

  /** Reads one argument: whether it is usable, its word and whether it is NULL. */
  method BitwiseArgumentUint64(v: SqlValue) returns (ok: bool, word: Word, isNull: bool)
    ensures ok <==> !ArgumentOf(v).BadArgument?
    ensures ok ==> (isNull <==> ArgumentOf(v).NullArgument?)
    ensures ok && !isNull ==> ArgumentOf(v) == WordArgument(word)
    ensures v.Integer? ==> ok && !isNull && AsInt64(word) == v.value
    ensures v.Text? ==> (ok <==> IsWordText(UpToNul(v.text))) && (ok ==> !isNull && word == Value(UpToNul(v.text)))
  {
    word, isNull := 0, false;
    match v
    case Null => return true, 0, true;
    case Integer(i) => return true, if i < 0 then i + WORD_LIMIT else i, false;
    case Text(t) =>
      var parsed := ParseUnsignedDecimalText(t);
      return parsed.Just?, if parsed.Just? then parsed.value else 0, false;
    case RealOrBlob => return false, 0, false;
  }

  // ----- results

  function ResultOf(w: Word): Result {
    if w <= INT64_MAX then Ok(Integer(w))
    else if |Digits(w)| >= DECIMAL_CAPACITY then Error
    else Ok(Text(Digits(w)))
  }

  /** Words below 2^63 are returned as integers, the others as their decimal text. */
  lemma ResultKinds(w: Word)
    ensures w < 0x8000_0000_0000_0000 ==> ResultOf(w) == Ok(Integer(w))
    ensures w >= 0x8000_0000_0000_0000 ==>
              ResultOf(w).Ok? && ResultOf(w).v == Text(Digits(w)) && Value(Digits(w)) == w
  {
    TwentyDigits(w);
    ValueOfDigits(w);
  }

  lemma DigitsHaveNoNul(s: string)
    requires AllDigits(s)
    ensures UpToNul(s) == s
  {
    UpToNulIs(s, |s|);
    assert s[..|s|] == s;
  }

  /** Every word survives being returned and passed on: the format buffer is never too small, and the
      argument reader recovers the word from whichever encoding was chosen. */
  lemma ResultReadsBack(w: Word)
    ensures ResultOf(w).Ok? && ArgumentOf(ResultOf(w).v) == WordArgument(w)
  {
    if w > INT64_MAX {
      TwentyDigits(w);
      DigitsHaveNoNul(Digits(w));
      ValueOfDigits(w);
    }
  }

  // ----- the callback

  function Shifted(op: Operation, left: Word, right: Word): Word {
    if right >= WORD_BITS then 0
    else if op == LeftShift then ShiftLeft(left, right) else ShiftRight(left, right)
  }

  function Callback(op: Operation, args: seq<SqlValue>): Result {
    if op == None then Error
    else if (op == Not && |args| != 1) || (op != Not && |args| != 2) then Error
    else
      match ArgumentOf(args[0])
      case BadArgument => Error
      case NullArgument => Ok(Null)
      case WordArgument(left) =>
        if op == Not then ResultOf(Complement(left))
        else
          match ArgumentOf(args[1])
          case BadArgument => Error
          case NullArgument => Ok(Null)
          case WordArgument(right) =>
            match op
            case And => ResultOf(WordOp(AndBits, left, right))
            case Or => ResultOf(WordOp(OrBits, left, right))
            case Xor => ResultOf(WordOp(XorBits, left, right))
            case LeftShift => ResultOf(Shifted(op, left, right))
            case RightShift => ResultOf(Shifted(op, left, right))
            case _ => Error
  }

  // ----- nested expressions

  datatype Expr =
    | Leaf(value: SqlValue)
    | Unary(operand: Expr)
    | Binary(op: Operation, left: Expr, right: Expr)

  predicate IsBinary(op: Operation) {
    op != None && op != Not
  }

  /** Leaves are NULL, integers or in-range decimal text. */
  predicate WellFormed(e: Expr) {
    match e
    case Leaf(v) => !ArgumentOf(v).BadArgument?
    case Unary(x) => WellFormed(x)
    case Binary(op, l, r) => IsBinary(op) && WellFormed(l) && WellFormed(r)
  }

  /** Evaluation as SQLite runs it: every inner result is encoded as a value and read back by the
      enclosing call. */
  function Run(e: Expr): Result {
    match e
    case Leaf(v) => Ok(v)
    case Unary(x) =>
      var a := Run(x);
      if a.Error? then Error else Callback(Not, [a.v])
    case Binary(op, l, r) =>
      var a := Run(l);
      var b := Run(r);
      if a.Error? || b.Error? then Error else Callback(op, [a.v, b.v])
  }

  /** The true 64-bit value of an expression, with no encoding in between; Nothing is NULL. */
  ghost function Denotes(e: Expr): Option<Word> {
    match e
    case Leaf(v) => if ArgumentOf(v).WordArgument? then Just(ArgumentOf(v).word) else Nothing
    case Unary(x) =>
      var a := Denotes(x);
      if a.Nothing? then Nothing else Just(Complement(a.value))
    case Binary(op, l, r) =>
      var a := Denotes(l);
      var b := Denotes(r);
      if a.Nothing? || b.Nothing? then Nothing else Just(Apply(op, a.value, b.value))
  }

  /** The one word whose bits are those the operation prescribes. */
  ghost function Apply(op: Operation, x: Word, y: Word): (z: Word)
    ensures forall i: nat :: i < WORD_BITS ==> Bit(z, i) == ExpectedBit(op, x, y, i)
  {
    var z: Word := match op
      case And => WordOp(AndBits, x, y)
      case Or => WordOp(OrBits, x, y)
      case Xor => WordOp(XorBits, x, y)
      case LeftShift => Shifted(op, x, y)
      case RightShift => Shifted(op, x, y)
      case _ => 0;
    ApplyBits(op, x, y, z);
    z
  }

  predicate ExpectedBit(op: Operation, x: Word, y: Word, i: nat) {
    match op
    case And => Bit(x, i) && Bit(y, i)
    case Or => Bit(x, i) || Bit(y, i)
    case Xor => Bit(x, i) != Bit(y, i)
    case LeftShift => i >= y && Bit(x, i - y)
    case RightShift => i + y < WORD_BITS && Bit(x, i + y)
    case _ => false
  }

  lemma ApplyBits(op: Operation, x: Word, y: Word, z: Word)
    requires op == And ==> z == WordOp(AndBits, x, y)
    requires op == Or ==> z == WordOp(OrBits, x, y)
    requires op == Xor ==> z == WordOp(XorBits, x, y)
    requires op == LeftShift || op == RightShift ==> z == Shifted(op, x, y)
    requires op == None || op == Not ==> z == 0
    ensures forall i: nat :: i < WORD_BITS ==> Bit(z, i) == ExpectedBit(op, x, y, i)
  {
    forall i: nat | i < WORD_BITS
      ensures Bit(z, i) == ExpectedBit(op, x, y, i)
    {
      ZeroBits(i);
      WordOpBits(AndBits, x, y, i);
      WordOpBits(OrBits, x, y, i);
      WordOpBits(XorBits, x, y, i);
      if y < WORD_BITS {
        ShiftLeftBits(x, y, i);
        ShiftRightBits(x, y, i);
      }
    }
  }

  /** A value no call can use: only a leaf can be one, since every result reads back. */
  predicate Unusable(e: Expr) {
    e.Leaf? && ArgumentOf(e.value).BadArgument?
  }

  /** Which expressions fail: those with a call of no operation, an unusable first operand, an unusable
      second operand behind a first that is not NULL, or a failing operand. */
  ghost predicate Fails(e: Expr) {
    match e
    case Leaf(_) => false
    case Unary(x) => Fails(x) || Unusable(x)
    case Binary(op, l, r) =>
      !IsBinary(op) || Fails(l) || Fails(r) || Unusable(l) || (Unusable(r) && Denotes(l).Just?)
  }

  /** The evaluation of e gives a value that means what e denotes. */
  ghost predicate Exact(e: Expr) {
    && Run(e).Ok?
    && ArgumentOf(Run(e).v) == (if Denotes(e).Nothing? then NullArgument else WordArgument(Denotes(e).value))
  }

  lemma {:induction false} UnaryExactly(x: Expr)
    requires Run(x).Error? <==> Fails(x)
    requires !Fails(x) && !Unusable(x) ==> Exact(x)
    requires Unusable(x) ==> Run(x) == Ok(x.value)
    ensures Run(Unary(x)).Error? <==> Fails(Unary(x))
    ensures !Fails(Unary(x)) ==> Exact(Unary(x))
  {
    if Denotes(x).Just? {
      ResultReadsBack(Complement(Denotes(x).value));
    }
  }

  lemma {:induction false} BinaryExactly(op: Operation, l: Expr, r: Expr)
    requires (Run(l).Error? <==> Fails(l)) && (Run(r).Error? <==> Fails(r))
    requires (!Fails(l) && !Unusable(l) ==> Exact(l)) && (!Fails(r) && !Unusable(r) ==> Exact(r))
    ensures Run(Binary(op, l, r)).Error? <==> Fails(Binary(op, l, r))
    ensures !Fails(Binary(op, l, r)) ==> Exact(Binary(op, l, r))
  {
    if Run(l).Ok? && Run(r).Ok? {
      CallbackFails(op, [Run(l).v, Run(r).v]);
      if Denotes(l).Just? && Denotes(r).Just? {
        ResultReadsBack(Apply(op, Denotes(l).value, Denotes(r).value));
      }
    }
  }

  /** Evaluating any expression at all through the callbacks, with every intermediate value encoded as
      integer or text, errs exactly on the expressions that fail, and otherwise gives exactly the word
      of the true 64-bit evaluation, or NULL. */
  lemma {:induction false} EvaluationExactly(e: Expr)
    ensures Run(e).Error? <==> Fails(e)
    ensures !Fails(e) && !Unusable(e) ==> Exact(e)
  {
    match e
    case Leaf(v) =>
    case Unary(x) =>
      EvaluationExactly(x);
      UnaryExactly(x);
    case Binary(op, l, r) =>
      EvaluationExactly(l);
      EvaluationExactly(r);
      BinaryExactly(op, l, r);
  }

  lemma {:induction false} WellFormedNeverFails(e: Expr)
    requires WellFormed(e)
    ensures !Fails(e) && !Unusable(e)
  {
    match e
    case Leaf(_) =>
    case Unary(x) => WellFormedNeverFails(x);
    case Binary(_, l, r) =>
      WellFormedNeverFails(l);
      WellFormedNeverFails(r);
  }

  /** With leaves that are NULL, integers or in-range decimal text there is never an error. */
  lemma NestedCallsAreExact(e: Expr)
    requires WellFormed(e)
    ensures Run(e).Ok?
    ensures ArgumentOf(Run(e).v) == (if Denotes(e).Nothing? then NullArgument else WordArgument(Denotes(e).value))
  {
    WellFormedNeverFails(e);
    EvaluationExactly(e);
  }

  /** One call fails exactly on a wrong operation or argument count, an unusable first argument, or an
      unusable second one behind a first that is not NULL. */
  lemma CallbackFails(op: Operation, args: seq<SqlValue>)
    ensures Callback(op, args).Error? <==>
              || op == None
              || |args| != (if op == Not then 1 else 2)
              || ArgumentOf(args[0]).BadArgument?
              || (op != Not && ArgumentOf(args[0]).WordArgument? && ArgumentOf(args[1]).BadArgument?)
  {
    if op != None && |args| == (if op == Not then 1 else 2) && ArgumentOf(args[0]).WordArgument? {
      var left := ArgumentOf(args[0]).word;
      if op == Not {
        ResultReadsBack(Complement(left));
      } else if ArgumentOf(args[1]).WordArgument? {
        ResultReadsBack(Apply(op, left, ArgumentOf(args[1]).word));
      }
    }
  }

  /** Shifting by a and then by b is shifting by a + b, in either direction; from 64 places on the
      result is zero. */
  lemma ShiftsAdd(op: Operation, x: Word, a: Word, b: Word)
    requires op == LeftShift || op == RightShift
    ensures Shifted(op, Shifted(op, x, a), b) == (if a + b < WORD_BITS then Shifted(op, x, a + b) else 0)
  {
    var once := Apply(op, x, a);
    var twice := Apply(op, once, b);
    if a + b < WORD_BITS {
      var sum := Apply(op, x, a + b);
      forall i: nat | i < WORD_BITS
        ensures Bit(twice, i) == Bit(sum, i)
      {
        assert Bit(twice, i) == ExpectedBit(op, once, b, i);
        assert Bit(sum, i) == ExpectedBit(op, x, a + b, i);
      }
      WordsDetermined(twice, sum);
    } else {
      forall i: nat | i < WORD_BITS
        ensures Bit(twice, i) == Bit(0, i)
      {
        assert Bit(twice, i) == ExpectedBit(op, once, b, i);
        ZeroBits(i);
      }
      WordsDetermined(twice, 0);
    }
  }
}
