/** The generated well-known-binary geometries of the fuzzer, and a reader of the format of clause 8.2
    of OGC 06-103r4 restricted to points and collections. */
module NestedWkb {
  import opened Sequences
  import opened Words
  import opened Checksum

  const POINT_TYPE: nat := 1
  const COLLECTION_TYPE: nat := 7
  const HEADER_SIZE: nat := 9
  const COUNT_OFFSET: nat := 5
  const POINT_SIZE: nat := 21

  // ----- flags

  predicate AlternateFlag(flags: Byte) {
    (flags / 2) % 2 == 1
  }

  predicate BigEndianFlag(flags: Byte) {
    flags % 2 == 1
  }

  predicate EmptyFlag(flags: Byte) {
    (flags / 4) % 2 == 1
  }

  predicate TruncateFlag(flags: Byte) {
    (flags / 8) % 2 == 1
  }

  predicate IsLittle(flags: Byte, index: nat) {
    if AlternateFlag(flags) then index % 2 == 0 else !BigEndianFlag(flags)
  }

  // ----- the bytes

  function Uint32(v: nat, little: bool): (bytes: seq<Byte>)
    requires v < 0x1_0000_0000
    ensures |bytes| == 4
  {
    var b := LowBytes(v, 4);
    if little then b else [b[3], b[2], b[1], b[0]]
  }

  function Order(little: bool): Byte {
    if little then 1 else 0
  }

  function CollectionHeader(little: bool, count: nat): (bytes: seq<Byte>)
    requires count < 0x1_0000_0000
    ensures |bytes| == HEADER_SIZE
  {
    [Order(little)] + Uint32(COLLECTION_TYPE, little) + Uint32(count, little)
  }

  function Zeros(n: nat): (bytes: seq<Byte>)
    ensures |bytes| == n && forall i :: 0 <= i < n ==> bytes[i] == 0
  {
    if n == 0 then [] else [0] + Zeros(n - 1)
  }

  /** The innermost geometry: an empty collection, or a point at the origin. */
  function WholeTerminal(flags: Byte, little: bool): (bytes: seq<Byte>)
    ensures |bytes| == TerminalSize(flags)
  {
    if EmptyFlag(flags) then CollectionHeader(little, 0)
    else [Order(little)] + Uint32(POINT_TYPE, little) + Zeros(16)
  }

  function TerminalSize(flags: Byte): nat {
    if EmptyFlag(flags) then HEADER_SIZE else POINT_SIZE
  }

  /** What is kept of it: with truncation, its byte order and type only. */
  function Terminal(flags: Byte, little: bool): seq<Byte> {
    var whole := WholeTerminal(flags, little);
    if TruncateFlag(flags) then whole[..COUNT_OFFSET] else whole
  }

  /** One-member collection headers from index to count, and the terminal. */
  function Nested(flags: Byte, index: nat, count: nat): seq<Byte>
    requires index <= count
    decreases count - index
  {
    if index == count then Terminal(flags, IsLittle(flags, count))
    else CollectionHeader(IsLittle(flags, index), 1) + Nested(flags, index + 1, count)
  }

  // ----- reading

  /** Coordinates are kept as their eight bytes, least significant first. */
  datatype Geometry = Point(x: seq<Byte>, y: seq<Byte>) | Collection(members: seq<Geometry>)

  datatype Read = Incomplete | Read(geometry: Geometry, rest: seq<Byte>)

  datatype ReadList = IncompleteList | ReadList(members: seq<Geometry>, rest: seq<Byte>)

  function FromBytes(b0: nat, b1: nat, b2: nat, b3: nat): nat {
    b0 + 256 * b1 + 65536 * b2 + 16777216 * b3
  }

  function ReadUint32(s: seq<Byte>, little: bool): nat
    requires |s| == 4
  {
    if little then FromBytes(s[0], s[1], s[2], s[3]) else FromBytes(s[3], s[2], s[1], s[0])
  }

  function Ordered(s: seq<Byte>, little: bool): seq<Byte>
    requires |s| == 8
  {
    if little then s else [s[7], s[6], s[5], s[4], s[3], s[2], s[1], s[0]]
  }

  /** The type word behind the byte-order mark. */
  function KindOf(s: seq<Byte>): nat
    requires |s| >= 5
  {
    ReadUint32(s[1..5], s[0] == 1)
  }

  function ReadPointBody(s: seq<Byte>): Read
    requires |s| >= 5
  {
    if |s| < 21 then Incomplete
    else Read(Point(Ordered(s[5..13], s[0] == 1), Ordered(s[13..21], s[0] == 1)), s[21..])
  }

  /** Type 1 is a point, type 7 a collection with a count of members behind its type. */
  function ReadGeometry(s: seq<Byte>): (r: Read)
    ensures r.Read? ==> |r.rest| < |s|
    decreases |s|, 0
  {
    if |s| < 5 || s[0] > 1 then Incomplete
    else if KindOf(s) == 1 then ReadPointBody(s)
    else if KindOf(s) == 7 && |s| >= 9 then
      var members := ReadMembers(s[9..], ReadUint32(s[5..9], s[0] == 1));
      if members.IncompleteList? then Incomplete else Read(Collection(members.members), members.rest)
    else Incomplete
  }

  function ReadMembers(s: seq<Byte>, count: nat): (r: ReadList)
    ensures r.ReadList? ==> |r.rest| <= |s|
    decreases |s|, 1
  {
    if count == 0 then ReadList([], s)
    else
      var first := ReadGeometry(s);
      if first.Incomplete? then IncompleteList
      else
        var more := ReadMembers(first.rest, count - 1);
        if more.IncompleteList? then IncompleteList else ReadList([first.geometry] + more.members, more.rest)
  }

  // ----- what the generated bytes mean

  function TerminalGeometry(flags: Byte): Geometry {
    if EmptyFlag(flags) then Collection([]) else Point(Zeros(8), Zeros(8))
  }

  function Wrapped(depth: nat, g: Geometry): Geometry {
    if depth == 0 then g else Collection([Wrapped(depth - 1, g)])
  }

  lemma ReadWritten(v: nat, little: bool)
    requires v < 0x1_0000_0000
    ensures ReadUint32(Uint32(v, little), little) == v
  {
    var q1, q2, q3 := v / 256, v / 256 / 256, v / 256 / 256 / 256;
    FourBytes(v);
    assert v == v % 256 + 256 * q1 && q1 == q1 % 256 + 256 * q2 && q2 == q2 % 256 + 256 * q3 && q3 == q3 % 256;
  }

  lemma FourBytes(v: nat)
    ensures LowBytes(v, 4) == [v % 256, (v / 256) % 256, (v / 256 / 256) % 256, (v / 256 / 256 / 256) % 256]
  {
  }

  lemma HeaderParts(little: bool, count: nat, inner: seq<Byte>)
    requires count < 0x1_0000_0000
    ensures var s := CollectionHeader(little, count) + inner;
            && s[0] == Order(little) && s[1..5] == Uint32(COLLECTION_TYPE, little)
            && s[5..9] == Uint32(count, little) && s[9..] == inner
  {
  }

  lemma {:induction false} ReadCollection(little: bool, count: nat, inner: seq<Byte>)
    requires count < 0x1_0000_0000
    ensures ReadGeometry(CollectionHeader(little, count) + inner) ==
            match ReadMembers(inner, count)
            case IncompleteList => Incomplete
            case ReadList(members, rest) => Read(Collection(members), rest)
  {
    HeaderParts(little, count, inner);
    KindWritten(CollectionHeader(little, count) + inner, COLLECTION_TYPE, little);
    ReadWritten(count, little);
  }

  lemma {:induction false} ReadOne(inner: seq<Byte>)
    ensures ReadMembers(inner, 1) ==
            match ReadGeometry(inner)
            case Incomplete => IncompleteList
            case Read(g, rest) => ReadList([g], rest)
  {
    var first := ReadGeometry(inner);
    if first.Read? {
      assert [first.geometry] + [] == [first.geometry];
    }
  }

  lemma KindWritten(t: seq<Byte>, kind: nat, little: bool)
    requires |t| >= 5 && t[0] == Order(little) && kind < 0x1_0000_0000 && t[1..5] == Uint32(kind, little)
    ensures KindOf(t) == kind
  {
    ReadWritten(kind, little);
  }

  lemma PointBody(t: seq<Byte>)
    requires |t| == POINT_SIZE && forall i :: 5 <= i < POINT_SIZE ==> t[i] == 0
    ensures ReadPointBody(t) == Read(Point(Zeros(8), Zeros(8)), [])
  {
    assert t[5..13] == Zeros(8) && t[13..21] == Zeros(8);
    assert Ordered(Zeros(8), t[0] == 1) == Zeros(8);
  }

  lemma {:induction false} ReadPoint(little: bool)
    ensures ReadGeometry([Order(little)] + Uint32(POINT_TYPE, little) + Zeros(16)) ==
              Read(Point(Zeros(8), Zeros(8)), [])
  {
    var t := [Order(little)] + Uint32(POINT_TYPE, little) + Zeros(16);
    assert t[1..5] == Uint32(POINT_TYPE, little);
    KindWritten(t, POINT_TYPE, little);
    PointBody(t);
  }

  lemma {:induction false} ReadHeaderOnly(t: seq<Byte>, kind: nat, little: bool)
    requires kind == POINT_TYPE || kind == COLLECTION_TYPE
    requires |t| == 5 && t[0] == Order(little) && t[1..5] == Uint32(kind, little)
    ensures ReadGeometry(t).Incomplete?
  {
    KindWritten(t, kind, little);
  }

  lemma {:induction false} TerminalStart(flags: Byte, little: bool)
    ensures var t := WholeTerminal(flags, little)[..COUNT_OFFSET];
            && t[0] == Order(little)
            && t[1..5] == Uint32(if EmptyFlag(flags) then COLLECTION_TYPE else POINT_TYPE, little)
  {
  }

  lemma {:induction false} ReadTerminal(flags: Byte, little: bool)
    ensures ReadGeometry(Terminal(flags, little)) ==
            if TruncateFlag(flags) then Incomplete else Read(TerminalGeometry(flags), [])
  {
    if TruncateFlag(flags) {
      TerminalStart(flags, little);
      ReadHeaderOnly(Terminal(flags, little), if EmptyFlag(flags) then COLLECTION_TYPE else POINT_TYPE, little);
    } else if EmptyFlag(flags) {
      ReadCollection(little, 0, []);
      assert CollectionHeader(little, 0) + [] == CollectionHeader(little, 0);
    } else {
      ReadPoint(little);
    }
  }

  /** Without truncation the generated bytes are exactly one geometry: the terminal inside as many
      one-member collections as asked for, in fixed or alternating byte order. With truncation they
      are no complete geometry. */
  lemma {:induction false} NestedReads(flags: Byte, index: nat, count: nat)
    requires index <= count
    ensures ReadGeometry(Nested(flags, index, count)) ==
            if TruncateFlag(flags) then Incomplete else Read(Wrapped(count - index, TerminalGeometry(flags)), [])
    decreases count - index
  {
    if index == count {
      ReadTerminal(flags, IsLittle(flags, count));
    } else {
      var inner := Nested(flags, index + 1, count);
      NestedReads(flags, index + 1, count);
      ReadCollection(IsLittle(flags, index), 1, inner);
      ReadOne(inner);
    }
  }

  // ----- the generator

  lemma Uint32At(v: nat, little: bool, i: nat)
    requires v < 0x1_0000_0000 && i < 4
    ensures Uint32(v, little)[if little then i else 3 - i] == ShiftRight(v, 8 * i) % 256
  {
    LowBytesAt(v, 4, i);
  }

  method WriteUint32(a: array<Byte>, at: nat, value: nat, little: bool)
    requires at + 4 <= a.Length && value < 0x1_0000_0000
    modifies a
    ensures forall i :: 0 <= i < 4 ==> a[at + i] == Uint32(value, little)[i]
    ensures forall i :: 0 <= i < a.Length && !(at <= i < at + 4) ==> a[i] == old(a[i])
  {
    ghost var bytes := Uint32(value, little);
    for index := 0 to 4
      invariant forall k :: 0 <= k < 4 && (if little then k < index else k > 3 - index) ==>
                  a[at + k] == bytes[k]
      invariant forall i :: 0 <= i < a.Length && !(at <= i < at + 4) ==> a[i] == old(a[i])
    {
      var destination := if little then index else 4 - index - 1;
      Uint32At(value, little, index);
      a[at + destination] := ShiftRight(value, 8 * index) % 256;
    }
  }

  method WriteHeader(a: array<Byte>, at: nat, little: bool, kind: nat)
    requires at + 5 <= a.Length && kind < 0x1_0000_0000
    modifies a
    ensures a[at..at + 5] == [Order(little)] + Uint32(kind, little)
    ensures forall i :: 0 <= i < a.Length && !(at <= i < at + 5) ==> a[i] == old(a[i])
  {
    a[at] := Order(little);
    WriteUint32(a, at + 1, kind, little);
  }

  method WriteCollectionHeader(a: array<Byte>, at: nat, little: bool, count: nat)
    requires at + HEADER_SIZE <= a.Length && count < 0x1_0000_0000
    modifies a
    ensures a[at..at + HEADER_SIZE] == CollectionHeader(little, count)
    ensures forall i :: 0 <= i < a.Length && !(at <= i < at + HEADER_SIZE) ==> a[i] == old(a[i])
  {
    WriteHeader(a, at, little, COLLECTION_TYPE);
    ghost var head := a[at..at + 5];
    WriteUint32(a, at + COUNT_OFFSET, count, little);
    assert a[at..at + 5] == head;
    Adjacent(a[..], at, at + 5, at + 9);
    SameFour(a[at + 5..at + 9], Uint32(count, little));
  }

  lemma Adjacent(s: seq<Byte>, from: nat, mid: nat, to: nat)
    requires from <= mid <= to <= |s|
    ensures s[from..to] == s[from..mid] + s[mid..to]
  {
  }

  lemma SameFour(s: seq<Byte>, t: seq<Byte>)
    requires |s| == |t| == 4 && forall i :: 0 <= i < 4 ==> s[i] == t[i]
    ensures s == t
  {
  }

  /** The headers written so far. */
  ghost function Headers(flags: Byte, n: nat): (bytes: seq<Byte>)
    ensures |bytes| == n * HEADER_SIZE
  {
    if n == 0 then [] else Headers(flags, n - 1) + CollectionHeader(IsLittle(flags, n - 1), 1)
  }

  lemma {:induction false} HeadersGrow(flags: Byte, n: nat)
    ensures Headers(flags, n + 1) == Headers(flags, n) + CollectionHeader(IsLittle(flags, n), 1)
  {
  }

  lemma {:induction false} HeadersThenRest(flags: Byte, n: nat, count: nat)
    requires n <= count
    ensures Headers(flags, n) + Nested(flags, n, count) == Nested(flags, 0, count)
  {
    if n > 0 {
      HeadersThenRest(flags, n - 1, count);
      Regroup(Headers(flags, n - 1), CollectionHeader(IsLittle(flags, n - 1), 1), Nested(flags, n, count));
    } else {
      assert Headers(flags, 0) + Nested(flags, 0, count) == Nested(flags, 0, count);
    }
  }

  // ----- what the flag byte asks for

  lemma FlagBits(flags: Byte)
    ensures BigEndianFlag(flags) <==> Bit(flags, 0)
    ensures AlternateFlag(flags) <==> Bit(flags, 1)
    ensures EmptyFlag(flags) <==> Bit(flags, 2)
    ensures TruncateFlag(flags) <==> Bit(flags, 3)
  {
    assert flags / 2 / 2 == flags / 4 && flags / 4 / 2 == flags / 8;
    assert Bit(flags, 1) == Bit(flags / 2, 0);
    assert Bit(flags, 2) == Bit(flags / 2, 1) == Bit(flags / 4, 0);
    assert Bit(flags, 3) == Bit(flags / 2, 2) == Bit(flags / 4, 1) == Bit(flags / 8, 0);
  }

  /** Bit 3 of the flags truncates; otherwise bit 2 decides between an empty collection and a point. */
  lemma GeneratedReads(flags: Byte, count: nat)
    ensures ReadGeometry(Nested(flags, 0, count)) ==
              if Bit(flags, 3) then Incomplete
              else Read(Wrapped(count, if Bit(flags, 2) then Collection([]) else Point(Zeros(8), Zeros(8))), [])
  {
    FlagBits(flags);
    NestedReads(flags, 0, count);
  }

  lemma HeaderMark(little: bool)
    ensures CollectionHeader(little, 1)[0] == Order(little)
  {
  }

  lemma {:induction false} TerminalMark(flags: Byte, count: nat)
    ensures var t := Terminal(flags, IsLittle(flags, count)); t != [] && t[0] == Order(IsLittle(flags, count))
  {
    TerminalStart(flags, IsLittle(flags, count));
  }

  lemma AtEnd(a: seq<Byte>, b: seq<Byte>)
    requires b != []
    ensures (a + b)[|a|] == b[0]
  {
  }

  lemma InFront(a: seq<Byte>, b: seq<Byte>, k: nat)
    requires k < |a|
    ensures (a + b)[k] == a[k]
  {
  }

  lemma {:induction false} HeaderMarks(flags: Byte, n: nat, i: nat)
    requires i < n
    ensures Headers(flags, n)[9 * i] == Order(IsLittle(flags, i))
    decreases n
  {
    var header := CollectionHeader(IsLittle(flags, n - 1), 1);
    HeadersGrow(flags, n - 1);
    if i < n - 1 {
      HeaderMarks(flags, n - 1, i);
      InFront(Headers(flags, n - 1), header, 9 * i);
    } else {
      HeaderMark(IsLittle(flags, n - 1));
      AtEnd(Headers(flags, n - 1), header);
    }
  }

  lemma {:induction false} MarkAt(flags: Byte, count: nat, i: nat)
    requires i <= count
    ensures 9 * i < |Nested(flags, 0, count)|
    ensures Nested(flags, 0, count)[9 * i] == Order(IsLittle(flags, i))
  {
    var headers, terminal := Headers(flags, count), Terminal(flags, IsLittle(flags, count));
    HeadersThenRest(flags, count, count);
    TerminalMark(flags, count);
    if i < count {
      HeaderMarks(flags, count, i);
      InFront(headers, terminal, 9 * i);
    } else {
      AtEnd(headers, terminal);
    }
  }

  /** The byte-order mark of level i, the innermost included: with bit 1 of the flags the orders alternate
      from little-endian on, without it bit 0 makes all of them big-endian. */
  lemma OrderMarks(flags: Byte, count: nat, i: nat)
    requires i <= count
    ensures 9 * i < |Nested(flags, 0, count)|
    ensures Nested(flags, 0, count)[9 * i] ==
              if Bit(flags, 1) then (if i % 2 == 0 then 1 else 0) else (if Bit(flags, 0) then 0 else 1)
  {
    FlagBits(flags);
    MarkAt(flags, count, i);
  }

  // ----- writing the whole

  /** Writes the terminal over zeroes. */
  method WriteTerminal(a: array<Byte>, at: nat, flags: Byte, little: bool)
    requires at + TerminalSize(flags) == a.Length
    requires forall i :: at <= i < a.Length ==> a[i] == 0
    modifies a
    ensures a[at..] == WholeTerminal(flags, little)
    ensures a[..at] == old(a[..at])
  {
    if EmptyFlag(flags) {
      WriteCollectionHeader(a, at, little, 0);
      assert a[at..] == a[at..at + HEADER_SIZE];
    } else {
      WriteHeader(a, at, little, POINT_TYPE);
      assert a[at + 5..] == Zeros(16);
      assert a[at..] == a[at..at + 5] + a[at + 5..];
    }
  }

  method WriteNextHeader(a: array<Byte>, at: nat, little: bool)
    requires at + HEADER_SIZE <= a.Length
    modifies a
    ensures a[..at + HEADER_SIZE] == old(a[..at]) + CollectionHeader(little, 1)
    ensures forall i :: at + HEADER_SIZE <= i < a.Length ==> a[i] == old(a[i])
  {
    ghost var done := a[..at];
    WriteCollectionHeader(a, at, little, 1);
    assert a[..at] == done;
    assert a[..at + HEADER_SIZE] == a[..at] + a[at..at + HEADER_SIZE];
  }

  /** Writes the wrappers from the front of a zeroed block. */
  method WriteWrappers(a: array<Byte>, flags: Byte, count: nat) returns (offset: nat)
    requires count * HEADER_SIZE <= a.Length
    requires forall i :: 0 <= i < a.Length ==> a[i] == 0
    modifies a
    ensures offset == count * HEADER_SIZE && a[..offset] == Headers(flags, count)
    ensures forall i :: offset <= i < a.Length ==> a[i] == 0
  {
    offset := 0;
    for index := 0 to count
      invariant offset == index * HEADER_SIZE
      invariant a[..offset] == Headers(flags, index)
      invariant forall i :: offset <= i < a.Length ==> a[i] == 0
    {
      WriteNextHeader(a, offset, IsLittle(flags, index));
      HeadersGrow(flags, index);
      offset := offset + HEADER_SIZE;
    }
  }

  /** Builds the bytes in place in a zeroed block of the computed size, when the allocator has one. */
  method MakeNestedWkb(wrapperCount: nat, flags: Byte, largestBlock: nat) returns (wkb: array?<Byte>, size: nat)
    ensures wkb != null <==> WholeSize(flags, wrapperCount) <= largestBlock
    ensures wkb != null ==>
              && fresh(wkb) && wkb.Length == WholeSize(flags, wrapperCount)
              && size <= wkb.Length
              && size == (if TruncateFlag(flags) then wrapperCount * HEADER_SIZE + COUNT_OFFSET else wkb.Length)
              && wkb[..size] == Nested(flags, 0, wrapperCount)
  {
    size := WholeSize(flags, wrapperCount);
    if size > largestBlock {
      return null, 0;
    }
    wkb := new Byte[size](_ => 0);
    var offset := WriteWrappers(wkb, flags, wrapperCount);
    WriteTerminal(wkb, offset, flags, IsLittle(flags, wrapperCount));
    if TruncateFlag(flags) {
      size := offset + COUNT_OFFSET;
    }
    Adjacent(wkb[..], 0, offset, size);
    KeptTerminal(wkb[..], offset, size, flags, IsLittle(flags, wrapperCount));
    HeadersThenRest(flags, wrapperCount, wrapperCount);
  }

  function WholeSize(flags: Byte, count: nat): nat {
    TerminalSize(flags) + count * HEADER_SIZE
  }

  lemma {:induction false} KeptTerminal(s: seq<Byte>, offset: nat, size: nat, flags: Byte, little: bool)
    requires offset + TerminalSize(flags) == |s| && s[offset..] == WholeTerminal(flags, little)
    requires size == if TruncateFlag(flags) then offset + COUNT_OFFSET else |s|
    ensures s[offset..size] == Terminal(flags, little)
  {
    assert s[offset..size] == s[offset..][..size - offset];
  }
}
