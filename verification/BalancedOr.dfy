/** The balanced OR predicate: its recursive text, and the explicit frame stack that prints it into a
    bounded buffer. */
module BalancedOr {
  import opened Sequences
  import opened Decimal
  import opened Words
  import opened GeneratedSql

  /** The predicate text as a recursive print: halve the terms, parenthesise each inner node. Term
      numbers wrap like size_t. */
  ghost function OrText(first: Word, count: nat): string
    requires 1 <= count
    decreases count
  {
    if count == 1 then "id = " + Digits(first)
    else "(" + OrText(first, count / 2) + " OR " + RightText(first, count) + ")"
  }

  ghost function RightText(first: Word, count: nat): string
    requires 2 <= count
    decreases count, 0
  {
    OrText((first + count / 2) % WORD_LIMIT, count - count / 2)
  }

  /** Frames held at once when the recursion over count terms is deepest. */
  ghost function Depth(count: nat): (d: nat)
    requires 1 <= count
    ensures d >= 1
  {
    if count == 1 then 1 else 1 + Depth(count - count / 2)
  }

  lemma {:induction false} DepthMonotone(m: nat, n: nat)
    requires 1 <= m <= n
    ensures Depth(m) <= Depth(n)
    decreases n
  {
    if 1 < m {
      DepthMonotone(m - m / 2, n - n / 2);
    }
  }

  /** Depth is one more than the rounded-up base-two logarithm. */
  lemma {:induction false} DepthIsCeilLog2(count: nat, k: nat)
    requires 1 <= count <= Pow2(k)
    requires k > 0 ==> Pow2(k - 1) < count
    ensures Depth(count) == k + 1
  {
    if count > 1 {
      DepthIsCeilLog2(count - count / 2, k - 1);
    }
  }

  /** The source's array of one frame per size_t bit plus one is never overrun, and no shorter array
      would do: counts above 2^63 fill it. */
  lemma {:induction false} StackArrayIsTight(count: nat)
    requires 1 <= count <= SIZE_MAX
    ensures Depth(count) <= WORD_BITS + 1
    ensures Depth(count) == WORD_BITS + 1 <==> count > 0x8000_0000_0000_0000
  {
    Pow2Of63();
    DepthIsCeilLog2(Pow2(63), 63);
    if count > Pow2(63) {
      DepthIsCeilLog2(count, 64);
    } else {
      DepthMonotone(count, Pow2(63));
    }
  }

  datatype RawFrame = RawFrame(first: Word, count: nat, state: nat)

  /** One pending node of the print. No frame for an empty range is ever pushed. */
  type Frame = f: RawFrame | 1 <= f.count witness RawFrame(0, 1, 0)

  function LeftFrame(f: Frame): Frame
    requires 2 <= f.count
  {
    RawFrame(f.first, f.count / 2, 0)
  }

  function RightFrame(f: Frame): Frame
    requires 2 <= f.count
  {
    RawFrame((f.first + f.count / 2) % WORD_LIMIT, f.count - f.count / 2, 0)
  }

  /** What a frame, and then the frames below it, still have to print. */
  ghost function Remaining(f: Frame): string {
    if f.count == 1 || f.state == 0 then OrText(f.first, f.count)
    else if f.state == 1 then " OR " + RightText(f.first, f.count) + ")"
    else ")"
  }

  /** The stack's contents, innermost frame first. */
  datatype Frames = Empty | Push(top: Frame, below: Frames)

  ghost function FramesOf(stack: seq<Frame>): Frames {
    if stack == [] then Empty else Push(stack[|stack| - 1], FramesOf(stack[..|stack| - 1]))
  }

  lemma {:induction false} FramesOfTop(below: seq<Frame>, top: Frame)
    ensures FramesOf(below + [top]) == Push(top, FramesOf(below))
  {
    assert (below + [top])[..|below|] == below;
  }

  ghost function Height(stack: Frames): nat {
    if stack.Empty? then 0 else 1 + Height(stack.below)
  }

  lemma {:induction false} HeightIsLength(stack: seq<Frame>)
    ensures Height(FramesOf(stack)) == |stack|
  {
    if stack != [] {
      HeightIsLength(stack[..|stack| - 1]);
    }
  }

  ghost function Rest(stack: Frames): string {
    if stack.Empty? then "" else Remaining(stack.top) + Rest(stack.below)
  }

  /** Iterations the loop still spends on a count, a frame and a stack. */
  ghost function Visits(count: nat): (w: nat)
    requires 1 <= count
    ensures w >= 1
  {
    if count == 1 then 1 else 3 + Visits(count / 2) + Visits(count - count / 2)
  }

  ghost function FrameVisits(f: Frame): (w: nat)
    ensures w >= 1
  {
    if f.count == 1 || f.state == 0 then Visits(f.count)
    else if f.state == 1 then 2 + Visits(f.count - f.count / 2)
    else 1
  }

  ghost function StackVisits(stack: Frames): nat {
    if stack.Empty? then 0 else FrameVisits(stack.top) + StackVisits(stack.below)
  }

  /** The most frames that will be held from here on, counted from a frame and from the bottom. */
  ghost function FramePeak(f: Frame): (d: nat)
    ensures d >= 1
  {
    if f.count == 1 || f.state == 0 then Depth(f.count)
    else if f.state == 1 then 1 + Depth(f.count - f.count / 2)
    else 1
  }

  ghost function FuturePeak(stack: Frames): nat {
    if stack.Empty? then 0 else Max(Height(stack.below) + FramePeak(stack.top), FuturePeak(stack.below))
  }

  /** No frame sits higher than the recursion's depth allows. */
  ghost predicate WithinDepth(stack: Frames, depth: nat) {
    stack.Push? ==>
      Height(stack.below) + Depth(stack.top.count) <= depth && WithinDepth(stack.below, depth)
  }

  /** The loop invariant: the text printed so far and the text the stack still owes make up the goal,
      and the peak so far and the peak still to come make up the recursion's depth. */
  ghost predicate Printing(stack: Frames, printed: string, goal: string, peak: nat, depth: nat) {
    && WithinDepth(stack, depth)
    && printed + Rest(stack) == goal
    && Height(stack) <= peak
    && Max(peak, FuturePeak(stack)) == depth
  }

  lemma {:induction false} PopKeeps(stack: Frames, printed: string, goal: string, peak: nat, depth: nat)
    requires Printing(stack, printed, goal, peak, depth)
    requires stack.Push? && (stack.top.count == 1 || stack.top.state >= 2)
    ensures Printing(stack.below, printed + Remaining(stack.top), goal, peak, depth)
    ensures StackVisits(stack.below) < StackVisits(stack)
  {
    Regroup(printed, Remaining(stack.top), Rest(stack.below));
  }

  /** The two ways the loop replaces its top frame: it moves the frame on by one state and pushes
      the child that state prints. */
  ghost predicate Pushes(f: Frame, parent: Frame, child: Frame, piece: string) {
    && f.count > 1
    && ((f.state == 0 && parent == f.(state := 1) && child == LeftFrame(f) && piece == "(") ||
        (f.state == 1 && parent == f.(state := 2) && child == RightFrame(f) && piece == " OR "))
  }

  /** What a frame owes is the piece it prints now, all of its child, and what it owes afterwards. */
  lemma {:induction false} TextSplits(f: Frame, parent: Frame, child: Frame, piece: string)
    requires Pushes(f, parent, child, piece)
    ensures Remaining(f) == piece + (Remaining(child) + Remaining(parent))
  {
    var right := RightText(f.first, f.count);
    if f.state == 0 {
      var left := OrText(f.first, f.count / 2);
      assert "(" + left + " OR " + right + ")" == "(" + (left + (" OR " + right + ")"));
    } else {
      assert " OR " + right + ")" == " OR " + (right + ")");
    }
  }

  lemma {:induction false} PushText(f: Frame, below: Frames, parent: Frame, child: Frame, piece: string)
    requires Pushes(f, parent, child, piece)
    ensures Rest(Push(f, below)) == piece + Rest(Push(child, Push(parent, below)))
  {
    TextSplits(f, parent, child, piece);
    Regroup(piece, Remaining(child) + Remaining(parent), Rest(below));
    Regroup(Remaining(child), Remaining(parent), Rest(below));
    assert Rest(Push(parent, below)) == Remaining(parent) + Rest(below);
  }

  /** The numbers of a push: the deeper of parent and child is as deep as the frame they replace. */
  lemma {:induction false} PushNumbers(f: Frame, parent: Frame, child: Frame, piece: string)
    requires Pushes(f, parent, child, piece)
    ensures FramePeak(f) == Max(FramePeak(parent), 1 + FramePeak(child))
    ensures Depth(child.count) + 1 <= Depth(f.count) && parent.count == f.count
    ensures FrameVisits(child) + FrameVisits(parent) < FrameVisits(f)
  {
    DepthMonotone(f.count / 2, f.count - f.count / 2);
    if f.state == 0 {
      LeftNumbers(f);
    } else {
      RightNumbers(f);
    }
  }

  lemma {:induction false} LeftNumbers(f: Frame)
    requires f.count > 1 && f.state == 0 && Depth(f.count / 2) <= Depth(f.count - f.count / 2)
    ensures FramePeak(f) == Max(FramePeak(f.(state := 1)), 1 + FramePeak(LeftFrame(f)))
    ensures Depth(f.count / 2) + 1 <= Depth(f.count)
    ensures FrameVisits(LeftFrame(f)) + FrameVisits(f.(state := 1)) < FrameVisits(f)
  {
  }

  lemma {:induction false} RightNumbers(f: Frame)
    requires f.count > 1 && f.state == 1
    ensures FramePeak(f) == Max(FramePeak(f.(state := 2)), 1 + FramePeak(RightFrame(f)))
    ensures Depth(f.count - f.count / 2) + 1 <= Depth(f.count)
    ensures FrameVisits(RightFrame(f)) + FrameVisits(f.(state := 2)) < FrameVisits(f)
  {
  }

  lemma {:induction false} PushDepth(f: Frame, below: Frames, parent: Frame, child: Frame, piece: string,
                                     peak: nat, depth: nat)
    requires Pushes(f, parent, child, piece)
    requires WithinDepth(Push(f, below), depth) && Height(below) < peak
    requires Max(peak, FuturePeak(Push(f, below))) == depth
    ensures WithinDepth(Push(child, Push(parent, below)), depth)
    ensures Max(Max(peak, Height(below) + 2), FuturePeak(Push(child, Push(parent, below)))) == depth
    ensures StackVisits(Push(child, Push(parent, below))) < StackVisits(Push(f, below))
  {
    PushNumbers(f, parent, child, piece);
    var lower := Push(parent, below);
    assert WithinDepth(lower, depth);
    assert Height(lower) == Height(below) + 1;
  }

  lemma {:induction false} PushKeeps(stack: Frames, parent: Frame, child: Frame, piece: string,
                  printed: string, goal: string, peak: nat, depth: nat)
    requires Printing(stack, printed, goal, peak, depth)
    requires stack.Push? && Pushes(stack.top, parent, child, piece)
    ensures Printing(Push(child, Push(parent, stack.below)), printed + piece, goal, Max(peak, Height(stack) + 1), depth)
    ensures StackVisits(Push(child, Push(parent, stack.below))) < StackVisits(stack)
    ensures |printed + piece| <= |goal|
  {
    PushText(stack.top, stack.below, parent, child, piece);
    PushDepth(stack.top, stack.below, parent, child, piece, peak, depth);
    Regroup(printed, piece, Rest(Push(child, Push(parent, stack.below))));
  }

  lemma {:induction false} Pushed(stack: seq<Frame>, below: seq<Frame>, parent: Frame, child: Frame)
    requires stack == below + [parent, child]
    ensures FramesOf(stack) == Push(child, Push(parent, FramesOf(below)))
  {
    FramesOfTop(below, parent);
    FramesOfTop(below + [parent], child);
    assert stack == below + [parent] + [child];
  }

  /** Prints the piece in front of a child, moves the top frame on and pushes the child. */
  method PrintAndPush(buffer: SqlBuffer, stack: array<Frame>, stackCount: nat, parent: Frame, child: Frame,
                      piece: string, ghost goal: string, ghost peak: nat, ghost depth: nat)
    returns (ok: bool, newCount: nat)
    requires buffer.Valid() && 0 < stackCount <= stack.Length && depth <= stack.Length
    requires Printing(FramesOf(stack[..stackCount]), buffer.Contents(), goal, peak, depth)
    requires Pushes(stack[stackCount - 1], parent, child, piece)
    modifies buffer, buffer.data, stack
    ensures buffer.Valid() && newCount <= stack.Length
    ensures ok ==> old(buffer.Contents()) <= buffer.Contents()
    ensures ok ==> buffer.length < buffer.data.Length && buffer.data[buffer.length] == '\0'
    ensures ok ==> Printing(FramesOf(stack[..newCount]), buffer.Contents(), goal, Max(peak, newCount), depth)
    ensures ok ==> StackVisits(FramesOf(stack[..newCount])) < old(StackVisits(FramesOf(stack[..stackCount])))
    ensures !ok ==> buffer.Contents() == old(buffer.Contents()) < goal && buffer.data.Length <= |goal|
  {
    ghost var below := stack[..stackCount - 1];
    ghost var frames := FramesOf(stack[..stackCount]);
    var frame := stack[stackCount - 1];
    assert stack[..stackCount] == below + [frame];
    FramesOfTop(below, frame);
    HeightIsLength(below);
    PushKeeps(frames, parent, child, piece, buffer.Contents(), goal, peak, depth);
    ok := buffer.Append(piece);
    newCount := stackCount;
    if ok {
      newCount := PushChild(stack, stackCount, parent, child);
    }
  }

  /** One iteration: print a piece of the top frame, then pop it or push its next child. */
  method PrintTopFrame(buffer: SqlBuffer, stack: array<Frame>, stackCount: nat,
                       ghost goal: string, ghost peak: nat, ghost depth: nat)
    returns (ok: bool, newCount: nat)
    requires buffer.Valid() && 0 < stackCount <= stack.Length && depth <= stack.Length
    requires Printing(FramesOf(stack[..stackCount]), buffer.Contents(), goal, peak, depth)
    modifies buffer, buffer.data, stack
    ensures buffer.Valid() && newCount <= stack.Length
    ensures ok ==> old(buffer.Contents()) <= buffer.Contents()
    ensures ok ==> buffer.length < buffer.data.Length && buffer.data[buffer.length] == '\0'
    ensures ok ==> Printing(FramesOf(stack[..newCount]), buffer.Contents(), goal, Max(peak, newCount), depth)
    ensures ok ==> StackVisits(FramesOf(stack[..newCount])) < old(StackVisits(FramesOf(stack[..stackCount])))
    ensures !ok ==> buffer.Contents() == old(buffer.Contents()) < goal && buffer.data.Length <= |goal|
  {
    ghost var below := stack[..stackCount - 1];
    ghost var printed := buffer.Contents();
    ghost var frames := FramesOf(stack[..stackCount]);
    var frame := stack[stackCount - 1];
    assert stack[..stackCount] == below + [frame];
    FramesOfTop(below, frame);
    HeightIsLength(below);
    if frame.count == 1 {
      PopKeeps(frames, printed, goal, peak, depth);
      ok := buffer.AppendIndexed("id = ", frame.first, "");
      newCount := stackCount - 1;
      assert stack[..newCount] == below;
    } else if frame.state == 0 {
      ok, newCount := PrintAndPush(buffer, stack, stackCount, frame.(state := 1), LeftFrame(frame), "(",
                                   goal, peak, depth);
    } else if frame.state == 1 {
      ok, newCount := PrintAndPush(buffer, stack, stackCount, frame.(state := 2), RightFrame(frame), " OR ",
                                   goal, peak, depth);
    } else {
      PopKeeps(frames, printed, goal, peak, depth);
      ok := buffer.Append(")");
      newCount := stackCount - 1;
      assert stack[..newCount] == below;
    }
  }

  method PushChild(stack: array<Frame>, stackCount: nat, parent: Frame, child: Frame) returns (newCount: nat)
    requires 0 < stackCount < stack.Length
    modifies stack
    ensures newCount == stackCount + 1
    ensures FramesOf(stack[..newCount]) == Push(child, Push(parent, FramesOf(old(stack[..stackCount - 1]))))
  {
    ghost var below := stack[..stackCount - 1];
    stack[stackCount - 1] := parent;
    stack[stackCount] := child;
    newCount := stackCount + 1;
    Pushed(stack[..newCount], below, parent, child);
  }

  /** Prints the predicate over count terms starting at first. The loop terminates, prints exactly
      the recursive text when that text fits and a proper initial part of it otherwise, and holds at
      most (and, when it completes, exactly) Depth(count) frames at its peak. */
  method AppendBalancedOr(buffer: SqlBuffer, first: Word, count: Word) returns (ok: bool, ghost peak: nat)
    requires buffer.Valid()
    modifies buffer, buffer.data
    ensures buffer.Valid()
    ensures ok <==> count != 0 && old(buffer.length) + |OrText(first, count)| < buffer.data.Length
    ensures ok ==> buffer.Contents() == old(buffer.Contents()) + OrText(first, count)
    ensures ok ==> buffer.data[buffer.length] == '\0'
    ensures count == 0 ==> buffer.Contents() == old(buffer.Contents())
    ensures !ok && count != 0 ==>
              old(buffer.Contents()) <= buffer.Contents() < old(buffer.Contents()) + OrText(first, count)
    ensures count != 0 ==> peak <= Depth(count) <= WORD_BITS + 1
    ensures ok ==> peak == Depth(count)
  {
    var stack := new Frame[WORD_BITS + 1];
    peak := 0;
    if count == 0 {
      return false, peak;
    }
    ghost var start := buffer.Contents();
    ghost var goal := start + OrText(first, count);
    ghost var depth := Depth(count);
    StackArrayIsTight(count);
    stack[0] := RawFrame(first, count, 0);
    var stackCount := 1;
    peak := 1;
    FramesOfTop([], stack[0]);
    assert stack[..1] == [] + [stack[0]];
    assert Rest(Push(stack[0], Empty)) == OrText(first, count);
    while stackCount != 0
      invariant 0 <= stackCount <= stack.Length
      invariant buffer.Valid()
      invariant Printing(FramesOf(stack[..stackCount]), buffer.Contents(), goal, peak, depth)
      invariant start <= buffer.Contents()
      invariant stackCount == 0 ==> buffer.length < buffer.data.Length && buffer.data[buffer.length] == '\0'
      decreases StackVisits(FramesOf(stack[..stackCount]))
    {
      ok, stackCount := PrintTopFrame(buffer, stack, stackCount, goal, peak, depth);
      if !ok {
        return;
      }
      peak := Max(peak, stackCount);
    }
    ok := true;
  }
}
