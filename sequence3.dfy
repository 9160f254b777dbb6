/** A sequence kept as a linked list between two sentinel nodes, preStart and
    postFinish, following the next links only; and the shifting of entries between
    the two stacks of the two-stack representation. */
module Sequence3 {

  // ===========================================================================
  // The two-stack representation: this = rev(left) * right

  /** A stack, top first */
  class Stack<T> {
    var entries: seq<T>

    constructor (initial: seq<T>)
      ensures entries == initial
    {
      entries := initial;
    }

    method Length() returns (n: int)
      ensures n == |entries|
    {
      n := |entries|;
    }

    method Push(x: T)
      modifies this
      ensures entries == [x] + old(entries)
    {
      entries := [x] + entries;
    }

    method Pop() returns (x: T)
      requires |entries| > 0
      modifies this
      ensures x == old(entries)[0] && entries == old(entries)[1..]
    {
      x := entries[0];
      entries := entries[1..];
    }
  }

  function Rev<T>(s: seq<T>): (r: seq<T>)
    ensures |r| == |s|
  {
    if s == [] then [] else Rev(s[1..]) + [s[0]]
  }

  /** Popping the top of left and pushing it on right keeps rev(left) * right. */
  lemma ShiftRight<T>(left: seq<T>, right: seq<T>)
    requires left != []
    ensures Rev(left[1..]) + ([left[0]] + right) == Rev(left) + right
  {
  }

  /** Popping the top of right and pushing it on left keeps rev(left) * right. */
  lemma ShiftLeft<T>(left: seq<T>, right: seq<T>)
    requires right != []
    ensures Rev([right[0]] + left) + right[1..] == Rev(left) + right
  {
    assert ([right[0]] + left)[1..] == left;
    assert right == [right[0]] + right[1..];
  }

  /** Moves entries between the stacks, one at a time from the top, until left
      holds newLeftLength of them; rev(left) * right stays as it was. */
  method SetLengthOfLeftStack<T>(leftStack: Stack<T>, rightStack: Stack<T>, newLeftLength: int)
    requires leftStack != rightStack
    requires 0 <= newLeftLength <= |leftStack.entries| + |rightStack.entries|
    modifies leftStack, rightStack
    ensures Rev(leftStack.entries) + rightStack.entries == Rev(old(leftStack.entries)) + old(rightStack.entries)
    ensures |leftStack.entries| == newLeftLength
  {
    ghost var whole := Rev(leftStack.entries) + rightStack.entries;
    var n := leftStack.Length();
    while n > newLeftLength
      invariant n == |leftStack.entries|
      invariant newLeftLength <= |leftStack.entries| + |rightStack.entries|
      invariant Rev(leftStack.entries) + rightStack.entries == whole
      decreases n
    {
      ghost var l, r := leftStack.entries, rightStack.entries;
      var x := leftStack.Pop();
      rightStack.Push(x);
      ShiftRight(l, r);
      n := leftStack.Length();
    }
    while n < newLeftLength
      invariant n == |leftStack.entries| <= newLeftLength
      invariant newLeftLength <= |leftStack.entries| + |rightStack.entries|
      invariant Rev(leftStack.entries) + rightStack.entries == whole
      decreases newLeftLength - n
    {
      ghost var l, r := leftStack.entries, rightStack.entries;
      var x := rightStack.Pop();
      leftStack.Push(x);
      ShiftLeft(l, r);
      n := leftStack.Length();
    }
  }

  // ===========================================================================
  // The linked list between two sentinels

  class Node<T(0)> {
    var data: T
    var next: Node?<T>
    var previous: Node?<T>

    /** A node with default data and no neighbours, as `new Node()` makes it */
    constructor ()
      ensures next == null && previous == null
    {
      next, previous := null, null;
    }
  }

  class Sequence3<T(0)> {
    var preStart: Node<T>
    var lastLeft: Node<T>
    var postFinish: Node<T>
    var leftLength: int
    var rightLength: int
    /** The nodes strictly between the sentinels, in next order */
    ghost var spine: seq<Node<T>>
    /** The entries */
    ghost var contents: seq<T>

    ghost predicate Valid()
      reads this, preStart, postFinish, spine
    {
      && |spine| == |contents|
      && preStart != postFinish && preStart !in spine && postFinish !in spine
      && (forall i, j | 0 <= i < j < |spine| :: spine[i] != spine[j])
      && (forall i | 0 <= i < |spine| :: spine[i].data == contents[i])
      && preStart.next == (if spine == [] then postFinish else spine[0])
      && (forall i | 0 <= i < |spine| - 1 :: spine[i].next == spine[i + 1])
      && (spine != [] ==> spine[|spine| - 1].next == postFinish)
      && postFinish.next == null
    }

    /** The node after which position k begins: preStart for 0, else the k-th node */
    ghost function Before(k: nat): (n: Node<T>)
      reads this, preStart, postFinish, spine
      requires Valid() && k <= |spine|
      ensures n.next == if k < |spine| then spine[k] else postFinish
    {
      if k == 0 then preStart else spine[k - 1]
    }

    /** An empty sequence: preStart linked straight to postFinish */
    constructor ()
      ensures Valid() && contents == []
      ensures fresh(preStart) && fresh(postFinish)
      ensures lastLeft == preStart && leftLength == 0 && rightLength == 0
      ensures postFinish.previous == preStart
    {
      var first := new Node();
      var last := new Node();
      preStart, lastLeft, postFinish := first, first, last;
      leftLength, rightLength := 0, 0;
      first.next := last;
      last.previous := first;
      spine, contents := [], [];
    }

    /** The node after which position pos begins, reached by following next pos
        times from preStart */
    method Walk(pos: int) returns (q: Node<T>)
      requires Valid() && 0 <= pos <= |spine|
      ensures q == Before(pos)
    {
      q := preStart;
      for i := 0 to pos
        invariant q == Before(i)
      {
        q := q.next;
      }
    }

    /** Reassembles Valid() after p was linked in at position pos of the node list
        before, from the links as they now are. */
    lemma {:induction false} Inserted(before: seq<Node<T>>, was: seq<T>, pos: int, p: Node<T>, x: T)
      requires |before| == |was| && 0 <= pos <= |before|
      requires preStart != postFinish && preStart !in before && postFinish !in before
      requires p != preStart && p != postFinish && p !in before
      requires forall i, j | 0 <= i < j < |before| :: before[i] != before[j]
      requires forall i | 0 <= i < |before| :: before[i].data == was[i]
      requires p.data == x
      requires (if pos == 0 then preStart else before[pos - 1]).next == p
      requires p.next == if pos < |before| then before[pos] else postFinish
      requires pos != 0 ==> preStart.next == before[0]
      requires forall i | 0 <= i < |before| - 1 && i != pos - 1 :: before[i].next == before[i + 1]
      requires before != [] && pos != |before| ==> before[|before| - 1].next == postFinish
      requires postFinish.next == null
      requires spine == before[..pos] + [p] + before[pos..]
      requires contents == was[..pos] + [x] + was[pos..]
      ensures Valid()
    {
      assert forall i | 0 <= i < |spine| :: spine[i] == if i < pos then before[i] else if i == pos then p else before[i - 1];
      assert forall i | 0 <= i < |spine| :: contents[i] == if i < pos then was[i] else if i == pos then x else was[i - 1];
    }

    /** x is inserted at position pos. */
    method Add(pos: int, x: T)
      requires Valid() && 0 <= pos <= |contents|
      modifies this, preStart, spine
      ensures Valid() && contents == old(contents)[..pos] + [x] + old(contents)[pos..]
      ensures preStart == old(preStart) && postFinish == old(postFinish)
    {
      var q := Walk(pos);
      ghost var before, was := spine, contents;
      ghost var after := q.next;
      assert after == if pos < |before| then before[pos] else postFinish;
      assert forall i | 0 <= i < |before| - 1 && i != pos - 1 :: before[i] != q;
      var p := new Node();
      p.data := x;
      p.next := q.next;
      q.next := p;
      spine := before[..pos] + [p] + before[pos..];
      contents := was[..pos] + [x] + was[pos..];
      Inserted(before, was, pos, p, x);
    }

    /** The entry at pos is unlinked and returned. */
    method Remove(pos: int) returns (result: T)
      requires Valid() && 0 <= pos < |contents|
      modifies this, preStart, spine
      ensures Valid() && result == old(contents)[pos]
      ensures contents == old(contents)[..pos] + old(contents)[pos + 1..]
      ensures preStart == old(preStart) && postFinish == old(postFinish)
    {
      var q := Walk(pos);
      ghost var before, was := spine, contents;
      assert q.next == before[pos];
      assert forall i | 0 <= i < |before| - 1 && i != pos - 1 :: before[i] != q;
      result := q.next.data;
      q.next := q.next.next;
      spine := before[..pos] + before[pos + 1..];
      contents := was[..pos] + was[pos + 1..];
      Removed(before, was, pos);
    }

    /** Reassembles Valid() after the node at position pos was unlinked from the
        node list before, from the links as they now are. */
    lemma {:induction false} Removed(before: seq<Node<T>>, was: seq<T>, pos: int)
      requires |before| == |was| && 0 <= pos < |before|
      requires preStart != postFinish && preStart !in before && postFinish !in before
      requires forall i, j | 0 <= i < j < |before| :: before[i] != before[j]
      requires forall i | 0 <= i < |before| :: before[i].data == was[i]
      requires (if pos == 0 then preStart else before[pos - 1]).next
        == if pos + 1 < |before| then before[pos + 1] else postFinish
      requires pos != 0 ==> preStart.next == before[0]
      requires forall i | 0 <= i < |before| - 1 && i != pos - 1 :: before[i].next == before[i + 1]
      requires pos != |before| - 1 ==> before[|before| - 1].next == postFinish
      requires postFinish.next == null
      requires spine == before[..pos] + before[pos + 1..]
      requires contents == was[..pos] + was[pos + 1..]
      ensures Valid()
    {
      assert forall i | 0 <= i < |spine| :: spine[i] == if i < pos then before[i] else before[i + 1];
      assert forall i | 0 <= i < |spine| :: contents[i] == if i < pos then was[i] else was[i + 1];
    }

    /** The entry at pos; nothing changes. */
    method Entry(pos: int) returns (x: T)
      requires Valid() && 0 <= pos < |contents|
      ensures x == contents[pos]
    {
      var q := Walk(pos);
      x := q.next.data;
    }

    /** The number of nodes between the sentinels, counted by walking from the
        first node until the node whose next is null (postFinish) */
    method Length() returns (result: int)
      requires Valid()
      ensures result == |contents|
    {
      result := 0;
      var q := preStart.next;
      while q.next != null
        invariant 0 <= result <= |spine|
        invariant q == if result < |spine| then Before(result + 1) else postFinish
        decreases |spine| - result
      {
        q := q.next;
        result := result + 1;
      }
    }
  }
}
