/** A stack kept as a singly linked list behind a sentinel node: the entries are
    the data of the nodes after the sentinel, top first. */
module Stack2 {

  class Node<T(0)> {
    var data: T
    var next: Node?<T>

    /** A node with default data and no successor, as `new Node()` makes it */
    constructor ()
      ensures next == null
    {
      next := null;
    }
  }

  class Stack2<T(0)> {
    /** The sentinel: the entries start at start.next */
    var start: Node<T>
    /** Kept by transferFrom only (push leaves it as it is) */
    var size: int
    /** The nodes after the sentinel, in list order */
    ghost var spine: seq<Node<T>>
    /** The entries, top first */
    ghost var contents: seq<T>

    ghost predicate Valid()
      reads this, start, spine
    {
      && |spine| == |contents|
      && start !in spine
      && start.next == (if spine == [] then null else spine[0])
      && (forall i | 0 <= i < |spine| :: spine[i].data == contents[i])
      && (forall i | 0 <= i < |spine| - 1 :: spine[i].next == spine[i + 1])
      && (spine != [] ==> spine[|spine| - 1].next == null)
    }

    /** An empty stack: a lone sentinel whose next is null */
    constructor ()
      ensures Valid() && contents == [] && fresh(start)
    {
      start := new Node();
      spine, contents := [], [];
    }

    /** x goes on top: a new node right after the sentinel. */
    method Push(x: T)
      requires Valid()
      modifies this, start
      ensures Valid() && contents == [x] + old(contents)
      ensures start == old(start) && size == old(size)
    {
      var p := new Node();
      p.data := x;
      p.next := start.next;
      start.next := p;
      ghost var before := spine;
      spine, contents := [p] + spine, [x] + contents;
      assert forall i | 1 <= i < |spine| :: spine[i] == before[i - 1];
    }

    /** The number of nodes after the sentinel, counted by walking the list */
    method Length() returns (result: int)
      requires Valid()
      ensures result == |contents|
    {
      result := 0;
      var q := start.next;
      while q != null
        invariant 0 <= result <= |spine|
        invariant q == if result < |spine| then spine[result] else null
        decreases |spine| - result
      {
        q := q.next;
        result := result + 1;
      }
    }

    /** this takes source's list (and its size); source becomes a fresh empty
        stack, and its size is left as it was. */
    method TransferFrom(source: Stack2<T>)
      requires source != this && source.Valid()
      modifies this, source
      ensures Valid() && contents == old(source.contents) && size == old(source.size)
      ensures source.Valid() && source.contents == [] && fresh(source.start)
      ensures source.size == old(source.size)
    {
      start, size := source.start, source.size;
      spine, contents := source.spine, source.contents;
      var sentinel := new Node();
      source.start := sentinel;
      source.spine, source.contents := [], [];
    }
  }

  /** An iterator over a stack: it walks the nodes after the sentinel. */
  class Stack2Iterator<T(0)> {
    var current: Node?<T>
    ghost var stack: Stack2<T>
    /** The entries returned so far */
    ghost var seen: seq<T>

    ghost predicate Valid()
      reads this, stack, stack.start, stack.spine
    {
      && stack.Valid()
      && |seen| <= |stack.contents|
      && seen == stack.contents[..|seen|]
      && current == if |seen| < |stack.spine| then stack.spine[|seen|] else null
    }

    /** Starts at the first node after the sentinel. */
    constructor (s: Stack2<T>)
      requires s.Valid()
      ensures Valid() && stack == s && seen == []
    {
      current := s.start.next;
      stack, seen := s, [];
    }

    method HasNext() returns (b: bool)
      requires Valid()
      ensures b <==> |seen| < |stack.contents|
    {
      b := current != null;
    }

    /** The next entry, in stack order */
    method Next() returns (x: T)
      requires Valid() && |seen| < |stack.contents|
      modifies this
      ensures Valid() && stack == old(stack)
      ensures x == stack.contents[|old(seen)|] && seen == old(seen) + [x]
    {
      ghost var k := |seen|;
      x := current.data;
      current := current.next;
      seen := seen + [x];
      assert stack.contents[..k + 1] == stack.contents[..k] + [x];
    }
  }

  /** The entries an iteration over s yields, in order: all of them, top first, so
      after Push(x) it yields x and then the earlier entries. */
  method Entries<T(0)>(s: Stack2<T>) returns (xs: seq<T>)
    requires s.Valid()
    ensures xs == s.contents
  {
    var it := new Stack2Iterator(s);
    xs := [];
    var more := it.HasNext();
    while more
      invariant it.Valid() && it.stack == s && xs == it.seen
      invariant more <==> |it.seen| < |s.contents|
      decreases |s.contents| - |it.seen|
    {
      var x := it.Next();
      xs := xs + [x];
      more := it.HasNext();
    }
  }
}
