/** The search helpers of the set kept as a queue of its elements: moving an
    element to the front of the queue, and finding the first index of an entry in a
    sequence. */
module Set2 {

  /** A queue: entries leave at the front and join at the back */
  class Queue<T(==)> {
    var entries: seq<T>

    constructor (initial: seq<T>)
      ensures entries == initial
    {
      entries := initial;
    }

    method Length() returns (n: int)
      ensures n == |entries|
    {
      n := |entries|;
    }

    method Front() returns (x: T)
      requires |entries| > 0
      ensures x == entries[0]
    {
      x := entries[0];
    }

    method Dequeue() returns (x: T)
      requires |entries| > 0
      modifies this
      ensures x == old(entries)[0] && entries == old(entries)[1..]
    {
      x := entries[0];
      entries := entries[1..];
    }

    method Enqueue(x: T)
      modifies this
      ensures entries == old(entries) + [x]
    {
      entries := entries + [x];
    }
  }

  /** The queue after moving x to the front: while there is more than one entry
      and the front is not x, the front is taken off, the rest is handled the same
      way, and the old front goes to the back. */
  function MoveToFrontOf<T(==)>(q: seq<T>, x: T): seq<T> {
    if |q| > 1 && q[0] != x then MoveToFrontOf(q[1..], x) + [q[0]] else q
  }

  /** The result is a permutation of q, with x in front when x occurs in q, and is q
      itself when q has at most one entry or already starts with x. */
  lemma {:induction false} MoveToFrontOfSpec<T>(q: seq<T>, x: T)
    ensures multiset(MoveToFrontOf(q, x)) == multiset(q)
    ensures x in q ==> MoveToFrontOf(q, x)[0] == x
    ensures |q| <= 1 || q[0] == x ==> MoveToFrontOf(q, x) == q
  {
    if |q| > 1 && q[0] != x {
      MoveToFrontOfSpec(q[1..], x);
      assert q == [q[0]] + q[1..];
      if x in q {
        assert x in q[1..];
      }
    }
  }

  method MoveToFront<T(==)>(q: Queue<T>, x: T)
    modifies q
    ensures q.entries == MoveToFrontOf(old(q.entries), x)
    decreases |q.entries|
  {
    var n := q.Length();
    if n > 1 {
      var front := q.Front();
      if front != x {
        var element := q.Dequeue();
        MoveToFront(q, x);
        q.Enqueue(element);
      }
    }
  }

  /** The position of the first x in s, or -1 when x does not occur in s */
  method IndexOf<T(==)>(s: seq<T>, x: T) returns (index: int)
    ensures index == -1 <==> x !in s
    ensures index != -1 ==> 0 <= index < |s| && s[index] == x && x !in s[..index]
  {
    index := -1;
    var i := 0;
    while index == -1 && i < |s|
      invariant 0 <= i <= |s|
      invariant index == -1 ==> x !in s[..i]
      invariant index != -1 ==> 0 <= index < |s| && index == i - 1 && s[index] == x && x !in s[..index]
    {
      if s[i] == x {
        index := i;
      }
      assert s[..i + 1] == s[..i] + [s[i]];
      i := i + 1;
    }
    if index == -1 {
      assert s[..i] == s;
    }
  }
}
