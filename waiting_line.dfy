/** The waiting line component family: a first-in-first-out line of entries with
    the kernel operations (add, removeFront, length, position), the secondary
    contracts (front, replaceFront, replaceEntry, append, remove), and the layered
    implementations of the secondary operations, written, as in the source, with
    kernel calls only. */
module WaitingLine {

  // ===========================================================================
  // Mathematical definitions

  /** r relates every pair one way or the other, and is transitive */
  ghost predicate IsTotalPreorder<T(!new)>(r: (T, T) -> bool) {
    forall x, y, z :: (r(x, y) || r(y, x)) && (r(x, y) && r(y, z) ==> r(x, z))
  }

  /** Every adjacent pair of s is related by r */
  predicate IsSorted<T>(s: seq<T>, r: (T, T) -> bool) {
    forall i | 0 <= i < |s| - 1 :: r(s[i], s[i + 1])
  }

  /** Under a total preorder, sorted adjacent pairs make every earlier entry related
      to every later one, and every entry to itself. */
  lemma {:induction false} SortedRelatesAllPairs<T(!new)>(s: seq<T>, r: (T, T) -> bool, i: int, j: int)
    requires IsTotalPreorder(r) && IsSorted(s, r)
    requires 0 <= i <= j < |s|
    ensures r(s[i], s[j])
    decreases j - i
  {
    if i < j {
      SortedRelatesAllPairs(s, r, i + 1, j);
      assert r(s[i], s[i + 1]);
      assert r(s[i], s[i + 1]) && r(s[i + 1], s[j]) ==> r(s[i], s[j]);
    }
  }

  /** The position of the first x in s, or -1 when x does not occur */
  function PositionOf<T(==)>(s: seq<T>, x: T): (p: int)
    ensures p == -1 <==> x !in s
    ensures p != -1 ==> 0 <= p < |s| && s[p] == x && x !in s[..p]
  {
    if s == [] then -1
    else if s[0] == x then 0
    else
      var p := PositionOf(s[1..], x);
      assert s == [s[0]] + s[1..];
      if p == -1 then -1
      else
        assert s[..p + 1] == [s[0]] + s[1..][..p];
        p + 1
  }

  /** The entries of s other than x, in order */
  function Without<T(==)>(s: seq<T>, x: T): seq<T> {
    if s == [] then [] else Without(s[..|s| - 1], x) + (if s[|s| - 1] == x then [] else [s[|s| - 1]])
  }

  /** Removing x keeps every other entry with its multiplicity and drops every
      copy of x. */
  lemma {:induction false} WithoutCounts<T>(s: seq<T>, x: T)
    ensures multiset(Without(s, x)) == multiset(s)[x := 0]
  {
    if s != [] {
      WithoutCounts(s[..|s| - 1], x);
      assert s == s[..|s| - 1] + [s[|s| - 1]];
    }
  }

  /** When x occurs exactly once, at position i, removing it is cutting position i
      out: the contract's this = #this \ {x}. */
  lemma {:induction false} WithoutSingle<T>(s: seq<T>, x: T, i: int)
    requires 0 <= i < |s| && s[i] == x
    requires forall j | 0 <= j < |s| && j != i :: s[j] != x
    ensures Without(s, x) == s[..i] + s[i + 1..]
  {
    if i == |s| - 1 {
      WithoutAbsent(s[..i], x);
      assert s[..|s| - 1] == s[..i];
    } else {
      var t := s[..|s| - 1];
      WithoutSingle(t, x, i);
      assert t[..i] == s[..i] && t[i + 1..] + [s[|s| - 1]] == s[i + 1..];
    }
  }

  lemma {:induction false} WithoutAbsent<T>(s: seq<T>, x: T)
    requires x !in s
    ensures Without(s, x) == s
  {
    if s != [] {
      WithoutAbsent(s[..|s| - 1], x);
      assert s == s[..|s| - 1] + [s[|s| - 1]];
    }
  }

  /** What append does with l's entries, taken front first: one not in t moves to
      the end of t; one already in t goes back to l, after those already put back
      (kept). The result is the new (this, l). */
  function Appended<T(==)>(t: seq<T>, kept: seq<T>, l: seq<T>): (seq<T>, seq<T>)
    decreases l
  {
    if l == [] then (t, kept)
    else if l[0] in t then Appended(t, kept + [l[0]], l[1..])
    else Appended(t + [l[0]], kept, l[1..])
  }

  /** One step of append, on the i-th of l's original entries */
  lemma AppendedStep<T>(t: seq<T>, kept: seq<T>, l: seq<T>, i: int)
    requires 0 <= i < |l|
    ensures (l[i..] + kept)[0] == l[i] && (l[i..] + kept)[1..] == l[i + 1..] + kept
    ensures Appended(t, kept, l[i..]) == if l[i] in t
      then Appended(t, kept + [l[i]], l[i + 1..])
      else Appended(t + [l[i]], kept, l[i + 1..])
  {
    assert l[i..][1..] == l[i + 1..];
  }

  /** append loses and invents nothing: between them, the two lines hold exactly
      the entries they held before. */
  lemma {:induction false} AppendedKeepsEntries<T>(t: seq<T>, kept: seq<T>, l: seq<T>)
    ensures multiset(Appended(t, kept, l).0) + multiset(Appended(t, kept, l).1)
         == multiset(t) + multiset(kept) + multiset(l)
    decreases l
  {
    if l != [] {
      assert l == [l[0]] + l[1..];
      if l[0] in t {
        AppendedKeepsEntries(t, kept + [l[0]], l[1..]);
      } else {
        AppendedKeepsEntries(t + [l[0]], kept, l[1..]);
      }
    }
  }

  /** When l has no repeated entry and shares none with t, append is concatenation
      and l ends as kept (empty for a call of append). */
  lemma {:induction false} AppendedDisjoint<T>(t: seq<T>, kept: seq<T>, l: seq<T>)
    requires forall i, j | 0 <= i < j < |l| :: l[i] != l[j]
    requires forall i | 0 <= i < |l| :: l[i] !in t
    ensures Appended(t, kept, l) == (t + l, kept)
    decreases l
  {
    if l != [] {
      assert l[0] !in t;
      forall i | 0 <= i < |l| - 1
        ensures l[1..][i] !in t + [l[0]]
      {
        assert l[1..][i] == l[i + 1] && l[i + 1] != l[0];
      }
      AppendedDisjoint(t + [l[0]], kept, l[1..]);
      assert Appended(t, kept, l) == Appended(t + [l[0]], kept, l[1..]);
      assert l == [l[0]] + l[1..];
      assert t + [l[0]] + l[1..] == t + l;
    } else {
      assert t + l == t;
    }
  }

  /** An entry of l already in this goes back to l; no entry ends up twice in this
      unless it was there twice already. */
  lemma {:induction false} AppendedAddsNewOnly<T>(t: seq<T>, kept: seq<T>, l: seq<T>, x: T)
    requires x in t
    ensures multiset(Appended(t, kept, l).0)[x] == multiset(t)[x]
    decreases l
  {
    if l != [] {
      if l[0] in t {
        AppendedAddsNewOnly(t, kept + [l[0]], l[1..], x);
      } else {
        AppendedAddsNewOnly(t + [l[0]], kept, l[1..], x);
      }
    }
  }

  /** Moving the front of s[k..] + s[..k] to its end gives the next rotation. */
  lemma RotateOnce<T>(s: seq<T>, k: int)
    requires 0 <= k < |s|
    ensures (s[k..] + s[..k])[0] == s[k]
    ensures (s[k..] + s[..k])[1..] + [s[k]] == s[k + 1..] + s[..k + 1]
  {
    assert s[k..] == [s[k]] + s[k + 1..];
    assert s[..k + 1] == s[..k] + [s[k]];
  }

  /** The same for the rotation with x in place of s[0] */
  lemma RotateOnceWith<T>(s: seq<T>, x: T, k: int)
    requires 1 <= k < |s|
    ensures (s[k..] + [x] + s[1..k])[0] == s[k]
    ensures (s[k..] + [x] + s[1..k])[1..] + [s[k]] == s[k + 1..] + [x] + s[1..k + 1]
  {
    assert s[k..] == [s[k]] + s[k + 1..];
    assert s[1..k + 1] == s[1..k] + [s[k]];
  }

  /** The strings joined by commas */
  function Joined(xs: seq<string>): string {
    if xs == [] then ""
    else if |xs| == 1 then xs[0]
    else Joined(xs[..|xs| - 1]) + "," + xs[|xs| - 1]
  }

  /** Joining two non-empty parts puts one comma between their joins. */
  lemma {:induction false} JoinedAppend(xs: seq<string>, ys: seq<string>)
    requires xs != [] && ys != []
    ensures Joined(xs + ys) == Joined(xs) + "," + Joined(ys)
    decreases |ys|
  {
    if |ys| == 1 {
      assert (xs + ys)[..|xs + ys| - 1] == xs;
    } else {
      var ys' := ys[..|ys| - 1];
      JoinedAppend(xs, ys');
      assert (xs + ys)[..|xs + ys| - 1] == xs + ys';
    }
  }

  /** The text of a line of the given entries: "<", their texts joined by commas,
      then ">" */
  function Listing<T>(s: seq<T>, show: T -> string): string {
    "<" + Joined(seq(|s|, i requires 0 <= i < |s| => show(s[i]))) + ">"
  }

  // ===========================================================================
  // The component

  class WaitingLine<T(==)> {
    /** The entries, front first */
    var entries: seq<T>

    /** A new line is empty. */
    constructor ()
      ensures entries == []
    {
      entries := [];
    }

    // --- Kernel -------------------------------------------------------------

    /** x joins the end of the line. */
    method Add(x: T)
      modifies this
      ensures entries == old(entries) + [x]
    {
      entries := entries + [x];
    }

    /** The front entry leaves the line and is returned. */
    method RemoveFront() returns (x: T)
      requires |entries| > 0
      modifies this
      ensures x == old(entries)[0] && entries == old(entries)[1..]
    {
      x := entries[0];
      entries := entries[1..];
    }

    method Length() returns (n: int)
      ensures n == |entries|
    {
      n := |entries|;
    }

    /** The position of x in the line, or -1 when x does not occur */
    method Position(x: T) returns (p: int)
      ensures p == -1 <==> x !in entries
      ensures p != -1 ==> 0 <= p < |entries| && entries[p] == x && x !in entries[..p]
    {
      p := PositionOf(entries, x);
    }

    /** this takes source's entries and source becomes empty. */
    method TransferFrom(source: WaitingLine<T>)
      requires source != this
      modifies this, source
      ensures entries == old(source.entries) && source.entries == []
    {
      entries := source.entries;
      source.entries := [];
    }

    // --- Secondary ----------------------------------------------------------

    /** The front entry, found by taking it off, adding it back, and rotating the
        others behind it: the line ends as it began. */
    method Front() returns (front: T)
      requires |entries| > 0
      modifies this
      ensures front == old(entries)[0] && entries == old(entries)
    {
      ghost var orig := entries;
      RotateOnce(orig, 0);
      assert orig[0..] + orig[..0] == orig;
      front := RemoveFront();
      Add(front);
      var i := 0;
      var n := Length();
      while i < n - 1
        invariant n == |orig| && 0 <= i <= n - 1
        invariant entries == orig[i + 1..] + orig[..i + 1]
      {
        RotateOnce(orig, i + 1);
        var tmp := RemoveFront();
        Add(tmp);
        i := i + 1;
        n := Length();
      }
      assert orig[n..] + orig[..n] == orig;
    }

    /** x takes the front's place (the old front is returned), by a rotation like
        that of Front after adding x at the end. */
    method ReplaceFront(x: T) returns (front: T)
      requires |entries| > 0
      modifies this
      ensures front == old(entries)[0] && entries == [x] + old(entries)[1..]
    {
      ghost var orig := entries;
      front := RemoveFront();
      Add(x);
      var i := 0;
      var n := Length();
      assert orig[1..1] == [];
      while i < n - 1
        invariant n == |orig| && 0 <= i <= n - 1
        invariant entries == orig[i + 1..] + [x] + orig[1..i + 1]
      {
        RotateOnceWith(orig, x, i + 1);
        var tmp := RemoveFront();
        Add(tmp);
        i := i + 1;
        n := Length();
      }
      assert orig[n..] == [];
    }

    /** x takes the place of the entry at pos, which is returned. */
    method ReplaceEntry(pos: int, x: T) returns (old_entry: T)
      requires 0 <= pos < |entries|
      modifies this
      ensures old_entry == old(entries)[pos]
      ensures entries == old(entries)[..pos] + [x] + old(entries)[pos + 1..]
    {
      old_entry := entries[pos];
      entries := entries[..pos] + [x] + entries[pos + 1..];
    }

    /** Each of l's entries in turn leaves the front of l and joins the end of this
        when this does not hold it yet, and goes back to the end of l otherwise. */
    method Append(l: WaitingLine<T>)
      requires l != this
      modifies this, l
      ensures (entries, l.entries) == Appended(old(entries), [], old(l.entries))
    {
      ghost var orig, goal := l.entries, Appended(entries, [], l.entries);
      ghost var kept: seq<T> := [];
      var length := l.Length();
      for i := 0 to length
        invariant l.entries == orig[i..] + kept
        invariant Appended(entries, kept, orig[i..]) == goal
      {
        AppendedStep(entries, kept, orig, i);
        var tmp := l.RemoveFront();
        var p := Position(tmp);
        if p < 0 {
          Add(tmp);
        } else {
          l.Add(tmp);
          kept := kept + [tmp];
        }
      }
      assert orig[length..] == [] && l.entries == kept;
    }

    /** The guard with which the source's remove checks that x is in the line */
    static function RemoveAcceptsAsWritten(s: seq<T>, x: T): bool {
      PositionOf(s, x) > 0
    }

    /** x leaves the line: the line is drained into a fresh one, every entry equal
        to x is skipped, and the fresh line's entries are taken back. */
    method Remove(x: T) returns (result: T)
      requires x in entries
      modifies this
      ensures result == x && entries == Without(old(entries), x)
    {
      ghost var orig := entries;
      result := x;
      var tmpLine := new WaitingLine();
      var n := Length();
      ghost var k := 0;
      while n > 0
        invariant 0 <= k <= |orig| && entries == orig[k..] && n == |entries|
        invariant tmpLine.entries == Without(orig[..k], x) && result == x
        decreases n
      {
        var tmp := RemoveFront();
        assert orig[..k + 1][..k] == orig[..k] && orig[..k + 1][k] == tmp;
        if tmp == x {
          result := tmp;
        } else {
          tmpLine.Add(tmp);
        }
        k := k + 1;
        n := Length();
      }
      assert orig[..k] == orig;
      TransferFrom(tmpLine);
    }

    /** Two lines are equal when they have the same length and, entry by entry in
        iteration order, equal entries. */
    method Equals(q: WaitingLine<T>) returns (equal: bool)
      ensures equal <==> entries == q.entries
    {
      if q == this {
        return true;
      }
      var n := Length();
      var m := q.Length();
      if n != m {
        return false;
      }
      var i := 0;
      while i < n
        invariant 0 <= i <= n && entries[..i] == q.entries[..i]
      {
        var x1, x2 := entries[i], q.entries[i];
        if x1 != x2 {
          return false;
        }
        assert entries[..i + 1] == entries[..i] + [x1];
        assert q.entries[..i + 1] == q.entries[..i] + [x2];
        i := i + 1;
      }
      assert entries == entries[..n] && q.entries == q.entries[..n];
      equal := true;
    }

    /** The text of the line: "<", the entries' texts in order separated by commas,
        then ">" */
    method ToString(show: T -> string) returns (result: string)
      ensures result == Listing(entries, show)
    {
      var s := entries;
      ghost var texts := seq(|s|, i requires 0 <= i < |s| => show(s[i]));
      result := "<";
      var n := |s|;
      var i := 0;
      while i < n
        invariant 0 <= i <= n
        invariant result == "<" + Joined(texts[..i]) + (if 0 < i < n then "," else "")
      {
        result := result + show(s[i]);
        assert texts[..i + 1][..i] == texts[..i];
        assert Joined(texts[..i + 1]) == if i == 0 then texts[i] else Joined(texts[..i]) + "," + texts[i];
        if i + 1 < n {
          result := result + ",";
        }
        i := i + 1;
      }
      assert texts[..n] == texts;
      result := result + ">";
    }
  }

  /** The guard as written rejects x exactly when it is missing or at the front:
      removing the front entry fails the check though the front entry is in the
      line. */
  lemma RemoveGuardRejectsFront<T>(s: seq<T>, x: T)
    ensures WaitingLine<T>.RemoveAcceptsAsWritten(s, x) <==> x in s && s[0] != x
    ensures s != [] ==> s[0] in s && !WaitingLine<T>.RemoveAcceptsAsWritten(s, s[0])
  {
  }

  /** The text of an empty line is "<>", and one entry more adds its text after a
      comma. */
  lemma {:induction false} ListingAppend<T>(s: seq<T>, x: T, show: T -> string)
    ensures Listing([], show) == "<>"
    ensures s != [] ==> Listing(s + [x], show) == Listing(s, show)[..|Listing(s, show)| - 1] + "," + show(x) + ">"
  {
    var texts := seq(|s|, i requires 0 <= i < |s| => show(s[i]));
    var more := seq(|s| + 1, i requires 0 <= i < |s| + 1 => show((s + [x])[i]));
    assert more[..|s|] == texts;
    if s != [] {
      JoinedAppend(texts, [show(x)]);
      assert more == texts + [show(x)];
    }
  }
}
