/** Smoothing a sequence of ints: each adjacent pair is replaced by its average,
    computed in Java int arithmetic so that it cannot overflow. */
module SequenceSmooth {
  import opened JavaInt

  /** The mathematically exact average (j + k) / 2, truncated toward zero */
  function ExactAverage(j: int, k: int): int {
    Quot(j + k, 2)
  }

  /** Halving in Java int arithmetic: the quotient and remainder by 2 are ints and
      recombine to x. */
  lemma Halves(x: int)
    requires IsInt32(x)
    ensures -0x4000_0000 <= Quot(x, 2) < 0x4000_0000
    ensures x == 2 * Quot(x, 2) + Rem(x, 2)
    ensures x >= 0 ==> 0 <= Rem(x, 2) <= 1
    ensures x < 0 ==> -1 <= Rem(x, 2) <= 0
    ensures Div(x, 2) == Quot(x, 2)
  {
  }

  /** With the signs alike, the halves plus the carry of the two remainders is the
      exact average, and no step overflows. */
  lemma HalvesAverage(j: int, k: int)
    requires IsInt32(j) && IsInt32(k) && (j < 0) == (k < 0)
    ensures Add(Add(Div(j, 2), Div(k, 2)), Div(Add(Rem(j, 2), Rem(k, 2)), 2)) == ExactAverage(j, k)
  {
    Halves(j);
    Halves(k);
    var halves := Add(Div(j, 2), Div(k, 2));
    var carry := Div(Add(Rem(j, 2), Rem(k, 2)), 2);
    assert halves == Quot(j, 2) + Quot(k, 2);
    assert Add(Rem(j, 2), Rem(k, 2)) == Rem(j, 2) + Rem(k, 2);
    assert carry == Quot(Rem(j, 2) + Rem(k, 2), 2);
    assert halves + carry == Quot(j + k, 2);
  }

  /** With the signs different, the plain sum is an int and halving it is exact. */
  lemma SumAverage(j: int, k: int)
    requires IsInt32(j) && IsInt32(k) && (j < 0) != (k < 0)
    ensures Div(Add(j, k), 2) == ExactAverage(j, k)
  {
    assert Add(j, k) == j + k;
    Halves(j + k);
  }

  /** The average of j and k in Java int arithmetic: halves added first when the
      signs agree, the plain sum when they differ (it cannot overflow then). */
  function Average(j: int, k: int): (r: int)
    requires IsInt32(j) && IsInt32(k)
    ensures IsInt32(r)
    ensures r == ExactAverage(j, k)
  {
    if (j < 0) == (k < 0) then
      HalvesAverage(j, k);
      Add(Add(Div(j, 2), Div(k, 2)), Div(Add(Rem(j, 2), Rem(k, 2)), 2))
    else
      SumAverage(j, k);
      Div(Add(j, k), 2)
  }

  /** The exact averages of the adjacent pairs of s */
  function Smoothed(s: seq<int>): (r: seq<int>)
    requires |s| >= 1
    ensures |r| == |s| - 1
  {
    seq(|s| - 1, i requires 0 <= i < |s| - 1 => ExactAverage(s[i], s[i + 1]))
  }

  /** Entry i of the smoothing is the exact average of entries i and i + 1: with
      s1 = a * <x> * <y> * b, the smoothing is c * <(x + y) / 2> * d with |c| = |a|. */
  lemma SmoothedIsPairAverages(s: seq<int>, a: seq<int>, x: int, y: int, b: seq<int>)
    requires s == a + [x, y] + b
    ensures Smoothed(s)[|a|] == ExactAverage(x, y)
  {
    assert s[|a|] == x && s[|a| + 1] == y;
  }

  /** Smoothing the tail and putting the first pair's average in front smooths the
      whole sequence. */
  lemma SmoothedCons(s: seq<int>)
    requires |s| >= 2
    ensures Smoothed(s) == [ExactAverage(s[0], s[1])] + Smoothed(s[1..])
  {
    var t := s[1..];
    var r := [ExactAverage(s[0], s[1])] + Smoothed(t);
    forall i | 0 <= i < |s| - 1
      ensures Smoothed(s)[i] == r[i]
    {
      if i > 0 {
        assert t[i - 1] == s[i] && t[i] == s[i + 1];
        assert r[i] == Smoothed(t)[i - 1];
      }
    }
  }

  /** Smoothing one more entry adds the average of the last pair at the end. */
  lemma SmoothedSnoc(s: seq<int>, i: nat)
    requires i + 2 <= |s|
    ensures Smoothed(s[..i + 2]) == Smoothed(s[..i + 1]) + [ExactAverage(s[i], s[i + 1])]
  {
    var u, v := s[..i + 2], s[..i + 1];
    var r := Smoothed(v) + [ExactAverage(s[i], s[i + 1])];
    forall k | 0 <= k < i + 1
      ensures Smoothed(u)[k] == r[k]
    {
      if k < i {
        assert u[k] == v[k] && u[k + 1] == v[k + 1];
        assert r[k] == Smoothed(v)[k];
      }
    }
  }

  /** A sequence of Java ints, the parts of the Sequence component that smoothing
      uses */
  class IntSequence {
    var entries: seq<int>

    predicate Valid()
      reads this
    {
      forall i | 0 <= i < |entries| :: IsInt32(entries[i])
    }

    constructor ()
      ensures entries == []
    {
      entries := [];
    }

    method Length() returns (n: int)
      ensures n == |entries|
    {
      n := |entries|;
    }

    method Entry(pos: int) returns (x: int)
      requires 0 <= pos < |entries|
      ensures x == entries[pos]
    {
      x := entries[pos];
    }

    method Clear()
      modifies this
      ensures entries == []
    {
      entries := [];
    }

    method Add(pos: int, x: int)
      requires 0 <= pos <= |entries|
      modifies this
      ensures entries == old(entries)[..pos] + [x] + old(entries)[pos..]
    {
      entries := entries[..pos] + [x] + entries[pos..];
    }

    method Remove(pos: int) returns (x: int)
      requires 0 <= pos < |entries|
      modifies this
      ensures x == old(entries)[pos]
      ensures entries == old(entries)[..pos] + old(entries)[pos + 1..]
    {
      x := entries[pos];
      entries := entries[..pos] + entries[pos + 1..];
    }
  }

  /** s2 := the smoothing of s1, computed pair by pair; s1 is left as it was. */
  method SmoothInto(s1: IntSequence, s2: IntSequence)
    requires s1 != s2 && s1.Valid() && |s1.entries| >= 1
    modifies s2
    ensures s2.entries == Smoothed(s1.entries)
  {
    s2.Clear();
    var n := s1.Length();
    for i := 0 to n - 1
      invariant s2.entries == Smoothed(s1.entries[..i + 1])
    {
      var a := s1.Entry(i);
      var b := s1.Entry(i + 1);
      ghost var before := s2.entries;
      var average: int;
      if (a < 0) == (b < 0) {
        average := Add(Add(Div(a, 2), Div(b, 2)), Div(Add(Rem(a, 2), Rem(b, 2)), 2));
        HalvesAverage(a, b);
      } else {
        average := Div(Add(a, b), 2);
        SumAverage(a, b);
      }
      s2.Add(i, average);
      assert s2.entries == before + [average];
      SmoothedSnoc(s1.entries, i);
    }
    assert s1.entries[..n] == s1.entries;
  }

  /** Removing and adding at the front, as IntSequence.Remove(0) and Add(0, x)
      write it */
  lemma Front(s: seq<int>)
    ensures s != [] ==> s[..0] + s[1..] == s[1..] && [s[0]] + s[1..] == s
    ensures forall x :: s[..0] + [x] + s[0..] == [x] + s
  {
  }

  /** The smoothing of s1 as a new sequence: the first entry is taken off, the rest
      is smoothed, and the first average goes in front; s1 is put back as it was. */
  method Smooth(s1: IntSequence) returns (s2: IntSequence)
    requires s1.Valid() && |s1.entries| >= 1
    modifies s1
    ensures fresh(s2)
    ensures s2.entries == Smoothed(old(s1.entries))
    ensures s1.entries == old(s1.entries)
  {
    ghost var original := s1.entries;
    s2 := new IntSequence();
    Front(original);
    var i := s1.Remove(0);
    ghost var tail := s1.entries;
    var n := s1.Length();
    if n > 0 {
      SmoothInto(s1, s2);
      Front(tail);
      var j := s1.Remove(0);
      ghost var smoothed := s2.entries;
      s2.Add(0, Average(i, j));
      Front(smoothed);
      ghost var rest := s1.entries;
      s1.Add(0, j);
      Front(rest);
      SmoothedCons(original);
    }
    ghost var back := s1.entries;
    s1.Add(0, i);
    Front(back);
    assert s1.entries == original;
  }
}
