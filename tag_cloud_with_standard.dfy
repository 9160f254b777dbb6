/** The tag cloud generator built on the Java standard library: font sizes, and the
    choice of the most frequent words from the entries sorted by decreasing count. */
module TagCloudWithStandard {
  import opened JavaInt
  import opened TagCloudWords

  /** The largest and smallest font size */
  const MaxFont: int := 48
  const MinFont: int := 11

  /** The font size of a word seen frequency times, scaled linearly from minF
      (size 11) to maxF (size 48) in int arithmetic; 48 when minF == maxF. */
  function FontSize(frequency: int, maxF: int, minF: int): (r: int)
    requires IsInt32(frequency) && IsInt32(maxF) && IsInt32(minF)
    ensures IsInt32(r)
    ensures minF == maxF ==> r == MaxFont
  {
    var difference := Sub(MaxFont, MinFont);
    if minF != maxF then
      SubNonzero(maxF, minF);
      Add(Div(Mul(difference, Sub(frequency, minF)), Sub(maxF, minF)), MinFont)
    else MaxFont
  }

  /** Between the extremes, when 37 * (maxF - minF) still fits in an int, the font
      size is the exact linear scale: 11 at minF, 48 at maxF, and in between
      otherwise. */
  lemma FontSizeScales(frequency: int, maxF: int, minF: int)
    requires IsInt32(frequency) && IsInt32(maxF) && IsInt32(minF)
    requires minF <= frequency <= maxF && minF < maxF
    requires 37 * (maxF - minF) <= MaxInt
    ensures FontSize(frequency, maxF, minF) == 37 * (frequency - minF) / (maxF - minF) + 11
    ensures MinFont <= FontSize(frequency, maxF, minF) <= MaxFont
    ensures frequency == minF ==> FontSize(frequency, maxF, minF) == MinFont
    ensures frequency == maxF ==> FontSize(frequency, maxF, minF) == MaxFont
  {
    var e, d := frequency - minF, maxF - minF;
    MulMonotone(37, e, d);
    var n := 37 * e;
    assert 0 <= n <= 37 * d;
    var q := n / d;
    DivideAtMost(n, d, 37);
    assert Sub(frequency, minF) == e && Sub(maxF, minF) == d && Sub(MaxFont, MinFont) == 37;
    assert Mul(37, e) == n;
    assert Quot(n, d) == q;
    assert Div(n, d) == q;
    assert FontSize(frequency, maxF, minF) == q + 11;
    if frequency == maxF {
      assert n == 37 * d;
      DivideExact(37, d);
    }
  }

  lemma MulMonotone(k: int, x: int, y: int)
    requires k >= 0 && x <= y
    ensures k * x <= k * y
  {
    assert k * y - k * x == k * (y - x);
  }

  lemma DivideAtMost(n: int, d: int, k: int)
    requires 0 <= n <= k * d && d > 0
    ensures 0 <= n / d <= k
  {
    var q := n / d;
    assert d * q + n % d == n;
    if q > k {
      MulMonotone(d, k + 1, q);
      assert false;
    }
  }

  lemma DivideExact(k: int, d: int)
    requires d > 0
    ensures (k * d) / d == k
  {
    var q, r := (k * d) / d, (k * d) % d;
    assert d * q + r == k * d && 0 <= r < d;
    assert d * (k - q) == r;
    if k - q >= 1 {
      MulMonotone(d, 1, k - q);
      assert false;
    } else if k - q <= -1 {
      MulMonotone(d, k - q, -1);
      assert false;
    }
  }

  /** A more frequent word never gets a smaller font. */
  lemma FontSizeMonotone(f: int, g: int, maxF: int, minF: int)
    requires IsInt32(maxF) && IsInt32(minF) && minF < maxF && 37 * (maxF - minF) <= MaxInt
    requires minF <= f <= g <= maxF
    ensures FontSize(f, maxF, minF) <= FontSize(g, maxF, minF)
  {
    FontSizeScales(f, maxF, minF);
    FontSizeScales(g, maxF, minF);
    MulMonotone(37, f - minF, g - minF);
    DivideMonotone(37 * (f - minF), 37 * (g - minF), maxF - minF);
  }

  lemma DivideMonotone(a: int, b: int, d: int)
    requires 0 <= a <= b && d > 0
    ensures a / d <= b / d
  {
    var qa, qb := a / d, b / d;
    assert d * qa + a % d == a && d * qb + b % d == b;
    if qa > qb {
      MulMonotone(d, qb + 1, qa);
      assert false;
    }
  }

  /** The first num entries of the list sorted by decreasing count, as a map from
      word to count */
  method TopWords(sorted: seq<(string, int)>, num: int) returns (topWords: map<string, int>)
    requires num <= |sorted|
    requires forall i, j | 0 <= i < j < |sorted| :: sorted[i].0 != sorted[j].0
    ensures forall w :: w in topWords <==> exists i | 0 <= i < num :: sorted[i].0 == w
    ensures forall i | 0 <= i < num :: topWords[sorted[i].0] == sorted[i].1
  {
    topWords := map[];
    var i := 0;
    while i < num
      invariant 0 <= i <= |sorted| && (num >= 0 ==> i <= num) && (num < 0 ==> i == 0)
      invariant forall w :: w in topWords <==> exists k | 0 <= k < i :: sorted[k].0 == w
      invariant forall k | 0 <= k < i :: topWords[sorted[k].0] == sorted[k].1
    {
      var tmp := sorted[i];
      topWords := topWords[tmp.0 := tmp.1];
      i := i + 1;
    }
  }

  /** Every chosen word is at least as frequent as every word left out. */
  lemma TopWordsAreMostFrequent(counts: map<string, int>, sorted: seq<(string, int)>, num: int, i: int, w: string)
    requires SortedEntriesOf(sorted, counts) && 0 <= num <= |sorted|
    requires 0 <= i < num
    requires w in counts && forall k | 0 <= k < num :: sorted[k].0 != w
    ensures counts[sorted[i].0] >= counts[w]
  {
    SortedEntriesCover(sorted, counts, w);
    var j :| 0 <= j < |sorted| && sorted[j].0 == w;
    assert j >= num;
    assert CompareByCount(sorted[i], sorted[j]) <= 0;
  }

  /** The counts passed as maxF and minF (those of the first and the num-th entry)
      bound the count of every chosen word, so each chosen word's font size lies
      between 11 and 48 when the scale fits in an int. */
  lemma ChosenFontSizes(counts: map<string, int>, sorted: seq<(string, int)>, num: int, i: int)
    requires SortedEntriesOf(sorted, counts) && 1 <= num <= |sorted| && 0 <= i < num
    requires forall k | 0 <= k < |sorted| :: IsInt32(sorted[k].1) && sorted[k].1 >= 0
    requires 37 * (sorted[0].1 - sorted[num - 1].1) <= MaxInt
    ensures sorted[num - 1].1 <= sorted[i].1 <= sorted[0].1
    ensures MinFont <= FontSize(sorted[i].1, sorted[0].1, sorted[num - 1].1) <= MaxFont
  {
    if i > 0 {
      assert CompareByCount(sorted[0], sorted[i]) <= 0;
    }
    if i < num - 1 {
      assert CompareByCount(sorted[i], sorted[num - 1]) <= 0;
    }
    if sorted[0].1 != sorted[num - 1].1 {
      FontSizeScales(sorted[i].1, sorted[0].1, sorted[num - 1].1);
    }
  }
}
