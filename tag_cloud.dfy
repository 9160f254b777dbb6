/** The tag cloud generator built on the course components: its own font size rule,
    the two comparators, and the extraction of the most frequent words that fixes
    maxF and minF. */
module TagCloud {
  import opened JavaInt
  import opened JavaText
  import opened TagCloudWords
  import TagCloudWithStandard

  /** The font size: the same linear scale as the standard-library generator when
      minF != maxF, and 37 * (frequency - minF) + 11 in int arithmetic otherwise. */
  function FontSize(frequency: int, maxF: int, minF: int): (r: int)
    requires IsInt32(frequency) && IsInt32(maxF) && IsInt32(minF)
    ensures IsInt32(r)
    ensures minF != maxF ==> r == TagCloudWithStandard.FontSize(frequency, maxF, minF)
    ensures minF == maxF && frequency == minF ==> r == 11
  {
    var difference := Sub(48, 11);
    if minF != maxF then
      SubNonzero(maxF, minF);
      Add(Div(Mul(difference, Sub(frequency, minF)), Sub(maxF, minF)), 11)
    else
      Add(Mul(difference, Sub(frequency, minF)), 11)
  }

  /** The two generators disagree on a word whose count is both extremes: this one
      gives it the smallest font, the other the largest. */
  lemma FontSizesDifferWhenExtremesMeet(f: int)
    requires IsInt32(f)
    ensures FontSize(f, f, f) == 11 && TagCloudWithStandard.FontSize(f, f, f) == 48
  {
  }

  /** The comparator on (word, count) pairs in alphabetical order, ignoring case */
  function CompareByKey(p: (string, int), q: (string, int)): (r: int)
    ensures r == CompareTo(LowerCase(p.0), LowerCase(q.0))
  {
    CompareToIgnoreCaseIsCompareToOfLowerCase(p.0, q.0);
    CompareToIgnoreCase(p.0, q.0)
  }

  /** Ordering by key ignoring case is a total preorder whose ties are the pairs
      with the same lower-cased key. */
  lemma CompareByKeyIsTotalPreorder(p: (string, int), q: (string, int), o: (string, int))
    ensures CompareByKey(p, q) == -CompareByKey(q, p)
    ensures CompareByKey(p, q) == 0 <==> LowerCase(p.0) == LowerCase(q.0)
    ensures CompareByKey(p, q) <= 0 && CompareByKey(q, o) <= 0 ==> CompareByKey(p, o) <= 0
  {
    CompareToIgnoreCaseIsCompareToOfLowerCase(p.0, q.0);
    CompareToIgnoreCaseIsCompareToOfLowerCase(q.0, p.0);
    CompareToIgnoreCaseIsCompareToOfLowerCase(q.0, o.0);
    CompareToIgnoreCaseIsCompareToOfLowerCase(p.0, o.0);
    var a, b, c := LowerCase(p.0), LowerCase(q.0), LowerCase(o.0);
    CompareToAntisymmetric(a, b);
    CompareToZero(a, b);
    if CompareTo(a, b) <= 0 && CompareTo(b, c) <= 0 {
      CompareToTransitive(a, b, c);
    }
  }

  /** maxF and minF as the extraction loop leaves them after taking num pairs in
      order: maxF is the first pair's count, minF the num-th pair's, each 0 when
      not set; minF is not set when num is 1, because of the else-if. */
  function Extremes(sorted: seq<(string, int)>, num: int): (mm: (int, int))
    requires num <= |sorted|
    ensures num >= 1 ==> mm.0 == sorted[0].1
    ensures num >= 2 ==> mm.1 == sorted[num - 1].1
    ensures num <= 1 ==> mm.1 == 0
    ensures num <= 0 ==> mm.0 == 0
  {
    (if num >= 1 then sorted[0].1 else 0, if num >= 2 then sorted[num - 1].1 else 0)
  }

  /** The extraction loop: num pairs are taken off the front in decreasing-count
      order and kept (for sorting by key); the first sets maxF, the last sets minF
      unless it is also the first. */
  method ExtractTop(sorted: seq<(string, int)>, num: int) returns (maxF: int, minF: int, chosen: seq<(string, int)>)
    requires num <= |sorted|
    ensures (maxF, minF) == Extremes(sorted, num)
    ensures chosen == sorted[..if num < 0 then 0 else num]
  {
    var sortWordCount := sorted;
    chosen := [];
    maxF, minF := 0, 0;
    var i := 0;
    while i < num
      invariant 0 <= i <= |sorted| && (num >= 0 ==> i <= num) && (num < 0 ==> i == 0)
      invariant sortWordCount == sorted[i..] && chosen == sorted[..i]
      invariant maxF == (if i >= 1 then sorted[0].1 else 0)
      invariant minF == (if i == num && num >= 2 then sorted[num - 1].1 else 0)
    {
      var temp := sortWordCount[0];
      sortWordCount := sortWordCount[1..];
      if i == 0 {
        maxF := temp.1;
      } else if i == num - 1 {
        minF := temp.1;
      }
      assert sorted[..i + 1] == sorted[..i] + [temp];
      chosen := chosen + [temp];
      i := i + 1;
    }
  }

  /** With num >= 2 pairs taken from the decreasing-count order, every chosen count
      lies between minF and maxF, so its font size lies between 11 and 48 when the
      scale fits in an int. */
  lemma ChosenFontSizes(counts: map<string, int>, sorted: seq<(string, int)>, num: int, i: int)
    requires SortedEntriesOf(sorted, counts) && 2 <= num <= |sorted| && 0 <= i < num
    requires forall k | 0 <= k < |sorted| :: IsInt32(sorted[k].1) && sorted[k].1 >= 0
    requires 37 * (sorted[0].1 - sorted[num - 1].1) <= MaxInt
    ensures Extremes(sorted, num).1 <= sorted[i].1 <= Extremes(sorted, num).0
    ensures 11 <= FontSize(sorted[i].1, Extremes(sorted, num).0, Extremes(sorted, num).1) <= 48
  {
    TagCloudWithStandard.ChosenFontSizes(counts, sorted, num, i);
    if sorted[0].1 == sorted[num - 1].1 {
      assert sorted[i].1 == sorted[num - 1].1;
    }
  }

  /** With a single word, minF stays 0: the word, counted maxF > 0 times, gets the
      largest font. */
  lemma SingleWordGetsLargestFont(sorted: seq<(string, int)>)
    requires 1 <= |sorted| && IsInt32(sorted[0].1) && sorted[0].1 > 0
    requires 37 * sorted[0].1 <= MaxInt
    ensures Extremes(sorted, 1) == (sorted[0].1, 0)
    ensures FontSize(sorted[0].1, sorted[0].1, 0) == 48
  {
    TagCloudWithStandard.FontSizeScales(sorted[0].1, sorted[0].1, 0);
  }
}
