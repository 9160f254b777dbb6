/** What the two tag cloud generators share: splitting a line into maximal runs of
    word characters and of separator characters, counting the lower-cased words,
    and ordering word counts. */
module TagCloudWords {
  import opened JavaText

  /** The characters that separate words (written as two literals so that the
      verifier does not unfold the search over every character of a constant) */
  const Separators: string := " ,.-/!@#$%^&*()_+" + "=|[]{}~`<>?'\";:\\"

  /** c is one of the characters of s (String.indexOf(c) >= 0), searched from the
      front */
  predicate Occurs(c: char, s: string) {
    s != [] && (s[0] == c || Occurs(c, s[1..]))
  }

  lemma {:induction false} OccursIsMembership(c: char, s: string)
    ensures Occurs(c, s) <==> c in s
  {
    if s != [] {
      OccursIsMembership(c, s[1..]);
      assert s == [s[0]] + s[1..];
    }
  }

  predicate IsSeparator(c: char) {
    Occurs(c, Separators)
  }

  // ===========================================================================
  // Runs

  /** Where the run started at position ends, scanning from i: the first index at
      or after i whose character is on the other side of Separators, or |text|. */
  function ScanEnd(text: string, position: nat, i: nat): (e: nat)
    requires position <= i <= |text|
    requires forall k | position <= k < i :: IsSeparator(text[k]) == IsSeparator(text[position])
    ensures i <= e <= |text|
    ensures forall k | position <= k < e :: IsSeparator(text[k]) == IsSeparator(text[position])
    ensures e == |text| || IsSeparator(text[e]) != IsSeparator(text[position])
    decreases |text| - i
  {
    if i == |text| || IsSeparator(text[i]) != IsSeparator(text[position]) then i
    else ScanEnd(text, position, i + 1)
  }

  /** The end of the maximal run starting at position */
  function RunEnd(text: string, position: nat): (e: nat)
    requires position < |text|
    ensures position < e <= |text|
  {
    ScanEnd(text, position, position)
  }

  /** The first word or separator string of text at position: a nonempty
      substring starting there, all of whose characters are on the side of
      Separators that text[position] is on, and that cannot be extended. */
  method NextWordOrSeparator(text: string, position: int) returns (token: string)
    requires 0 <= position < |text|
    ensures token == text[position..RunEnd(text, position)]
    ensures 0 < |token| <= |text| - position && token == text[position..position + |token|]
    ensures forall k | 0 <= k < |token| :: IsSeparator(token[k]) == IsSeparator(text[position])
    ensures position + |token| == |text| || IsSeparator(text[position + |token|]) != IsSeparator(text[position])
  {
    var endIndex := position;
    while endIndex < |text| && IsSeparator(text[position]) == IsSeparator(text[endIndex])
      invariant position <= endIndex <= |text|
      invariant forall k | position <= k < endIndex :: IsSeparator(text[k]) == IsSeparator(text[position])
      invariant ScanEnd(text, position, endIndex) == RunEnd(text, position)
      decreases |text| - endIndex
    {
      endIndex := endIndex + 1;
    }
    token := text[position..endIndex];
  }

  /** The runs that scanning text from position yields, one after the other */
  function Runs(text: string, position: nat): seq<string>
    requires position <= |text|
    decreases |text| - position
  {
    if position == |text| then []
    else [text[position..RunEnd(text, position)]] + Runs(text, RunEnd(text, position))
  }

  function Concat(ts: seq<string>): string {
    if ts == [] then "" else ts[0] + Concat(ts[1..])
  }

  /** The runs tile the text: put together they give it back. */
  lemma {:induction false} RunsTile(text: string, position: nat)
    requires position <= |text|
    ensures Concat(Runs(text, position)) == text[position..]
    decreases |text| - position
  {
    if position < |text| {
      var e := RunEnd(text, position);
      RunsTile(text, e);
      assert text[position..] == text[position..e] + text[e..];
    }
  }

  /** Each run is nonempty and on one side of Separators, and neighbouring runs are
      on opposite sides. */
  lemma {:induction false} RunsAlternate(text: string, position: nat)
    requires position <= |text|
    ensures forall i | 0 <= i < |Runs(text, position)| ::
      var r := Runs(text, position)[i];
      r != [] && forall k | 0 <= k < |r| :: IsSeparator(r[k]) == IsSeparator(r[0])
    ensures forall i | 0 <= i < |Runs(text, position)| - 1 ::
      IsSeparator(Runs(text, position)[i][0]) != IsSeparator(Runs(text, position)[i + 1][0])
    decreases |text| - position
  {
    if position < |text| {
      var e := RunEnd(text, position);
      RunsAlternate(text, e);
      var rs, more := Runs(text, position), Runs(text, e);
      assert rs == [text[position..e]] + more;
      if more != [] {
        assert more[0] == text[e..RunEnd(text, e)];
        assert more[0][0] == text[e];
      }
      forall i | 0 <= i < |rs| - 1
        ensures IsSeparator(rs[i][0]) != IsSeparator(rs[i + 1][0])
      {
        if i > 0 {
          assert rs[i] == more[i - 1] && rs[i + 1] == more[i];
        }
      }
    }
  }

  // ===========================================================================
  // Counting words

  /** The count of w, 0 when w has none */
  function Get(counts: map<string, int>, w: string): int {
    if w in counts then counts[w] else 0
  }

  /** The lower-cased token is a word when its first character is not a separator. */
  predicate IsWord(token: string) {
    token != [] && !IsSeparator(token[0])
  }

  /** One token counted: a word gets one more, inserted with count 1 if new. */
  function Tally(counts: map<string, int>, token: string): (r: map<string, int>)
    ensures IsWord(LowerCase(token)) ==> r == counts[LowerCase(token) := Get(counts, LowerCase(token)) + 1]
    ensures !IsWord(LowerCase(token)) ==> r == counts
  {
    var t := LowerCase(token);
    if IsWord(t) then
      if t in counts then counts[t := counts[t] + 1] else counts[t := 1]
    else counts
  }

  /** The tokens counted one after the other */
  function CountAll(counts: map<string, int>, tokens: seq<string>): map<string, int>
    decreases tokens
  {
    if tokens == [] then counts else CountAll(Tally(counts, tokens[0]), tokens[1..])
  }

  /** The lower-cased words among the tokens */
  function Words(tokens: seq<string>): seq<string>
  {
    if tokens == [] then []
    else (if IsWord(LowerCase(tokens[0])) then [LowerCase(tokens[0])] else []) + Words(tokens[1..])
  }

  /** Counting adds, to each word's count, how often it occurs among the tokens'
      words; exactly the old keys and the words are keys afterwards. */
  lemma {:induction false} CountAllCounts(counts: map<string, int>, tokens: seq<string>, w: string)
    ensures Get(CountAll(counts, tokens), w) == Get(counts, w) + multiset(Words(tokens))[w]
    ensures w in CountAll(counts, tokens) <==> w in counts || w in Words(tokens)
    decreases tokens
  {
    if tokens != [] {
      CountAllCounts(Tally(counts, tokens[0]), tokens[1..], w);
    }
  }

  /** The counts after one line */
  function CountLine(counts: map<string, int>, line: string): map<string, int> {
    CountAll(counts, Runs(line, 0))
  }

  /** The counting loop over one line: the token at position is taken, lower-cased,
      counted when it is a word, and skipped. */
  method LoadLine(counts: map<string, int>, line: string) returns (wordCount: map<string, int>)
    ensures wordCount == CountLine(counts, line)
  {
    wordCount := counts;
    var position := 0;
    ghost var todo := Runs(line, 0);
    while position < |line|
      invariant 0 <= position <= |line| && todo == Runs(line, position)
      invariant CountAll(wordCount, todo) == CountLine(counts, line)
      decreases |line| - position
    {
      var token := NextWordOrSeparator(line, position);
      ghost var before, run, next := wordCount, token, RunEnd(line, position);
      token := LowerCase(token);
      if !IsSeparator(token[0]) {
        if token in wordCount {
          wordCount := wordCount[token := wordCount[token] + 1];
        } else {
          wordCount := wordCount[token := 1];
        }
      }
      TallyLowered(before, run);
      assert wordCount == Tally(before, run) && run == line[position..next];
      CountStep(before, line, position);
      todo := Runs(line, next);
      position := position + |token|;
      assert position == next;
    }
  }

  /** Tally as the counting loop writes it, on the lower-cased token */
  lemma TallyLowered(counts: map<string, int>, run: string)
    requires run != []
    ensures var token := LowerCase(run);
      Tally(counts, run) == if IsSeparator(token[0]) then counts
        else if token in counts then counts[token := counts[token] + 1]
        else counts[token := 1]
  {
  }

  /** Counting the runs from position is counting the run at position and then the
      runs after it. */
  lemma CountStep(before: map<string, int>, line: string, position: nat)
    requires position < |line|
    ensures CountAll(before, Runs(line, position))
      == CountAll(Tally(before, line[position..RunEnd(line, position)]), Runs(line, RunEnd(line, position)))
  {
  }

  /** The counts after all lines, in order */
  function CountLines(counts: map<string, int>, lines: seq<string>): map<string, int>
    decreases lines
  {
    if lines == [] then counts else CountLines(CountLine(counts, lines[0]), lines[1..])
  }

  /** The outer loop: every line of the file, as read one after the other. */
  method LoadText(counts: map<string, int>, lines: seq<string>) returns (wordCount: map<string, int>)
    ensures wordCount == CountLines(counts, lines)
  {
    wordCount := counts;
    var i := 0;
    while i < |lines|
      invariant 0 <= i <= |lines|
      invariant CountLines(wordCount, lines[i..]) == CountLines(counts, lines)
    {
      assert lines[i..][1..] == lines[i + 1..];
      wordCount := LoadLine(wordCount, lines[i]);
      i := i + 1;
    }
  }

  // ===========================================================================
  // Ordering word counts

  /** Integer.compareTo: negative, zero or positive as a < b, a == b, a > b */
  function CompareInt(a: int, b: int): (r: int)
    ensures r < 0 <==> a < b
    ensures r == 0 <==> a == b
  {
    if a < b then -1 else if a == b then 0 else 1
  }

  /** The comparator on (word, count) pairs: by decreasing count */
  function CompareByCount(p: (string, int), q: (string, int)): (r: int)
    ensures r < 0 <==> p.1 > q.1
    ensures r == 0 <==> p.1 == q.1
  {
    CompareInt(q.1, p.1)
  }

  /** Ordering by decreasing count is a total preorder. */
  lemma CompareByCountIsTotalPreorder(p: (string, int), q: (string, int), o: (string, int))
    ensures CompareByCount(p, q) <= 0 || CompareByCount(q, p) <= 0
    ensures CompareByCount(p, q) <= 0 && CompareByCount(q, o) <= 0 ==> CompareByCount(p, o) <= 0
    ensures CompareByCount(p, q) < 0 <==> p.1 > q.1
    ensures CompareByCount(p, q) == -CompareByCount(q, p)
  {
  }

  /** entries lists the pairs of counts, each once, in decreasing order of count */
  predicate SortedEntriesOf(entries: seq<(string, int)>, counts: map<string, int>) {
    && |entries| == |counts|
    && (forall i | 0 <= i < |entries| :: entries[i].0 in counts && counts[entries[i].0] == entries[i].1)
    && (forall i, j | 0 <= i < j < |entries| :: entries[i].0 != entries[j].0)
    && (forall i, j | 0 <= i < j < |entries| :: CompareByCount(entries[i], entries[j]) <= 0)
  }

  /** Every key of counts is listed in its sorted entries. */
  lemma SortedEntriesCover(entries: seq<(string, int)>, counts: map<string, int>, w: string)
    requires SortedEntriesOf(entries, counts) && w in counts
    ensures exists i | 0 <= i < |entries| :: entries[i].0 == w
  {
    var listed := set i | 0 <= i < |entries| :: entries[i].0;
    KeysOfDistinct(entries);
    SubsetOfSameSize(listed, counts.Keys);
    assert w in listed;
  }

  lemma {:induction false} KeysOfDistinct(entries: seq<(string, int)>)
    requires forall i, j | 0 <= i < j < |entries| :: entries[i].0 != entries[j].0
    ensures |set i | 0 <= i < |entries| :: entries[i].0| == |entries|
  {
    if entries != [] {
      var rest := entries[..|entries| - 1];
      KeysOfDistinct(rest);
      var last := entries[|entries| - 1].0;
      var s := set i | 0 <= i < |rest| :: rest[i].0;
      assert (set i | 0 <= i < |entries| :: entries[i].0) == s + {last};
      assert last !in s;
    }
  }

  lemma SubsetOfSameSize<T>(a: set<T>, b: set<T>)
    requires a <= b && |a| == |b|
    ensures a == b
  {
    assert |b - a| == |b| - |a|;
  }
}
