/** ASCII versions of the Java character and string library calls the core uses:
    Character.isDigit/digit, Integer.parseInt/toString, String.toLowerCase,
    String.compareTo and String.compareToIgnoreCase. */
module JavaText {
  import opened JavaInt
  import opened Options

  predicate IsDigit(c: char) {
    '0' <= c <= '9'
  }

  /** Character.digit(c, 10) on an ASCII digit */
  function DigitValue(c: char): (d: nat)
    requires IsDigit(c)
    ensures d < 10
  {
    c as int - '0' as int
  }

  function DigitChar(d: nat): (c: char)
    requires d < 10
    ensures IsDigit(c) && DigitValue(c) == d
  {
    ('0' as int + d) as char
  }

  predicate AllDigits(s: string) {
    forall i | 0 <= i < |s| :: IsDigit(s[i])
  }

  /** The number whose ordinary decimal depiction is s; the empty string depicts 0. */
  function DecimalValue(s: string): nat
    requires AllDigits(s)
  {
    if s == [] then 0 else 10 * DecimalValue(s[..|s| - 1]) + DigitValue(s[|s| - 1])
  }

  /** Integer.toString on a natural number: the canonical depiction, no leading '0'. */
  function NatToString(n: nat): (s: string)
    ensures |s| > 0 && AllDigits(s)
    ensures n == 0 <==> s == "0"
    ensures s[0] != '0' || s == "0"
    ensures DecimalValue(s) == n
  {
    if n < 10 then [DigitChar(n)]
    else
      var front := NatToString(n / 10);
      var s := front + [DigitChar(n % 10)];
      assert s[..|s| - 1] == front;
      s
  }

  /** Integer.toString */
  function IntToString(i: int): string {
    if i < 0 then "-" + NatToString(-i) else NatToString(i)
  }

  /** Integer.parseInt: an optional sign, then one or more digits, denoting a value in
      the `int` range; anything else throws NumberFormatException (None here). */
  function ParseInt(s: string): (r: Option<int>)
    ensures r.Some? ==> IsInt32(r.value)
  {
    if |s| > 1 && s[0] == '-' && AllDigits(s[1..]) && DecimalValue(s[1..]) <= -MinInt then
      Some(-(DecimalValue(s[1..]) as int))
    else if |s| > 1 && s[0] == '+' && AllDigits(s[1..]) && DecimalValue(s[1..]) <= MaxInt then
      Some(DecimalValue(s[1..]))
    else if |s| > 0 && AllDigits(s) && DecimalValue(s) <= MaxInt then
      Some(DecimalValue(s))
    else
      None
  }

  /** Integer.parseInt undoes Integer.toString on every `int`. */
  lemma ParseIntOfToString(i: int)
    requires IsInt32(i)
    ensures ParseInt(IntToString(i)) == Some(i)
  {
    if i < 0 {
      assert IntToString(i)[1..] == NatToString(-i);
    }
  }

  /** Character.toLowerCase / toUpperCase, ASCII letters only */
  function ToLower(c: char): char {
    if 'A' <= c <= 'Z' then (c as int + 32) as char else c
  }

  function ToUpper(c: char): char {
    if 'a' <= c <= 'z' then (c as int - 32) as char else c
  }

  /** String.toLowerCase, ASCII letters only (so the length never changes) */
  function LowerCase(s: string): (r: string)
    ensures |r| == |s|
  {
    seq(|s|, i requires 0 <= i < |s| => ToLower(s[i]))
  }

  /** String.compareTo: the difference of the first pair of differing characters,
      or of the lengths when one string is a prefix of the other. */
  function CompareTo(a: string, b: string): int {
    if a == [] || b == [] then |a| - |b|
    else if a[0] != b[0] then a[0] as int - b[0] as int
    else CompareTo(a[1..], b[1..])
  }

  lemma {:induction false} CompareToZero(a: string, b: string)
    ensures CompareTo(a, b) == 0 <==> a == b
  {
    if a != [] && b != [] && a[0] == b[0] {
      CompareToZero(a[1..], b[1..]);
      assert a == [a[0]] + a[1..] && b == [b[0]] + b[1..];
    }
  }

  lemma {:induction false} CompareToAntisymmetric(a: string, b: string)
    ensures CompareTo(a, b) == -CompareTo(b, a)
  {
    if a != [] && b != [] && a[0] == b[0] {
      CompareToAntisymmetric(a[1..], b[1..]);
    }
  }

  /** "a is not after b" (compareTo <= 0) is transitive: the order is lexicographic. */
  lemma {:induction false} CompareToTransitive(a: string, b: string, c: string)
    requires CompareTo(a, b) <= 0 && CompareTo(b, c) <= 0
    ensures CompareTo(a, c) <= 0
  {
    if a != [] && b != [] && c != [] && a[0] == b[0] && b[0] == c[0] {
      CompareToTransitive(a[1..], b[1..], c[1..]);
    }
  }

  /** String.compareToIgnoreCase: characters that differ are compared after
      toUpperCase and then toLowerCase. */
  function CompareToIgnoreCase(a: string, b: string): int {
    if a == [] || b == [] then |a| - |b|
    else
      var c1, c2 := a[0], b[0];
      if c1 != c2 && ToUpper(c1) != ToUpper(c2) && ToLower(ToUpper(c1)) != ToLower(ToUpper(c2)) then
        ToLower(ToUpper(c1)) as int - ToLower(ToUpper(c2)) as int
      else
        CompareToIgnoreCase(a[1..], b[1..])
  }

  /** Ignoring case is comparing the lower-cased strings. */
  lemma {:induction false} CompareToIgnoreCaseIsCompareToOfLowerCase(a: string, b: string)
    ensures CompareToIgnoreCase(a, b) == CompareTo(LowerCase(a), LowerCase(b))
  {
    if a != [] && b != [] {
      assert LowerCase(a)[1..] == LowerCase(a[1..]);
      assert LowerCase(b)[1..] == LowerCase(b[1..]);
      CompareToIgnoreCaseIsCompareToOfLowerCase(a[1..], b[1..]);
    }
  }
}
