/** Java `int` arithmetic: 32-bit two's-complement wrap-around, and `/` and `%`
    truncating toward zero (Dafny's own `/` and `%` are Euclidean). */
module JavaInt {

  const MinInt: int := -0x8000_0000
  const MaxInt: int := 0x7FFF_FFFF
  const Modulus: int := 0x1_0000_0000

  /** x is a value of Java type `int` */
  predicate IsInt32(x: int) {
    MinInt <= x <= MaxInt
  }

  /** The `int` a Java operation yields when its mathematical result is x. */
  function Wrap(x: int): (r: int)
    ensures IsInt32(r)
    ensures IsInt32(x) ==> r == x
    ensures (x - r) % Modulus == 0
  {
    (x - MinInt) % Modulus + MinInt
  }

  /** Java `a / b`: the quotient truncated toward zero (before wrap-around). */
  function Quot(a: int, b: int): (q: int)
    requires b != 0
    ensures a >= 0 && b > 0 ==> q == a / b
    ensures (a >= 0) == (b > 0) || a == 0 ==> q >= 0
    ensures (a > 0 && b < 0) || (a < 0 && b > 0) ==> q <= 0
  {
    if a >= 0 then (if b > 0 then a / b else -(a / -b))
    else (if b > 0 then -((-a) / b) else (-a) / (-b))
  }

  /** Java `a % b`: the remainder that goes with the truncating quotient. */
  function Rem(a: int, b: int): (r: int)
    requires b != 0
    ensures a == Quot(a, b) * b + r
    ensures a >= 0 ==> 0 <= r < (if b > 0 then b else -b)
    ensures a < 0 ==> -(if b > 0 then b else -b) < r <= 0
  {
    if a >= 0 then (if b > 0 then a % b else a % -b)
    else (if b > 0 then -((-a) % b) else -((-a) % (-b)))
  }

  /** Java `a + b` on `int` */
  function Add(a: int, b: int): int { Wrap(a + b) }

  /** Java `a - b` on `int` */
  function Sub(a: int, b: int): int { Wrap(a - b) }

  /** Java `a * b` on `int` */
  function Mul(a: int, b: int): int { Wrap(a * b) }

  /** Java `a / b` on `int` (MinInt / -1 wraps back to MinInt) */
  function Div(a: int, b: int): int
    requires b != 0
  {
    Wrap(Quot(a, b))
  }

  /** Values that differ by a multiple of 2^32 wrap to the same int. */
  lemma WrapCongruent(a: int, b: int)
    requires (a - b) % Modulus == 0
    ensures Wrap(a) == Wrap(b)
  {
    var k := (a - b) / Modulus;
    assert a - MinInt == (b - MinInt) + k * Modulus;
  }

  /** A multiple of 2^32 is congruent to 0. */
  lemma MultipleOfModulus(k: int)
    ensures (k * 0x1_0000_0000) % Modulus == 0
  {
  }

  /** What Wrap removes is a multiple of 2^32. */
  lemma WrapRemovesMultiple(x: int) returns (k: int)
    ensures x - Wrap(x) == k * 0x1_0000_0000
  {
    k := (x - MinInt) / Modulus;
  }

  /** Accumulating a decimal digit in int arithmetic (value * 10 + d) agrees with
      wrapping the exact result once. */
  lemma MulAddWraps(x: int, d: int)
    ensures Add(Mul(Wrap(x), 10), d) == Wrap(x * 10 + d)
  {
    var w := Wrap(x);
    var m := Wrap(w * 10);
    var k := WrapRemovesMultiple(x);
    var j := WrapRemovesMultiple(w * 10);
    assert (x * 10 + d) - (m + d) == (k * 10 + j) * 0x1_0000_0000;
    MultipleOfModulus(k * 10 + j);
    WrapCongruent(x * 10 + d, m + d);
  }

  /** Subtracting two different ints never wraps around to 0. */
  lemma SubNonzero(a: int, b: int)
    requires IsInt32(a) && IsInt32(b) && a != b
    ensures Sub(a, b) != 0
  {
  }
}
