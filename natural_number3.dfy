/** A natural number kept as the string of its decimal digits, with no leading '0';
    zero is the empty string. */
module NaturalNumber3 {
  import opened JavaInt
  import opened JavaText

  /** The representation invariant: digits only, and no leading '0'. */
  predicate Canonical(s: string) {
    AllDigits(s) && (s == [] || s[0] != '0')
  }

  /** A canonical depiction other than "" denotes a positive number. */
  lemma {:induction false} CanonicalIsPositive(s: string)
    requires Canonical(s) && s != []
    ensures DecimalValue(s) > 0
  {
    var p := s[..|s| - 1];
    if p != [] {
      assert p[0] == s[0];
      CanonicalIsPositive(p);
    }
  }

  /** A nonempty canonical depiction is the one Integer.toString gives for its value. */
  lemma {:induction false} CanonicalIsDepiction(s: string)
    requires Canonical(s) && s != []
    ensures NatToString(DecimalValue(s)) == s
  {
    var p := s[..|s| - 1];
    var d := DigitValue(s[|s| - 1]);
    if p == [] {
      assert s == [DigitChar(d)];
    } else {
      assert p[0] == s[0];
      CanonicalIsPositive(p);
      CanonicalIsDepiction(p);
      var n := DecimalValue(s);
      assert n == 10 * DecimalValue(p) + d;
      assert n / 10 == DecimalValue(p) && n % 10 == d;
      assert s == p + [DigitChar(d)];
    }
  }

  /** Appending one digit to a depiction multiplies its value by ten and adds the
      digit. */
  lemma AppendDigit(s: string, k: nat)
    requires AllDigits(s) && k < 10
    ensures AllDigits(s + [DigitChar(k)])
    ensures DecimalValue(s + [DigitChar(k)]) == 10 * DecimalValue(s) + k
  {
    var t := s + [DigitChar(k)];
    assert t[..|t| - 1] == s;
  }

  class NaturalNumber3 {
    var digits: string

    predicate Valid()
      reads this
    {
      Canonical(digits)
    }

    /** The number this object stands for */
    function Value(): nat
      reads this
      requires Valid()
    {
      DecimalValue(digits)
    }

    /** Zero */
    constructor ()
      ensures Valid() && digits == ""
    {
      digits := "";
    }

    /** The number i, depicted as Java's "" + i depicts it */
    constructor FromInt(i: int)
      requires 0 <= i <= MaxInt
      ensures Valid() && Value() == i
    {
      digits := "";
      if i != 0 {
        digits := IntToString(i);
      }
    }

    /** The number depicted by s, which is "0" or a digit string without a leading
        '0' */
    constructor FromString(s: string)
      requires s == "0" || (Canonical(s) && s != [])
      ensures Valid() && digits == (if s == "0" then "" else s)
      ensures Value() == DecimalValue(s)
    {
      digits := "";
      if s != "0" {
        digits := s;
      }
    }

    /** A copy of n (left as it was) */
    constructor FromNatural(n: NaturalNumber3)
      requires n.Valid()
      modifies n
      ensures Valid() && digits == n.digits
      ensures n.digits == old(n.digits)
    {
      digits := "";
      var zero := n.IsZero();
      if !zero {
        var s := n.ToString();
        digits := s;
      }
    }

    method Clear()
      modifies this
      ensures Valid() && digits == ""
    {
      digits := "";
    }

    /** Takes source's value; source becomes zero. */
    method TransferFrom(source: NaturalNumber3)
      requires source != this && source.Valid()
      modifies this, source
      ensures Valid() && digits == old(source.digits)
      ensures source.Valid() && source.digits == ""
    {
      digits := source.digits;
      source.digits := "";
    }

    /** this := 10 * this + k; zero stays "" */
    method MultiplyBy10(k: int)
      requires Valid() && 0 <= k < 10
      modifies this
      ensures Valid() && Value() == 10 * old(Value()) + k
      ensures digits == (if old(digits) == "" && k == 0 then "" else old(digits) + [DigitChar(k)])
    {
      AppendDigit(digits, k);
      digits := digits + [DigitChar(k)];
      if digits == "0" {
        digits := "";
      }
    }

    /** Returns this mod 10 and leaves this / 10; zero stays zero and yields 0. */
    method DivideBy10() returns (k: int)
      requires Valid()
      modifies this
      ensures Valid() && k == old(Value()) % 10 && Value() == old(Value()) / 10
      ensures digits == old(digits)[..if old(digits) == "" then 0 else |old(digits)| - 1]
    {
      k := 0;
      if |digits| > 0 {
        k := DigitValue(digits[|digits| - 1]);
        digits := digits[..|digits| - 1];
        assert Canonical(digits) by {
          if digits != [] {
            assert digits[0] == old(digits)[0];
          }
        }
      }
    }

    /** The loop never advances i: it stops because the first character of a
        canonical depiction is not '0'. */
    method IsZero() returns (isZero: bool)
      requires Valid()
      ensures isZero <==> digits == ""
      ensures isZero <==> Value() == 0
    {
      isZero := true;
      var i := 0;
      while i < |digits| && isZero
        invariant i == 0
        invariant !isZero ==> digits != ""
        decreases if isZero && i < |digits| then 1 else 0
      {
        if digits[i] != '0' {
          isZero := false;
        }
      }
      if digits != "" {
        CanonicalIsPositive(digits);
      }
    }

    /** "0" for zero, else the digits; divides by ten, depicts the rest by recursion,
        and multiplies back, so the number is left as it was. */
    method ToString() returns (result: string)
      requires Valid()
      modifies this
      ensures digits == old(digits)
      ensures result == (if digits == "" then "0" else digits)
      ensures result == NatToString(Value())
      decreases |digits|
    {
      result := "0";
      var zero := IsZero();
      if !zero {
        ghost var original := digits;
        var bit := DivideBy10();
        var rest := ToString();
        if rest != "0" {
          result := rest + [DigitChar(bit)];
        } else {
          result := [DigitChar(bit)];
        }
        MultiplyBy10(bit);
        assert digits == original by {
          assert original == original[..|original| - 1] + [original[|original| - 1]];
          if original[..|original| - 1] == [] {
            assert original[0] != '0';
          }
        }
        assert result == digits;
      }
      if digits != "" {
        CanonicalIsDepiction(digits);
      }
    }
  }

  // ===========================================================================
  // The isZero loop outside the representation invariant

  /** One pass of isZero's loop body as written, at index i of the digits s:
      isZero turns false at a character other than '0', and i stays where it is. */
  function IsZeroPass(s: string, i: nat, isZero: bool): (bool, nat)
    requires i < |s|
  {
    (if s[i] != '0' then false else isZero, i)
  }

  /** On digits that start with '0', which the representation invariant rules out,
      a pass returns the loop to the state it started from, with its condition
      still true: the loop as written would never end. */
  lemma IsZeroLoopStalls(s: string)
    requires s != [] && s[0] == '0'
    ensures IsZeroPass(s, 0, true) == (true, 0)
  {
  }

  /** The loop with i advanced: true iff every digit is '0', whatever the string;
      on a canonical depiction, iff it is "". */
  method AllZeros(s: string) returns (isZero: bool)
    ensures isZero <==> forall k | 0 <= k < |s| :: s[k] == '0'
    ensures Canonical(s) ==> (isZero <==> s == "")
  {
    isZero := true;
    var i := 0;
    while i < |s| && isZero
      invariant 0 <= i <= |s|
      invariant isZero <==> forall k | 0 <= k < i :: s[k] == '0'
    {
      if s[i] != '0' {
        isZero := false;
      }
      i := i + 1;
    }
  }
}
