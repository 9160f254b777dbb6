/** Two evaluators of integer expressions.

    The first reads the infix grammar
        expr   = term {("+" | "-") term}
        term   = factor {("*" | "/") factor}
        factor = "(" expr ")" | digit-seq
    from the front of a character buffer that it consumes as it reads; each method
    returns the value and what is left of the buffer.

    The second reads a prefix form "(" op e1 ... en ")" | integer from a queue of
    tokens, also returning the value and the remaining tokens.

    Arithmetic is Java int arithmetic (wrap-around, division truncating toward
    zero); a zero divisor throws in Java and is a None here. */
module ExpressionEvaluator {
  import opened Options
  import opened JavaInt
  import opened JavaText

  /** r is what is left of s after a prefix of s has been consumed. */
  predicate IsSuffix<T(==)>(r: seq<T>, s: seq<T>) {
    |r| <= |s| && s[|s| - |r|..] == r
  }

  lemma SuffixChain<T>(o: Option<(int, seq<T>)>, r: seq<T>, s: seq<T>)
    requires o.Some? ==> IsSuffix(o.value.1, r)
    requires IsSuffix(r, s)
    ensures o.Some? ==> IsSuffix(o.value.1, s)
  {
    if o.Some? {
      var a := o.value.1;
      assert s[|s| - |a|..] == r[|r| - |a|..];
    }
  }

  /** The outcome of a parse that succeeds with value v exactly when o does. */
  function Lift<R>(o: Option<int>, rest: R): Option<(int, R)> {
    if o.Some? then Some((o.value, rest)) else None
  }

  // ===========================================================================
  // The character-buffer evaluator: specification

  /** The rest of a digit sequence whose value so far is value. The buffer must
      hold a character after the digits (reading past its end throws). */
  function MoreDigits(value: int, s: string): (r: Option<(int, string)>)
    requires IsInt32(value)
    ensures r.Some? ==> IsSuffix(r.value.1, s) && IsInt32(r.value.0)
    ensures r.Some? ==> r.value.1 != [] && !IsDigit(r.value.1[0])
    decreases |s|
  {
    if s == [] then None
    else if IsDigit(s[0]) then MoreDigits(Add(Mul(value, 10), DigitValue(s[0])), s[1..])
    else Some((value, s))
  }

  /** The longest digit string at the front of s and its value. */
  function ParseDigitSeq(s: string): (r: Option<(int, string)>)
    ensures r.Some? ==> IsSuffix(r.value.1, s) && |r.value.1| < |s| && IsInt32(r.value.0)
  {
    if s != [] && IsDigit(s[0]) then MoreDigits(DigitValue(s[0]), s[1..]) else None
  }

  function ParseFactor(s: string): (r: Option<(int, string)>)
    ensures r.Some? ==> IsSuffix(r.value.1, s) && |r.value.1| < |s| && IsInt32(r.value.0)
    decreases |s|, 1
  {
    if s == [] then None
    else if s[0] == '(' then
      match ParseExpr(s[1..])
      case None => None
      // the character after the inner expression is dropped without checking that
      // it is ')'; an expression never runs to the end of the buffer
      case Some((v, r)) => Some((v, r[1..]))
    else ParseDigitSeq(s)
  }

  /** Further "* factor" and "/ factor" parts of a term whose value so far is value */
  function MoreFactors(value: int, s: string): (r: Option<(int, string)>)
    requires IsInt32(value)
    ensures r.Some? ==> IsSuffix(r.value.1, s) && IsInt32(r.value.0)
    decreases |s|, 3
  {
    if s == [] then None
    else if s[0] == '*' || s[0] == '/' then
      match ParseFactor(s[1..])
      case None => None
      case Some((w, r)) =>
        var result := if s[0] == '*' then MoreFactors(Mul(value, w), r)
          else if w == 0 then None
          else MoreFactors(Div(value, w), r);
        SuffixChain(result, r, s[1..]);
        SuffixChain(result, s[1..], s);
        result
    else Some((value, s))
  }

  function ParseTerm(s: string): (r: Option<(int, string)>)
    ensures r.Some? ==> IsSuffix(r.value.1, s) && |r.value.1| < |s| && IsInt32(r.value.0)
    decreases |s|, 2
  {
    match ParseFactor(s)
    case None => None
    case Some((v, r)) => MoreFactors(v, r)
  }

  /** Further "+ term" and "- term" parts of an expression whose value so far is value */
  function MoreTerms(value: int, s: string): (r: Option<(int, string)>)
    requires IsInt32(value)
    ensures r.Some? ==> IsSuffix(r.value.1, s) && IsInt32(r.value.0)
    ensures r.Some? ==> r.value.1 != []
    decreases |s|, 5
  {
    if s == [] then None
    else if s[0] == '+' || s[0] == '-' then
      match ParseTerm(s[1..])
      case None => None
      case Some((w, r)) =>
        var result := if s[0] == '+' then MoreTerms(Add(value, w), r) else MoreTerms(Sub(value, w), r);
        SuffixChain(result, r, s[1..]);
        SuffixChain(result, s[1..], s);
        result
    else Some((value, s))
  }

  /** The value of the longest expression at the front of s and what follows it;
      None where the code would throw (reading past the end, dividing by zero) or
      s does not start with an expression. */
  function ParseExpr(s: string): (r: Option<(int, string)>)
    ensures r.Some? ==> IsSuffix(r.value.1, s) && |r.value.1| < |s| && IsInt32(r.value.0)
    ensures r.Some? ==> r.value.1 != []
    decreases |s|, 4
  {
    match ParseTerm(s)
    case None => None
    case Some((v, r)) => MoreTerms(v, r)
  }

  // ===========================================================================
  // The character-buffer evaluator: the methods

  method ValueOfDigit(source: string) returns (value: int, rest: string)
    requires 1 < |source| && IsDigit(source[0])
    ensures value == DigitValue(source[0]) && 0 <= value < 10
    ensures rest == source[1..]
  {
    value := DigitValue(source[0]);
    rest := source[1..];
  }

  method ValueOfDigitSeq(source: string) returns (value: int, rest: string)
    requires ParseDigitSeq(source).Some?
    ensures (value, rest) == ParseDigitSeq(source).value
  {
    value, rest := ValueOfDigit(source);
    while IsDigit(rest[0])
      invariant IsInt32(value)
      invariant MoreDigits(value, rest) == ParseDigitSeq(source)
      decreases |rest|
    {
      var digit;
      digit, rest := ValueOfDigit(rest);
      value := Add(Mul(value, 10), digit);
    }
  }

  method ValueOfFactor(source: string) returns (value: int, rest: string)
    requires ParseFactor(source).Some?
    ensures (value, rest) == ParseFactor(source).value
    decreases |source|, 1
  {
    if source[0] == '(' {
      rest := source[1..];
      value, rest := ValueOfExpr(rest);
      rest := rest[1..];
    } else {
      value, rest := ValueOfDigitSeq(source);
    }
  }

  method ValueOfTerm(source: string) returns (value: int, rest: string)
    requires ParseTerm(source).Some?
    ensures (value, rest) == ParseTerm(source).value
    decreases |source|, 2
  {
    value, rest := ValueOfFactor(source);
    while rest[0] == '*' || rest[0] == '/'
      invariant IsInt32(value) && |rest| < |source|
      invariant MoreFactors(value, rest) == ParseTerm(source)
      decreases |rest|
    {
      var next;
      if rest[0] == '*' {
        next, rest := ValueOfFactor(rest[1..]);
        value := Mul(value, next);
      } else {
        next, rest := ValueOfFactor(rest[1..]);
        value := Div(value, next);
      }
    }
  }

  method ValueOfExpr(source: string) returns (value: int, rest: string)
    requires ParseExpr(source).Some?
    ensures (value, rest) == ParseExpr(source).value
    decreases |source|, 4
  {
    value, rest := ValueOfTerm(source);
    while rest[0] == '+' || rest[0] == '-'
      invariant IsInt32(value) && |rest| < |source|
      invariant MoreTerms(value, rest) == ParseExpr(source)
      decreases |rest|
    {
      var next;
      if rest[0] == '+' {
        next, rest := ValueOfTerm(rest[1..]);
        value := Add(value, next);
      } else {
        next, rest := ValueOfTerm(rest[1..]);
        value := Sub(value, next);
      }
    }
  }

  // ===========================================================================
  // Expressions of the grammar, their meaning and their text

  datatype Factor = Number(digits: string) | Nested(expr: Expr)
  /** The chain of "* factor" and "/ factor" parts after a term's first factor */
  datatype MulSteps = NoFactors | Times(factor: Factor, more: MulSteps) | Over(factor: Factor, more: MulSteps)
  datatype Term = Term(first: Factor, steps: MulSteps)
  /** The chain of "+ term" and "- term" parts after an expression's first term */
  datatype AddSteps = NoTerms | Plus(term: Term, more: AddSteps) | Minus(term: Term, more: AddSteps)
  datatype Expr = Expr(first: Term, steps: AddSteps)

  /** Every number is a non-empty digit string. */
  predicate FactorOk(f: Factor) {
    match f
    case Number(ds) => ds != [] && AllDigits(ds)
    case Nested(e) => ExprOk(e)
  }

  predicate MulStepsOk(ss: MulSteps) {
    ss.NoFactors? || (FactorOk(ss.factor) && MulStepsOk(ss.more))
  }

  predicate TermOk(t: Term) {
    FactorOk(t.first) && MulStepsOk(t.steps)
  }

  predicate AddStepsOk(ss: AddSteps) {
    ss.NoTerms? || (TermOk(ss.term) && AddStepsOk(ss.more))
  }

  predicate ExprOk(e: Expr) {
    TermOk(e.first) && AddStepsOk(e.steps)
  }

  function PrintFactor(f: Factor): string {
    match f
    case Number(ds) => ds
    case Nested(e) => "(" + PrintExpr(e) + ")"
  }

  function PrintMulSteps(ss: MulSteps): string {
    match ss
    case NoFactors => ""
    case Times(f, more) => "*" + PrintFactor(f) + PrintMulSteps(more)
    case Over(f, more) => "/" + PrintFactor(f) + PrintMulSteps(more)
  }

  function PrintTerm(t: Term): string {
    PrintFactor(t.first) + PrintMulSteps(t.steps)
  }

  function PrintAddSteps(ss: AddSteps): string {
    match ss
    case NoTerms => ""
    case Plus(t, more) => "+" + PrintTerm(t) + PrintAddSteps(more)
    case Minus(t, more) => "-" + PrintTerm(t) + PrintAddSteps(more)
  }

  function PrintExpr(e: Expr): string {
    PrintTerm(e.first) + PrintAddSteps(e.steps)
  }

  /** The Java int value of an expression, folding each operator chain left to right;
      None when some divisor is zero. */
  function EvalFactor(f: Factor): (r: Option<int>)
    ensures r.Some? ==> IsInt32(r.value)
  {
    match f
    case Number(ds) => if AllDigits(ds) then Some(Wrap(DecimalValue(ds))) else None
    case Nested(e) => EvalExpr(e)
  }

  function EvalMulSteps(value: int, ss: MulSteps): (r: Option<int>)
    requires IsInt32(value)
    ensures r.Some? ==> IsInt32(r.value)
    decreases ss
  {
    match ss
    case NoFactors => Some(value)
    case Times(f, more) =>
      (match EvalFactor(f)
       case None => None
       case Some(w) => EvalMulSteps(Mul(value, w), more))
    case Over(f, more) =>
      (match EvalFactor(f)
       case None => None
       case Some(w) => if w == 0 then None else EvalMulSteps(Div(value, w), more))
  }

  function EvalTerm(t: Term): (r: Option<int>)
    ensures r.Some? ==> IsInt32(r.value)
  {
    match EvalFactor(t.first)
    case None => None
    case Some(v) => EvalMulSteps(v, t.steps)
  }

  function EvalAddSteps(value: int, ss: AddSteps): (r: Option<int>)
    requires IsInt32(value)
    ensures r.Some? ==> IsInt32(r.value)
    decreases ss
  {
    match ss
    case NoTerms => Some(value)
    case Plus(t, more) =>
      (match EvalTerm(t)
       case None => None
       case Some(w) => EvalAddSteps(Add(value, w), more))
    case Minus(t, more) =>
      (match EvalTerm(t)
       case None => None
       case Some(w) => EvalAddSteps(Sub(value, w), more))
  }

  function EvalExpr(e: Expr): (r: Option<int>)
    ensures r.Some? ==> IsInt32(r.value)
  {
    match EvalTerm(e.first)
    case None => None
    case Some(v) => EvalAddSteps(v, e.steps)
  }

  // ===========================================================================
  // Reading back what was printed

  /** The digits after the first accumulate to the wrapped decimal value. */
  lemma {:induction false} MoreDigitsOfDigits(prefix: string, digits: string, rest: string)
    requires AllDigits(prefix) && AllDigits(digits)
    requires rest != [] && !IsDigit(rest[0])
    ensures MoreDigits(Wrap(DecimalValue(prefix)), digits + rest)
      == Some((Wrap(DecimalValue(prefix + digits)), rest))
    decreases |digits|
  {
    if digits == [] {
      assert prefix + digits == prefix;
    } else {
      var c, s := digits[0], digits + rest;
      assert s[0] == c && s[1..] == digits[1..] + rest;
      var p := prefix + [c];
      assert p[..|p| - 1] == prefix && p[|p| - 1] == c;
      var v := DecimalValue(prefix);
      assert DecimalValue(p) == v * 10 + DigitValue(c);
      MulAddWraps(v, DigitValue(c));
      var w := Wrap(DecimalValue(p));
      assert Add(Mul(Wrap(v), 10), DigitValue(c)) == w;
      calc {
        MoreDigits(Wrap(v), s);
        MoreDigits(w, digits[1..] + rest);
        { MoreDigitsOfDigits(p, digits[1..], rest); }
        Some((Wrap(DecimalValue(p + digits[1..])), rest));
        { MovedFirst(prefix, digits); }
        Some((Wrap(DecimalValue(prefix + digits)), rest));
      }
    }
  }

  /** Moving the first character of b to the end of a keeps a + b. */
  lemma MovedFirst(a: string, b: string)
    requires b != []
    ensures (a + [b[0]]) + b[1..] == a + b
  {
    assert b == [b[0]] + b[1..];
  }

  lemma ParseDigitSeqOfDigits(digits: string, rest: string)
    requires digits != [] && AllDigits(digits)
    requires rest != [] && !IsDigit(rest[0])
    ensures ParseDigitSeq(digits + rest) == Some((Wrap(DecimalValue(digits)), rest))
  {
    var first := [digits[0]];
    assert first[..0] == [];
    assert DecimalValue(first) == DigitValue(digits[0]);
    assert (digits + rest)[1..] == digits[1..] + rest;
    MoreDigitsOfDigits(first, digits[1..], rest);
    assert first + digits[1..] == digits;
  }

  /** Parsing a printed factor gives its value and stops right after it. */
  lemma {:induction false} ParseFactorOfPrint(f: Factor, rest: string)
    requires FactorOk(f)
    requires rest != [] && !IsDigit(rest[0])
    ensures ParseFactor(PrintFactor(f) + rest) == Lift(EvalFactor(f), rest)
    decreases f, 0
  {
    match f
    case Number(ds) =>
      ParseDigitSeqOfDigits(ds, rest);
    case Nested(e) =>
      var s := PrintFactor(f) + rest;
      assert s[1..] == PrintExpr(e) + (")" + rest);
      ParseExprOfPrint(e, ")" + rest);
  }

  /** The character after a parenthesised expression is consumed whatever it is:
      "(1!x" reads as the factor 1, leaving "x". */
  lemma ParseFactorDropsAnyCloser()
    ensures ParseFactor("(1!x") == Some((1, "x"))
  {
    var s, t, u := "(1!x", "1!x", "!x";
    assert s[0] == '(' && s[1..] == t;
    assert t[0] == '1' && t[1..] == u && !IsDigit(u[0]) && u[0] != '*' && u[0] != '/' && u[0] != '+' && u[0] != '-';
    assert DigitValue('1') == 1;
    assert MoreDigits(1, u) == Some((1, u));
    assert ParseFactor(t) == Some((1, u));
    assert MoreFactors(1, u) == Some((1, u));
    assert ParseTerm(t) == Some((1, u));
    assert MoreTerms(1, u) == Some((1, u));
    assert ParseExpr(t) == Some((1, u));
    assert u[1..] == "x";
  }

  /** Concatenation regrouped to the right */
  lemma Regroup(a: string, b: string, c: string, d: string)
    ensures (a + b + c) + d == a + (b + (c + d))
  {
  }

  /** The first character and the rest of [c] + t */
  lemma Uncons(c: char, t: string)
    ensures ([c] + t)[0] == c && ([c] + t)[1..] == t
  {
  }

  lemma MulStepsStart(ss: MulSteps)
    ensures PrintMulSteps(ss) == [] || PrintMulSteps(ss)[0] == '*' || PrintMulSteps(ss)[0] == '/'
  {
  }

  lemma AddStepsStart(ss: AddSteps)
    ensures PrintAddSteps(ss) == [] || PrintAddSteps(ss)[0] == '+' || PrintAddSteps(ss)[0] == '-'
  {
  }

  lemma {:induction false} MoreFactorsOfPrint(value: int, ss: MulSteps, rest: string)
    requires IsInt32(value) && MulStepsOk(ss)
    requires rest != [] && !IsDigit(rest[0]) && rest[0] != '*' && rest[0] != '/'
    ensures MoreFactors(value, PrintMulSteps(ss) + rest) == Lift(EvalMulSteps(value, ss), rest)
    decreases ss, 1
  {
    if !ss.NoFactors? {
      var f, more := ss.factor, ss.more;
      var s := PrintMulSteps(ss) + rest;
      var after := PrintMulSteps(more) + rest;
      MulStepsStart(more);
      assert after != [] && !IsDigit(after[0]);
      var op := if ss.Times? then '*' else '/';
      var p := PrintFactor(f);
      assert PrintMulSteps(ss) == [op] + p + PrintMulSteps(more);
      Regroup([op], p, PrintMulSteps(more), rest);
      Uncons(op, p + after);
      ParseFactorOfPrint(f, after);
      if EvalFactor(f).Some? {
        var w := EvalFactor(f).value;
        assert ParseFactor(s[1..]) == Some((w, after));
        if ss.Times? {
          MoreFactorsOfPrint(Mul(value, w), more, rest);
          assert MoreFactors(value, s) == MoreFactors(Mul(value, w), after);
          assert EvalMulSteps(value, ss) == EvalMulSteps(Mul(value, w), more);
        } else if w != 0 {
          MoreFactorsOfPrint(Div(value, w), more, rest);
          assert MoreFactors(value, s) == MoreFactors(Div(value, w), after);
          assert EvalMulSteps(value, ss) == EvalMulSteps(Div(value, w), more);
        } else {
          assert MoreFactors(value, s) == None;
          assert EvalMulSteps(value, ss) == None;
        }
      } else {
        assert ParseFactor(s[1..]) == None;
        assert MoreFactors(value, s) == None;
        assert EvalMulSteps(value, ss) == None;
      }
    } else {
      assert PrintMulSteps(ss) + rest == rest;
      assert MoreFactors(value, rest) == Some((value, rest));
    }
  }

  lemma {:induction false} ParseTermOfPrint(t: Term, rest: string)
    requires TermOk(t)
    requires rest != [] && !IsDigit(rest[0]) && rest[0] != '*' && rest[0] != '/'
    ensures ParseTerm(PrintTerm(t) + rest) == Lift(EvalTerm(t), rest)
    decreases t, 2
  {
    var after := PrintMulSteps(t.steps) + rest;
    MulStepsStart(t.steps);
    assert after != [] && !IsDigit(after[0]);
    assert PrintTerm(t) + rest == PrintFactor(t.first) + after;
    ParseFactorOfPrint(t.first, after);
    if EvalFactor(t.first).Some? {
      MoreFactorsOfPrint(EvalFactor(t.first).value, t.steps, rest);
    }
  }

  lemma {:induction false} MoreTermsOfPrint(value: int, ss: AddSteps, rest: string)
    requires IsInt32(value) && AddStepsOk(ss)
    requires rest != [] && !IsDigit(rest[0]) && rest[0] != '+' && rest[0] != '-' && rest[0] != '*' && rest[0] != '/'
    ensures MoreTerms(value, PrintAddSteps(ss) + rest) == Lift(EvalAddSteps(value, ss), rest)
    decreases ss, 3
  {
    if !ss.NoTerms? {
      var t, more := ss.term, ss.more;
      var s := PrintAddSteps(ss) + rest;
      var after := PrintAddSteps(more) + rest;
      AddStepsStart(more);
      assert after != [] && !IsDigit(after[0]) && after[0] != '*' && after[0] != '/';
      var op := if ss.Plus? then '+' else '-';
      var p := PrintTerm(t);
      assert PrintAddSteps(ss) == [op] + p + PrintAddSteps(more);
      Regroup([op], p, PrintAddSteps(more), rest);
      Uncons(op, p + after);
      ParseTermOfPrint(t, after);
      if EvalTerm(t).Some? {
        var w := EvalTerm(t).value;
        assert ParseTerm(s[1..]) == Some((w, after));
        var next := if ss.Plus? then Add(value, w) else Sub(value, w);
        MoreTermsOfPrint(next, more, rest);
        MoreTermsStep(value, s, w, after);
        assert EvalAddSteps(value, ss) == EvalAddSteps(next, more);
      } else {
        assert ParseTerm(s[1..]) == None;
        MoreTermsFails(value, s);
        assert EvalAddSteps(value, ss) == None;
      }
    } else {
      assert PrintAddSteps(ss) + rest == rest;
      assert MoreTerms(value, rest) == Some((value, rest));
    }
  }

  /** One "+ term" or "- term" step of MoreTerms */
  lemma MoreTermsStep(value: int, s: string, w: int, after: string)
    requires IsInt32(value) && IsInt32(w) && s != [] && (s[0] == '+' || s[0] == '-')
    requires ParseTerm(s[1..]) == Some((w, after))
    ensures MoreTerms(value, s) == MoreTerms(if s[0] == '+' then Add(value, w) else Sub(value, w), after)
  {
  }

  /** A step whose term does not parse makes MoreTerms fail. */
  lemma MoreTermsFails(value: int, s: string)
    requires IsInt32(value) && s != [] && (s[0] == '+' || s[0] == '-')
    requires ParseTerm(s[1..]) == None
    ensures MoreTerms(value, s) == None
  {
  }

  /** Parsing a printed expression followed by a character that cannot continue it
      gives the expression's value (or fails exactly when it divides by zero) and
      consumes exactly the printed text. Since the printed form follows the grammar,
      this also says that * and / bind tighter than + and -, and that all four
      associate to the left. */
  lemma {:induction false} ParseExprOfPrint(e: Expr, rest: string)
    requires ExprOk(e)
    requires rest != [] && !IsDigit(rest[0]) && rest[0] != '+' && rest[0] != '-' && rest[0] != '*' && rest[0] != '/'
    ensures ParseExpr(PrintExpr(e) + rest) == Lift(EvalExpr(e), rest)
    decreases e, 4
  {
    var after := PrintAddSteps(e.steps) + rest;
    AddStepsStart(e.steps);
    assert after != [] && !IsDigit(after[0]) && after[0] != '*' && after[0] != '/';
    assert PrintExpr(e) + rest == PrintTerm(e.first) + after;
    ParseTermOfPrint(e.first, after);
    if EvalTerm(e.first).Some? {
      MoreTermsOfPrint(EvalTerm(e.first).value, e.steps, rest);
    }
  }

  // ===========================================================================
  // The token-queue evaluator

  /** The operators other than "+", "-" and "*" all divide. */
  predicate Divides(op: string) {
    op != "+" && op != "-" && op != "*"
  }

  function Apply(op: string, v: int, w: int): int
    requires !Divides(op) || w != 0
  {
    if op == "+" then Add(v, w)
    else if op == "-" then Sub(v, w)
    else if op == "*" then Mul(v, w)
    else Div(v, w)
  }

  /** The value of the prefix expression at the front of the tokens and the tokens
      after it; None where the code would throw (an empty queue, a token that is not
      an int, a zero divisor). */
  function QueueExpr(tokens: seq<string>): (r: Option<(int, seq<string>)>)
    ensures r.Some? ==> IsSuffix(r.value.1, tokens) && |r.value.1| < |tokens| && IsInt32(r.value.0)
    decreases |tokens|, 0
  {
    if tokens == [] then None
    else if tokens[0] == "(" then
      if |tokens| < 2 then None
      else
        match QueueExpr(tokens[2..])
        case None => None
        case Some((v, r)) => QueueOperands(tokens[1], v, r)
    else
      match ParseInt(tokens[0])
      case None => None
      case Some(n) => Some((n, tokens[1..]))
  }

  /** The remaining operands of op, up to and including the closing ")", folded
      into value from left to right */
  function QueueOperands(op: string, value: int, tokens: seq<string>): (r: Option<(int, seq<string>)>)
    requires IsInt32(value)
    ensures r.Some? ==> IsSuffix(r.value.1, tokens) && |r.value.1| < |tokens| && IsInt32(r.value.0)
    decreases |tokens|, 1
  {
    if tokens == [] then None
    else if tokens[0] == ")" then Some((value, tokens[1..]))
    else
      match QueueExpr(tokens)
      case None => None
      case Some((w, r)) =>
        if Divides(op) && w == 0 then None else QueueOperands(op, Apply(op, value, w), r)
  }

  method ValueOfExprQueue(tokens: seq<string>) returns (value: int, rest: seq<string>)
    requires QueueExpr(tokens).Some?
    ensures (value, rest) == QueueExpr(tokens).value
    decreases |tokens|, 0
  {
    if tokens[0] == "(" {
      rest := tokens[1..];
      var op := rest[0];
      rest := rest[1..];
      value, rest := ValueOfExprQueue(rest);
      while rest[0] != ")"
        invariant IsInt32(value) && |rest| < |tokens|
        invariant QueueOperands(op, value, rest) == QueueExpr(tokens)
        decreases |rest|
      {
        var next;
        next, rest := ValueOfExprQueue(rest);
        if op == "+" {
          value := Add(value, next);
        } else if op == "-" {
          value := Sub(value, next);
        } else if op == "*" {
          value := Mul(value, next);
        } else {
          value := Div(value, next);
        }
      }
      rest := rest[1..];
    } else {
      value := ParseInt(tokens[0]).value;
      rest := tokens[1..];
    }
  }

  /** Prefix expressions: an int literal, or an operator applied to one or more
      operands. */
  datatype Prefix = Literal(n: int) | Application(op: string, first: Prefix, others: seq<Prefix>)

  predicate PrefixOk(e: Prefix) {
    match e
    case Literal(n) => IsInt32(n)
    case Application(_, first, others) =>
      PrefixOk(first) && forall k | 0 <= k < |others| :: PrefixOk(others[k])
  }

  function Tokens(e: Prefix): seq<string> {
    match e
    case Literal(n) => [IntToString(n)]
    case Application(op, first, others) => ["(", op] + Tokens(first) + TokensOfAll(others) + [")"]
  }

  function TokensOfAll(es: seq<Prefix>): seq<string> {
    if es == [] then [] else Tokens(es[0]) + TokensOfAll(es[1..])
  }

  function EvalPrefix(e: Prefix): (r: Option<int>)
    requires PrefixOk(e)
    ensures r.Some? ==> IsInt32(r.value)
  {
    match e
    case Literal(n) => Some(n)
    case Application(op, first, others) =>
      match EvalPrefix(first)
      case None => None
      case Some(v) => EvalOperands(op, v, others)
  }

  function EvalOperands(op: string, value: int, es: seq<Prefix>): (r: Option<int>)
    requires IsInt32(value) && forall k | 0 <= k < |es| :: PrefixOk(es[k])
    ensures r.Some? ==> IsInt32(r.value)
    decreases es
  {
    if es == [] then Some(value)
    else
      match EvalPrefix(es[0])
      case None => None
      case Some(w) => if Divides(op) && w == 0 then None else EvalOperands(op, Apply(op, value, w), es[1..])
  }

  /** The printed form never starts with the closing token. */
  lemma TokensStart(e: Prefix)
    requires PrefixOk(e)
    ensures Tokens(e) != [] && Tokens(e)[0] != ")"
  {
    if e.Literal? {
      ParseIntOfToString(e.n);
      assert ParseInt(")") == None;
    }
  }

  /** The tokens of a prefix expression evaluate to its value and are consumed
      exactly, whatever follows them. */
  lemma {:induction false} QueueExprOfTokens(e: Prefix, rest: seq<string>)
    requires PrefixOk(e)
    ensures QueueExpr(Tokens(e) + rest) == Lift(EvalPrefix(e), rest)
    decreases e, 0
  {
    match e
    case Literal(n) =>
      QueueLiteralOfTokens(n, rest);
    case Application(op, first, others) =>
      var ts := Tokens(e) + rest;
      var after := TokensOfAll(others) + [")"] + rest;
      ApplicationTokens(op, Tokens(first), TokensOfAll(others), rest);
      QueueExprOfTokens(first, after);
      if EvalPrefix(first).Some? {
        var v := EvalPrefix(first).value;
        QueueOperandsOfTokens(op, v, others, rest);
        assert QueueExpr(ts) == QueueOperands(op, v, after);
      } else {
        assert QueueExpr(ts) == None;
      }
  }

  /** A literal's token is read as its value. */
  lemma QueueLiteralOfTokens(n: int, rest: seq<string>)
    requires IsInt32(n)
    ensures QueueExpr([IntToString(n)] + rest) == Some((n, rest))
  {
    var ts := [IntToString(n)] + rest;
    ParseIntOfToString(n);
    assert ts[0] == IntToString(n) && ts[1..] == rest;
    assert ts[0] != "(" by {
      assert ParseInt("(") == None;
    }
  }

  /** The tokens of an application, taken apart from the front */
  lemma ApplicationTokens(op: string, first: seq<string>, others: seq<string>, rest: seq<string>)
    ensures var ts := ["(", op] + first + others + [")"] + rest;
      ts[0] == "(" && ts[1] == op && ts[2..] == first + (others + [")"] + rest)
  {
    var ts := ["(", op] + first + others + [")"] + rest;
    assert ts == ["(", op] + (first + (others + [")"] + rest));
  }

  lemma {:induction false} QueueOperandsOfTokens(op: string, value: int, es: seq<Prefix>, rest: seq<string>)
    requires IsInt32(value) && forall k | 0 <= k < |es| :: PrefixOk(es[k])
    ensures QueueOperands(op, value, TokensOfAll(es) + [")"] + rest) == Lift(EvalOperands(op, value, es), rest)
    decreases es, 1
  {
    var ts := TokensOfAll(es) + [")"] + rest;
    if es == [] {
      assert ts[1..] == rest;
    } else {
      var after := TokensOfAll(es[1..]) + [")"] + rest;
      assert ts == Tokens(es[0]) + after;
      TokensStart(es[0]);
      QueueExprOfTokens(es[0], after);
      if EvalPrefix(es[0]).Some? {
        var w := EvalPrefix(es[0]).value;
        if !(Divides(op) && w == 0) {
          QueueOperandsOfTokens(op, Apply(op, value, w), es[1..], rest);
        }
      }
    }
  }
}
