/** A tokenizer and a prefix evaluator for Boolean expressions over T, F, NOT, AND
    and OR, and a reader of integer-labelled trees from a token queue. */
module BooleanExpressionEvaluator {
  import opened Options
  import opened JavaInt
  import opened JavaText
  import BinaryTreeMethods

  type Tree = BinaryTreeMethods.Tree<int>

  /** s without its first n characters (empty once n reaches |s|) */
  function Drop(s: string, n: nat): (r: string)
    ensures |r| <= |s| && (|s| > 0 && n > 0 ==> |r| < |s|)
  {
    if n >= |s| then [] else s[n..]
  }

  // ===========================================================================
  // Tokenizing

  /** The token a character starts: T, F, ( and ) stand for themselves, N starts
      NOT, A starts AND and O starts OR; every other character is a separator. */
  function TokenOf(c: char): seq<string> {
    if c == 'T' then ["T"]
    else if c == 'F' then ["F"]
    else if c == '(' then ["("]
    else if c == ')' then [")"]
    else if c == 'N' then ["NOT"]
    else if c == 'A' then ["AND"]
    else if c == 'O' then ["OR"]
    else []
  }

  /** How far the scan advances past a character: three for N and A (the length of
      the longest token), two for O, one otherwise. */
  function Width(c: char): nat {
    if c == 'N' || c == 'A' then 3 else if c == 'O' then 2 else 1
  }

  /** The tokens of s */
  function Tokenize(s: string): seq<string>
    decreases |s|
  {
    if s == [] then [] else TokenOf(s[0]) + Tokenize(Drop(s, Width(s[0])))
  }

  method Tokens(source: string) returns (tokens: seq<string>)
    ensures tokens == Tokenize(source)
  {
    tokens := [];
    var pos := 0;
    while pos < |source|
      invariant tokens + Tokenize(Drop(source, pos)) == Tokenize(source)
      decreases |source| - pos
    {
      ghost var before, start := tokens, pos;
      var c := source[pos];
      if c == 'T' {
        tokens := tokens + ["T"];
        pos := pos + 1;
      } else if c == 'F' {
        tokens := tokens + ["F"];
        pos := pos + 1;
      } else if c == '(' {
        tokens := tokens + ["("];
        pos := pos + 1;
      } else if c == ')' {
        tokens := tokens + [")"];
        pos := pos + 1;
      } else if c == 'N' {
        tokens := tokens + ["NOT"];
        pos := pos + 3;
      } else if c == 'A' {
        tokens := tokens + ["AND"];
        pos := pos + 3;
      } else if c == 'O' {
        tokens := tokens + ["OR"];
        pos := pos + 2;
      } else {
        pos := pos + 1;
      }
      assert tokens == before + TokenOf(c) && pos == start + Width(c);
      ScanStep(source, before, start);
    }
  }

  /** One step of the scan: the tokens from position i are those the character at i
      starts, followed by those after its width. */
  lemma TokenizeAt(s: string, i: nat)
    requires i < |s|
    ensures Tokenize(Drop(s, i)) == TokenOf(s[i]) + Tokenize(Drop(s, i + Width(s[i])))
  {
    var d := Drop(s, i);
    assert d != [] && d[0] == s[i];
    DropDrop(s, i, Width(s[i]));
    assert Tokenize(d) == TokenOf(d[0]) + Tokenize(Drop(d, Width(d[0])));
  }

  /** The loop invariant survives one step of the scan. */
  lemma ScanStep(s: string, before: seq<string>, i: nat)
    requires i < |s| && before + Tokenize(Drop(s, i)) == Tokenize(s)
    ensures before + TokenOf(s[i]) + Tokenize(Drop(s, i + Width(s[i]))) == Tokenize(s)
  {
    var a, b := TokenOf(s[i]), Tokenize(Drop(s, i + Width(s[i])));
    TokenizeAt(s, i);
    Associative(before, a, b);
  }

  lemma Associative<T>(x: seq<T>, y: seq<T>, z: seq<T>)
    ensures x + (y + z) == x + y + z
  {
  }

  lemma DropDrop(s: string, i: nat, n: nat)
    requires i < |s|
    ensures Drop(Drop(s, i), n) == Drop(s, i + n)
  {
  }

  /** The seven tokens of the language */
  predicate IsToken(t: string) {
    t in {"T", "F", "(", ")", "NOT", "AND", "OR"}
  }

  /** The tokens written out, each followed by a blank. */
  function Spell(ts: seq<string>): string {
    if ts == [] then "" else ts[0] + " " + Spell(ts[1..])
  }

  /** Tokenizing a spelled-out token sequence gives the tokens back. */
  lemma {:induction false} TokenizeSpell(ts: seq<string>)
    requires forall k | 0 <= k < |ts| :: IsToken(ts[k])
    ensures Tokenize(Spell(ts)) == ts
  {
    if ts != [] {
      var t, more := ts[0], Spell(ts[1..]);
      var s := Spell(ts);
      assert s == t + " " + more;
      TokenizeSpell(ts[1..]);
      assert (" " + more)[1..] == more;
      TokenStartsItself(t);
      assert s[0] == t[0];
      assert Drop(s, |t|) == " " + more;
    }
  }

  /** A token's first character starts that very token, and the scan moves past
      exactly its characters. */
  lemma TokenStartsItself(t: string)
    requires IsToken(t)
    ensures |t| > 0 && TokenOf(t[0]) == [t] && Width(t[0]) == |t|
  {
    if t == "T" {
    } else if t == "F" {
    } else if t == "(" {
    } else if t == ")" {
    } else if t == "NOT" {
    } else if t == "AND" {
    } else {
      assert t == "OR";
    }
  }

  // ===========================================================================
  // Evaluating, as the code does it

  /** The value of the prefix expression at the front of the tokens and the tokens
      left; None when a token is needed from an empty queue. AND and OR are Java's
      && and ||: when the first operand decides, the second is not read. */
  function BoolValue(ts: seq<string>): (r: Option<(bool, seq<string>)>)
    ensures r.Some? ==> |r.value.1| < |ts| && r.value.1 == ts[|ts| - |r.value.1|..]
    decreases |ts|
  {
    if ts == [] then None
    else
      var front, rest := ts[0], ts[1..];
      if front == "NOT" then
        match BoolValue(rest)
        case None => None
        case Some((v, r)) => Some((!v, r))
      else if front == "AND" then
        match BoolValue(rest)
        case None => None
        case Some((v, r)) => if !v then Some((false, r)) else BoolValue(r)
      else if front == "OR" then
        match BoolValue(rest)
        case None => None
        case Some((v, r)) => if v then Some((true, r)) else BoolValue(r)
      else Some((front == "T", rest))
  }

  method ValueOfBoolexpr(tokens: seq<string>) returns (value: bool, rest: seq<string>)
    requires BoolValue(tokens).Some?
    ensures (value, rest) == BoolValue(tokens).value
    decreases |tokens|
  {
    var front := tokens[0];
    rest := tokens[1..];
    if front == "NOT" {
      value, rest := ValueOfBoolexpr(rest);
      value := !value;
    } else if front == "AND" {
      value, rest := ValueOfBoolexpr(rest);
      if value {
        value, rest := ValueOfBoolexpr(rest);
      }
    } else if front == "OR" {
      value, rest := ValueOfBoolexpr(rest);
      if !value {
        value, rest := ValueOfBoolexpr(rest);
      }
    } else {
      value := front == "T";
    }
  }

  // ===========================================================================
  // Boolean expressions, their meaning and their prefix form

  datatype BoolExpr = Const(b: bool) | Not(e: BoolExpr) | And(left: BoolExpr, right: BoolExpr) | Or(left: BoolExpr, right: BoolExpr)

  function Eval(e: BoolExpr): bool {
    match e
    case Const(b) => b
    case Not(a) => !Eval(a)
    case And(a, b) => Eval(a) && Eval(b)
    case Or(a, b) => Eval(a) || Eval(b)
  }

  function PrefixTokens(e: BoolExpr): (ts: seq<string>)
    ensures forall k | 0 <= k < |ts| :: IsToken(ts[k])
  {
    match e
    case Const(b) => [if b then "T" else "F"]
    case Not(a) => ["NOT"] + PrefixTokens(a)
    case And(a, b) => ["AND"] + PrefixTokens(a) + PrefixTokens(b)
    case Or(a, b) => ["OR"] + PrefixTokens(a) + PrefixTokens(b)
  }

  /** Without AND and OR nothing is skipped, and the code reads the expression back
      with its value. */
  predicate NoBinary(e: BoolExpr) {
    match e
    case Const(_) => true
    case Not(a) => NoBinary(a)
    case And(_, _) => false
    case Or(_, _) => false
  }

  lemma {:induction false} BoolValueWithoutBinary(e: BoolExpr, rest: seq<string>)
    requires NoBinary(e)
    ensures BoolValue(PrefixTokens(e) + rest) == Some((Eval(e), rest))
  {
    var ts := PrefixTokens(e) + rest;
    match e
    case Const(b) =>
      assert ts[1..] == rest;
    case Not(a) =>
      assert ts[0] == "NOT" && ts[1..] == PrefixTokens(a) + rest;
      BoolValueWithoutBinary(a, rest);
  }

  /** As written, the tokens of (F AND F) OR T evaluate to false and leave the last
      T unread: the inner AND stops after its first operand, and OR then takes the
      AND's second operand as its own. */
  lemma ShortCircuitMisreads()
    ensures var e := Or(And(Const(false), Const(false)), Const(true));
      Eval(e) && BoolValue(PrefixTokens(e)) == Some((false, ["T"]))
  {
    var t4 := ["T"];
    var t3 := ["F"] + t4;
    var t2 := ["F"] + t3;
    var t1 := ["AND"] + t2;
    var ts := ["OR"] + t1;
    assert PrefixTokens(And(Const(false), Const(false))) == ["AND"] + ["F"] + ["F"];
    assert PrefixTokens(Or(And(Const(false), Const(false)), Const(true))) == ts;
    assert t3[0] == "F" && t3[1..] == t4;
    assert BoolValue(t3) == Some((false, t4));
    assert t2[0] == "F" && t2[1..] == t3;
    assert BoolValue(t2) == Some((false, t3));
    assert t1[0] == "AND" && t1[1..] == t2;
    assert BoolValue(t1) == Some((false, t3));
    assert ts[0] == "OR" && ts[1..] == t1;
  }

  /** The evidently intended evaluation: both operands of AND and OR are read, then
      combined. */
  function FullValue(ts: seq<string>): (r: Option<(bool, seq<string>)>)
    ensures r.Some? ==> |r.value.1| < |ts|
    decreases |ts|
  {
    if ts == [] then None
    else
      var front, rest := ts[0], ts[1..];
      if front == "NOT" then
        match FullValue(rest)
        case None => None
        case Some((v, r)) => Some((!v, r))
      else if front == "AND" || front == "OR" then
        match FullValue(rest)
        case None => None
        case Some((v, r)) =>
          match FullValue(r)
          case None => None
          case Some((w, r')) => Some((if front == "AND" then v && w else v || w, r'))
      else Some((front == "T", rest))
  }

  /** The corrected evaluator reads every expression back with its value and consumes
      exactly its tokens. */
  lemma {:induction false} FullValueOfPrefix(e: BoolExpr, rest: seq<string>)
    ensures FullValue(PrefixTokens(e) + rest) == Some((Eval(e), rest))
  {
    var ts := PrefixTokens(e) + rest;
    match e
    case Const(b) =>
      assert ts[1..] == rest;
    case Not(a) =>
      assert ts[0] == "NOT" && ts[1..] == PrefixTokens(a) + rest;
      FullValueOfPrefix(a, rest);
    case And(a, b) =>
      assert ts[0] == "AND" && ts[1..] == PrefixTokens(a) + (PrefixTokens(b) + rest);
      FullValueOfPrefix(a, PrefixTokens(b) + rest);
      FullValueOfPrefix(b, rest);
    case Or(a, b) =>
      assert ts[0] == "OR" && ts[1..] == PrefixTokens(a) + (PrefixTokens(b) + rest);
      FullValueOfPrefix(a, PrefixTokens(b) + rest);
      FullValueOfPrefix(b, rest);
  }

  method ValueOfBoolexprFull(tokens: seq<string>) returns (value: bool, rest: seq<string>)
    requires FullValue(tokens).Some?
    ensures (value, rest) == FullValue(tokens).value
    decreases |tokens|
  {
    var front := tokens[0];
    rest := tokens[1..];
    if front == "NOT" {
      value, rest := ValueOfBoolexprFull(rest);
      value := !value;
    } else if front == "AND" || front == "OR" {
      var other;
      value, rest := ValueOfBoolexprFull(rest);
      other, rest := ValueOfBoolexprFull(rest);
      value := if front == "AND" then value && other else value || other;
    } else {
      value := front == "T";
    }
  }

  // ===========================================================================
  // Reading a tree

  /** The tree at the front of the tokens and the tokens after it: "(" and one
      more token make the empty tree; otherwise an int root, one token (the "("),
      then subtrees up to and including ")". None when the code would throw. */
  function TreeValue(ts: seq<string>): (r: Option<(Tree, seq<string>)>)
    ensures r.Some? ==> |r.value.1| < |ts|
    decreases |ts|, 0
  {
    if ts == [] then None
    else if ts[0] == "(" then
      if |ts| < 2 then None else Some((BinaryTreeMethods.EmptyTree, ts[2..]))
    else
      match ParseInt(ts[0])
      case None => None
      case Some(root) =>
        if |ts| < 2 then None
        else
          match Subtrees([], ts[2..])
          case None => None
          case Some((children, r)) => Some((BinaryTreeMethods.Tree(root, children), r))
  }

  /** The subtrees after those already read (children), up to and including ")" */
  function Subtrees(children: seq<Tree>, ts: seq<string>): (r: Option<(seq<Tree>, seq<string>)>)
    ensures r.Some? ==> |r.value.1| < |ts|
    decreases |ts|, 1
  {
    if ts == [] then None
    else if ts[0] == ")" then Some((children, ts[1..]))
    else
      match TreeValue(ts)
      case None => None
      case Some((child, r)) => Subtrees(children + [child], r)
  }

  method ValueOfTree(tokens: seq<string>) returns (tree: Tree, rest: seq<string>)
    requires TreeValue(tokens).Some?
    ensures (tree, rest) == TreeValue(tokens).value
    decreases |tokens|, 0
  {
    tree := BinaryTreeMethods.EmptyTree;
    if tokens[0] == "(" {
      rest := tokens[2..];
    } else {
      var root := ParseInt(tokens[0]).value;
      var forset: seq<Tree> := [];
      rest := tokens[2..];
      while rest[0] != ")"
        invariant |rest| < |tokens|
        invariant Subtrees(forset, rest) == Subtrees([], tokens[2..])
        decreases |rest|
      {
        var child;
        child, rest := ValueOfTree(rest);
        forset := forset + [child];
      }
      tree := BinaryTreeMethods.Tree(root, forset);
      rest := rest[1..];
    }
  }

  /** The token form of a tree: "(" ")" for the empty tree, else the root, "(",
      the subtrees and ")". */
  function Render(t: Tree): seq<string> {
    match t
    case EmptyTree => ["(", ")"]
    case Tree(root, cs) => [IntToString(root), "("] + RenderAll(cs) + [")"]
  }

  function RenderAll(cs: seq<Tree>): seq<string> {
    if cs == [] then [] else Render(cs[0]) + RenderAll(cs[1..])
  }

  predicate LabelsAreInts(t: Tree) {
    match t
    case EmptyTree => true
    case Tree(root, cs) => IsInt32(root) && forall k | 0 <= k < |cs| :: LabelsAreInts(cs[k])
  }

  /** Reading a rendered tree gives the tree back and consumes exactly its tokens. */
  lemma {:induction false} TreeValueOfRender(t: Tree, rest: seq<string>)
    requires LabelsAreInts(t)
    ensures TreeValue(Render(t) + rest) == Some((t, rest))
    decreases t, 0
  {
    var ts := Render(t) + rest;
    match t
    case EmptyTree =>
      assert ts[0] == "(" && ts[2..] == rest;
    case Tree(root, cs) =>
      ParseIntOfToString(root);
      assert ts[0] == IntToString(root);
      assert ts[0] != "(" by {
        assert ParseInt("(") == None;
      }
      assert ts[2..] == RenderAll(cs) + [")"] + rest;
      SubtreesOfRender([], cs, rest);
      assert [] + cs == cs;
  }

  lemma {:induction false} SubtreesOfRender(children: seq<Tree>, cs: seq<Tree>, rest: seq<string>)
    requires forall k | 0 <= k < |cs| :: LabelsAreInts(cs[k])
    ensures Subtrees(children, RenderAll(cs) + [")"] + rest) == Some((children + cs, rest))
    decreases cs, 1
  {
    var ts := RenderAll(cs) + [")"] + rest;
    if cs == [] {
      assert ts == [")"] + rest;
      assert ts[1..] == rest;
      assert children + cs == children;
    } else {
      var after := RenderAll(cs[1..]) + [")"] + rest;
      assert ts == Render(cs[0]) + after;
      RenderStart(cs[0]);
      TreeValueOfRender(cs[0], after);
      SubtreesOfRender(children + [cs[0]], cs[1..], rest);
      assert children + [cs[0]] + cs[1..] == children + cs;
    }
  }

  lemma RenderStart(t: Tree)
    requires LabelsAreInts(t)
    ensures Render(t) != [] && Render(t)[0] != ")"
  {
    if t.Tree? {
      ParseIntOfToString(t.root);
      assert ParseInt(")") == None;
    }
  }
}
