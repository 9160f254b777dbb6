/** The statement-tree passes of a BL program: counting calls to primitive or
    named instructions, renaming an instruction in a statement or a whole
    program, and simplifying IF_ELSE statements with a negated condition. */
module CountPrimitiveCalls {

  /** The eight conditions of BL, in four positive / negated ("NOT") pairs. */
  datatype Condition =
    | NextIsEmpty | NextIsNotEmpty
    | NextIsEnemy | NextIsNotEnemy
    | NextIsFriend | NextIsNotFriend
    | NextIsWall | NextIsNotWall

  /** The condition's name contains "NOT". */
  predicate IsNegated(c: Condition) {
    c.NextIsNotEmpty? || c.NextIsNotEnemy? || c.NextIsNotFriend? || c.NextIsNotWall?
  }

  /** The other member of c's pair: for a negated condition, the one whose name is
      c's name with "NOT_" taken out. */
  function Dual(c: Condition): (d: Condition)
    ensures IsNegated(d) != IsNegated(c)
  {
    match c
    case NextIsEmpty => NextIsNotEmpty
    case NextIsNotEmpty => NextIsEmpty
    case NextIsEnemy => NextIsNotEnemy
    case NextIsNotEnemy => NextIsEnemy
    case NextIsFriend => NextIsNotFriend
    case NextIsNotFriend => NextIsFriend
    case NextIsWall => NextIsNotWall
    case NextIsNotWall => NextIsWall
  }

  lemma DualIsInvolution(c: Condition)
    ensures Dual(Dual(c)) == c
    ensures Dual(c) != c
  {
  }

  datatype Statement =
    | Block(children: seq<Statement>)
    | If(cond: Condition, body: Statement)
    | IfElse(cond: Condition, thenPart: Statement, elsePart: Statement)
    | While(cond: Condition, body: Statement)
    | Call(instruction: string)

  /** move, turnleft, turnright, infect and skip */
  predicate IsPrimitive(name: string) {
    name in {"move", "turnleft", "turnright", "infect", "skip"}
  }

  // ---------------------------------------------------------------------------
  // Taking a BLOCK apart and putting it back together

  /** removeFromBlock(i): the block without its i-th child, and that child */
  function RemoveFromBlock(s: Statement, i: nat): (r: (Statement, Statement))
    requires s.Block? && i < |s.children|
    ensures r.0.Block? && |r.0.children| == |s.children| - 1
    ensures r.1 == s.children[i]
  {
    (Block(s.children[..i] + s.children[i + 1..]), s.children[i])
  }

  /** addToBlock(i, child): child inserted so that it becomes the i-th child */
  function AddToBlock(s: Statement, i: nat, child: Statement): (r: Statement)
    requires s.Block? && i <= |s.children|
    ensures r.Block? && |r.children| == |s.children| + 1 && r.children[i] == child
    ensures r.children[..i] == s.children[..i] && r.children[i + 1..] == s.children[i..]
  {
    var cs := s.children[..i] + [child] + s.children[i..];
    assert cs[i + 1..] == s.children[i..];
    Block(cs)
  }

  /** Putting back what was taken out restores the block. */
  lemma BlockRoundTrip(s: Statement, i: nat)
    requires s.Block? && i < |s.children|
    ensures AddToBlock(RemoveFromBlock(s, i).0, i, RemoveFromBlock(s, i).1) == s
  {
    assert s.children[..i] + [s.children[i]] + s.children[i + 1..] == s.children;
  }

  /** Taking out what was put in gives back the block and the child. */
  lemma AddThenRemove(s: Statement, i: nat, child: Statement)
    requires s.Block? && i <= |s.children|
    ensures RemoveFromBlock(AddToBlock(s, i, child), i) == (s, child)
  {
    var t := AddToBlock(s, i, child);
    assert t.children[..i] + t.children[i + 1..] == s.children;
  }

  // ---------------------------------------------------------------------------
  // Specification: the calls of a statement

  /** The instruction names of the CALL leaves of s, left to right
      (a then-part before its else-part). */
  function Calls(s: Statement): seq<string> {
    match s
    case Block(cs) => CallsIn(cs)
    case If(_, b) => Calls(b)
    case IfElse(_, t, e) => Calls(t) + Calls(e)
    case While(_, b) => Calls(b)
    case Call(name) => [name]
  }

  function CallsIn(ss: seq<Statement>): seq<string> {
    if ss == [] then [] else CallsIn(ss[..|ss| - 1]) + Calls(ss[|ss| - 1])
  }

  /** [number of calls to primitive instructions in s] */
  function PrimitiveCalls(s: Statement): nat {
    match s
    case Block(cs) => PrimitiveCallsIn(cs)
    case If(_, b) => PrimitiveCalls(b)
    case IfElse(_, t, e) => PrimitiveCalls(t) + PrimitiveCalls(e)
    case While(_, b) => PrimitiveCalls(b)
    case Call(name) => if IsPrimitive(name) then 1 else 0
  }

  function PrimitiveCallsIn(ss: seq<Statement>): nat {
    if ss == [] then 0 else PrimitiveCallsIn(ss[..|ss| - 1]) + PrimitiveCalls(ss[|ss| - 1])
  }

  /** [number of calls to instr in s] */
  function CallsTo(s: Statement, instr: string): nat {
    match s
    case Block(cs) => CallsToIn(cs, instr)
    case If(_, b) => CallsTo(b, instr)
    case IfElse(_, t, e) => CallsTo(t, instr) + CallsTo(e, instr)
    case While(_, b) => CallsTo(b, instr)
    case Call(name) => if name == instr then 1 else 0
  }

  function CallsToIn(ss: seq<Statement>, instr: string): nat {
    if ss == [] then 0 else CallsToIn(ss[..|ss| - 1], instr) + CallsTo(ss[|ss| - 1], instr)
  }

  /** Counting calls to instr is counting instr among the CALL leaves. */
  lemma {:induction false} CallsToCountsLeaves(s: Statement, instr: string)
    ensures CallsTo(s, instr) == multiset(Calls(s))[instr]
    decreases s
  {
    match s
    case Block(cs) => CallsToInCountsLeaves(cs, instr);
    case If(_, b) => CallsToCountsLeaves(b, instr);
    case IfElse(_, t, e) =>
      CallsToCountsLeaves(t, instr);
      CallsToCountsLeaves(e, instr);
    case While(_, b) => CallsToCountsLeaves(b, instr);
    case Call(_) =>
  }

  lemma {:induction false} CallsToInCountsLeaves(ss: seq<Statement>, instr: string)
    ensures CallsToIn(ss, instr) == multiset(CallsIn(ss))[instr]
    decreases ss
  {
    if ss != [] {
      CallsToInCountsLeaves(ss[..|ss| - 1], instr);
      CallsToCountsLeaves(ss[|ss| - 1], instr);
    }
  }

  /** Counting primitive calls is counting the five primitive names among the leaves. */
  lemma {:induction false} PrimitiveCallsCountsLeaves(s: Statement)
    ensures PrimitiveCalls(s) == CallsTo(s, "move") + CallsTo(s, "turnleft")
      + CallsTo(s, "turnright") + CallsTo(s, "infect") + CallsTo(s, "skip")
    decreases s
  {
    match s
    case Block(cs) => PrimitiveCallsInCountsLeaves(cs);
    case If(_, b) => PrimitiveCallsCountsLeaves(b);
    case IfElse(_, t, e) =>
      PrimitiveCallsCountsLeaves(t);
      PrimitiveCallsCountsLeaves(e);
    case While(_, b) => PrimitiveCallsCountsLeaves(b);
    case Call(_) =>
  }

  lemma {:induction false} PrimitiveCallsInCountsLeaves(ss: seq<Statement>)
    ensures PrimitiveCallsIn(ss) == CallsToIn(ss, "move") + CallsToIn(ss, "turnleft")
      + CallsToIn(ss, "turnright") + CallsToIn(ss, "infect") + CallsToIn(ss, "skip")
    decreases ss
  {
    if ss != [] {
      PrimitiveCallsInCountsLeaves(ss[..|ss| - 1]);
      PrimitiveCallsCountsLeaves(ss[|ss| - 1]);
    }
  }

  // ---------------------------------------------------------------------------
  // The counting passes

  method CountOfPrimitiveCalls(s: Statement) returns (count: nat)
    ensures count == PrimitiveCalls(s)
    decreases s
  {
    count := 0;
    match s {
      case Block(children) =>
        var block := s;
        for i := 0 to |children|
          invariant block == s
          invariant count == PrimitiveCallsIn(children[..i])
        {
          BlockRoundTrip(block, i);
          var (rest, st) := RemoveFromBlock(block, i);
          var n := CountOfPrimitiveCalls(st);
          count := count + n;
          block := AddToBlock(rest, i, st);
          assert children[..i + 1][..i] == children[..i];
        }
        assert children[..|children|] == children;
      case If(_, body) =>
        count := CountOfPrimitiveCalls(body);
      case IfElse(_, thenPart, elsePart) =>
        var n1 := CountOfPrimitiveCalls(thenPart);
        var n2 := CountOfPrimitiveCalls(elsePart);
        count := n1 + n2;
      case While(_, body) =>
        count := CountOfPrimitiveCalls(body);
      case Call(instruction) =>
        if IsPrimitive(instruction) {
          count := 1;
        }
    }
  }

  method CountOfInstructionCalls(s: Statement, instr: string) returns (count: nat)
    ensures count == CallsTo(s, instr)
    decreases s
  {
    count := 0;
    match s {
      case Block(children) =>
        var block := s;
        for i := 0 to |children|
          invariant block == s
          invariant count == CallsToIn(children[..i], instr)
        {
          BlockRoundTrip(block, i);
          var (rest, tmp) := RemoveFromBlock(block, i);
          var n := CountOfInstructionCalls(tmp, instr);
          count := count + n;
          block := AddToBlock(rest, i, tmp);
          assert children[..i + 1][..i] == children[..i];
        }
        assert children[..|children|] == children;
      case If(_, body) =>
        count := CountOfInstructionCalls(body, instr);
      case IfElse(_, thenPart, elsePart) =>
        var n1 := CountOfInstructionCalls(thenPart, instr);
        var n2 := CountOfInstructionCalls(elsePart, instr);
        count := n1 + n2;
      case While(_, body) =>
        count := CountOfInstructionCalls(body, instr);
      case Call(instruction) =>
        if instruction == instr {
          count := 1;
        }
    }
  }

  // ---------------------------------------------------------------------------
  // Renaming an instruction in a statement

  /** s with every CALL of oldName turned into a CALL of newName */
  function Renamed(s: Statement, oldName: string, newName: string): Statement {
    match s
    case Block(cs) => Block(RenamedIn(cs, oldName, newName))
    case If(c, b) => If(c, Renamed(b, oldName, newName))
    case IfElse(c, t, e) => IfElse(c, Renamed(t, oldName, newName), Renamed(e, oldName, newName))
    case While(c, b) => While(c, Renamed(b, oldName, newName))
    case Call(name) => Call(if name == oldName then newName else name)
  }

  function RenamedIn(ss: seq<Statement>, oldName: string, newName: string): (r: seq<Statement>)
    ensures |r| == |ss|
  {
    if ss == [] then []
    else RenamedIn(ss[..|ss| - 1], oldName, newName) + [Renamed(ss[|ss| - 1], oldName, newName)]
  }

  /** The name a CALL leaf carries after the rename */
  function RenameName(name: string, oldName: string, newName: string): string {
    if name == oldName then newName else name
  }

  function RenameNames(names: seq<string>, oldName: string, newName: string): (r: seq<string>)
    ensures |r| == |names|
  {
    seq(|names|, k requires 0 <= k < |names| => RenameName(names[k], oldName, newName))
  }

  /** Same kinds, same conditions, same block lengths, CALL leaves in the same places;
      only the instruction names may differ. */
  predicate SameShape(s: Statement, t: Statement) {
    match s
    case Block(cs) => t.Block? && SameShapeIn(cs, t.children)
    case If(c, b) => t.If? && t.cond == c && SameShape(b, t.body)
    case IfElse(c, a, b) =>
      t.IfElse? && t.cond == c && SameShape(a, t.thenPart) && SameShape(b, t.elsePart)
    case While(c, b) => t.While? && t.cond == c && SameShape(b, t.body)
    case Call(_) => t.Call?
  }

  predicate SameShapeIn(ss: seq<Statement>, ts: seq<Statement>) {
    |ss| == |ts| &&
    (ss == [] || (SameShapeIn(ss[..|ss| - 1], ts[..|ts| - 1]) && SameShape(ss[|ss| - 1], ts[|ts| - 1])))
  }

  /** Renaming changes the CALL names equal to oldName into newName and nothing else:
      kinds, conditions, block order and all other names stay as they were. */
  lemma {:induction false} RenameOnlyRenamesCalls(s: Statement, oldName: string, newName: string)
    ensures SameShape(s, Renamed(s, oldName, newName))
    ensures Calls(Renamed(s, oldName, newName)) == RenameNames(Calls(s), oldName, newName)
    decreases s
  {
    match s
    case Block(cs) => RenameInOnlyRenamesCalls(cs, oldName, newName);
    case If(_, b) => RenameOnlyRenamesCalls(b, oldName, newName);
    case IfElse(_, t, e) =>
      RenameOnlyRenamesCalls(t, oldName, newName);
      RenameOnlyRenamesCalls(e, oldName, newName);
    case While(_, b) => RenameOnlyRenamesCalls(b, oldName, newName);
    case Call(_) =>
  }

  lemma {:induction false} RenameInOnlyRenamesCalls(ss: seq<Statement>, oldName: string, newName: string)
    ensures SameShapeIn(ss, RenamedIn(ss, oldName, newName))
    ensures CallsIn(RenamedIn(ss, oldName, newName)) == RenameNames(CallsIn(ss), oldName, newName)
    decreases ss
  {
    if ss != [] {
      var init, last := ss[..|ss| - 1], ss[|ss| - 1];
      var r := RenamedIn(ss, oldName, newName);
      RenameInOnlyRenamesCalls(init, oldName, newName);
      RenameOnlyRenamesCalls(last, oldName, newName);
      assert r[..|r| - 1] == RenamedIn(init, oldName, newName);
    }
  }

  /** Two statements of the same shape have the same number of CALL leaves. */
  lemma {:induction false} SameShapeSameCallCount(s: Statement, t: Statement)
    requires SameShape(s, t)
    ensures |Calls(s)| == |Calls(t)|
    decreases s
  {
    match s
    case Block(cs) => SameShapeInSameCallCount(cs, t.children);
    case If(_, b) => SameShapeSameCallCount(b, t.body);
    case IfElse(_, a, b) =>
      SameShapeSameCallCount(a, t.thenPart);
      SameShapeSameCallCount(b, t.elsePart);
    case While(_, b) => SameShapeSameCallCount(b, t.body);
    case Call(_) =>
  }

  lemma {:induction false} SameShapeInSameCallCount(ss: seq<Statement>, ts: seq<Statement>)
    requires SameShapeIn(ss, ts)
    ensures |CallsIn(ss)| == |CallsIn(ts)|
    decreases ss
  {
    if ss != [] {
      SameShapeInSameCallCount(ss[..|ss| - 1], ts[..|ts| - 1]);
      SameShapeSameCallCount(ss[|ss| - 1], ts[|ts| - 1]);
    }
  }

  /** A statement is determined by its shape and its CALL names, so the two facts of
      RenameOnlyRenamesCalls pin the renamed statement down completely. */
  lemma {:induction false} ShapeAndCallsDetermine(s: Statement, t: Statement)
    requires SameShape(s, t) && Calls(s) == Calls(t)
    ensures s == t
    decreases s
  {
    match s
    case Block(cs) => ShapeAndCallsDetermineIn(cs, t.children);
    case If(_, b) => ShapeAndCallsDetermine(b, t.body);
    case IfElse(_, a, b) =>
      SameShapeSameCallCount(a, t.thenPart);
      var n := |Calls(a)|;
      assert Calls(a) == Calls(s)[..n] == Calls(t)[..n] == Calls(t.thenPart);
      assert Calls(b) == Calls(s)[n..] == Calls(t)[n..] == Calls(t.elsePart);
      ShapeAndCallsDetermine(a, t.thenPart);
      ShapeAndCallsDetermine(b, t.elsePart);
    case While(_, b) => ShapeAndCallsDetermine(b, t.body);
    case Call(_) =>
  }

  lemma {:induction false} ShapeAndCallsDetermineIn(ss: seq<Statement>, ts: seq<Statement>)
    requires SameShapeIn(ss, ts) && CallsIn(ss) == CallsIn(ts)
    ensures ss == ts
    decreases ss
  {
    if ss != [] {
      var init, last := ss[..|ss| - 1], ss[|ss| - 1];
      var init', last' := ts[..|ts| - 1], ts[|ts| - 1];
      SameShapeInSameCallCount(init, init');
      var n := |CallsIn(init)|;
      assert CallsIn(init) == CallsIn(ss)[..n] == CallsIn(ts)[..n] == CallsIn(init');
      assert Calls(last) == CallsIn(ss)[n..] == CallsIn(ts)[n..] == Calls(last');
      ShapeAndCallsDetermineIn(init, init');
      ShapeAndCallsDetermine(last, last');
      assert ss == init + [last] && ts == init' + [last'];
    }
  }

  /** The calls to oldName move to newName: none is created or lost. */
  lemma RenameMovesCalls(s: Statement, oldName: string, newName: string)
    requires oldName != newName
    ensures CallsTo(Renamed(s, oldName, newName), oldName) == 0
    ensures CallsTo(Renamed(s, oldName, newName), newName) == CallsTo(s, oldName) + CallsTo(s, newName)
  {
    var r := Renamed(s, oldName, newName);
    RenameOnlyRenamesCalls(s, oldName, newName);
    CallsToCountsLeaves(s, oldName);
    CallsToCountsLeaves(s, newName);
    CallsToCountsLeaves(r, oldName);
    CallsToCountsLeaves(r, newName);
    RenameNamesCounts(Calls(s), oldName, newName);
  }

  /** Every name other than oldName and newName keeps its number of calls. */
  lemma RenameKeepsOtherCalls(s: Statement, oldName: string, newName: string, other: string)
    requires other != oldName && other != newName
    ensures CallsTo(Renamed(s, oldName, newName), other) == CallsTo(s, other)
  {
    var r := Renamed(s, oldName, newName);
    RenameOnlyRenamesCalls(s, oldName, newName);
    CallsToCountsLeaves(s, other);
    CallsToCountsLeaves(r, other);
    RenameNamesKeepsOther(Calls(s), oldName, newName, other);
  }

  lemma {:induction false} RenameNamesCounts(names: seq<string>, oldName: string, newName: string)
    requires oldName != newName
    ensures multiset(RenameNames(names, oldName, newName))[oldName] == 0
    ensures multiset(RenameNames(names, oldName, newName))[newName]
      == multiset(names)[oldName] + multiset(names)[newName]
  {
    if names != [] {
      var init, last := names[..|names| - 1], names[|names| - 1];
      RenameNamesCounts(init, oldName, newName);
      assert names == init + [last];
      var r, ri := RenameNames(names, oldName, newName), RenameNames(init, oldName, newName);
      assert r == ri + [RenameName(last, oldName, newName)];
      assert multiset(r) == multiset(ri) + multiset{RenameName(last, oldName, newName)};
      assert multiset(names) == multiset(init) + multiset{last};
    }
  }

  lemma {:induction false} RenameNamesKeepsOther(names: seq<string>, oldName: string, newName: string, other: string)
    requires other != oldName && other != newName
    ensures multiset(RenameNames(names, oldName, newName))[other] == multiset(names)[other]
  {
    if names != [] {
      var init, last := names[..|names| - 1], names[|names| - 1];
      RenameNamesKeepsOther(init, oldName, newName, other);
      assert names == init + [last];
      var r, ri := RenameNames(names, oldName, newName), RenameNames(init, oldName, newName);
      assert r == ri + [RenameName(last, oldName, newName)];
      assert multiset(r) == multiset(ri) + multiset{RenameName(last, oldName, newName)};
      assert multiset(names) == multiset(init) + multiset{last};
    }
  }

  /** A name occurs among the renamed calls iff it was there and is not oldName, or
      it is newName and oldName was called. */
  lemma RenamedCallsMembership(s: Statement, oldName: string, newName: string, x: string)
    ensures x in Calls(Renamed(s, oldName, newName))
      <==> (x in Calls(s) && x != oldName) || (x == newName && oldName in Calls(s))
  {
    RenameOnlyRenamesCalls(s, oldName, newName);
    var names := Calls(s);
    var r := RenameNames(names, oldName, newName);
    if x in r {
      var k :| 0 <= k < |r| && r[k] == x;
      assert RenameName(names[k], oldName, newName) == x;
    }
    if x in names && x != oldName {
      var k :| 0 <= k < |names| && names[k] == x;
      assert r[k] == x;
    }
    if x == newName && oldName in names {
      var k :| 0 <= k < |names| && names[k] == oldName;
      assert r[k] == x;
    }
  }

  method RenameInstruction(s: Statement, oldName: string, newName: string) returns (r: Statement)
    ensures r == Renamed(s, oldName, newName)
    decreases s
  {
    match s {
      case Block(children) =>
        var block := s;
        for i := 0 to |children|
          invariant block.Block?
          invariant block.children == RenamedIn(children[..i], oldName, newName) + children[i..]
        {
          var (rest, tmp) := RemoveFromBlock(block, i);
          assert tmp == children[i];
          tmp := RenameInstruction(tmp, oldName, newName);
          block := AddToBlock(rest, i, tmp);
          assert children[..i + 1][..i] == children[..i];
          assert block.children == RenamedIn(children[..i + 1], oldName, newName) + children[i + 1..];
        }
        assert children[..|children|] == children;
        r := block;
      case If(c, body) =>
        var tmp := RenameInstruction(body, oldName, newName);
        r := If(c, tmp);
      case IfElse(c, thenPart, elsePart) =>
        var tmp1 := RenameInstruction(thenPart, oldName, newName);
        var tmp2 := RenameInstruction(elsePart, oldName, newName);
        r := IfElse(c, tmp1, tmp2);
      case While(c, body) =>
        var tmp := RenameInstruction(body, oldName, newName);
        r := While(c, tmp);
      case Call(instruction) =>
        var name := instruction;
        if name == oldName {
          name := newName;
        }
        r := Call(name);
    }
  }

  // ---------------------------------------------------------------------------
  // Renaming an instruction in a program

  /** A BL program: its instruction table (context) and its body. */
  class Program {
    var context: map<string, Statement>
    var body: Statement

    constructor (context: map<string, Statement>, body: Statement)
      ensures this.context == context && this.body == body
    {
      this.context := context;
      this.body := body;
    }
  }

  /** The table after the rename as the code does it: entry oldName is re-keyed to
      newName with its body untouched; every other body is statement-renamed. */
  function RenamedContext(context: map<string, Statement>, oldName: string, newName: string)
    : (r: map<string, Statement>)
    requires oldName in context && newName !in context
    ensures r.Keys == context.Keys - {oldName} + {newName}
    ensures r[newName] == context[oldName]
    ensures forall name | name in context && name != oldName :: r[name] == Renamed(context[name], oldName, newName)
  {
    map name | name in context.Keys - {oldName} + {newName} ::
      if name == newName then context[oldName] else Renamed(context[name], oldName, newName)
  }

  /** Every CALL names a primitive or an instruction of the table. */
  predicate CallsDefined(s: Statement, context: map<string, Statement>) {
    forall name | name in Calls(s) :: IsPrimitive(name) || name in context
  }

  /** No table key is a primitive name, and every call anywhere in the program is to a
      primitive or to a defined instruction. */
  predicate WellFormed(context: map<string, Statement>, body: Statement) {
    && (forall name | name in context :: !IsPrimitive(name) && CallsDefined(context[name], context))
    && CallsDefined(body, context)
  }

  /** The part of the renamed table that comes from the entries whose keys are in done */
  function RenamedEntries(context: map<string, Statement>, done: set<string>, oldName: string, newName: string)
    : (r: map<string, Statement>)
    requires done <= context.Keys && newName !in context
    ensures r.Keys == done - {oldName} + (if oldName in done then {newName} else {})
  {
    map name | name in done - {oldName} + (if oldName in done then {newName} else {}) ::
      if name == newName then context[oldName] else Renamed(context[name], oldName, newName)
  }

  /** Processing one more entry of the table adds exactly its renamed entry. */
  lemma RenamedEntriesStep(context: map<string, Statement>, done: set<string>, name: string,
                           oldName: string, newName: string)
    requires done <= context.Keys && newName !in context && name in context && name !in done
    ensures RenamedEntries(context, done + {name}, oldName, newName)
      == RenamedEntries(context, done, oldName, newName)[
           (if name == oldName then newName else name) :=
           (if name == oldName then context[oldName] else Renamed(context[name], oldName, newName))]
  {
    var a := RenamedEntries(context, done + {name}, oldName, newName);
    var b := RenamedEntries(context, done, oldName, newName)[
           (if name == oldName then newName else name) :=
           (if name == oldName then context[oldName] else Renamed(context[name], oldName, newName))];
    assert a.Keys == b.Keys;
    forall k | k in a.Keys ensures a[k] == b[k] {
    }
  }

  /** Once every entry is processed, the table is the renamed one. */
  lemma RenamedEntriesComplete(context: map<string, Statement>, oldName: string, newName: string)
    requires oldName in context && newName !in context
    ensures RenamedEntries(context, context.Keys, oldName, newName) == RenamedContext(context, oldName, newName)
  {
    var a := RenamedEntries(context, context.Keys, oldName, newName);
    var b := RenamedContext(context, oldName, newName);
    assert a.Keys == b.Keys;
  }

  /** The state of the draining loop: context holds the original entries not yet
      taken out, and tmp the renamed entries of those already taken out. */
  predicate Draining(original: map<string, Statement>, context: map<string, Statement>,
                     tmp: map<string, Statement>, oldName: string, newName: string) {
    && context.Keys <= original.Keys && newName !in original
    && (forall name | name in context :: context[name] == original[name])
    && tmp == RenamedEntries(original, original.Keys - context.Keys, oldName, newName)
  }

  /** Taking one entry out of context and adding its renamed entry to tmp keeps the
      loop state. */
  lemma DrainingStep(original: map<string, Statement>, context: map<string, Statement>,
                     tmp: map<string, Statement>, name: string, oldName: string, newName: string)
    requires Draining(original, context, tmp, oldName, newName) && name in context
    ensures Draining(original, context - {name},
      tmp[RenameName(name, oldName, newName) :=
        if name == oldName then context[name] else Renamed(context[name], oldName, newName)],
      oldName, newName)
  {
    var done := original.Keys - context.Keys;
    assert (context - {name}).Keys == context.Keys - {name};
    assert original.Keys - (context - {name}).Keys == done + {name};
    RenamedEntriesStep(original, done, name, oldName, newName);
  }

  method RenameInstructionInProgram(p: Program, oldName: string, newName: string)
    requires oldName in p.context && newName !in p.context
    modifies p
    ensures p.context == RenamedContext(old(p.context), oldName, newName)
    ensures p.body == Renamed(old(p.body), oldName, newName)
  {
    ghost var original, originalBody := p.context, p.body;
    var context := p.context;
    var tmp: map<string, Statement> := map[];
    p.context := map[];
    assert original.Keys - context.Keys == {};
    while |context| > 0
      invariant p.body == originalBody
      invariant Draining(original, context, tmp, oldName, newName)
      decreases context.Keys
    {
      var name :| name in context;
      var value := context[name];
      ghost var before, key := context, name;
      context := context - {name};
      if name == oldName {
        name := newName;
      } else {
        value := RenameInstruction(value, oldName, newName);
      }
      DrainingStep(original, before, tmp, key, oldName, newName);
      tmp := tmp[name := value];
    }
    assert original.Keys - context.Keys == original.Keys;
    RenamedEntriesComplete(original, oldName, newName);
    p.context := tmp;
    var body := p.body;
    body := RenameInstruction(body, oldName, newName);
    p.body := body;
  }

  /** As the code renames, the program stays well formed exactly when the renamed
      instruction does not call itself; otherwise its own body is left calling the
      name that no longer exists. */
  lemma AsWrittenRenameWellFormedIff(context: map<string, Statement>, body: Statement,
                                     oldName: string, newName: string)
    requires WellFormed(context, body)
    requires oldName in context && newName !in context && !IsPrimitive(newName)
    ensures WellFormed(RenamedContext(context, oldName, newName), Renamed(body, oldName, newName))
      <==> oldName !in Calls(context[oldName])
  {
    var ctx := RenamedContext(context, oldName, newName);
    assert oldName !in ctx;
    if oldName !in Calls(context[oldName]) {
      forall name | name in ctx
        ensures !IsPrimitive(name) && CallsDefined(ctx[name], ctx)
      {
        if name != newName {
          forall x | x in Calls(ctx[name]) ensures IsPrimitive(x) || x in ctx {
            RenamedCallsMembership(context[name], oldName, newName, x);
          }
        }
      }
      forall x | x in Calls(Renamed(body, oldName, newName)) ensures IsPrimitive(x) || x in ctx {
        RenamedCallsMembership(body, oldName, newName, x);
      }
    } else {
      assert oldName in Calls(ctx[newName]) && !IsPrimitive(oldName);
    }
  }

  /** A program whose instruction calls itself, renamed as the code does it. */
  lemma AsWrittenRenameLeavesDanglingSelfCall()
    ensures var context := map["A" := Call("A")];
      var after := RenamedContext(context, "A", "B");
      WellFormed(context, Call("A")) && after == map["B" := Call("A")]
      && !WellFormed(after, Renamed(Call("A"), "A", "B"))
  {
    var context := map["A" := Call("A")];
    var after := RenamedContext(context, "A", "B");
    assert after.Keys == {"B"};
    assert "A" in Calls(after["B"]);
  }

  /** The intended table after the rename: the definition moves to newName and every
      call to oldName, its own body included, becomes a call to newName. */
  function RenamedContextAllCalls(context: map<string, Statement>, oldName: string, newName: string)
    : (r: map<string, Statement>)
    requires oldName in context && newName !in context
    ensures r.Keys == context.Keys - {oldName} + {newName}
    ensures r[newName] == Renamed(context[oldName], oldName, newName)
    ensures forall name | name in context && name != oldName :: r[name] == Renamed(context[name], oldName, newName)
  {
    map name | name in context.Keys - {oldName} + {newName} ::
      Renamed(context[if name == newName then oldName else name], oldName, newName)
  }

  /** The intended rename keeps every well-formed program well formed. */
  lemma RenameAllCallsKeepsWellFormed(context: map<string, Statement>, body: Statement,
                                      oldName: string, newName: string)
    requires WellFormed(context, body)
    requires oldName in context && newName !in context && !IsPrimitive(newName)
    ensures WellFormed(RenamedContextAllCalls(context, oldName, newName), Renamed(body, oldName, newName))
  {
    var ctx := RenamedContextAllCalls(context, oldName, newName);
    forall name | name in ctx
      ensures !IsPrimitive(name) && CallsDefined(ctx[name], ctx)
    {
      var source := if name == newName then oldName else name;
      forall x | x in Calls(ctx[name]) ensures IsPrimitive(x) || x in ctx {
        RenamedCallsMembership(context[source], oldName, newName, x);
      }
    }
    forall x | x in Calls(Renamed(body, oldName, newName)) ensures IsPrimitive(x) || x in ctx {
      RenamedCallsMembership(body, oldName, newName, x);
    }
  }

  // ---------------------------------------------------------------------------
  // Simplifying IF_ELSE statements

  /** What simplifyIfElse makes of s: an IF_ELSE with a negated condition gets the
      dual condition and swapped parts; neither part of an IF_ELSE is visited. */
  function Simplified(s: Statement): Statement {
    match s
    case Block(cs) => Block(SimplifiedIn(cs))
    case If(c, b) => If(c, Simplified(b))
    case IfElse(c, t, e) => if IsNegated(c) then IfElse(Dual(c), e, t) else s
    case While(c, b) => While(c, Simplified(b))
    case Call(_) => s
  }

  function SimplifiedIn(ss: seq<Statement>): (r: seq<Statement>)
    ensures |r| == |ss|
  {
    if ss == [] then [] else SimplifiedIn(ss[..|ss| - 1]) + [Simplified(ss[|ss| - 1])]
  }

  /** No IF_ELSE that simplifyIfElse reaches (through blocks, IF and WHILE bodies, but
      not into IF_ELSE parts) has a negated condition. */
  predicate ReachedIfElsePositive(s: Statement) {
    match s
    case Block(cs) => ReachedIfElsePositiveIn(cs)
    case If(_, b) => ReachedIfElsePositive(b)
    case IfElse(c, _, _) => !IsNegated(c)
    case While(_, b) => ReachedIfElsePositive(b)
    case Call(_) => true
  }

  predicate ReachedIfElsePositiveIn(ss: seq<Statement>) {
    ss == [] || (ReachedIfElsePositiveIn(ss[..|ss| - 1]) && ReachedIfElsePositive(ss[|ss| - 1]))
  }

  /** After one pass every reached IF_ELSE is positive, and a statement in that state is
      left as it is; hence simplifyIfElse is idempotent. */
  lemma {:induction false} SimplifiedIsPositiveFixpoint(s: Statement)
    ensures ReachedIfElsePositive(Simplified(s))
    ensures ReachedIfElsePositive(s) ==> Simplified(s) == s
    decreases s
  {
    match s
    case Block(cs) => SimplifiedInIsPositiveFixpoint(cs);
    case If(_, b) => SimplifiedIsPositiveFixpoint(b);
    case IfElse(c, _, _) =>
    case While(_, b) => SimplifiedIsPositiveFixpoint(b);
    case Call(_) =>
  }

  lemma {:induction false} SimplifiedInIsPositiveFixpoint(ss: seq<Statement>)
    ensures ReachedIfElsePositiveIn(SimplifiedIn(ss))
    ensures ReachedIfElsePositiveIn(ss) ==> SimplifiedIn(ss) == ss
    decreases ss
  {
    if ss != [] {
      var r := SimplifiedIn(ss);
      SimplifiedInIsPositiveFixpoint(ss[..|ss| - 1]);
      SimplifiedIsPositiveFixpoint(ss[|ss| - 1]);
      assert r[..|r| - 1] == SimplifiedIn(ss[..|ss| - 1]);
      assert ss == ss[..|ss| - 1] + [ss[|ss| - 1]];
    }
  }

  lemma SimplifyIsIdempotent(s: Statement)
    ensures Simplified(Simplified(s)) == Simplified(s)
  {
    SimplifiedIsPositiveFixpoint(s);
    SimplifiedIsPositiveFixpoint(Simplified(s));
  }

  /** Swapping the parts of an IF_ELSE keeps the same calls, only in another order, so
      both call counts are unchanged. */
  lemma {:induction false} SimplifyKeepsCalls(s: Statement)
    ensures multiset(Calls(Simplified(s))) == multiset(Calls(s))
    ensures PrimitiveCalls(Simplified(s)) == PrimitiveCalls(s)
    decreases s
  {
    match s
    case Block(cs) => SimplifyInKeepsCalls(cs);
    case If(_, b) => SimplifyKeepsCalls(b);
    case IfElse(c, t, e) =>
    case While(_, b) => SimplifyKeepsCalls(b);
    case Call(_) =>
  }

  lemma {:induction false} SimplifyInKeepsCalls(ss: seq<Statement>)
    ensures multiset(CallsIn(SimplifiedIn(ss))) == multiset(CallsIn(ss))
    ensures PrimitiveCallsIn(SimplifiedIn(ss)) == PrimitiveCallsIn(ss)
    decreases ss
  {
    if ss != [] {
      var r := SimplifiedIn(ss);
      SimplifyInKeepsCalls(ss[..|ss| - 1]);
      SimplifyKeepsCalls(ss[|ss| - 1]);
      assert r[..|r| - 1] == SimplifiedIn(ss[..|ss| - 1]);
    }
  }

  lemma SimplifyKeepsInstructionCalls(s: Statement, instr: string)
    ensures CallsTo(Simplified(s), instr) == CallsTo(s, instr)
  {
    SimplifyKeepsCalls(s);
    CallsToCountsLeaves(s, instr);
    CallsToCountsLeaves(Simplified(s), instr);
  }

  method SimplifyIfElse(s: Statement) returns (r: Statement)
    ensures r == Simplified(s)
    decreases s
  {
    match s {
      case Block(children) =>
        var block := s;
        for i := 0 to |children|
          invariant block.Block?
          invariant block.children == SimplifiedIn(children[..i]) + children[i..]
        {
          var (rest, tmp) := RemoveFromBlock(block, i);
          assert tmp == children[i];
          tmp := SimplifyIfElse(tmp);
          block := AddToBlock(rest, i, tmp);
          assert children[..i + 1][..i] == children[..i];
          assert block.children == SimplifiedIn(children[..i + 1]) + children[i + 1..];
        }
        assert children[..|children|] == children;
        r := block;
      case If(c, body) =>
        var tmp := SimplifyIfElse(body);
        r := If(c, tmp);
      case IfElse(c, ifPart, elsePart) =>
        if IsNegated(c) {
          r := IfElse(Dual(c), elsePart, ifPart);
        } else {
          r := IfElse(c, ifPart, elsePart);
        }
      case While(c, body) =>
        var tmp := SimplifyIfElse(body);
        r := While(c, tmp);
      case Call(_) =>
        r := s;
    }
  }

  /** Some IF_ELSE anywhere in s, inside IF_ELSE parts too, has a negated condition. */
  predicate HasNegatedIfElse(s: Statement) {
    match s
    case Block(cs) => exists k | 0 <= k < |cs| :: HasNegatedIfElse(cs[k])
    case If(_, b) => HasNegatedIfElse(b)
    case IfElse(c, t, e) => IsNegated(c) || HasNegatedIfElse(t) || HasNegatedIfElse(e)
    case While(_, b) => HasNegatedIfElse(b)
    case Call(_) => false
  }

  /** A negated IF_ELSE nested in the then-part of another IF_ELSE survives the pass. */
  lemma SimplifyMissesNestedIfElse()
    ensures var s := IfElse(NextIsWall, IfElse(NextIsNotWall, Call("move"), Call("skip")), Call("turnleft"));
      HasNegatedIfElse(Simplified(s))
  {
  }

  /** The evidently intended pass: after rewriting an IF_ELSE it also simplifies both
      of its parts. */
  function SimplifiedDeep(s: Statement): Statement {
    match s
    case Block(cs) => Block(seq(|cs|, k requires 0 <= k < |cs| => SimplifiedDeep(cs[k])))
    case If(c, b) => If(c, SimplifiedDeep(b))
    case IfElse(c, t, e) =>
      if IsNegated(c) then IfElse(Dual(c), SimplifiedDeep(e), SimplifiedDeep(t))
      else IfElse(c, SimplifiedDeep(t), SimplifiedDeep(e))
    case While(c, b) => While(c, SimplifiedDeep(b))
    case Call(_) => s
  }

  /** The intended pass leaves no negated IF_ELSE anywhere and keeps the calls. */
  lemma {:induction false} SimplifiedDeepRemovesAllNegations(s: Statement)
    ensures !HasNegatedIfElse(SimplifiedDeep(s))
    ensures PrimitiveCalls(SimplifiedDeep(s)) == PrimitiveCalls(s)
    decreases s
  {
    match s
    case Block(cs) =>
      var r := seq(|cs|, k requires 0 <= k < |cs| => SimplifiedDeep(cs[k]));
      forall k | 0 <= k < |cs| ensures !HasNegatedIfElse(r[k]) {
        SimplifiedDeepRemovesAllNegations(cs[k]);
      }
      SimplifiedDeepInKeepsCount(cs);
    case If(_, b) => SimplifiedDeepRemovesAllNegations(b);
    case IfElse(c, t, e) =>
      SimplifiedDeepRemovesAllNegations(t);
      SimplifiedDeepRemovesAllNegations(e);
    case While(_, b) => SimplifiedDeepRemovesAllNegations(b);
    case Call(_) =>
  }

  lemma {:induction false} SimplifiedDeepInKeepsCount(cs: seq<Statement>)
    ensures PrimitiveCallsIn(seq(|cs|, k requires 0 <= k < |cs| => SimplifiedDeep(cs[k]))) == PrimitiveCallsIn(cs)
    decreases cs
  {
    if cs != [] {
      var init := cs[..|cs| - 1];
      var r := seq(|cs|, k requires 0 <= k < |cs| => SimplifiedDeep(cs[k]));
      SimplifiedDeepInKeepsCount(init);
      SimplifiedDeepRemovesAllNegations(cs[|cs| - 1]);
      assert r[..|r| - 1] == seq(|init|, k requires 0 <= k < |init| => SimplifiedDeep(init[k]));
    }
  }
}
