/** Recursive utilities over binary trees and general trees: height, membership,
    size, copy, prefix printing, heap and shape checks, extreme labels and mirroring.
    The BinaryTree overloads are structural recursion and are functions; the Tree
    overloads run loops over the children and are methods. */
module BinaryTreeMethods {
  import JavaText

  datatype BinaryTree<T> = Empty | Node(left: BinaryTree<T>, root: T, right: BinaryTree<T>)

  /** A tree is empty or a root with a sequence of subtrees (which may be empty). */
  datatype Tree<T> = EmptyTree | Tree(root: T, children: seq<Tree<T>>)

  /** Math.max and Math.min */
  function Larger(a: int, b: int): (m: int)
    ensures m >= a && m >= b && (m == a || m == b)
  {
    if a >= b then a else b
  }

  function Smaller(a: int, b: int): (m: int)
    ensures m <= a && m <= b && (m == a || m == b)
  {
    if a <= b then a else b
  }

  function Pow2(n: nat): (p: nat)
    ensures p >= 1
  {
    if n == 0 then 1 else 2 * Pow2(n - 1)
  }

  lemma {:induction false} Pow2Monotone(m: nat, n: nat)
    requires m <= n
    ensures Pow2(m) <= Pow2(n)
    decreases n
  {
    if m < n {
      Pow2Monotone(m, n - 1);
    }
  }

  function ReverseSeq<T>(s: seq<T>): (r: seq<T>)
    ensures |r| == |s|
    ensures forall k | 0 <= k < |s| :: r[k] == s[|s| - 1 - k]
  {
    if s == [] then [] else ReverseSeq(s[1..]) + [s[0]]
  }

  lemma ReverseSeqAppend<T>(a: seq<T>, b: seq<T>)
    ensures ReverseSeq(a + b) == ReverseSeq(b) + ReverseSeq(a)
  {
    var l, r := ReverseSeq(a + b), ReverseSeq(b) + ReverseSeq(a);
    assert forall k | 0 <= k < |l| :: l[k] == (a + b)[|a| + |b| - 1 - k] == r[k];
  }

  // ===========================================================================
  // Binary trees: reference definitions

  /** The labels in the order BinaryTree's iterator yields them (in order). */
  function Inorder<T>(t: BinaryTree<T>): seq<T> {
    match t
    case Empty => []
    case Node(l, x, r) => Inorder(l) + [x] + Inorder(r)
  }

  /** |t|: the number of nodes */
  function NodeCount<T>(t: BinaryTree<T>): nat {
    match t
    case Empty => 0
    case Node(l, _, r) => NodeCount(l) + 1 + NodeCount(r)
  }

  lemma {:induction false} InorderLength<T>(t: BinaryTree<T>)
    ensures |Inorder(t)| == NodeCount(t)
  {
    if t.Node? {
      InorderLength(t.left);
      InorderLength(t.right);
    }
  }

  /** Every subtree of t, t itself and the empty trees at its leaves included. */
  ghost function Subtrees<T>(t: BinaryTree<T>): set<BinaryTree<T>> {
    match t
    case Empty => {t}
    case Node(l, _, r) => {t} + Subtrees(l) + Subtrees(r)
  }

  // ===========================================================================
  // Binary trees: the operations

  /** ht(t): 0 for the empty tree, else one more than the taller subtree */
  function Height<T>(t: BinaryTree<T>): (h: nat)
    ensures h == 0 <==> t.Empty?
  {
    match t
    case Empty => 0
    case Node(l, _, r) => 1 + Larger(Height(l), Height(r))
  }

  /** A tree of height h has at least h and fewer than 2^h nodes. */
  lemma {:induction false} HeightBoundsSize<T>(t: BinaryTree<T>)
    ensures Height(t) <= NodeCount(t) < Pow2(Height(t))
  {
    if t.Node? {
      var h := Height(t);
      HeightBoundsSize(t.left);
      HeightBoundsSize(t.right);
      Pow2Monotone(Height(t.left), h - 1);
      Pow2Monotone(Height(t.right), h - 1);
    }
  }

  function IsInTree<T(==)>(t: BinaryTree<T>, x: T): (found: bool)
    ensures found <==> x in Inorder(t)
  {
    match t
    case Empty => false
    case Node(l, root, r) => root == x || IsInTree(l, x) || IsInTree(r, x)
  }

  /** size(t) counts the steps of t's iterator. */
  method Size<T>(t: BinaryTree<T>) returns (size: nat)
    ensures size == NodeCount(t)
  {
    size := 0;
    var labels := Inorder(t);
    for k := 0 to |labels|
      invariant size == k
    {
      size := size + 1;
    }
    InorderLength(t);
  }

  function Copy<T>(t: BinaryTree<T>): (c: BinaryTree<T>)
    ensures c == t
  {
    match t
    case Empty => Empty
    case Node(l, root, r) => Node(Copy(l), root, Copy(r))
  }

  /** The prefix representation: "()" for the empty tree, else the root's string,
      then the two subtrees' representations inside parentheses. show is toString. */
  function TreeToString<T>(t: BinaryTree<T>, show: T -> string): (r: string)
    ensures |r| >= 2
  {
    match t
    case Empty => "()"
    case Node(l, root, r) => show(root) + "(" + TreeToString(l, show) + TreeToString(r, show) + ")"
  }

  /** No node has an empty left subtree and a non-empty right one. */
  ghost predicate NoLoneRightChild<T>(t: BinaryTree<T>) {
    forall s | s in Subtrees(t) :: s.Node? && s.right.Node? ==> s.left.Node?
  }

  /** Every node's label is at most every label of its subtree. */
  ghost predicate HeapOrdered(t: BinaryTree<int>) {
    forall s | s in Subtrees(t) && s.Node? :: forall y | y in Inorder(s) :: s.root <= y
  }

  /** The same, with strings ordered by compareTo. */
  ghost predicate StringHeapOrdered(t: BinaryTree<string>) {
    forall s | s in Subtrees(t) && s.Node? :: forall y | y in Inorder(s) :: JavaText.CompareTo(s.root, y) <= 0
  }

  function IsComplete<T>(t: BinaryTree<T>): (r: bool)
    ensures r <==> NoLoneRightChild(t)
  {
    match t
    case Empty => true
    case Node(l, _, right) => (l.Node? || right.Empty?) && IsComplete(l) && IsComplete(right)
  }

  /** The root of a tree that passes the check is its least label. */
  function SatisfiesHeapOrdering(t: BinaryTree<int>): (b: bool)
    ensures b && t.Node? ==> forall y | y in Inorder(t) :: t.root <= y
  {
    match t
    case Empty => true
    case Node(l, root, r) =>
      SatisfiesHeapOrdering(l) && SatisfiesHeapOrdering(r)
      && (l.Node? ==> root <= l.root)
      && (r.Node? ==> root <= r.root)
  }

  /** Comparing each root with the roots of its children is the same as comparing it
      with every label below it. */
  lemma {:induction false} SatisfiesHeapOrderingIsGlobal(t: BinaryTree<int>)
    ensures SatisfiesHeapOrdering(t) <==> HeapOrdered(t)
  {
    if t.Node? {
      var l, x, r := t.left, t.root, t.right;
      SatisfiesHeapOrderingIsGlobal(l);
      SatisfiesHeapOrderingIsGlobal(r);
      assert Subtrees(t) == {t} + Subtrees(l) + Subtrees(r);
      if SatisfiesHeapOrdering(t) {
        assert l.Node? ==> l in Subtrees(l);
        assert r.Node? ==> r in Subtrees(r);
        assert forall y | y in Inorder(t) :: x <= y;
      }
      if HeapOrdered(t) {
        assert t in Subtrees(t);
        assert l.Node? ==> l.root in Inorder(t);
        assert r.Node? ==> r.root in Inorder(t);
      }
    }
  }

  /** A heap has no node with a right child and no left one. */
  function IsHeap(t: BinaryTree<string>): (b: bool)
    ensures b ==> IsComplete(t)
  {
    match t
    case Empty => true
    case Node(l, root, r) =>
      var result := IsHeap(l) && IsHeap(r);
      if l.Node? then
        JavaText.CompareTo(root, l.root) <= 0
        && (r.Node? ==> JavaText.CompareTo(root, r.root) <= 0)
        && result
      else if r.Node? then false
      else result
  }

  /** isHeap: the shape has no lone right child and every label is at most (by
      compareTo) every label below it. */
  lemma {:induction false} IsHeapIsShapeAndOrder(t: BinaryTree<string>)
    ensures IsHeap(t) <==> NoLoneRightChild(t) && StringHeapOrdered(t)
  {
    if t.Node? {
      var l, x, r := t.left, t.root, t.right;
      IsHeapIsShapeAndOrder(l);
      IsHeapIsShapeAndOrder(r);
      assert Subtrees(t) == {t} + Subtrees(l) + Subtrees(r);
      if IsHeap(t) {
        if l.Node? {
          assert l in Subtrees(l);
        }
        if r.Node? {
          assert r in Subtrees(r);
        }
        RootBelowAll(t);
      }
      if NoLoneRightChild(t) && StringHeapOrdered(t) {
        assert t in Subtrees(t);
        assert l.Node? ==> l.root in Inorder(t);
        assert r.Node? ==> r.root in Inorder(t);
      }
    }
  }

  /** A root at most the roots of its children, each of which is at most its own
      labels, is at most every label of the tree. */
  lemma RootBelowAll(t: BinaryTree<string>)
    requires t.Node?
    requires t.left.Node? ==> (JavaText.CompareTo(t.root, t.left.root) <= 0
      && forall y | y in Inorder(t.left) :: JavaText.CompareTo(t.left.root, y) <= 0)
    requires t.right.Node? ==> (JavaText.CompareTo(t.root, t.right.root) <= 0
      && forall y | y in Inorder(t.right) :: JavaText.CompareTo(t.right.root, y) <= 0)
    ensures forall y | y in Inorder(t) :: JavaText.CompareTo(t.root, y) <= 0
  {
    var l, x, r := t.left, t.root, t.right;
    assert Inorder(t) == Inorder(l) + [x] + Inorder(r);
    forall y | y in Inorder(t) ensures JavaText.CompareTo(x, y) <= 0 {
      if y in Inorder(l) {
        assert l.Node?;
        JavaText.CompareToTransitive(x, l.root, y);
      } else if y in Inorder(r) {
        assert r.Node?;
        JavaText.CompareToTransitive(x, r.root, y);
      } else {
        assert y == x;
        JavaText.CompareToZero(x, x);
      }
    }
  }

  /** least(t): a label of t that is at most every label of t */
  function Least(t: BinaryTree<int>): (least: int)
    requires t.Node?
    ensures least in Inorder(t)
    ensures forall y | y in Inorder(t) :: least <= y
  {
    var least := t.root;
    var least := if t.left.Node? then Smaller(Least(t.left), least) else least;
    if t.right.Node? then Smaller(Least(t.right), least) else least
  }

  /** reverse(t): the mirror image, t = compose(root, reverse(right), reverse(left)) */
  function Reverse<T>(t: BinaryTree<T>): (m: BinaryTree<T>)
    ensures Inorder(m) == ReverseSeq(Inorder(t))
    ensures Height(m) == Height(t) && NodeCount(m) == NodeCount(t)
  {
    match t
    case Empty => Empty
    case Node(l, root, r) =>
      var m := Node(Reverse(r), root, Reverse(l));
      ReverseSeqAppend(Inorder(l) + [root], Inorder(r));
      ReverseSeqAppend(Inorder(l), [root]);
      m
  }

  lemma {:induction false} ReverseIsInvolution<T>(t: BinaryTree<T>)
    ensures Reverse(Reverse(t)) == t
  {
    if t.Node? {
      ReverseIsInvolution(t.left);
      ReverseIsInvolution(t.right);
    }
  }

  // ===========================================================================
  // General trees: reference definitions

  /** The labels in prefix order: the root, then each child's labels in turn. */
  function Labels<T>(t: Tree<T>): seq<T> {
    match t
    case EmptyTree => []
    case Tree(x, cs) => [x] + LabelsIn(cs)
  }

  function LabelsIn<T>(cs: seq<Tree<T>>): seq<T> {
    if cs == [] then [] else LabelsIn(cs[..|cs| - 1]) + Labels(cs[|cs| - 1])
  }

  /** A label is among the children's labels iff it is a label of one of them. */
  lemma {:induction false} LabelsInMember<T>(cs: seq<Tree<T>>, x: T)
    ensures x in LabelsIn(cs) <==> exists k | 0 <= k < |cs| :: x in Labels(cs[k])
  {
    if cs != [] {
      var init, last := cs[..|cs| - 1], cs[|cs| - 1];
      LabelsInMember(init, x);
      assert LabelsIn(cs) == LabelsIn(init) + Labels(last);
      if x in LabelsIn(init) {
        var k :| 0 <= k < |init| && x in Labels(init[k]);
        assert cs[k] == init[k];
      } else if x in Labels(last) {
        assert x in Labels(cs[|cs| - 1]);
      }
      if exists k | 0 <= k < |cs| :: x in Labels(cs[k]) {
        var k :| 0 <= k < |cs| && x in Labels(cs[k]);
        if k < |init| {
          assert init[k] == cs[k];
          assert x in LabelsIn(init);
        } else {
          assert x in Labels(last);
        }
      }
    }
  }

  /** ht(t) of a tree: 0 when empty, else one more than its tallest child */
  function Ht<T>(t: Tree<T>): nat {
    match t
    case EmptyTree => 0
    case Tree(_, cs) => 1 + MaxHt(cs)
  }

  function MaxHt<T>(cs: seq<Tree<T>>): nat {
    if cs == [] then 0 else Larger(MaxHt(cs[..|cs| - 1]), Ht(cs[|cs| - 1]))
  }

  /** A tree is at least as large as it is tall. */
  lemma {:induction false} HtAtMostSize<T>(t: Tree<T>)
    ensures Ht(t) <= |Labels(t)|
    ensures Ht(t) == 0 <==> t.EmptyTree?
  {
    if t.Tree? {
      MaxHtAtMostSize(t.children);
    }
  }

  lemma {:induction false} MaxHtAtMostSize<T>(cs: seq<Tree<T>>)
    ensures MaxHt(cs) <= |LabelsIn(cs)|
  {
    if cs != [] {
      MaxHtAtMostSize(cs[..|cs| - 1]);
      HtAtMostSize(cs[|cs| - 1]);
    }
  }

  function PrefixString<T>(t: Tree<T>, show: T -> string): string {
    match t
    case EmptyTree => "()"
    case Tree(x, cs) => show(x) + "(" + PrefixStrings(cs, show) + ")"
  }

  function PrefixStrings<T>(cs: seq<Tree<T>>, show: T -> string): string {
    if cs == [] then "" else PrefixStrings(cs[..|cs| - 1], show) + PrefixString(cs[|cs| - 1], show)
  }

  /** When no label prints a parenthesis, the prefix representation has as many "("
      as ")". */
  lemma {:induction false} PrefixStringBalanced<T>(t: Tree<T>, show: T -> string)
    requires forall x :: '(' !in show(x) && ')' !in show(x)
    ensures multiset(PrefixString(t, show))['('] == multiset(PrefixString(t, show))[')']
  {
    if t.Tree? {
      PrefixStringsBalanced(t.children, show);
      assert '(' !in show(t.root) && ')' !in show(t.root);
    }
  }

  lemma {:induction false} PrefixStringsBalanced<T>(cs: seq<Tree<T>>, show: T -> string)
    requires forall x :: '(' !in show(x) && ')' !in show(x)
    ensures multiset(PrefixStrings(cs, show))['('] == multiset(PrefixStrings(cs, show))[')']
  {
    if cs != [] {
      PrefixStringsBalanced(cs[..|cs| - 1], show);
      PrefixStringBalanced(cs[|cs| - 1], show);
    }
  }

  /** A binary tree read as a general tree whose nodes all have two children. */
  function AsTree<T>(t: BinaryTree<T>): Tree<T> {
    match t
    case Empty => EmptyTree
    case Node(l, x, r) => Tree(x, [AsTree(l), AsTree(r)])
  }

  /** The two overloads of height, size and treeToString agree. */
  lemma {:induction false} OverloadsAgree<T>(t: BinaryTree<T>, show: T -> string)
    ensures Ht(AsTree(t)) == Height(t)
    ensures |Labels(AsTree(t))| == NodeCount(t)
    ensures PrefixString(AsTree(t), show) == TreeToString(t, show)
  {
    TreeToStringOverloadsAgree(t, show);
    if t.Node? {
      OverloadsAgree(t.left, show);
      OverloadsAgree(t.right, show);
      var cs := [AsTree(t.left), AsTree(t.right)];
      assert cs[..1] == [AsTree(t.left)] && cs[..1][..0] == [];
      assert MaxHt(cs) == Larger(MaxHt(cs[..1]), Ht(cs[1]));
      assert MaxHt(cs[..1]) == Larger(0, Ht(cs[0]));
      assert LabelsIn(cs) == LabelsIn(cs[..1]) + Labels(cs[1]);
      assert LabelsIn(cs[..1]) == Labels(cs[0]);
    }
  }

  /** The general-tree treeToString of a binary tree read as a general tree is the
      binary-tree one. */
  lemma {:induction false} TreeToStringOverloadsAgree<T>(t: BinaryTree<T>, show: T -> string)
    ensures PrefixString(AsTree(t), show) == TreeToString(t, show)
  {
    if t.Node? {
      var l, r := t.left, t.right;
      TreeToStringOverloadsAgree(l, show);
      TreeToStringOverloadsAgree(r, show);
      var cs := [AsTree(l), AsTree(r)];
      assert cs[..1] == [AsTree(l)] && cs[..1][..0] == [];
      assert PrefixStrings(cs[..1], show) == TreeToString(l, show);
      assert PrefixStrings(cs, show) == TreeToString(l, show) + TreeToString(r, show);
      assert AsTree(t) == Tree(t.root, cs);
      assert PrefixString(AsTree(t), show) == show(t.root) + "(" + PrefixStrings(cs, show) + ")";
    }
  }

  // ===========================================================================
  // General trees: the operations

  method HeightOfTree<T>(t: Tree<T>) returns (height: nat)
    ensures height == Ht(t)
    decreases t
  {
    height := 0;
    if t.Tree? {
      var children := t.children;
      for i := 0 to |children|
        invariant height == MaxHt(children[..i])
      {
        var h := HeightOfTree(children[i]);
        if height < h {
          height := h;
        }
        assert children[..i + 1][..i] == children[..i];
      }
      assert children[..|children|] == children;
      height := height + 1;
    }
  }

  method IsInTreeOfTree<T(==)>(t: Tree<T>, x: T) returns (found: bool)
    ensures found <==> x in Labels(t)
    decreases t
  {
    found := false;
    if t.Tree? {
      var children := t.children;
      LabelsInMember(children, x);
      found := t.root == x;
      var i := 0;
      while i < |children| && !found
        invariant 0 <= i <= |children|
        invariant found ==> x in Labels(t)
        invariant !found ==> t.root != x && forall k | 0 <= k < i :: x !in Labels(children[k])
      {
        found := IsInTreeOfTree(children[i], x);
        i := i + 1;
      }
    }
  }

  method SizeOfTree<T>(t: Tree<T>) returns (size: nat)
    ensures size == |Labels(t)|
    decreases t
  {
    size := 0;
    if t.Tree? {
      size := 1;
      var children := t.children;
      for i := 0 to |children|
        invariant size == 1 + |LabelsIn(children[..i])|
      {
        var n := SizeOfTree(children[i]);
        size := size + n;
        assert children[..i + 1][..i] == children[..i];
      }
      assert children[..|children|] == children;
    }
  }

  /** copy(t) builds a new tree with t's root and a copy of each subtree in turn. */
  method CopyOfTree<T>(t: Tree<T>) returns (copy: Tree<T>)
    ensures copy == t
    decreases t
  {
    copy := EmptyTree;
    if t.Tree? {
      var children := t.children;
      copy := Tree(t.root, []);
      for i := 0 to |children|
        invariant copy == Tree(t.root, children[..i])
      {
        var subtree := CopyOfTree(children[i]);
        copy := Tree(copy.root, copy.children + [subtree]);
        assert children[..i] + [children[i]] == children[..i + 1];
      }
      assert children[..|children|] == children;
    }
  }

  method TreeToStringOfTree<T>(t: Tree<T>, show: T -> string) returns (s: string)
    ensures s == PrefixString(t, show)
    decreases t
  {
    s := "()";
    if t.Tree? {
      var children := t.children;
      s := show(t.root) + "(";
      for i := 0 to |children|
        invariant s == show(t.root) + "(" + PrefixStrings(children[..i], show)
      {
        var child := TreeToStringOfTree(children[i], show);
        s := s + child;
        assert children[..i + 1][..i] == children[..i];
      }
      assert children[..|children|] == children;
      s := s + ")";
    }
  }

  /** max(t): a label of t at least as large as every label of t */
  method Max(t: Tree<int>) returns (max: int)
    requires t.Tree?
    ensures max in Labels(t)
    ensures forall y | y in Labels(t) :: y <= max
    decreases t
  {
    max := t.root;
    var children := t.children;
    for i := 0 to |children|
      invariant max == t.root || exists k | 0 <= k < i :: max in Labels(children[k])
      invariant t.root <= max
      invariant forall k, y | 0 <= k < i && y in Labels(children[k]) :: y <= max
    {
      if children[i].Tree? {
        var m := Max(children[i]);
        max := Larger(max, m);
      }
    }
    forall y | y in Labels(t) ensures y <= max {
      LabelsInMember(children, y);
    }
    LabelsInMember(children, max);
  }

  /** min(t): a label of t at most as large as every label of t */
  method Min(t: Tree<int>) returns (min: int)
    requires t.Tree?
    ensures min in Labels(t)
    ensures forall y | y in Labels(t) :: min <= y
    decreases t
  {
    min := t.root;
    var children := t.children;
    for i := 0 to |children|
      invariant min == t.root || exists k | 0 <= k < i :: min in Labels(children[k])
      invariant min <= t.root
      invariant forall k, y | 0 <= k < i && y in Labels(children[k]) :: min <= y
    {
      if children[i].Tree? {
        var m := Min(children[i]);
        min := Smaller(min, m);
      }
    }
    forall y | y in Labels(t) ensures min <= y {
      LabelsInMember(children, y);
    }
    LabelsInMember(children, min);
  }
}
