# CSE 2231 exercises, modelled in Dafny

The repository is a set of Java exercises from a second course in software
components. This project models the ones that hold real logic:

- statement-tree passes over BL programs: counting calls, renaming an
  instruction, and simplifying IF_ELSE statements;
- recursive methods on binary trees and general trees;
- two recursive-descent evaluators: one for integer expressions read from a
  `StringBuilder` or a token queue, and one for prefix Boolean expressions and
  trees read from a token queue;
- a natural number kept as its decimal string;
- sequence smoothing with the integer average of adjacent entries;
- both tag cloud generators, which count the words of a text and pick font sizes;
- a sequence kept on two stacks and as a linked list between two sentinels;
- a stack kept as a singly linked list behind a sentinel;
- the queue helpers of a set kept on a queue;
- the waiting line component family (kernel, enhanced interface, secondary
  methods);
- the Caesar shift of the file copier.

Java `int` arithmetic is modelled explicitly, with 32-bit wrap-around and
division that truncates toward zero (module `JavaInt`). The parts of `String`
the code relies on are modelled in `JavaText`:

- decimal depiction and `Integer.parseInt`, with the ASCII digits only;
- `compareTo`, over Unicode scalar values, and `compareToIgnoreCase`, which
  folds the case of ASCII letters only;
- `toLowerCase` on ASCII letters.

Counts, sizes, heights and lengths are unbounded integers; only the arithmetic
of the evaluators, the averages and the font sizes is 32-bit.

Components from the course library appear only as the small value or class
models the exercises need:

- `Queue`, `Stack` and `Sequence`: classes over a `seq` field;
- `Map`: a Dafny `map`;
- `Statement`, `Program`, `BinaryTree` and `Tree`: datatypes and a class.

Where a method updates objects in place, the model is a class whose methods
have `modifies` clauses and loops with invariants. Each such method is proved
against a function that states its result, and the lemmas are about those
functions. Recursive methods that take a value apart and put it back, as the
statement and tree methods do, are modelled on values.

## Model

| member | source | states |
|---|---|---|
| JavaInt.Wrap | ExpressionEvaluator/src/ExpressionEvaluator.java:65-72 | the result is a 32-bit int congruent to x modulo 2^32, and x itself when x already fits |
| JavaInt.Quot | SequenceSmooth/src/SequenceSmooth.java:27-35 | Java `/` on ints: rounds toward zero; non-negative when the operands have the same sign, non-positive otherwise |
| JavaInt.Rem | SequenceSmooth/src/SequenceSmooth.java:27-35 | Java `%` on ints: `a == (a / b) * b + a % b`, and the remainder has the sign of a and is smaller than \|b\| |
| JavaInt.MulAddWraps | ExpressionEvaluator/src/ExpressionEvaluator.java:65-72 | accumulating digits with wrapping `10 * v + d` equals wrapping the exact decimal value once |
| JavaInt.SubNonzero | ExpressionEvaluator/src/ExpressionEvaluator.java:124-136 | the 32-bit difference of two different ints is never 0 |
| JavaText.NatToString | NaturalNumberOnString/src/NaturalNumber3.java:55-61 | `"" + i` for i >= 0: nonempty digits with no leading zero (except "0" itself) whose decimal value is i |
| JavaText.ParseIntOfToString | ExpressionEvaluator/src/BooleanExpressionEvaluator.java:153-169 | `Integer.parseInt` reads back the depiction of every int |
| JavaText.CompareToZero | BinaryTreeMethods/src/BinaryTreeMethods.java:294-312 | `compareTo` is 0 exactly for equal strings |
| JavaText.CompareToAntisymmetric | BinaryTreeMethods/src/BinaryTreeMethods.java:294-312 | swapping the strings negates `compareTo` |
| JavaText.CompareToTransitive | BinaryTreeMethods/src/BinaryTreeMethods.java:294-312 | `compareTo(a, b) <= 0` and `compareTo(b, c) <= 0` give `compareTo(a, c) <= 0` |
| JavaText.CompareToIgnoreCaseIsCompareToOfLowerCase | TagCloud/src/TagCloudGenerator.java:38-41 | `compareToIgnoreCase` orders strings as `compareTo` orders their lower-case forms |
| JavaText.LowerCase | TagCloud/src/TagCloudGenerator.java:121 | `toLowerCase` on the ASCII letters keeps the length of the token |
| CountPrimitiveCalls.Dual | StatementCountPrimitiveCalls/src/CountPrimitiveCalls.java:352-356 | the paired condition has the opposite polarity (dropping "NOT_" from a negated name) |
| CountPrimitiveCalls.DualIsInvolution | StatementCountPrimitiveCalls/src/CountPrimitiveCalls.java:352-356 | pairing twice gives the condition back, and no condition is its own pair |
| CountPrimitiveCalls.RemoveFromBlock | StatementCountPrimitiveCalls/src/CountPrimitiveCalls.java:43-46 | removeFromBlock(i) returns the i-th child and leaves a block one shorter |
| CountPrimitiveCalls.AddToBlock | StatementCountPrimitiveCalls/src/CountPrimitiveCalls.java:43-46 | addToBlock(i, c) makes c the i-th child and shifts the children from i onwards up by one |
| CountPrimitiveCalls.BlockRoundTrip | StatementCountPrimitiveCalls/src/CountPrimitiveCalls.java:43-46 | putting back the child just removed restores the block exactly |
| CountPrimitiveCalls.AddThenRemove | StatementCountPrimitiveCalls/src/CountPrimitiveCalls.java:43-46 | removing the child just added gives back the block and the child |
| CountPrimitiveCalls.CallsToCountsLeaves | StatementCountPrimitiveCalls/src/CountPrimitiveCalls.java:121-192 | the recursive count of calls to instr equals the number of CALL leaves, left to right, that name instr |
| CountPrimitiveCalls.CallsToInCountsLeaves | StatementCountPrimitiveCalls/src/CountPrimitiveCalls.java:121-192 | the same for the children of a block |
| CountPrimitiveCalls.PrimitiveCallsCountsLeaves | StatementCountPrimitiveCalls/src/CountPrimitiveCalls.java:93-98 | the primitive-call count is the sum of the counts of the five primitive names move, turnleft, turnright, infect, skip |
| CountPrimitiveCalls.PrimitiveCallsInCountsLeaves | StatementCountPrimitiveCalls/src/CountPrimitiveCalls.java:43-47 | the same for the children of a block |
| CountPrimitiveCalls.CountOfPrimitiveCalls | StatementCountPrimitiveCalls/src/CountPrimitiveCalls.java:34-108 | returns the number of calls to primitive instructions in s; the block loop takes each child out and puts it back |
| CountPrimitiveCalls.CountOfInstructionCalls | StatementCountPrimitiveCalls/src/CountPrimitiveCalls.java:121-192 | returns the number of calls to instr in s |
| CountPrimitiveCalls.RenamedIn | StatementCountPrimitiveCalls/src/CountPrimitiveCalls.java:217-221 | renaming inside a block keeps the number of children |
| CountPrimitiveCalls.RenameNames | StatementCountPrimitiveCalls/src/CountPrimitiveCalls.java:253-256 | renaming a list of names keeps its length |
| CountPrimitiveCalls.RenameOnlyRenamesCalls | StatementCountPrimitiveCalls/src/CountPrimitiveCalls.java:212-265 | the renamed statement has the same shape and conditions, and its call list is the old one with oldName replaced by newName |
| CountPrimitiveCalls.RenameInOnlyRenamesCalls | StatementCountPrimitiveCalls/src/CountPrimitiveCalls.java:217-221 | the same for the children of a block |
| CountPrimitiveCalls.SameShapeSameCallCount | StatementCountPrimitiveCalls/src/CountPrimitiveCalls.java:212-265 | statements of the same shape have the same number of CALL leaves |
| CountPrimitiveCalls.SameShapeInSameCallCount | StatementCountPrimitiveCalls/src/CountPrimitiveCalls.java:217-221 | the same for sequences of children |
| CountPrimitiveCalls.ShapeAndCallsDetermine | StatementCountPrimitiveCalls/src/CountPrimitiveCalls.java:207-210 | shape and call list together determine a statement, so the rename is determined by "every other statement is left unmodified" |
| CountPrimitiveCalls.ShapeAndCallsDetermineIn | StatementCountPrimitiveCalls/src/CountPrimitiveCalls.java:217-221 | the same for sequences of children |
| CountPrimitiveCalls.RenameMovesCalls | StatementCountPrimitiveCalls/src/CountPrimitiveCalls.java:212-265 | after the rename there are no calls to oldName, and newName has the calls of both names |
| CountPrimitiveCalls.RenameKeepsOtherCalls | StatementCountPrimitiveCalls/src/CountPrimitiveCalls.java:212-265 | every name other than oldName and newName keeps its number of calls |
| CountPrimitiveCalls.RenameNamesCounts | StatementCountPrimitiveCalls/src/CountPrimitiveCalls.java:253-256 | the same counts of oldName and newName for a list of names |
| CountPrimitiveCalls.RenameNamesKeepsOther | StatementCountPrimitiveCalls/src/CountPrimitiveCalls.java:253-256 | the same for every other name in a list of names |
| CountPrimitiveCalls.RenamedCallsMembership | StatementCountPrimitiveCalls/src/CountPrimitiveCalls.java:212-265 | a name is called after the rename iff it was called and is not oldName, or it is newName and oldName was called |
| CountPrimitiveCalls.RenameInstruction | StatementCountPrimitiveCalls/src/CountPrimitiveCalls.java:212-265 | the result is s with every call to oldName renamed to newName |
| CountPrimitiveCalls.Program.constructor | StatementCountPrimitiveCalls/src/CountPrimitiveCalls.java:289-290 | a program holds the given instruction table and body |
| CountPrimitiveCalls.RenamedContext | StatementCountPrimitiveCalls/src/CountPrimitiveCalls.java:294-303 | the table as the loop rebuilds it: key oldName becomes newName with its body unchanged; every other body is renamed |
| CountPrimitiveCalls.RenamedEntries | StatementCountPrimitiveCalls/src/CountPrimitiveCalls.java:294-303 | the part of the new table built from the entries already taken out has exactly their (renamed) keys |
| CountPrimitiveCalls.RenamedEntriesStep | StatementCountPrimitiveCalls/src/CountPrimitiveCalls.java:295-302 | taking out one more entry adds exactly its renamed key and body |
| CountPrimitiveCalls.RenamedEntriesComplete | StatementCountPrimitiveCalls/src/CountPrimitiveCalls.java:294-304 | once every entry is taken out, the new table is the renamed table |
| CountPrimitiveCalls.RenameInstructionInProgram | StatementCountPrimitiveCalls/src/CountPrimitiveCalls.java:289-309 | requires oldName defined and newName undefined; the program's table becomes the renamed table and its body the renamed body |
| CountPrimitiveCalls.AsWrittenRenameWellFormedIff | StatementCountPrimitiveCalls/src/CountPrimitiveCalls.java:297-301 | the code's rename keeps a well-formed program well formed iff the renamed instruction does not call itself |
| CountPrimitiveCalls.AsWrittenRenameLeavesDanglingSelfCall | StatementCountPrimitiveCalls/src/CountPrimitiveCalls.java:297-301 | renaming A to B in a program whose A calls A leaves B calling the undefined A |
| CountPrimitiveCalls.RenamedContextAllCalls | StatementCountPrimitiveCalls/src/CountPrimitiveCalls.java:284-287 | the intended table: the key moves to newName and every body, the renamed one included, has its calls renamed |
| CountPrimitiveCalls.RenameAllCallsKeepsWellFormed | StatementCountPrimitiveCalls/src/CountPrimitiveCalls.java:284-287 | the intended rename keeps every well-formed program well formed |
| CountPrimitiveCalls.SimplifiedIn | StatementCountPrimitiveCalls/src/CountPrimitiveCalls.java:330-334 | simplifying the children of a block keeps their number |
| CountPrimitiveCalls.SimplifiedIsPositiveFixpoint | StatementCountPrimitiveCalls/src/CountPrimitiveCalls.java:326-380 | after the pass every IF_ELSE the pass reaches has a positive condition, and a statement already in that form is unchanged |
| CountPrimitiveCalls.SimplifiedInIsPositiveFixpoint | StatementCountPrimitiveCalls/src/CountPrimitiveCalls.java:330-334 | the same for the children of a block |
| CountPrimitiveCalls.SimplifyIsIdempotent | StatementCountPrimitiveCalls/src/CountPrimitiveCalls.java:326-380 | running the pass twice gives the same statement as running it once |
| CountPrimitiveCalls.SimplifyKeepsCalls | StatementCountPrimitiveCalls/src/CountPrimitiveCalls.java:326-380 | the pass keeps the multiset of calls and the primitive-call count |
| CountPrimitiveCalls.SimplifyInKeepsCalls | StatementCountPrimitiveCalls/src/CountPrimitiveCalls.java:330-334 | the same for the children of a block |
| CountPrimitiveCalls.SimplifyKeepsInstructionCalls | StatementCountPrimitiveCalls/src/CountPrimitiveCalls.java:326-380 | the pass keeps the count of calls to any instruction |
| CountPrimitiveCalls.SimplifyIfElse | StatementCountPrimitiveCalls/src/CountPrimitiveCalls.java:326-380 | the result is the statement as the code simplifies it (negated IF_ELSE conditions flipped and branches swapped, not below an IF_ELSE) |
| CountPrimitiveCalls.SimplifyMissesNestedIfElse | StatementCountPrimitiveCalls/src/CountPrimitiveCalls.java:347-361 | an IF_ELSE with a negated condition inside another IF_ELSE survives the pass |
| CountPrimitiveCalls.SimplifiedDeepRemovesAllNegations | StatementCountPrimitiveCalls/src/CountPrimitiveCalls.java:311-325 | the intended pass, which also recurses into both branches of an IF_ELSE, leaves no IF_ELSE with a negated condition anywhere and keeps the primitive-call count |
| CountPrimitiveCalls.SimplifiedDeepInKeepsCount | StatementCountPrimitiveCalls/src/CountPrimitiveCalls.java:330-334 | the same count for the children of a block |
| BinaryTreeMethods.Larger | BinaryTreeMethods/src/BinaryTreeMethods.java:34-45 | Math.max: at least both arguments and equal to one of them |
| BinaryTreeMethods.Smaller | BinaryTreeMethods/src/BinaryTreeMethods.java:393-406 | Math.min: at most both arguments and equal to one of them |
| BinaryTreeMethods.InorderLength | BinaryTreeMethods/src/BinaryTreeMethods.java:164-170 | the in-order label sequence has one entry per node |
| BinaryTreeMethods.Height | BinaryTreeMethods/src/BinaryTreeMethods.java:34-45 | the height is 0 exactly for the empty tree |
| BinaryTreeMethods.HeightBoundsSize | BinaryTreeMethods/src/BinaryTreeMethods.java:34-45 | height <= size < 2^height |
| BinaryTreeMethods.IsInTree | BinaryTreeMethods/src/BinaryTreeMethods.java:87-100 | true iff x is one of the labels of t |
| BinaryTreeMethods.Size | BinaryTreeMethods/src/BinaryTreeMethods.java:164-170 | returns the number of nodes of t |
| BinaryTreeMethods.Copy | BinaryTreeMethods/src/BinaryTreeMethods.java:211-221 | the copy equals the original |
| BinaryTreeMethods.TreeToString | BinaryTreeMethods/src/BinaryTreeMethods.java:255-266 | the prefix representation root(left right), "()" for the empty tree: never shorter than "()" |
| BinaryTreeMethods.IsComplete | BinaryTreeMethods/src/BinaryTreeMethods.java:355-366 | true iff no subtree has a right child without a left child |
| BinaryTreeMethods.SatisfiesHeapOrdering | BinaryTreeMethods/src/BinaryTreeMethods.java:326-343 | each root compared with the roots of its children; when it holds the root is the least label of the tree |
| BinaryTreeMethods.IsHeap | BinaryTreeMethods/src/BinaryTreeMethods.java:294-312 | each root compared (by compareTo) with its children's roots, false at a lone right child; a heap has no node with a right child and no left one |
| BinaryTreeMethods.SatisfiesHeapOrderingIsGlobal | BinaryTreeMethods/src/BinaryTreeMethods.java:326-343 | comparing each root with its children's roots holds iff every root is at most every label below it |
| BinaryTreeMethods.IsHeapIsShapeAndOrder | BinaryTreeMethods/src/BinaryTreeMethods.java:294-312 | isHeap holds iff no subtree has a lone right child and every root is at most (by compareTo) every label of its subtree |
| BinaryTreeMethods.Least | BinaryTreeMethods/src/BinaryTreeMethods.java:415-429 | for a nonempty tree: a label of t that is at most every label of t |
| BinaryTreeMethods.Reverse | BinaryTreeMethods/src/BinaryTreeMethods.java:461-471 | the mirror tree's in-order labels are the reversed in-order labels; height and size are kept |
| BinaryTreeMethods.ReverseIsInvolution | BinaryTreeMethods/src/BinaryTreeMethods.java:461-471 | mirroring twice gives the tree back |
| BinaryTreeMethods.LabelsInMember | BinaryTreeMethods/src/BinaryTreeMethods.java:116-130 | x is among the labels of a sequence of subtrees iff it is a label of one of them |
| BinaryTreeMethods.HtAtMostSize | BinaryTreeMethods/src/BinaryTreeMethods.java:57-71 | a general tree's height is at most its size, and 0 exactly for the empty tree |
| BinaryTreeMethods.MaxHtAtMostSize | BinaryTreeMethods/src/BinaryTreeMethods.java:57-71 | the largest height among subtrees is at most their total size |
| BinaryTreeMethods.PrefixStringBalanced | BinaryTreeMethods/src/BinaryTreeMethods.java:279-292 | when no label's text has parentheses, treeToString has as many "(" as ")" |
| BinaryTreeMethods.PrefixStringsBalanced | BinaryTreeMethods/src/BinaryTreeMethods.java:279-292 | the same for a sequence of subtrees |
| BinaryTreeMethods.OverloadsAgree | BinaryTreeMethods/src/BinaryTreeMethods.java:255-292 | seen as a general tree with two children per node, a binary tree has the same height, size and treeToString |
| BinaryTreeMethods.TreeToStringOverloadsAgree | BinaryTreeMethods/src/BinaryTreeMethods.java:255-266 | the binary-tree treeToString equals the general-tree one on the tree read as a general tree |
| BinaryTreeMethods.HeightOfTree | BinaryTreeMethods/src/BinaryTreeMethods.java:57-71 | returns the height of a general tree; the loop over the children takes the maximum |
| BinaryTreeMethods.IsInTreeOfTree | BinaryTreeMethods/src/BinaryTreeMethods.java:116-130 | true iff x is one of the labels of t |
| BinaryTreeMethods.SizeOfTree | BinaryTreeMethods/src/BinaryTreeMethods.java:182-194 | returns the number of labels of t |
| BinaryTreeMethods.CopyOfTree | BinaryTreeMethods/src/BinaryTreeMethods.java:231-242 | the copy equals the original |
| BinaryTreeMethods.TreeToStringOfTree | BinaryTreeMethods/src/BinaryTreeMethods.java:279-292 | returns the prefix depiction root(child1 child2 ...), "()" for the empty tree |
| BinaryTreeMethods.Max | BinaryTreeMethods/src/BinaryTreeMethods.java:380-391 | for a nonempty tree: a label of t at least every label of t |
| BinaryTreeMethods.Min | BinaryTreeMethods/src/BinaryTreeMethods.java:393-406 | for a nonempty tree: a label of t at most every label of t |
| ExpressionEvaluator.MoreDigits | ExpressionEvaluator/src/ExpressionEvaluator.java:65-72 | the digit loop stops at a suffix of the input that starts with a non-digit, with a 32-bit value |
| ExpressionEvaluator.ParseDigitSeq | ExpressionEvaluator/src/ExpressionEvaluator.java:65-72 | a digit sequence consumes a nonempty prefix; none when the input does not start with a digit |
| ExpressionEvaluator.ParseFactor | ExpressionEvaluator/src/ExpressionEvaluator.java:92-104 | a factor consumes a nonempty prefix; the character after a parenthesised expression is dropped without checking that it is ')', as the code does |
| ExpressionEvaluator.ParseFactorDropsAnyCloser | ExpressionEvaluator/src/ExpressionEvaluator.java:97-100 | "(1!x" reads as the factor 1 and leaves "x": whatever follows the inner expression is consumed |
| ExpressionEvaluator.MoreFactors | ExpressionEvaluator/src/ExpressionEvaluator.java:124-136 | the '*'/'/' loop stops at a suffix of its input with a 32-bit value; none on division by zero |
| ExpressionEvaluator.ParseTerm | ExpressionEvaluator/src/ExpressionEvaluator.java:124-136 | a term consumes a nonempty prefix |
| ExpressionEvaluator.MoreTerms | ExpressionEvaluator/src/ExpressionEvaluator.java:156-168 | the '+'/'-' loop stops at a suffix of its input with a 32-bit value |
| ExpressionEvaluator.ParseExpr | ExpressionEvaluator/src/ExpressionEvaluator.java:156-168 | an expression consumes a nonempty prefix |
| ExpressionEvaluator.ValueOfDigit | ExpressionEvaluator/src/ExpressionEvaluator.java:41-46 | the value of the leading digit, which is removed |
| ExpressionEvaluator.ValueOfDigitSeq | ExpressionEvaluator/src/ExpressionEvaluator.java:65-72 | returns the value of the leading digit sequence and what follows it |
| ExpressionEvaluator.ValueOfFactor | ExpressionEvaluator/src/ExpressionEvaluator.java:92-104 | returns the value of the leading factor and what follows it |
| ExpressionEvaluator.ValueOfTerm | ExpressionEvaluator/src/ExpressionEvaluator.java:124-136 | returns the value of the leading term and what follows it |
| ExpressionEvaluator.ValueOfExpr | ExpressionEvaluator/src/ExpressionEvaluator.java:156-168 | returns the value of the leading expression and what follows it |
| ExpressionEvaluator.EvalFactor | ExpressionEvaluator/src/ExpressionEvaluator.java:92-104 | the value of a factor tree is a 32-bit int, or none on division by zero |
| ExpressionEvaluator.EvalMulSteps | ExpressionEvaluator/src/ExpressionEvaluator.java:124-136 | the same for a chain of '*' and '/' steps |
| ExpressionEvaluator.EvalTerm | ExpressionEvaluator/src/ExpressionEvaluator.java:124-136 | the same for a term tree |
| ExpressionEvaluator.EvalAddSteps | ExpressionEvaluator/src/ExpressionEvaluator.java:156-168 | the same for a chain of '+' and '-' steps |
| ExpressionEvaluator.EvalExpr | ExpressionEvaluator/src/ExpressionEvaluator.java:156-168 | the same for an expression tree |
| ExpressionEvaluator.MoreDigitsOfDigits | ExpressionEvaluator/src/ExpressionEvaluator.java:65-72 | continuing over more digits gives the wrapped decimal value of all of them |
| ExpressionEvaluator.ParseDigitSeqOfDigits | ExpressionEvaluator/src/ExpressionEvaluator.java:65-72 | a digit string followed by a non-digit is read as its wrapped decimal value |
| ExpressionEvaluator.ParseFactorOfPrint | ExpressionEvaluator/src/ExpressionEvaluator.java:92-104 | parsing the printed form of a factor gives its value and the rest of the input |
| ExpressionEvaluator.MulStepsStart | ExpressionEvaluator/src/ExpressionEvaluator.java:124-136 | printed '*'/'/' steps start with '*' or '/' |
| ExpressionEvaluator.AddStepsStart | ExpressionEvaluator/src/ExpressionEvaluator.java:156-168 | printed '+'/'-' steps start with '+' or '-' |
| ExpressionEvaluator.MoreFactorsOfPrint | ExpressionEvaluator/src/ExpressionEvaluator.java:124-136 | the '*'/'/' loop on printed steps computes their value |
| ExpressionEvaluator.ParseTermOfPrint | ExpressionEvaluator/src/ExpressionEvaluator.java:124-136 | parsing a printed term gives its value |
| ExpressionEvaluator.MoreTermsOfPrint | ExpressionEvaluator/src/ExpressionEvaluator.java:156-168 | the '+'/'-' loop on printed steps computes their value |
| ExpressionEvaluator.ParseExprOfPrint | ExpressionEvaluator/src/ExpressionEvaluator.java:156-168 | parsing a printed expression gives its value and the rest of the input |
| ExpressionEvaluator.QueueExpr | ExpressionEvaluator/src/ExpressionEvaluator.java:170-193 | a prefix expression in a token queue consumes a nonempty prefix, with a 32-bit value |
| ExpressionEvaluator.QueueOperands | ExpressionEvaluator/src/ExpressionEvaluator.java:170-193 | the operand loop up to ")" consumes a nonempty prefix, with a 32-bit value |
| ExpressionEvaluator.ValueOfExprQueue | ExpressionEvaluator/src/ExpressionEvaluator.java:170-193 | returns the value of the leading prefix expression and the tokens after it |
| ExpressionEvaluator.EvalPrefix | ExpressionEvaluator/src/ExpressionEvaluator.java:170-193 | the value of a prefix expression tree is a 32-bit int, or none on division by zero |
| ExpressionEvaluator.EvalOperands | ExpressionEvaluator/src/ExpressionEvaluator.java:170-193 | the same for an operator folded over its operands |
| ExpressionEvaluator.TokensStart | ExpressionEvaluator/src/ExpressionEvaluator.java:170-193 | the tokens of an expression do not start with ")" |
| ExpressionEvaluator.QueueExprOfTokens | ExpressionEvaluator/src/ExpressionEvaluator.java:170-193 | evaluating the tokens of an expression gives its value and the tokens after it |
| ExpressionEvaluator.QueueOperandsOfTokens | ExpressionEvaluator/src/ExpressionEvaluator.java:170-193 | the operand loop on operand tokens and ")" gives the folded value |
| BooleanExpressionEvaluator.Drop | ExpressionEvaluator/src/BooleanExpressionEvaluator.java:48-95 | dropping characters from the front never lengthens the text, and dropping at least one shortens a nonempty text |
| BooleanExpressionEvaluator.Tokens | ExpressionEvaluator/src/BooleanExpressionEvaluator.java:48-95 | the token queue of the source text |
| BooleanExpressionEvaluator.TokenizeAt | ExpressionEvaluator/src/BooleanExpressionEvaluator.java:48-95 | one loop step appends the token of the current character and skips its width |
| BooleanExpressionEvaluator.TokenizeSpell | ExpressionEvaluator/src/BooleanExpressionEvaluator.java:48-95 | tokenizing tokens written out with spaces gives those tokens back |
| BooleanExpressionEvaluator.TokenStartsItself | ExpressionEvaluator/src/BooleanExpressionEvaluator.java:48-95 | each token is recognised from its first character, and the skip is its length |
| BooleanExpressionEvaluator.BoolValue | ExpressionEvaluator/src/BooleanExpressionEvaluator.java:138-151 | the code's evaluation consumes a nonempty prefix of the tokens, the second operand of AND/OR only when the first does not decide |
| BooleanExpressionEvaluator.ValueOfBoolexpr | ExpressionEvaluator/src/BooleanExpressionEvaluator.java:138-151 | returns the value and remaining tokens of the code's evaluation |
| BooleanExpressionEvaluator.PrefixTokens | ExpressionEvaluator/src/BooleanExpressionEvaluator.java:138-151 | the prefix tokens of a Boolean expression are all tokens |
| BooleanExpressionEvaluator.BoolValueWithoutBinary | ExpressionEvaluator/src/BooleanExpressionEvaluator.java:138-151 | for expressions without AND/OR the code's evaluation gives the value and the rest |
| BooleanExpressionEvaluator.ShortCircuitMisreads | ExpressionEvaluator/src/BooleanExpressionEvaluator.java:144-146 | on OR AND F F T, which is true, the code returns false and leaves T unread |
| BooleanExpressionEvaluator.FullValue | ExpressionEvaluator/src/BooleanExpressionEvaluator.java:138-151 | the evaluation that reads both operands consumes a nonempty prefix |
| BooleanExpressionEvaluator.FullValueOfPrefix | ExpressionEvaluator/src/BooleanExpressionEvaluator.java:138-151 | evaluating the prefix tokens of any Boolean expression gives its value and exactly the tokens after it |
| BooleanExpressionEvaluator.ValueOfBoolexprFull | ExpressionEvaluator/src/BooleanExpressionEvaluator.java:138-151 | returns the value and rest of the evaluation that reads both operands |
| BooleanExpressionEvaluator.TreeValue | ExpressionEvaluator/src/BooleanExpressionEvaluator.java:153-169 | reading a tree consumes a nonempty prefix; none on a non-integer label |
| BooleanExpressionEvaluator.Subtrees | ExpressionEvaluator/src/BooleanExpressionEvaluator.java:160-162 | the children loop up to ")" consumes a nonempty prefix |
| BooleanExpressionEvaluator.ValueOfTree | ExpressionEvaluator/src/BooleanExpressionEvaluator.java:153-169 | returns the tree and remaining tokens |
| BooleanExpressionEvaluator.TreeValueOfRender | ExpressionEvaluator/src/BooleanExpressionEvaluator.java:153-169 | reading the tokens of a tree gives the tree back and exactly the tokens after it |
| BooleanExpressionEvaluator.SubtreesOfRender | ExpressionEvaluator/src/BooleanExpressionEvaluator.java:160-162 | the children loop on the tokens of trees and ")" gives those trees |
| BooleanExpressionEvaluator.RenderStart | ExpressionEvaluator/src/BooleanExpressionEvaluator.java:160 | the tokens of a tree do not start with ")", so the children loop goes on |
| NaturalNumber3.CanonicalIsPositive | NaturalNumberOnString/src/NaturalNumber3.java:153-162 | nonempty digits with no leading zero stand for a positive number |
| NaturalNumber3.CanonicalIsDepiction | NaturalNumberOnString/src/NaturalNumber3.java:165-177 | nonempty digits with no leading zero are the depiction of their value |
| NaturalNumber3.AppendDigit | NaturalNumberOnString/src/NaturalNumber3.java:132-139 | appending digit k to digits of value v gives 10 * v + k |
| NaturalNumber3.NaturalNumber3.constructor | NaturalNumberOnString/src/NaturalNumber3.java:45-47 | zero, held as the empty string |
| NaturalNumber3.NaturalNumber3.FromInt | NaturalNumberOnString/src/NaturalNumber3.java:55-61 | for 0 <= i: the number i |
| NaturalNumber3.NaturalNumber3.FromString | NaturalNumberOnString/src/NaturalNumber3.java:69-77 | for a depiction s: the number s stands for, "0" held as "" |
| NaturalNumber3.NaturalNumber3.FromNatural | NaturalNumberOnString/src/NaturalNumber3.java:85-91 | the same number as n, and n is unchanged |
| NaturalNumber3.NaturalNumber3.Clear | NaturalNumberOnString/src/NaturalNumber3.java:108-110 | becomes zero |
| NaturalNumber3.NaturalNumber3.TransferFrom | NaturalNumberOnString/src/NaturalNumber3.java:113-125 | takes source's digits; source becomes zero |
| NaturalNumber3.NaturalNumber3.MultiplyBy10 | NaturalNumberOnString/src/NaturalNumber3.java:132-139 | the value becomes 10 * value + k, and zero stays the empty string |
| NaturalNumber3.NaturalNumber3.DivideBy10 | NaturalNumberOnString/src/NaturalNumber3.java:142-150 | returns value % 10 and the value becomes value / 10 |
| NaturalNumber3.NaturalNumber3.IsZero | NaturalNumberOnString/src/NaturalNumber3.java:153-162 | true iff the value is 0 (iff the digits are empty) |
| NaturalNumber3.IsZeroLoopStalls | NaturalNumberOnString/src/NaturalNumber3.java:153-162 | on digits that start with '0' a pass of the loop body leaves the loop where it started, with its condition still true |
| NaturalNumber3.AllZeros | NaturalNumberOnString/src/NaturalNumber3.java:153-162 | the loop with i advanced: true iff every digit is '0', so iff the digits are "" on a canonical depiction |
| NaturalNumber3.NaturalNumber3.ToString | NaturalNumberOnString/src/NaturalNumber3.java:165-177 | the decimal depiction of the value; the number is left as it was |
| SequenceSmooth.Halves | SequenceSmooth/src/SequenceSmooth.java:29-30 | for a 32-bit x, x / 2 and x % 2 fit and recombine to x, and the remainder has the sign of x |
| SequenceSmooth.HalvesAverage | SequenceSmooth/src/SequenceSmooth.java:29-30 | with like signs, the halves plus half the sum of the remainders is exactly (j + k) / 2, with no overflow |
| SequenceSmooth.SumAverage | SequenceSmooth/src/SequenceSmooth.java:31-32 | with unlike signs, j + k cannot overflow and halving it is exactly (j + k) / 2 |
| SequenceSmooth.Average | SequenceSmooth/src/SequenceSmooth.java:27-35 | no overflow: the result is (j + k) / 2 computed exactly and truncated toward zero |
| SequenceSmooth.Smoothed | SequenceSmooth/src/SequenceSmooth.java:46-53 | the exact averages of the adjacent pairs: one entry fewer than the input |
| SequenceSmooth.SmoothedIsPairAverages | SequenceSmooth/src/SequenceSmooth.java:46-53 | for s1 = a * <i, j> * b, entry \|a\| of the smoothing is (i + j) / 2 |
| SequenceSmooth.SmoothedCons | SequenceSmooth/src/SequenceSmooth.java:156-169 | the smoothing is the first pair's average followed by the smoothing of the rest |
| SequenceSmooth.SmoothedSnoc | SequenceSmooth/src/SequenceSmooth.java:61-68 | smoothing one entry more appends the average of the last pair |
| SequenceSmooth.SmoothInto | SequenceSmooth/src/SequenceSmooth.java:55-69 | s2 becomes the smoothing of s1 |
| SequenceSmooth.Smooth | SequenceSmooth/src/SequenceSmooth.java:156-169 | returns a new sequence holding the smoothing of s1; s1 is restored |
| TagCloudWords.OccursIsMembership | TagCloud/src/TagCloudGenerator.java:92-93 | `SEPARATORS.indexOf(c) >= 0` iff c is a separator character; the second generator has the same code at TagCloudWithStandard/src/TagCloudGenerator.java:82-83 |
| TagCloudWords.ScanEnd | TagCloud/src/TagCloudGenerator.java:90-95 | the scan stops at the end of the text or at the first character on the other side of the separators; the second generator has the same code at TagCloudWithStandard/src/TagCloudGenerator.java:80-85 |
| TagCloudWords.NextWordOrSeparator | TagCloud/src/TagCloudGenerator.java:86-97 | the maximal nonempty run of word (or of separator) characters starting at position; the second generator has the same code at TagCloudWithStandard/src/TagCloudGenerator.java:76-87 |
| TagCloudWords.RunsTile | TagCloud/src/TagCloudGenerator.java:117-131 | the runs read from a line, joined, give the line back; the second generator has the same code at TagCloudWithStandard/src/TagCloudGenerator.java:106-119 |
| TagCloudWords.RunsAlternate | TagCloud/src/TagCloudGenerator.java:117-131 | each run lies on one side of the separators, and neighbouring runs alternate sides; the second generator has the same code at TagCloudWithStandard/src/TagCloudGenerator.java:106-119 |
| TagCloudWords.Tally | TagCloud/src/TagCloudGenerator.java:121-129 | a lower-cased word gets its count raised by one (to 1 when new); a separator run changes nothing; the second generator has the same code at TagCloudWithStandard/src/TagCloudGenerator.java:110-117 |
| TagCloudWords.CountAllCounts | TagCloud/src/TagCloudGenerator.java:111-133 | each word's count grows by its number of occurrences, and a word has a count iff it had one or occurs; the second generator has the same code at TagCloudWithStandard/src/TagCloudGenerator.java:102-122 |
| TagCloudWords.LoadLine | TagCloud/src/TagCloudGenerator.java:117-131 | the counts after tallying every run of one line; the second generator has the same code at TagCloudWithStandard/src/TagCloudGenerator.java:106-119 |
| TagCloudWords.LoadText | TagCloud/src/TagCloudGenerator.java:111-133 | the counts after every line, in order; the second generator has the same code at TagCloudWithStandard/src/TagCloudGenerator.java:102-122 |
| TagCloudWords.CompareInt | TagCloud/src/TagCloudGenerator.java:52 | Integer.compareTo: negative, zero or positive as a < b, a == b or a > b; the second generator has the same code at TagCloudWithStandard/src/TagCloudGenerator.java:42 |
| TagCloudWords.CompareByCount | TagCloud/src/TagCloudGenerator.java:47-54 | negative exactly when the first pair has the larger count, 0 exactly on equal counts; the second generator has the same code at TagCloudWithStandard/src/TagCloudGenerator.java:37-44 |
| TagCloudWords.CompareByCountIsTotalPreorder | TagCloud/src/TagCloudGenerator.java:47-54 | ordering by count, larger first, is total, transitive and antisymmetric in sign; the second generator has the same code at TagCloudWithStandard/src/TagCloudGenerator.java:37-44 |
| TagCloudWords.SortedEntriesCover | TagCloud/src/TagCloudGenerator.java:189-192 | the entries sorted by count include every word that has a count; the second generator has the same code at TagCloudWithStandard/src/TagCloudGenerator.java:174-178 |
| TagCloud.FontSize | TagCloud/src/TagCloudGenerator.java:145-159 | same as the second generator's when minF != maxF; 11 (the smallest font) when frequency == minF == maxF |
| TagCloud.FontSizesDifferWhenExtremesMeet | TagCloud/src/TagCloudGenerator.java:152-156 | when all chosen counts are equal this generator gives 11 where the other gives 48 |
| TagCloud.CompareByKey | TagCloud/src/TagCloudGenerator.java:35-42 | the key comparison ignoring case: compareTo of the lower-cased keys |
| TagCloud.CompareByKeyIsTotalPreorder | TagCloud/src/TagCloudGenerator.java:35-42 | ordering by key ignoring case is antisymmetric in sign, ties exactly on equal lower-case keys, and transitive |
| TagCloud.Extremes | TagCloud/src/TagCloudGenerator.java:197-206 | maxF is the first chosen count, minF the last one when at least two are chosen and 0 otherwise |
| TagCloud.ExtractTop | TagCloud/src/TagCloudGenerator.java:197-208 | the loop's maxF and minF are the extremes, and the chosen entries are the first num sorted ones |
| TagCloud.ChosenFontSizes | TagCloud/src/TagCloudGenerator.java:227-231 | with at least two chosen words every chosen count lies between the extremes, and its font is between 11 and 48 |
| TagCloud.SingleWordGetsLargestFont | TagCloud/src/TagCloudGenerator.java:199-206 | with one chosen word minF stays 0, and that word gets font 48 |
| TagCloudWithStandard.FontSize | TagCloudWithStandard/src/TagCloudGenerator.java:138-149 | a 32-bit result, and 48 when minF == maxF |
| TagCloudWithStandard.FontSizeScales | TagCloudWithStandard/src/TagCloudGenerator.java:138-149 | without overflow: 37 * (f - minF) / (maxF - minF) + 11, between 11 and 48, 11 at minF and 48 at maxF |
| TagCloudWithStandard.FontSizeMonotone | TagCloudWithStandard/src/TagCloudGenerator.java:138-149 | a larger count never gets a smaller font |
| TagCloudWithStandard.TopWords | TagCloudWithStandard/src/TagCloudGenerator.java:179-183 | the map holds exactly the first num sorted words, with their counts |
| TagCloudWithStandard.TopWordsAreMostFrequent | TagCloudWithStandard/src/TagCloudGenerator.java:178-183 | every chosen word has a count at least that of any word not chosen |
| TagCloudWithStandard.ChosenFontSizes | TagCloudWithStandard/src/TagCloudGenerator.java:202-207 | every chosen count lies between get(num-1) and get(0), and its font is between 11 and 48 |
| Set2.MoveToFrontOfSpec | SetOnQueue/src/Set2.java:57-71 | the result is a permutation of q, with x at the front when x is in q, and q unchanged when it starts with x or has at most one entry |
| Set2.MoveToFront | SetOnQueue/src/Set2.java:64-71 | the queue becomes the recursion's result |
| Set2.IndexOf | SetOnQueue/src/Set2.java:73-83 | -1 iff x is not in s; otherwise the index of the first x |
| Stack2.Node.constructor | StackWithLinkedList/src/Stack2.java:106-109 | a new node has no successor |
| Stack2.Stack2.constructor | StackWithLinkedList/src/Stack2.java:118-121 | an empty stack: a fresh sentinel whose next is null |
| Stack2.Stack2.Push | StackWithLinkedList/src/Stack2.java:168-176 | x becomes the top; the list stays well linked; size is left as it was |
| Stack2.Stack2.Length | StackWithLinkedList/src/Stack2.java:191-203 | walking the list counts exactly the entries |
| Stack2.Stack2.TransferFrom | StackWithLinkedList/src/Stack2.java:145-161 | this takes source's entries and size; source becomes empty over a fresh sentinel, and its size is left as it was |
| Stack2.Stack2Iterator.constructor | StackWithLinkedList/src/Stack2.java:223-226 | starts before the top entry with nothing seen |
| Stack2.Stack2Iterator.HasNext | StackWithLinkedList/src/Stack2.java:229-232 | true iff some entry is still unseen |
| Stack2.Stack2Iterator.Next | StackWithLinkedList/src/Stack2.java:235-249 | returns the next entry in stack order and adds it to those seen |
| Stack2.Entries | StackWithLinkedList/src/Stack2.java:206-208 | iterating yields all entries, top first |
| Sequence3.Rev | SequenceOnStack/src/Sequence3.java:79-100 | reversal keeps the length |
| Sequence3.ShiftRight | SequenceOnStack/src/Sequence3.java:101-114 | moving the left top to the right stack keeps rev(left) * right |
| Sequence3.ShiftLeft | SequenceOnStack/src/Sequence3.java:101-114 | moving the right top to the left stack keeps rev(left) * right |
| Sequence3.SetLengthOfLeftStack | SequenceOnStack/src/Sequence3.java:101-114 | for 0 <= newLeftLength <= \|left\| + \|right\|: rev(left) * right is kept and left ends with newLeftLength entries |
| Sequence3.Node.constructor | SequenceOnStack/src/Sequence3.java:119-130 | a new node has no neighbours |
| Sequence3.Sequence3.Before | SequenceOnStack/src/Sequence3.java:185-200 | the node after which position k begins is linked to the k-th node, or to postFinish at the end |
| Sequence3.Sequence3.constructor | SequenceOnStack/src/Sequence3.java:119-141 | an empty sequence: two fresh sentinels linked to each other |
| Sequence3.Sequence3.Walk | SequenceOnStack/src/Sequence3.java:193-196 | following next pos times from preStart reaches the node before position pos |
| Sequence3.Sequence3.Inserted | SequenceOnStack/src/Sequence3.java:185-200 | a node linked in at pos leaves a well-linked list whose entries have x inserted at pos |
| Sequence3.Sequence3.Removed | SequenceOnStack/src/Sequence3.java:203-215 | a node unlinked at pos leaves a well-linked list whose entries lack the one at pos |
| Sequence3.Sequence3.Add | SequenceOnStack/src/Sequence3.java:185-200 | x is inserted at position pos; the list stays well linked |
| Sequence3.Sequence3.Remove | SequenceOnStack/src/Sequence3.java:203-215 | returns the entry at pos and removes it; the list stays well linked |
| Sequence3.Sequence3.Entry | SequenceOnStack/src/Sequence3.java:301-315 | returns the entry at pos |
| Sequence3.Sequence3.Length | SequenceOnStack/src/Sequence3.java:218-228 | walking to the node whose next is null counts exactly the entries |
| WaitingLine.SortedRelatesAllPairs | WaitingLineFamilyDesign/src/components/waitingline/WaitingLine.java:9-20 | in a string sorted by a total preorder every earlier entry is related to every later one |
| WaitingLine.PositionOf | WaitingLineFamilyDesign/src/components/waitingline/WaitingLineKernel.java:54-61 | -1 iff x does not occur; otherwise the index of the first x |
| WaitingLine.WithoutCounts | WaitingLineFamilyDesign/src/components/waitingline/WaitingLineSecondary.java:159-166 | dropping every x keeps every other entry's count and leaves none of x |
| WaitingLine.WithoutSingle | WaitingLineFamilyDesign/src/components/waitingline/WaitingLine.java:90-94 | when x occurs once, dropping it is `#this \ {x}`: the string without that one entry |
| WaitingLine.WithoutAbsent | WaitingLineFamilyDesign/src/components/waitingline/WaitingLineSecondary.java:159-166 | dropping an x that does not occur changes nothing |
| WaitingLine.AppendedKeepsEntries | WaitingLineFamilyDesign/src/components/waitingline/WaitingLineSecondary.java:139-151 | appending moves entries between the two lines without losing or adding any |
| WaitingLine.AppendedDisjoint | WaitingLineFamilyDesign/src/components/waitingline/WaitingLine.java:71-81 | when l has no repeats and shares no entry with this, appending gives `#this * #l` and empties l |
| WaitingLine.AppendedAddsNewOnly | WaitingLineFamilyDesign/src/components/waitingline/WaitingLineSecondary.java:143-150 | an entry already in this line is never added to it again |
| WaitingLine.JoinedAppend | WaitingLineFamilyDesign/src/components/waitingline/WaitingLineSecondary.java:96-101 | joining two nonempty lists with commas puts one comma between them |
| WaitingLine.ListingAppend | WaitingLineFamilyDesign/src/components/waitingline/WaitingLineSecondary.java:91-104 | the empty line is "<>", and adding x puts ",x" before the closing ">" |
| WaitingLine.WaitingLine.constructor | WaitingLineFamilyDesign/src/components/waitingline/WaitingLineKernel.java:12-16 | initially empty |
| WaitingLine.WaitingLine.Add | WaitingLineFamilyDesign/src/components/waitingline/WaitingLineKernel.java:22-31 | x joins at the end |
| WaitingLine.WaitingLine.RemoveFront | WaitingLineFamilyDesign/src/components/waitingline/WaitingLineKernel.java:33-44 | removes and returns the front entry |
| WaitingLine.WaitingLine.Length | WaitingLineFamilyDesign/src/components/waitingline/WaitingLineKernel.java:46-52 | the number of entries |
| WaitingLine.WaitingLine.Position | WaitingLineFamilyDesign/src/components/waitingline/WaitingLineKernel.java:54-61 | -1 iff x does not occur; otherwise the index of the first x |
| WaitingLine.WaitingLine.TransferFrom | WaitingLineFamilyDesign/src/components/waitingline/WaitingLineSecondary.java:167 | this takes source's entries and source becomes empty |
| WaitingLine.WaitingLine.Front | WaitingLineFamilyDesign/src/components/waitingline/WaitingLineSecondary.java:110-121 | returns the front entry; rotating the line all the way round leaves it as it was |
| WaitingLine.WaitingLine.ReplaceFront | WaitingLineFamilyDesign/src/components/waitingline/WaitingLineSecondary.java:123-135 | returns the old front; the line becomes `<x> * #this[1, \|#this\|)` |
| WaitingLine.WaitingLine.ReplaceEntry | WaitingLineFamilyDesign/src/components/waitingline/WaitingLine.java:52-69 | returns the old entry at pos; the line becomes `#this[0, pos) * <x> * #this[pos+1, \|#this\|)` |
| WaitingLine.WaitingLine.Append | WaitingLineFamilyDesign/src/components/waitingline/WaitingLineSecondary.java:137-151 | each entry of l in turn joins this line when it is not already there, and otherwise goes back to l |
| WaitingLine.WaitingLine.RemoveAcceptsAsWritten | WaitingLineFamilyDesign/src/components/waitingline/WaitingLineSecondary.java:156 | the guard as written: the first position of x is greater than 0 |
| WaitingLine.WaitingLine.Remove | WaitingLineFamilyDesign/src/components/waitingline/WaitingLineSecondary.java:153-169 | for x in the line: returns x and the line keeps every other entry, in order |
| WaitingLine.WaitingLine.Equals | WaitingLineFamilyDesign/src/components/waitingline/WaitingLineSecondary.java:41-66 | true iff the two lines hold the same entries in the same order |
| WaitingLine.WaitingLine.ToString | WaitingLineFamilyDesign/src/components/waitingline/WaitingLineSecondary.java:91-104 | "<" then the entries separated by commas, then ">" |
| WaitingLine.RemoveGuardRejectsFront | WaitingLineFamilyDesign/src/components/waitingline/WaitingLineSecondary.java:156 | the guard holds iff x is in the line and is not its front, so removing the front entry is always rejected |
| CopyFileStdJava.EncryptAsWritten | JavaIOExplorations/src/CopyFileStdJava.java:30-47 | a character that is not an ASCII letter is returned unchanged |
| CopyFileStdJava.EncryptAsWrittenKeyZero | JavaIOExplorations/src/CopyFileStdJava.java:30-47 | with key 0 every character is unchanged |
| CopyFileStdJava.EncryptAsWrittenShifts | JavaIOExplorations/src/CopyFileStdJava.java:39-46 | within the alphabet a letter moves by key; above 26 it goes back by 26, below 0 forward by 26, and exactly 26 is left as it is |
| CopyFileStdJava.EncryptAsWrittenLeavesAlphabet | JavaIOExplorations/src/CopyFileStdJava.java:40-45 | 'z' with key 1 becomes '{' and 'Z' with key 1 becomes '[', which are not letters |
| CopyFileStdJava.Encrypt | JavaIOExplorations/src/CopyFileStdJava.java:30-47 | the corrected shift also returns every non-letter unchanged |
| CopyFileStdJava.EncryptRotates | JavaIOExplorations/src/CopyFileStdJava.java:30-47 | for \|key\| <= 26 a letter becomes the letter of the same case key places further round the alphabet |
| CopyFileStdJava.EncryptAgreesAsWritten | JavaIOExplorations/src/CopyFileStdJava.java:40-45 | the corrected and the written shift differ only where the offset is exactly 26 |
| CopyFileStdJava.EncryptRoundTrip | JavaIOExplorations/src/CopyFileStdJava.java:30-47 | for \|key\| <= 26, shifting by -key undoes shifting by key, for every character |
| CopyFileStdJava.ShiftBack | JavaIOExplorations/src/CopyFileStdJava.java:40-45 | going key places round the alphabet and back returns to the start |

## Left out

- Input and output:
  - the `main` methods;
  - reading files (a file is the sequence of its lines);
  - writing the HTML page;
  - printing;
  - the `usage` message;
  - the rest of the copier's `main`, which reads and writes the files.
- Library calls are modelled only by what they guarantee:
  - the course library's sorting machines and `ArrayList.sort` are modelled by `TagCloudWords.SortedEntriesOf`: the entries of the map, each once, ordered by count;
  - the order in which the `TreeMap` or the second sorting machine lists the chosen words is not modelled, because it affects only the HTML order.
- The course library's `Queue`, `Stack`, `Sequence` and `Map` components are small models: classes over a `seq`, or a `map` value. Their own implementations are not part of this model.
- TagCloudWords.LoadLine: lower-casing is modelled on ASCII letters only, so token length is kept. Java `toLowerCase` can change the length of some non-ASCII strings.
- TagCloudWords.Tally: counts are unbounded integers; the 32-bit overflow of counts above 2^31 - 1 is not modelled.
- JavaText.IsDigit: only '0' to '9' are digits. Java's `Character.isDigit` also accepts the decimal digits of other scripts.
- JavaText.DigitValue: defined on '0' to '9' only, where Java's `Character.digit` and `getNumericValue` also value the other scripts' digits.
- JavaText.ParseInt: accepts ASCII digits only, where `Integer.parseInt` accepts every Unicode decimal digit.
- JavaText.CompareToIgnoreCase: folds the case of ASCII letters only. Java folds every letter that has case.
- JavaText.CompareTo: compares strings as sequences of Unicode scalar values. Java compares UTF-16 code units, so the sign can differ once a string holds a character outside the Basic Multilingual Plane.
- Counts, sizes, heights and lengths are unbounded integers where Java uses a 32-bit `int`. Their overflow, above 2^31 - 1, is not modelled. The members concerned are listed below.
- CountPrimitiveCalls.CountOfPrimitiveCalls: the count is unbounded.
- CountPrimitiveCalls.CountOfInstructionCalls: the count is unbounded.
- BinaryTreeMethods.Size: the size is unbounded.
- BinaryTreeMethods.Height: the height is unbounded.
- BinaryTreeMethods.SizeOfTree: the size is unbounded.
- BinaryTreeMethods.HeightOfTree: the height is unbounded.
- Stack2.Stack2.Length: the length is unbounded.
- Sequence3.Sequence3.Length: the length is unbounded.
- WaitingLine.WaitingLine.Length: the length is unbounded.
- WaitingLine.WaitingLine.Position: the position is unbounded.
- BinaryTreeMethods: `reverse(Tree)` (BinaryTreeMethods.java:443-452) is left out. After `removeSubtree(0)` it calls `addSubtree` at position `numberOfSubtrees`, one past the last position left, so it breaks `addSubtree`'s precondition on every node with two or more subtrees.
- BinaryTreeMethods: the binary-tree methods are modelled on values. The in-place disassemble/assemble steps are not modelled; the methods return the tree they rebuild.
- CountPrimitiveCalls: statements are values.
  - The in-place `disassemble`/`assemble` steps are modelled only in the block loops, through `RemoveFromBlock` and `AddToBlock` and their round-trip lemmas.
  - The conditions RANDOM and TRUE are not modelled; their names contain no "NOT", so the passes leave them unchanged.
- CountPrimitiveCalls.RenameInstructionInProgram:
  - the instruction table is a map value, so the order in which `removeAny` takes entries out is not modelled;
  - `newName` being a valid identifier is not checked.
- NaturalNumber3: `newInstance` (reflection) is left out.
- Sequence3:
  - `flip` (Sequence3.java:290-295) is left out: it uses stack fields that `createNewRep` never creates.
  - `transferFrom` (Sequence3.java:164-178) is left out: it moves the same never-created stack fields instead of the linked list.
  - the iterator (Sequence3.java:236-282) is left out: it yields the postFinish sentinel's data.
  - `indexOf` (Sequence3.java:317-327) is left out: it calls `entry(index)` before checking the bound.
  - `clear` and `newInstance` are left out.
- Sequence3.Sequence3.Add: the `previous` links and the `lastLeft`, `leftLength` and `rightLength` bookkeeping are not modelled, because no modelled operation reads them.
- Sequence3.Sequence3.Remove: the same bookkeeping is not modelled.
- Stack2: the following are left out:
  - `pop` (Stack2.java:179-188) and `remove(x)` (Stack2.java:259-275): both read the sentinel's data instead of the top node's;
  - `clear`, `newInstance` and the `conventionHolds` check.
- Stack2.Stack2.Push: it does not update `size` (the source leaves it unchanged), so `size` is not tied to the number of entries.
- Set2: the set kernel itself (Set2.java:88-256) is left out; only the `moveToFront` and `indexOf` helpers are modelled. The kernel's `contains` (195-198) reports false for every element, so no set contract holds for it.
- WaitingLineSecondary: `hashCode` (WaitingLineSecondary.java:68-89) is left out; it relies on `Object.hashCode` of the entries.
- WaitingLine: iteration over a line is modelled by indexing its entries.
- WaitingLine.WaitingLine.Append: the interface promises `this = #this * #q`. The code adds only the entries not already in this line, and puts the others back on l. The model follows the code. `AppendedDisjoint` shows the two agree when l has no repeats and shares no entry with this line.
- WaitingLine.WaitingLine.Remove: the code drops every copy of x. That matches the promised `#this \ {x}` when x occurs once (`WithoutSingle`).
- WaitingLine.WaitingLine.RemoveFront: the kernel contract says only "removeFront is in #this and this = #this \ {removeFront}"; the model states the stronger FIFO behaviour, the front entry.
- CopyFileStdJava.Encrypt: `EncryptRotates` and `EncryptRoundTrip` are stated for keys between -26 and 26. For larger keys a single add or subtract of 26 cannot bring the offset back into the alphabet.

## Findings

| source | as written | input that shows it | evidently intended | confidence | as-written member | corrected member |
|---|---|---|---|---|---|---|
| StatementCountPrimitiveCalls/src/CountPrimitiveCalls.java:347-361 | the IF_ELSE case swaps the branches of a negated IF_ELSE but never simplifies inside either branch | `IF_ELSE next-is-wall THEN (IF_ELSE next-is-not-wall ...)`: the inner negated IF_ELSE survives | recurse into both branches, as the block, IF and WHILE cases do | high; not executed | CountPrimitiveCalls.SimplifyMissesNestedIfElse | CountPrimitiveCalls.SimplifiedDeepRemovesAllNegations |
| StatementCountPrimitiveCalls/src/CountPrimitiveCalls.java:297-301 | the entry named oldName is re-keyed, but its own body is not renamed | table `A := CALL A`, rename A to B: the result is `B := CALL A`, a call to an undefined instruction | rename the calls in every body, the renamed one included | medium; not executed | CountPrimitiveCalls.AsWrittenRenameLeavesDanglingSelfCall | CountPrimitiveCalls.RenameAllCallsKeepsWellFormed |
| WaitingLineFamilyDesign/src/components/waitingline/WaitingLineSecondary.java:156 | the guard `position(x) > 0` rejects x at position 0 | `remove(x)` on `<x, y>` fails its assertion although x is in the line | `position(x) >= 0` | high; not executed | WaitingLine.RemoveGuardRejectsFront | WaitingLine.WaitingLine.Remove |
| NaturalNumberOnString/src/NaturalNumber3.java:153-162 | the loop never advances i, so it ends only because the first digit is not '0' | a `NaturalNumber3` whose digits are "0" (possible only if the convention of no leading '0' is broken) makes `isZero` loop for ever | advance i on each pass | low; latent, unreachable while the convention holds; not executed | NaturalNumber3.IsZeroLoopStalls | NaturalNumber3.AllZeros |
| JavaIOExplorations/src/CopyFileStdJava.java:40 | `offset > 26` leaves an offset of exactly 26 outside the alphabet | `encrypt('z', 1)` gives '{' | `offset >= 26` | high; not executed | CopyFileStdJava.EncryptAsWrittenLeavesAlphabet | CopyFileStdJava.EncryptRotates |
| ExpressionEvaluator/src/BooleanExpressionEvaluator.java:144-146 | `&&` and `\|\|` skip the second recursive call, so the second operand's tokens are left unread | tokens `OR AND F F T` give false and leave `T` in the queue; the expression is true | evaluate both operands first, then combine | high; not executed | BooleanExpressionEvaluator.ShortCircuitMisreads | BooleanExpressionEvaluator.FullValueOfPrefix |
