# csutil, modelled and verified in Dafny

csutil is a C++ utility library.  This project models its algorithms whose correctness
rests on an argument that no single function shows, in the form the library gives them
(objects that update their fields, loops over arrays, linked nodes), and proves what
they are for.

- **Regular expressions** (`Reg*.dfy`).  The recursive-descent compiler emits a program of
  relative-linked nodes, inserts nodes in the middle of code already emitted and patches
  links; an interpreter backtracks over it. `RegSyntax` is the parser and the syntax trees,
  `RegGrammar` the grammar as a condition on trees, without the parser, `RegProgram` the
  code of a tree, `RegLayout` the code as a graph, `RegLink`, `RegRelink`, `RegRepeat`,
  `RegParse` and `RegGroup` the lemmas about patching, `RegSemantics` the interpreter step
  by step (with a bound on the steps, so that running forever can be spoken of) and the
  ordered outcomes of a tree, `RegSound` and `RegComplete` their agreement, `RegLanguage`
  and `RegTermination` the declarative language and the conditions under which the search
  ends, `RegOrdinary` the language in which a dot needs a character, `RegExp` the class
  itself, `RegTheorems` the main results: which patterns are accepted and as which tree, the
  compiler emits exactly the program of that tree, and a check decides whether the pattern
  occurs.
- **Containers and algorithms of `mystl/`**: the red-black tree with parent pointers and a
  header (`RbShape`, `RbTree`, `RbRun`), introsort with its unguarded final pass, nth element and the
  heap (`Range`, `Heap`, `Sorting`), the three rotations (`Rotation`), the free-list pool
  allocator (`PoolState`, `PoolAlloc`), the chained hash table (`HashChain`, `HashTable`).
- **Indexes**: the skip list (`SkipList`), the k-d tree with pruned nearest-neighbour search
  (`KdShape`, `KdTree`), the range tree (`BkdTree`), the consistent-hash ring
  (`ConsistentHash`), the sparse and dense HyperLogLog registers (`HyperLogLog`).
- **State machines**: the server's connection automaton under any fragmentation of reads and
  writes (`Framing`, `Server`), the rate limiter over a ring of counters (`LoadCtrl`), the
  LOOK elevator (`Elevator`).
- **Arithmetic and codecs**: signed decimal numerals of any length (`Numeral`, `BigInt`),
  the order-preserving encoding (`Memcomparable`), KMP and brute-force search (`Kmp`);
  `Powers` has the powers of two that several modules use.

A mutable object of the library is a class here, and its ghost fields hold what its nodes
stand for.  Elements that are compared are pairs of a rank, by which they are ordered, and a
tag, so that equivalent elements can be different (`Range.Elem`, and classes of equal keys in
`HashChain.Value`).  Hash functions, random heights, clock readings, the node that an
allocation hands out (in the red-black tree an erased one as well) and the results of `malloc`,
`read` and `write` are parameters or arbitrary results.

Findings about the code that the proofs rest on or state:

- A star or plus over a body that can match nothing makes the matcher run forever
  (`RegTheorems.NullableLoopRunsForever`, `RegTheorems.OptionalInLoop`); the dot accepts the place
  behind the subject (`RegTheorems.DotPastEnd`, `RegTheorems.DotOverruns`); no search starts behind the last character
  (`RegTheorems.EndIsMissed`); an unanchored pattern is found in the empty subject
  (`RegTheorems.CheckMeans`).
- After `erase` the red-black tree's header does not always know the first and last node; the
  exact condition is in `RbTree.RedBlackTree.Erase`.  `insert_unique` then compares a value that
  goes before everything with the value in the header, which is never set, and may refuse it
  (`RbRun.LostFront`); and when the memory of the erased node is used again, as the pool allocator
  does at once, it may add a value twice (`RbRun.Duplicated`).  The exact condition is in
  `RbTree.RedBlackTree.InsertUnique`.
- A frame of 2^31 bytes or more leaves the server's connection in a state in which nothing is
  read or handled any more (`Server.Conn.ClientEvent`).
- The 32-bit time difference of the rate limiter turns over some 71 minutes after the start time.
  A call that finds it turned over, and not out of range, counts old requests as recent and may
  refuse what should be admitted (`LoadCtrl.LateRefusal`); the opposite never happens
  (`LoadCtrl.LoadCtrl.AtMost`).  A refusal is justified exactly when the last max + 1 requests were
  admitted since the last such call (`LoadCtrl.LoadCtrl.CheckFlow`).
- `BigAdd` of two inputs with a minus sign and sum zero, and `BigSub` of one with and one without
  and difference zero, return "-0" (`BigInt.BigAdd`, `BigInt.BigSub`, `BigInt.NegativeZeros`).
- `KMP` gives its table one entry less than is written (`Kmp.BuildNext`); the entry that goes missing
  is never read (`Kmp.Search`).
- A plus sign is taken off at both ends of a number, so that "5+" is one (`BigInt.Trim`).

## Model

| member | source | states |
|---|---|---|
| RegSyntax.ParsePatternText | base/simple_reg.cc:447-587 | an accepted pattern is exactly the text of the syntax tree the parser finds, and that tree is well formed: the grammar reads every character and invents none |
| RegGrammar.ParsedIff | base/simple_reg.cc:447-587 | the parser accepts a pattern with a syntax tree if and only if the tree is one of the grammar, has fewer than twenty groups and is written in the pattern up to its end or a NUL; the grammar is a condition on trees alone: what may be repeated is one node, a group or a literal of one character, a literal is a longest run of characters that mean themselves, a range begins with the character before its dash |
| RegGrammar.LastOnly | base/simple_reg.cc:561-567 | a repetition takes the one character before it: "ab*" is "a" and the star of "b" |
| RegTheorems.AcceptedIff | base/simple_reg.cc:447-587 | a pattern is accepted if and only if it is written so and the code of its tree is shorter than 65535 bytes |
| RegLayout.GenIsWired | base/simple_reg.cc:343-445 | the code of a tree, wherever it stands, is a graph: each repetition and group leads to its body, each body back or on, and every dangling end to one place behind it |
| RegLayout.GenAltsIsWired | base/simple_reg.cc:228-305 | the branches of a group are chained and all of them lead to the node behind the group |
| RegSound.Sound | base/simple_reg.cc:62-226 | what the interpreter does from the code of a tree is what it does at the exit, tried for each end of the tree in the order of the outcome semantics; a run that ends ends so |
| RegComplete.Complete | base/simple_reg.cc:62-226 | conversely the interpreter ends, within a number of steps the lemma returns, whenever the ordered outcomes lead to an answer |
| RegLanguage.EndsAreMatches | base/simple_reg.cc:62-226 | every end the search can reach is a match of the declarative language of the tree |
| RegLanguage.MatchesAreEnds | base/simple_reg.cc:62-226 | and every match of the language is among the ends the search reaches, unless it meets an iteration that consumes nothing or runs past the subject |
| RegOrdinary.MatchesInside | base/simple_reg.cc:62-226 | the ordinary language, in which every dot stands for a character, is that of the search restricted to ends inside the subject, for every pattern |
| RegTermination.NeverSpins | base/simple_reg.cc:62-226 | if no loop body can match the empty string, no search from any index repeats an empty iteration |
| RegTermination.StaysInside | base/simple_reg.cc:62-226 | a tree without dots never leaves the subject |
| RegSemantics.RunMonotone | base/simple_reg.cc:62-226 | a run that ended gives the same verdict with any larger number of steps |
| RegLink.GenPath | base/simple_reg.cc:660-674 | following the links from the first node of a tree ends, after a known number of steps, at its one dangling node |
| RegRelink.Relink | base/simple_reg.cc:618-647 | setting the link of the dangling node changes the code of a tree into the code of the same tree with that distance, and nothing else |
| RegRelink.AtInsert | base/simple_reg.cc:589-596 | inserting a node in front of emitted code shifts it as a whole: no relative link inside breaks |
| RegRelink.SnocGen | base/simple_reg.cc:307-341 | linking one more block to a branch gives the code of the longer branch |
| RegRepeat.StarBuilt | base/simple_reg.cc:357-385 | the nodes and links that the star case leaves are the code of the star |
| RegRepeat.PlusBuilt | base/simple_reg.cc:386-414 | the nodes and links that the plus case leaves are the code of the plus |
| RegRepeat.OptBuilt | base/simple_reg.cc:415-435 | the nodes and links that the question-mark case leaves are the code of the option |
| RegGroup.ProgramBuilt | base/simple_reg.cc:228-305 | a compiled pattern is the invalid node, the code of its branches and the end node |
| SimpleReg.RegExp.AppendNode | base/simple_reg.cc:598-611 | a node is appended and its position returned; the length limit is reported exactly when it is reached |
| SimpleReg.RegExp.InsertNode | base/simple_reg.cc:589-596 | three bytes are inserted at the position, which must not be in the invalid node |
| SimpleReg.RegExp.GetFirstEmptyNextNodePos | base/simple_reg.cc:660-674 | the loop over forward and backward links stops at the one node without a link |
| SimpleReg.RegExp.LinkNode | base/simple_reg.cc:618-647 | the dangling node gets the distance to the target, or one of the three errors is returned and nothing changes |
| SimpleReg.RegExp.LinkOperandNode | base/simple_reg.cc:649-658 | only the operand of a branch node is linked |
| SimpleReg.RegExp.RepeatStar | base/simple_reg.cc:357-385 | star: the code of an atom becomes the code of its repetition in place, or the program is too long |
| SimpleReg.RegExp.RepeatPlus | base/simple_reg.cc:386-414 | plus: likewise |
| SimpleReg.RegExp.RepeatOpt | base/simple_reg.cc:415-435 | question mark: likewise |
| SimpleReg.RegExp.ProcessItem | base/simple_reg.cc:490-510 | one item of a bracket expression: its characters are appended, or its range is refused |
| SimpleReg.RegExp.ProcessItems | base/simple_reg.cc:488-519 | the items up to the closing bracket, exactly as the grammar reads them |
| SimpleReg.RegExp.ProcessClass | base/simple_reg.cc:467-525 | a bracket expression becomes one node with the set of its characters |
| SimpleReg.RegExp.ProcessLiteral | base/simple_reg.cc:554-587 | a run of ordinary characters, of which the last is left to a repetition behind it; by `RegGrammar.ParsedIff` no other |
| SimpleReg.RegExp.ProcessChar | base/simple_reg.cc:447-587 | one atom: the code of the tree the grammar finds is appended, or the same error is returned |
| SimpleReg.RegExp.ProcessBlock | base/simple_reg.cc:343-445 | one atom with its repetition: likewise, with every link re-made |
| SimpleReg.RegExp.ProcessBranch | base/simple_reg.cc:307-341 | one branch: likewise |
| SimpleReg.RegExp.Compile | base/simple_reg.cc:228-305 | all branches and the closing node: likewise, for the pattern and for a group in parentheses |
| SimpleReg.RegExp.CheckIfBOL | base/simple_reg.cc:714-737 | the flag is set exactly when the pattern has one branch that starts with an anchor |
| RegTheorems.AnchoredIff | base/simple_reg.cc:714-737 | of the trees of the grammar those are anchored that are one branch beginning with "^" or "^+" |
| SimpleReg.RegExp.Init | base/simple_reg.cc:28-41 | a pattern is accepted exactly when the grammar accepts it and its program fits, and then the program is that of its one tree (`RegGrammar.ParsedIff`, `RegTheorems.AcceptedIff`); a refusal has the error of the grammar or of the length |
| SimpleReg.RegExp.MatchSymbol | base/simple_reg.cc:80-164 | the opcodes that test characters move the index as the outcome semantics says |
| SimpleReg.RegExp.MatchBranches | base/simple_reg.cc:186-212 | the loop over alternatives tries each but the last by a recursive call and goes on with the last |
| SimpleReg.RegExp.Match | base/simple_reg.cc:62-226 | the interpreter loop returns the verdict of the step semantics |
| SimpleReg.RegExp.Check | base/simple_reg.cc:43-60 | success means that the pattern occurs in the subject (or the quirk of the empty subject), failure that it does not |
| RegTheorems.ProgramIsWired | base/simple_reg.cc:228-305 | the program of every accepted pattern is a closed graph: every link leads to a node of the program and the end node ends it |
| RegTheorems.MatchAgrees | base/simple_reg.cc:62-226 | for every accepted pattern, subject and start a search that ends gives the first answer of the outcome semantics |
| RegTheorems.MatchEnds | base/simple_reg.cc:62-226 | and it ends whenever that answer is not preceded by an iteration that consumes nothing |
| RegTheorems.MatchEndsIff | base/simple_reg.cc:62-226 | a search ends, with enough steps, if and only if the first outcome of the tree is not an iteration that consumes nothing |
| RegTheorems.AnswerIsLanguage | base/simple_reg.cc:62-226 | a success is a match of the language at that start, a failure means that there is none |
| RegTheorems.SuccessIsMatch | base/simple_reg.cc:62-226 | for every accepted pattern, dots included: a search that succeeds has found an ordinary match if and only if the end it arrives at lies inside the subject |
| RegTheorems.MatchDecides | base/simple_reg.cc:62-226 | without dots and with loop bodies that consume, the search always ends, with success if and only if some prefix of the rest of the subject is in the language |
| RegTheorems.OrdinaryDecides | base/simple_reg.cc:62-226 | without dots and with loop bodies that consume, the search decides the ordinary language |
| RegTheorems.NullableLoopSpins | base/simple_reg.cc:357-414 | a loop over a body that can match nothing gets into an empty iteration on every subject |
| RegTheorems.NullableLoopRunsForever | base/simple_reg.cc:62-226 | so that a pattern that is such a loop makes the search run forever: the condition of the previous result cannot be dropped |
| RegTheorems.LoopEndsIff | base/simple_reg.cc:62-226 | a pattern that is one loop, with no other loop over nothing in its body and without dots and anchors: its search ends if and only if the body cannot match nothing |
| RegTheorems.OptionalInLoop | base/simple_reg.cc:62-226 | the pattern "(a?)*" is accepted, and its search never ends, on any subject |
| RegTheorems.AnchoredOnlyAtStart | base/simple_reg.cc:714-737 | a pattern flagged as anchored matches nowhere but at the start, so the search at index 0 loses nothing |
| RegTheorems.CheckMeans | base/simple_reg.cc:43-60 | for every accepted pattern a check that ends is right about whether the pattern occurs in the subject; only an unanchored pattern on the empty subject succeeds regardless |
| RegTheorems.CheckDecides | base/simple_reg.cc:43-60 | without dots and with loop bodies that consume, a check always ends, with success if and only if the pattern occurs or the subject is empty and the pattern not anchored |
| RegTheorems.ClassMeaning | base/simple_reg.cc:488-519 | a bracket expression accepts exactly what its items cover, a negated one the rest |
| RegTheorems.EndIsMissed | base/simple_reg.cc:53-57 | no search starts behind the last character: the end anchor is not found in "a" |
| RegTheorems.DotPastEnd | base/simple_reg.cc:91-95 | the dot accepts the place behind the last character: the check of ".." on "x" ends with success |
| RegTheorems.DotOverruns | base/simple_reg.cc:91-95 | with a literal behind the dots the check is an error instead of a mismatch: "..a" on "x" ends with the code for a bad range |
| RbShape.RotateLeftKeeps | mystl/my_rb_tree.h:1066-1084 | a left rotation keeps the order of the entries |
| RbShape.RotateRightKeeps | mystl/my_rb_tree.h:1086-1104 | so does a right rotation |
| RbShape.RecolourStep | mystl/my_rb_tree.h:1021-1063 | recolouring moves a red child of a red node two levels up and keeps the black height |
| RbShape.TurnStep | mystl/my_rb_tree.h:1021-1063 | the outer rotation ends the insertion fix-up |
| RbShape.InnerStep | mystl/my_rb_tree.h:1021-1063 | an inner child is first turned outward |
| RbShape.RedSiblingStep | mystl/my_rb_tree.h:900-1018 | erasing: a red sibling is turned away |
| RbShape.PassUpStep | mystl/my_rb_tree.h:900-1018 | erasing: the missing black moves up past a black sibling |
| RbShape.SettleStep | mystl/my_rb_tree.h:900-1018 | erasing: a red nephew settles the missing black |
| RbTree.RotateLeft | mystl/my_rb_tree.h:1066-1084 | the rotation of the nodes is the rotation of the tree they stand for, parent links included |
| RbTree.RotateRight | mystl/my_rb_tree.h:1086-1104 | likewise |
| RbTree.InsertRebalance | mystl/my_rb_tree.h:1021-1063 | after the loop no red node has a red child, all paths have as many black nodes, the root is black, the order of the entries is the same, and the tree is the one the recursive reference function `RbShape.Restored` gives |
| RbTree.EraseRebalance | mystl/my_rb_tree.h:900-1018 | after the loop the missing black is made up for, with the order of the entries the same, and the tree is the one the recursive reference function `RbShape.Refilled` gives |
| RbTree.RedBlackTree.constructor | mystl/my_rb_tree.h:261-268 | an empty tree whose header points to itself |
| RbTree.RedBlackTree.FindPlace | mystl/my_rb_tree.h:592-603 | the place for a value is behind everything that is not greater, the one of the reference descent |
| RbTree.RedBlackTree.Insert | mystl/my_rb_tree.h:634-666 | the new value stands at its place in any node that is not in use, an erased one included; colours and links are in order and the tree is the reference function's; what the header takes for its ends is given exactly, and whether it knows them: as before, or because the node it pointed to is the new one and the new one is the end |
| RbTree.RedBlackTree.InsertEqual | mystl/my_rb_tree.h:592-603 | the entries are the old ones with the new one behind all that are not greater, whatever free node it gets; the tree is `RbShape.Grown` of the old one; the header's ends as for `Insert` |
| RbTree.RedBlackTree.InsertUnique | mystl/my_rb_tree.h:605-632 | a value is added if and only if: always, when its place is left of the node the header takes for the first; else, before everything, when the value in the header is less and the header does not take the root for the first node; else when there is no equivalent; a header that knows the first node makes that the last case alone; a duplicate is added exactly in the first case; what is returned on refusal |
| RbTree.RedBlackTree.Rival | mystl/my_rb_tree.h:616-626 | the node whose value decides is the one before the place; none left of the node the header takes for the first; before everything, the header or the root |
| RbTree.RedBlackTree.LowerBound | mystl/my_rb_tree.h:439-451 | the first node whose value is not less, or the header |
| RbTree.RedBlackTree.Find | mystl/my_rb_tree.h:572-590 | the first node with an equivalent value, or the header if and only if there is none |
| RbTree.RedBlackTree.Decrement | mystl/my_rb_tree.h:80-96 | the previous node in the order; from the header what it takes for the last node; from the first node the header, or the root if the header takes that for the first |
| RbTree.RedBlackTree.Increment | mystl/my_rb_tree.h:61-78 | the next node in the order, after the last one the header, whatever the header takes for its ends |
| RbTree.RedBlackTree.Erase | mystl/my_rb_tree.h:753-824 | exactly the one value goes, all invariants of links, order, colours and count hold, the tree is the recursive reference function `RbShape.Shrunk` of the old one; what the header takes for its ends afterwards and whether it knows them, for any ends before; a header that knew both goes on to if and only if the node taken out is not, with a child, an end below the root's children |
| RbTree.RedBlackTree.Shallow | mystl/my_rb_tree.h:592-666 | in every reachable tree the longest way down is at most twice the logarithm of the number of values |
| RbTree.RedBlackTree.Remove | mystl/my_rb_tree.h:753-824 | the node with one child at most is spliced out and the colours restored as the reference function does, with the same on the ends |
| RbRun.SixInserted | mystl/my_rb_tree.h:605-666 | six unique insertions reach a tree in which the header knows both ends and the first node is one whose removal loses it |
| RbRun.LostFront | mystl/my_rb_tree.h:605-824 | after its removal 0, which is not in the tree, is added if and only if the unset value in the header is less; the header knows the first node then exactly when 0 got the memory of the removed node |
| RbRun.Duplicated | mystl/my_rb_tree.h:605-824 | after its removal 6 gets its memory, and a second 5 is added by the unique insertion |
| Range.Exchange | mystl/my_stl_algobase.h:900-910 | an exchange of two places rearranges the range |
| Sorting.UnguardedLinearInsert | mystl/my_stl_algobase.h:900-910 | an element goes down to its place among sorted ones without a check for the front, given that something there is not greater |
| Sorting.LinearInsert | mystl/my_stl_algobase.h:889-898 | the next element is put among the sorted ones, at the front by one block move |
| Sorting.InsertionSort | mystl/my_stl_algobase.h:879-887 | the range is sorted and rearranged |
| Sorting.UnguardedInsertionSort | mystl/my_stl_algobase.h:1034-1045 | every insertion of the final pass stays inside the range because any two elements 16 or more apart are in order |
| Sorting.FinalInsertionSort | mystl/my_stl_algobase.h:1023-1032 | a range in which any two elements 16 or more apart are in order is sorted |
| Sorting.Median | mystl/my_stl_algobase.h:917-936 | one of the three values, with one of the others on each side |
| Sorting.ScanUp | mystl/my_stl_algobase.h:943-960 | the upward scan stops inside the range |
| Sorting.ScanDown | mystl/my_stl_algobase.h:943-960 | the downward scan stops inside the range |
| Sorting.UnguardedPartition | mystl/my_stl_algobase.h:943-960 | neither scan leaves the range, both parts are non-empty, one has nothing greater than the pivot, the other nothing less |
| Sorting.PartitionByMedian | mystl/my_stl_algobase.h:1005-1021 | the median of first, middle and last bounds both scans |
| Sorting.Lg | mystl/my_stl_algobase.h:996-1003 | the floor of the binary logarithm |
| Sorting.IntrosortLoop | mystl/my_stl_algobase.h:1005-1021 | whatever is left to the final pass has any two elements 16 or more apart in order, by partition or, when the depth is used up, by heap sort; the depth is the measure of the recursion |
| Sorting.Sort | mystl/my_stl_algobase.h:988-994 | every range becomes a rearrangement of itself in which no rank comes before a smaller one, and nothing outside it changes |
| Sorting.NthElement | mystl/my_stl_algobase.h:1116-1135 | the element at nth is the one a full sort would put there, with nothing greater before and nothing less behind |
| Heap.PartialSort | mystl/my_stl_algobase.h:834-850 | the smallest elements are in front in order, the others behind |
| Heap.SiftStep | mystl/my_heap.h:55-80 | moving the greater child into the hole keeps the heap but for the hole |
| Heap.RootIsGreatest | mystl/my_heap.h:36-52 | no element of a heap is greater than its root |
| Heap.AdjustHeap | mystl/my_heap.h:55-80 | a hole in a heap is filled on its way down and the value put in its place, all elements kept |
| Heap.MakeHeap | mystl/my_heap.h:85-106 | every range becomes a heap of the same elements |
| Heap.PopHeapTo | mystl/my_heap.h:46-52 | the root moves out and the rest is a heap |
| Heap.PopHeap | mystl/my_heap.h:36-52 | the greatest element moves to the end of the range |
| Heap.SortHeap | mystl/my_heap.h:110-115 | a heap becomes a sorted range of the same elements |
| Heap.SwimStep | mystl/my_heap.h:23-31 | exchanging with the parent keeps the heap but for the hole |
| Heap.PushHeap | mystl/my_heap.h:11-31 | the last element joins the heap |
| Rotation.RotatedAt | mystl/my_stl_algo.h:889-895 | the rotated range has at place k the element shift places on, cyclically |
| Rotation.RotateForward | mystl/my_stl_algo.h:897-913 | rotation by swaps in one direction gives the rotated range |
| Rotation.ThreeReversals | mystl/my_stl_algo.h:915-921 | reversing both parts and then the whole is the rotation |
| Rotation.Reverse | mystl/my_stl_algo.h:853-871 | a range reversed in place |
| Rotation.RotateBidirectional | mystl/my_stl_algo.h:915-921 | rotation by three reversals gives the rotated range |
| Rotation.Gcd | mystl/my_stl_algo.h:932-940 | the result divides both numbers and is a sum of multiples of them |
| Rotation.StepsTo | mystl/my_stl_algo.h:942-958 | from any place the steps of a cycle reach every place at a distance that the gcd divides |
| Rotation.ClosedHolds | mystl/my_stl_algo.h:942-958 | so that what is closed under steps contains the whole residue class |
| Rotation.RotateCycle | mystl/my_stl_algo.h:942-958 | one cycle moves exactly the places of its residue class, each once |
| Rotation.RotateRandomAccess | mystl/my_stl_algo.h:923-930 | rotation by gcd many cycles gives the rotated range: the cycles cover every place exactly once |
| PoolState.TakeKeeps | mystl/my_default_stl_alloc.h:74-96 | taking the head of a list keeps every list a chain of free blocks of its own size, all blocks apart, and the bytes conserved |
| PoolState.GiveKeeps | mystl/my_default_stl_alloc.h:98-114 | so does putting a block back |
| PoolState.CutKeeps | mystl/my_default_stl_alloc.h:186-197 | so does cutting a chunk off the pool |
| PoolState.ReclaimKeeps | mystl/my_default_stl_alloc.h:212-226 | so does turning a free block into the pool |
| PoolState.DivideKeeps | mystl/my_default_stl_alloc.h:140-176 | so does dividing a chunk into blocks of one size |
| PoolState.DivideLists | mystl/my_default_stl_alloc.h:140-176 | the blocks of a divided chunk behind the first stand in their order at the head of the list |
| PoolAlloc.Multiples | mystl/my_default_stl_alloc.h:198-200 | what is asked for is a multiple of eight and enough for the blocks wanted |
| PoolAlloc.SaveLeftoverKeeps | mystl/my_default_stl_alloc.h:201-207 | the rest of the pool is a block of a size that has a list |
| PoolAlloc.Allocator.ChunkAlloc | mystl/my_default_stl_alloc.h:178-237 | as many blocks as the pool has room for, up to the wanted number, from its start; without room for one, all the wanted blocks from new memory, whose rest is the pool, else from a larger free block without any new memory, else from the handler; fails only if both memory sources do |
| PoolAlloc.Allocator.CutBlocks | mystl/my_default_stl_alloc.h:186-197 | from the pool come as many blocks as it has room for, up to the wanted number |
| PoolAlloc.Allocator.Replenish | mystl/my_default_stl_alloc.h:198-235 | new memory is twice what is wanted and a sixteenth of all there is, rounded up to eight; without it a free block is taken, and the handler is asked when there is none |
| PoolAlloc.Allocator.KeepLeftover | mystl/my_default_stl_alloc.h:201-207 | the rest of the pool goes to the list of its size |
| PoolAlloc.Allocator.ReclaimBlock | mystl/my_default_stl_alloc.h:212-226 | the pool becomes the first block of the first list that has one, of those of blocks large enough; nothing is found if and only if all of them are empty |
| PoolAlloc.Allocator.FillPool | mystl/my_default_stl_alloc.h:208-235 | the pool is filled so that the second call of the recursion succeeds, from the first of the three sources that has something |
| PoolAlloc.Allocator.Refill | mystl/my_default_stl_alloc.h:140-176 | up to twenty blocks, all of them when memory is new: the first is for the client, the others are linked into the list in their order, whose overwritten head was empty |
| PoolAlloc.Allocator.LinkBlocks | mystl/my_default_stl_alloc.h:157-173 | the links of a chunk are written |
| PoolAlloc.Allocator.Allocate | mystl/my_default_stl_alloc.h:74-96 | the client gets a block of the multiple of eight next to what it asks, the head of its list if there is one, that no other client holds; all that clients hold stays theirs; a block above 128 bytes is not the pool's and leaves it as it is |
| PoolAlloc.Allocator.Deallocate | mystl/my_default_stl_alloc.h:98-114 | the block is no longer the client's and is put in front of its list, the other lists stay; no byte of any other client changes; a block above 128 bytes changes nothing |
| PoolAlloc.Allocator.ClientWrite | mystl/my_default_stl_alloc.h:74-114 | whatever clients write into their blocks leaves every list intact |
| HashChain.PushProper | mystl/my_hashtable.h:497-505 | moving a node to the front of its new chain keeps equal keys side by side, given that its class is at the front if it is there |
| HashChain.InsertProper | mystl/my_hashtable.h:547-556 | a node behind one with an equal key keeps equal keys side by side |
| HashChain.HoldingInsert | mystl/my_hashtable.h:488-563 | the chains hold the contents and the multiplicity of every class after one more value |
| HashTable.NextPrime | mystl/my_hashtable.h:26-32 | the smallest listed prime not below the argument, at least 53, or the last one, 4294967291 |
| HashTable.MoveBetween | mystl/my_hashtable.h:497-505 | a step of the rehash keeps the values of both tables together |
| HashTable.MoveMeeting | mystl/my_hashtable.h:497-505 | only the class being moved is in both tables, at the front of its old and of its new chain |
| HashTable.WholeRun | mystl/my_hashtable.h:605-642 | a run of equal keys is all there is of the class |
| HashTable.HashTable.constructor | mystl/my_hashtable.h:198-210 | an empty table |
| HashTable.HashTable.Resize | mystl/my_hashtable.h:484-514 | the same values, each in its own bucket, equal keys side by side, and as many buckets as the hint asks for, up to the last prime |
| HashTable.HashTable.InsertUniqueNoresize | mystl/my_hashtable.h:516-536 | a value is added if and only if no key is equal |
| HashTable.HashTable.InsertEqualNoresize | mystl/my_hashtable.h:538-563 | a value is added next to an equal key |
| HashTable.HashTable.InsertUnique | mystl/my_hashtable.h:280-283 | likewise, after a resize that leaves as many buckets as values |
| HashTable.HashTable.InsertEqual | mystl/my_hashtable.h:285-288 | likewise |
| HashTable.HashTable.LowerBound | mystl/my_hashtable.h:662-675 | the first node of the chain with an equal key, or null |
| HashTable.HashTable.Find | mystl/my_hashtable.h:647-651 | a node with an equal key is found if and only if there is one |
| HashTable.HashTable.UpperBound | mystl/my_hashtable.h:696-727 | what follows the run of equal keys: the next node of the chain, else the first node of the least later chain that has one; null if and only if there is none |
| HashTable.HashTable.Increment | mystl/my_hashtable.h:109-124 | the next node of the chain, else the first node of the least later chain that has one; null if and only if there is none |
| HashTable.HashTable.Begin | mystl/my_hashtable.h:234-245 | the first node of the first chain that has one; null if and only if the table is empty |
| HashTable.HashTable.Traverse | mystl/my_hashtable.h:109-124 | an iteration from the first node on until the end visits every stored node exactly once, and the values visited are the contents |
| HashTable.HashTable.Count | mystl/my_hashtable.h:628-634 | the steps from lower to upper bound are the true multiplicity of the key |
| HashTable.HashTable.Erase | mystl/my_hashtable.h:402-421 | exactly the value the iterator points at goes |
| SkipList.AfterInsert | base/skip_list.h:155-170 | where the links of a level lead after a node is put in |
| SkipList.AfterRemove | base/skip_list.h:223-226 | and after one is taken out |
| SkipList.SplicedWires | base/skip_list.h:155-170 | redirecting the links found by the search gives the links of the longer chain on every level |
| SkipList.BypassedWires | base/skip_list.h:223-226 | bypassing a node on its levels gives the links of the shorter chain on every level |
| SkipList.Inserted | base/skip_list.h:113-173 | the sorted entries with one more stand for the map with one more key |
| SkipList.Removed | base/skip_list.h:198-242 | the sorted entries without one stand for the map without its key |
| SkipList.SkipList.constructor | base/skip_list.h:105-106 | a list without a head |
| SkipList.SkipList.Init | base/skip_list.h:244-264 | an empty list with the head alone |
| SkipList.SkipList.Get | base/skip_list.h:175-196 | the value of the key in the map, not found if and only if the key is not in it |
| SkipList.SkipList.Shortcuts | base/skip_list.h:113-242 | in every reachable list the keys ascend along the chain and stand for the map, and each node, the head on all 20 levels, is linked on each of its levels to the next node as high as that |
| SkipList.SkipList.SeekNew | base/skip_list.h:117-134 | the search finds an equal key if there is one, and else on every level the last node before the key's place |
| SkipList.SkipList.SeekOld | base/skip_list.h:202-217 | the search for deletion finds the last node before the key on every level |
| SkipList.SkipList.Splice | base/skip_list.h:155-170 | a new node of any height is linked in on all its levels, above the old levels behind the head |
| SkipList.SkipList.Put | base/skip_list.h:113-173 | the map gains the entry unless the key is there; every level remains exactly the nodes tall enough for it, in order, and levels from the maximum height on are empty |
| SkipList.SkipList.Bypass | base/skip_list.h:223-226 | a node is unlinked on all its levels |
| SkipList.SkipList.Lower | base/skip_list.h:231-239 | the maximum height becomes that of the tallest node |
| SkipList.SkipList.Del | base/skip_list.h:198-242 | the map loses the key, or nothing happens if and only if it is not there |
| Framing.MessagesOf | cs/server.cc:167-390 | what has been framed can be read back, whatever follows |
| Server.Conn.constructor | cs/server.cc:150-158 | a new connection has received, sent and handled nothing |
| Server.Conn.ReadHead | cs/server.cc:185-211 | the bytes of the length, however they arrive |
| Server.Conn.EventCmd | cs/server.cc:180-212 | the start of a message |
| Server.Conn.EventWait | cs/server.cc:214-240 | the rest of a length |
| Server.Conn.Handle | cs/server.cc:244-283 | the message is refused or the action called with exactly it, once; what is to be sent is the length and the output of a successful action, the length and "Failed to do user action" for a failed or empty one, the length and "Now flow restrict!" for a refusal |
| Server.Conn.EventRead | cs/server.cc:242-344 | the body, however it arrives; with a length of 2^31 or more the event changes nothing |
| Server.Conn.EventWrite | cs/server.cc:346-380 | the reply goes out in order, however much each write takes |
| Server.Conn.ClientEvent | cs/server.cc:167-390 | one event under any results of reads and writes: nothing received, sent or handled is taken back; once a length of 2^31 or more has been read no event receives, sends, calls or handles anything, and that stays so |
| Server.Conn.LeastStuckHead | cs/server.cc:199-209 | the head 0, 0, 0, 128 is such a length |
| Server.Conn.HandledIsRead | cs/server.cc:167-390 | in every reachable state the messages handled are exactly the frames in the bytes received, in order, each given to the action unless refused; the bytes sent are a prefix of the framed replies, and the i-th reply is the output of the i-th call or one of the two texts |
| LoadCtrl.LoadCtrl.constructor | base/load_ctrl.cc:30-62 | a limiter with all counters at zero |
| LoadCtrl.LoadCtrl.Advance | base/load_ctrl.cc:137-141 | one step of the ring: the oldest counter leaves the running count, which stays the sum of the counters |
| LoadCtrl.LoadCtrl.StartOver | base/load_ctrl.cc:125-130 | all counters are emptied and the ring starts anew |
| LoadCtrl.LoadCtrl.Shift | base/load_ctrl.cc:135-147 | the ring moves by the whole units of time that have passed |
| LoadCtrl.LoadCtrl.UpdateGrids | base/load_ctrl.cc:121-152 | the counters afterwards are those that the 32-bit difference moves, all or none of; what is no longer counted is older than total minus unit time; whether the difference has turned over since the start time |
| LoadCtrl.LoadCtrl.CheckFlow | base/load_ctrl.cc:86-107 | a request is refused if and only if the counters that remain add up to more than max; the refusal is justified, by max + 1 requests admitted in the last total plus unit time, if and only if those were all admitted since the difference last turned over (the converse where span, two units and twice the delay of the clock are less than a turn); no turn happens when less than 2^32 microseconds minus a unit have passed since the last call, and a turn is forgotten after total plus unit time |
| LoadCtrl.LoadCtrl.Refused | base/load_ctrl.cc:98-101 | the condition for a justified refusal in every valid state, in both directions |
| LoadCtrl.LateRefusal | base/load_ctrl.cc:121-152 | eleven requests at one time and one 2^32 + 50000 microseconds later: the last is refused although nothing was admitted for 71 minutes |
| LoadCtrl.Twelfth | base/load_ctrl.cc:86-152 | a limiter of at most ten in a second that has admitted eleven at one time refuses the next one if and only if it comes less than 1000000 microseconds later, for the half hour that the 32-bit difference reaches |
| LoadCtrl.FallsOff | base/load_ctrl.cc:137-141 | what falls off the ring is older than the span the counters cover |
| LoadCtrl.SpacedSnoc | base/load_ctrl.cc:98-106 | admitting while no more than max are counted keeps max + 2 admitted requests in a row at least the span apart |
| LoadCtrl.WindowBound | base/load_ctrl.cc:86-107 | a window no longer than the span holds at most max + 1 of such requests |
| LoadCtrl.LoadCtrl.AtMost | base/load_ctrl.cc:86-107 | for every run of calls with a clock that does not go back: any window no longer than total minus unit time, in milliseconds of 1000, holds at most max + 1 admitted requests |
| Framing.ValueOfFixed32 | base/coding.cc:44-74 | the four bytes of a length give the length back |
| Framing.ByteWeights | base/coding.cc:44-74 | the bytes of a length weigh 1, 256, 65536 and 16777216 |
| Framing.Fixed32OfValue | base/coding.cc:44-74 | and four bytes are the encoding of the length they give |
| Kmp.BruteForce | base/coding.cc:957-978 | the first occurrence, or that there is none |
| Kmp.ExtendBorder | base/coding.cc:980-997 | a border can be extended exactly when the next elements agree |
| Kmp.BuildNext | base/coding.cc:980-997 | the table is the longest border of every prefix; a table with one entry per element of the needle, as `KMP` makes it, has the last store behind its end; shorter tables and the empty needle are refused |
| Kmp.FallBack | base/coding.cc:1016-1025 | falling back to the border skips no occurrence |
| Kmp.Search | base/coding.cc:999-1032 | the first occurrence, or that there is none |
| Kmp.AnswersAgree | base/coding.cc:957-1032 | so that both searches agree on every haystack and needle |
| Memcomparable.OrderKept | base/coding.cc:1165-1185 | for all byte strings: one precedes the other exactly when its encoding precedes the other's |
| Memcomparable.EncodedAt | base/coding.cc:1165-1185 | of each started eight bytes the encoding has the bytes, zeros up to eight, and a marker: nine if more follows, else how many there are |
| Memcomparable.EncodedLength | base/coding.cc:1165-1185 | nine bytes for each started eight |
| Memcomparable.Decodes | base/coding.cc:1187-1206 | a string is decoded if and only if its length is a multiple of nine and each ninth byte is from 1 to 9 |
| Memcomparable.RoundTrip | base/coding.cc:1165-1206 | decoding the encoding gives the string back |
| Memcomparable.EncodedInjective | base/coding.cc:1165-1185 | different strings have different encodings |
| Memcomparable.EncodedSteps | base/coding.cc:1165-1185 | what one round of the encoding loop appends |
| Memcomparable.DecodedSteps | base/coding.cc:1187-1206 | what one round of the decoding loop reads |
| Memcomparable.MemcomparableEncode | base/coding.cc:1165-1185 | the loop computes the encoding |
| Memcomparable.MemcomparableDecode | base/coding.cc:1187-1206 | the loop decodes, or refuses what is not a chain of chunks |
| BigInt.Reverse | base/util.cc:418-428 | the string read backwards |
| BigInt.TrimLeftChar | base/util.cc:40-50 | only leading delimiters go, and all of them |
| BigInt.TrimRightChar | base/util.cc:64-74 | only trailing delimiters go, and all of them |
| BigInt.Trim | base/util.cc:31-38 | spaces, plus signs, tabs, carriage returns and line feeds at both ends go, and nothing else |
| Numeral.DenotesWritten | base/util.cc:323-366 | an input that denotes a number is padding of those five characters, a minus sign or none, digits, and padding |
| Numeral.WrittenDenotes | base/util.cc:323-366 | and every such input denotes its digits' number with its sign |
| BigInt.CheckAndGetIfIsAllNum | base/util.cc:323-366 | exactly the inputs with an optional minus sign and at least one digit between delimiters are numbers; their sign and the numeral without leading zeros have their value |
| BigInt.GetBigAndLitteNum | base/util.cc:376-416 | the comparison by length and then digit by digit is the comparison of the numbers |
| Numeral.LongerIsMore | base/util.cc:385-392 | of two numerals without leading zeros the longer stands for more |
| Numeral.FirstDifference | base/util.cc:393-409 | of two of one length the first different digit decides |
| Numeral.CanonicalUnique | base/int.cc:126-234 | numbers and canonical numerals correspond one to one |
| BigInt.BigAddInternal | base/int.cc:236-297 | the digit loops give the numeral of the sum, without leading zeros |
| BigInt.BorrowGone | base/int.cc:346-350 | after the larger minus the smaller no borrow is left |
| BigInt.BigSubInternal | base/int.cc:299-366 | the digit loop gives the canonical numeral of the difference and never the error |
| BigInt.MultiplyRow | base/int.cc:378-393 | one row is the numeral times one digit and a power of ten |
| BigInt.BigMultiplyInternal | base/int.cc:368-422 | the sum of the rows is the product, without leading zeros |
| BigInt.BigAdd | base/int.cc:126-161 | for every two inputs that are numbers the result denotes their sum; it is canonical unless both have a minus sign and the sum is zero, when it is "-0" |
| BigInt.BigSub | base/int.cc:163-198 | likewise the difference; canonical unless only the first has a minus sign and the difference is zero, when it is "-0" |
| BigInt.NegativeZeros | base/int.cc:126-198 | the sum of "-0" and "-0" and the difference of "-0" and "0" are "-0" |
| BigInt.BigMultiply | base/int.cc:200-234 | likewise the product, always canonical |
| ConsistentHash.RingIsUnique | base/consistent_hash.cc:89-137 | the ring is determined by the addresses and weights alone |
| ConsistentHash.RingExists | base/consistent_hash.cc:89-137 | every set of addresses with weights has a ring |
| ConsistentHash.RingHolds | base/consistent_hash.cc:89-137 | a ring holds exactly the positions of the virtual nodes; no claimant of a position has more weight than its holder, at equal weight none a greater ip, at equal ip none a greater port |
| ConsistentHash.OnlyItsOwn | base/consistent_hash.cc:89-137 | without an address every value that another one owned keeps its owner, wrap-around and collisions included |
| ConsistentHash.AddMovesToNew | base/consistent_hash.cc:18-32 | adding an address moves values to it only |
| ConsistentHash.DelMovesOwnOnly | base/consistent_hash.cc:34-43 | deleting an address moves only the values it owned |
| ConsistentHash.ReweighMovesOwnOnly | base/consistent_hash.cc:18-32 | changing a weight moves values only from or to the address |
| ConsistentHash.Placed | base/consistent_hash.cc:93-112 | one more virtual node keeps each position with the greatest of its claimants |
| ConsistentHash.ConsistentHash.constructor | base/consistent_hash.cc:14-14 | an empty ring |
| ConsistentHash.ConsistentHash.BalanceHashRing | base/consistent_hash.cc:89-137 | in whatever order the addresses are gone through, the ring is theirs: exactly the claimed positions, each held by the claimant of most weight, then of the greatest ip, then of the greatest port |
| ConsistentHash.ConsistentHash.Put | base/consistent_hash.cc:18-32 | the address has the weight and the ring belongs to the addresses |
| ConsistentHash.ConsistentHash.Del | base/consistent_hash.cc:34-43 | the address is gone and the ring belongs to the addresses |
| ConsistentHash.ConsistentHash.Get | base/consistent_hash.cc:45-62 | the holder of the next position at or after the hash, or of the first one |
| KdTree.CalculateDistance | base/algo.cc:102-113 | the loop adds up the squared differences of all axes; refused if and only if the numbers of coordinates differ |
| KdTree.DistAxis | base/algo.cc:106-109 | one more axis adds the product of its difference with itself, whatever the other axes |
| KdTree.DistMeasures | base/algo.cc:106-109 | the squared distance is the end of the sums over the axes, one after another, and no other number is |
| KdTree.AxisBound | base/anns.cc:230-232 | no point is nearer than its distance along one axis |
| KdTree.Pruned | base/anns.cc:223-249 | beyond an axis at least as far away as the best so far nothing is nearer |
| KdShape.AxisTurns | base/anns.cc:104-104 | the axes take turns with the depth, from the first to the last and again |
| KdTree.BruteForceANNS | base/anns.cc:24-53 | the first point at the least sum of squared differences over all axes; refused if and only if there is no point or one has another number of coordinates |
| KdTree.InitInternal | base/anns.cc:86-180 | a tree of exactly the points, split by the coordinate of each depth; with fewer than 2^(65 - depth) acceptable points the depth guard does not fire |
| KdTree.KDTree.Init | base/anns.cc:79-84 | every acceptable set of points that fits in a 64-bit machine is built; any other is refused |
| KdTree.NearestNeighborInternal | base/anns.cc:192-251 | the search of a subtree leaves nothing nearer than the best it returns, despite pruning |
| KdTree.KDTree.NearestNeighbor | base/anns.cc:183-190 | the result is a stored point at the least sum of squared differences over all axes, and that sum; refused if and only if there is no tree or the query has another number of coordinates |
| KdTree.NearestAgree | base/anns.cc:24-53 | so that search and linear scan give the same distance |
| BkdTree.InsertedKeeps | base/bkd_tree.h:46-54 | insertion keeps the split at every depth and adds the one point |
| BkdTree.Pruned | base/bkd_tree.h:69-72 | a subtree on the wrong side of the box has no point in it |
| BkdTree.InBoxCounts | base/bkd_tree.h:56-73 | a point is in the result as often as it is in the tree if it is in the box, and else not |
| BkdTree.BKDTree.Insert | base/bkd_tree.h:33-33 | the point is added |
| BkdTree.BKDTree.InsertRec | base/bkd_tree.h:46-54 | the nodes change to those of the tree with the point |
| BkdTree.BKDTree.RangeQuery | base/bkd_tree.h:36-38 | exactly the inserted points between the bounds, both included, on every axis are appended, with their multiplicity |
| BkdTree.BKDTree.RangeQueryRec | base/bkd_tree.h:56-73 | the points of the subtree in the box are appended in preorder |
| Elevator.ElevatorLook | base/elevator.cc:141-187 | exactly the requests, going up those from the floor on upwards and then the others downwards, going down the other way round; the length is the sum of the distances from floor to floor, in 32 bits |
| Elevator.RouteCost | base/elevator.cc:141-187 | the length of the sweep depends only on the outermost requests |
| Elevator.LookIsOptimal | base/elevator.cc:141-187 | the cheaper direction is as short as any order of the requests |
| Elevator.BetterDirection | base/elevator.cc:141-187 | up is the cheaper direction if and only if the top is not farther than the bottom |
| Elevator.TotalFits | base/elevator.cc:180-184 | with floors below 2^31 the total does not wrap |
| HyperLogLog.RankMeans | base/algo.h:87-114 | the rank of a word is the position of its highest one, from the top |
| HyperLogLog.RaisedCounts | base/algo.h:210-220 | a 64-bit hash whose low p bits are i and whose rest is w raises register i alone, to the position of the highest one of w among 64 - p bits |
| HyperLogLog.MaximaAdd | base/algo.h:210-263 | one more hash: its register is raised to its rank |
| HyperLogLog.MaximaJoin | base/algo.h:280-288 | the pointwise maximum belongs to the union of the hashes |
| HyperLogLog.MaximaUnique | base/algo.h:210-288 | the hashes determine the registers |
| HyperLogLog.MergeLaws | base/algo.h:280-288 | merging is commutative, associative and idempotent on the registers |
| HyperLogLog.SameReading | base/algo.h:290-309 | the sparse list and the registers give the estimate the same sum and the same number of zeros |
| HyperLogLog.HalfMeans | base/algo.h:290-309 | what a register adds to the sum is the inverse of its power of two |
| HyperLogLog.HyperLogLog.Init | base/algo.h:163-208 | empty registers; refused if and only if the precision is not 4 to 20 |
| HyperLogLog.HyperLogLog.AddHash | base/algo.h:210-263 | in either form the register of the low p bits alone is raised, to the rank of the rest; no internal error occurs, and the list stays sorted until five bytes an entry are more than half a byte a register, when it becomes the array |
| HyperLogLog.HyperLogLog.AddSparse | base/algo.h:222-263 | the entry of the sorted list is raised or put in at its place |
| HyperLogLog.HyperLogLog.Densify | base/algo.h:471-481 | the registers do not change |
| HyperLogLog.HyperLogLog.DensifyWithCheck | base/algo.h:439-469 | likewise, and no error occurs |
| HyperLogLog.MergeSortedVectors | base/algo.h:369-395 | the merged list shows the pointwise maximum and is no longer than both together |
| HyperLogLog.HyperLogLog.MergeSparseSparse | base/algo.h:345-360 | two sparse counters |
| HyperLogLog.HyperLogLog.MergeDenseDense | base/algo.h:417-423 | two arrays, also one with itself |
| HyperLogLog.HyperLogLog.MergeToDense | base/algo.h:402-437 | with a dense one on either side, also a counter with itself |
| HyperLogLog.HyperLogLog.Merge | base/algo.h:280-288 | whatever the forms, every register becomes the greater of the two; refused if and only if one is not initialised or the precisions differ |
| HyperLogLog.HyperLogLog.Observe | base/algo.h:290-309 | in both forms the sum of the inverse powers of two of all registers and the number of registers that are 0 |
| HyperLogLog.SameHashesSameRegisters | base/algo.h:210-288 | after any runs of additions and merges, counters that took in the same hashes have the same registers |

## Left out

- Regular expressions: the error returns that the proofs show unreachable (positions out of range inside the compiler, an operand of the invalid node) are not written out.
- Regular expressions: `strchr`, `strlen` and `memcmp` over the program are functions on sequences; a NUL inside a pattern ends it, as in the code.
- SimpleReg.RegExp.Match: is called where the search ends; the bound on the steps is a ghost parameter, and when it exists is the subject of `RegTheorems.MatchEnds`.
- SimpleReg.RegExp.MatchBranches: is called where the search ends, like `Match`.
- SimpleReg.RegExp.Check: is called where every search ends, like `Match`; searches that never end are the subject of `RegTheorems.LoopEndsIff`.
- SimpleReg.RegExp.Init: is modelled for patterns without a bracket range that ends at the character 127; the loop that expands such a range never ends, and the parser function answers `Hangs` for it.
- SimpleReg.RegExp.Compile: as `Init`; the pattern's methods are split into helpers (`RepeatStar`, `ProcessClass` and so on) that are parts of one C++ function.
- SimpleReg.RegExp.ProcessBranch: as `Init`, for the part of the pattern it reads.
- SimpleReg.RegExp.ProcessBlock: as `Init`, for the part of the pattern it reads.
- SimpleReg.RegExp.ProcessChar: as `Init`, for the part of the pattern it reads.
- SimpleReg.RegExp.ProcessClass: as `Init`, for the part of the pattern it reads.
- SimpleReg.RegExp.ProcessItems: as `Init`, for the part of the pattern it reads.
- SimpleReg.RegExp.ProcessItem: as `Init`, for the part of the pattern it reads.
- RbTree.RedBlackTree.Erase: the value of the successor is copied before that node is unlinked, which commutes with the order in the code; erasing ranges, copying and swapping trees are not modelled.
- Sorting: the overloads with a comparator, `partial_sort_copy` and merge sort.
- Rotation: the iterators of the forward and the bidirectional version are indices of an array.
- PoolAlloc.Allocator.Allocate: a request of 0 bytes, for which the code reads in front of its lists; for blocks above 128 bytes the results of `malloc` and its handler are parameters; `reallocate`; memory is a map from addresses, blocks are aligned to eight bytes, and new memory is assumed to lie apart from all blocks.
- PoolAlloc.Allocator.Deallocate: a block of 0 bytes, as in `Allocate`.
- HashTable: `erase(key)`, which can link the next bucket's chain into the erased one, and copying and clearing a table; freed nodes are only unlinked.
- SkipList.SkipList.Put: failing allocations; `Destroy` and the iterator, which only walks level 0.
- Server: sockets, the event loop, logging and statistics; a reply is assumed shorter than 2^31 - 4 bytes, and the buffer of a `read` call is the sequence it returns.
- LoadCtrl.LoadCtrl.CheckFlow: `SetMaxFlow` and `Modify` are left out, the maximum is fixed; total and unit time in microseconds are below 2^31; threads are not modelled.
- LoadCtrl.LoadCtrl.UpdateGrids: seconds and microseconds of a time are one number of microseconds.
- Kmp.BuildNext: what the store behind the end of the table does to other memory; Boyer-Moore, whose shift can be zero, and Rabin-Karp.
- Memcomparable: error returns for null pointers, here and everywhere.
- BigInt: lengths are not limited to 32 bits; the conversions to machine integers, `GCD` and the bit operations.
- ConsistentHash: `snprintf` and Murmur32 together are the placement function; `GetPrintInfo`.
- KdTree.KDTree.NearestNeighbor: coordinates are finite reals and distances are represented by their squares, which order them in the same way; NaN and infinite coordinates, rounding and the largest finite double as the initial distance are not modelled.
- KdTree.SortBy: stands for `std::sort`, of which only sortedness and the permutation are used.
- BkdTree: destruction of the tree.
- Elevator: the other five schedulers; SCAN's order is not a permutation when an end floor is also a request.
- HyperLogLog.HyperLogLog.Observe: the sum is an exact real and the estimate computed from it is not modelled; failing allocations; `Add`, which hashes a value first.
- HNSW, product quantisation, moving averages, PID, geo distances: floating-point results.
- Fixed-width codecs, hexadecimal, configuration, files, processes, statistics and the thin wrappers of the containers: they would only add easy members.
