# A verified model of tagfilterdb's cores

tagfilterdb is a C++ library. This project models four of its components in Dafny and proves what each is for.
`dafny verify dfyconfig.toml` checks everything.

**The grammar compiler** (`dwd/`). A grammar becomes an automaton of item sets, the automaton becomes action and
goto tables, and a stack machine parses by them. The model keeps the worklist loops, the growing list of kernels and
the mutable stack. Its main results: the automaton's construction ends on every grammar that has a rule and no empty
development, and builds the canonical automaton for exactly the grammars that tell their items apart; and whatever the
look-ahead sets are, an accepted token list is a sentence of the grammar up to its end mark, and the tree handed back
holds the identifiers in order. Look-ahead sets are an arbitrary map. `LrGrammar`, `ParseTrees`, `LrItems`, `FiniteSets`, `KernelGraph`, `LrCanon`
(which grammars get the automaton they are meant to have), `LrStrategy`, `LrPath` (what lies along a path of the
automaton), `LrMachine` (the parser as a machine, and its runs), `LrParser` (the parser object), `LrCompiler`.

**The spatial index** (`spatialIndex/`). An R-tree on the heap: recursive insertion, overflow splits that cascade,
growth of the root, search with a callback. Every insertion is proved against a relation between tree values
(`RTree`); `RTreeInvariant` proves that the relation keeps the tree balanced, its boxes exact and its contents right,
`RTreeDecided` that it has exactly one outcome, `RTreeSearch` what a search delivers. `SplitSpec` and `GroupAssign`
are the division of an overflowing node, `Box` the boxes, `SpatialNode` and `SpatialIndex` the objects.

**The range set** (`support/range*.hpp`). Sets of integers as sorted lists of intervals that neither meet nor touch,
changed in place. `Range`, `RangeLists`, `RangeCuts` hold the facts about lists, `RangeSet` the class.

**The UTF-8 codec and the stream over it** (`support/utf8.*`, `compiler/inputStream.cpp`). The decoder's tables and
bit operations are proved against the grammar of section 4 of RFC 3629, and the codec against itself in both
directions. `Utf8`, `Utf8Text`, `InputStream`.

## Where the code does not do what it seems to promise

Each of these is modelled as the code has it, with a lemma that says exactly when it matters.

- Items are compared with `&&` where `||` is meant (`dwd/internal/item.cpp:41`), so grouping shifted items may drop
  some. Every edge leads to exactly the shifted items if and only if the grammar has no word that leads to two items
  which compare equal (`LrCanon.AutomatonExact`); words of bounded length decide that (`ShortWordsSuffice`), and a plain
  look at the rules often does (`ClearTellsApart`). `LookAlikesLost` gives a grammar for which an item is always lost.
  What is accepted is derivable all the same.
- `RangeSet::subtract` takes a piece that starts below zero for "no piece" (`support/rangeSet.hpp:136`). The result is
  the difference if and only if no such piece is cut off (`RangeSets.RangeSet.Subtract`); `NegativePieceCut` gives an
  input.
- `BoundingBox::max` returns the lower bound (`spatialIndex/broundingbox.hpp:208`). The seeds of a split differ if and
  only if the lower corners of the boxes do (`SplitSpec.SeedsDiffer`); otherwise the assertion at
  `spatialIndex/spatialIndex.cpp:372` stops the program. Inserting boxes that share a lower corner never gets past the
  first node (`RTreeDecided.StuckRun`).
- `BoundingBox::overlap` takes a reversed interval that begins inside the other for a negative length
  (`spatialIndex/broundingbox.hpp:339`), and `setAxis` with a pair lets reversed intervals in. The result is the size of
  the common part if and only if there is no such axis or some axis has nothing in common (`Boxes.Overlap`); 5..1 in
  0..10 gives -4 (`BackwardMeasured`). The index does not use `overlap`.
- The class allows a `MinChildren` for which a full node and one more entry cannot make two nodes. Then no split
  succeeds (`SplitSpec.DivisionFair`, `RTreeDecided.StuckRun`).
- The result of `addGotos` is overwritten by every item merged, and merging never adds one, so its caller's retry is
  never taken (`KernelGraphs.KernelGraph.AddGotos`).

## Model

| member | source | states |
|---|---|---|
| ParseTrees.TreeDerives | include/tagfilterdb/dwd/parser/LRparser.cpp:116-145 | a parse tree that uses the grammar's rules proves that its root derives the keys of its leaves |
| ParseTrees.ForestDerives | include/tagfilterdb/dwd/parser/LRparser.cpp:116-145 | the same for the trees lying side by side on the stack |
| ParseTrees.ReadingIsIdentifiers | include/tagfilterdb/dwd/parser/ast.cpp:45-51 | the syntax tree of a parse, read with its children reversed, lists exactly the identifier leaves in order |
| LrItems.NewItemsFromSymbolAfterDot | include/tagfilterdb/dwd/internal/item.cpp:68-103 | the worklist yields a dot-0 item for exactly the rules in the least closed set for the symbol after the dot, and ends |
| LrItems.CollectClosers | include/tagfilterdb/dwd/internal/item.cpp:75-95 | the queue loop computes the intersection of all rule sets closed under "rules of the first symbol" |
| LrItems.ClosersClosed | include/tagfilterdb/dwd/internal/item.cpp:75-95 | that least set is itself closed and lies inside every closed set |
| LrItems.ClosersAreChained | include/tagfilterdb/dwd/internal/item.cpp:75-95 | a rule is collected exactly when a chain of rules leads to it from the symbol after the dot, each rewriting the first symbol of the one before |
| LrItems.ClosersNested | include/tagfilterdb/dwd/internal/item.cpp:75-95 | expanding the first symbol of a collected rule brings nothing new |
| LrItems.ClosureClosed | include/tagfilterdb/dwd/internal/update.cpp:26-36 | one pass over the items suffices: expanding any item of the closure stays inside it |
| LrItems.ClosureJustified | include/tagfilterdb/dwd/internal/update.cpp:26-36 | an item the closure added has its dot in front, and a chain of added items leads to it from the dot of a kernel item |
| LrItems.AddedIsAskedFor | include/tagfilterdb/dwd/internal/update.cpp:26-36 | its left side can be shifted from the closure and is not the start symbol |
| LrItems.SelectedExactly | include/tagfilterdb/dwd/lib/unique.cpp:31-41 | grouping by the weak item comparison keeps every item if and only if no two of them compare equal |
| LrItems.SelectedAppend | include/tagfilterdb/dwd/lib/unique.cpp:31-41 | grouping one more item keeps a subset in which every dropped item has a look-alike |
| KernelGraphs.KernelsBounded | include/tagfilterdb/dwd/internal/update.cpp:17-24 | pairwise different kernels number at most two to the number of (rule, dot) pairs, which bounds the growing loop |
| KernelGraphs.KernelGraph.constructor | include/tagfilterdb/dwd/internal/update.cpp:7-10 | for every grammar with a rule and no empty development, construction ends in a finished automaton: different kernels, each closed, with one edge for each symbol that can be shifted, none without a way to it, within the bound |
| KernelGraphs.KernelGraph.Initialize | include/tagfilterdb/dwd/internal/update.cpp:11-25 | on every such grammar the list-growing loop ends, and leaves every kernel finished and entered |
| KernelGraphs.KernelGraph.UpdateClosure | include/tagfilterdb/dwd/internal/update.cpp:26-36 | the kernel's closure becomes its items and all their expansions; nothing else changes |
| KernelGraphs.KernelGraph.CollectShifts | include/tagfilterdb/dwd/internal/update.cpp:41-50 | keys are exactly the symbols after a dot, each once, and each maps to what is kept of its shifted items |
| KernelGraphs.KernelGraph.AddGotos | include/tagfilterdb/dwd/internal/update.cpp:37-81 | one more kernel is finished and the earlier ones stay so; the flag it returns is always false |
| KernelGraphs.KernelGraph.ConnectKey | include/tagfilterdb/dwd/internal/update.cpp:54-78 | the edge leads to the kernel with these items, which is new exactly when no kernel had them |
| KernelGraphs.EdgeIffNext | include/tagfilterdb/dwd/internal/update.cpp:41-50 | a kernel has an edge on a symbol exactly when an item of its closure has the symbol, other than ε, after its dot |
| KernelGraphs.EdgeItems | include/tagfilterdb/dwd/internal/update.cpp:41-79 | an edge leads only to items of the closure with the dot moved over its symbol, and none is missing but where an item with the same development and the same dot or left side stands for it |
| LrPaths.KernelReached | include/tagfilterdb/dwd/internal/update.cpp:52-79 | every kernel is the end of a path of edges from the start kernel |
| LrStrategies.LrStrategy.BuildState | include/tagfilterdb/dwd/internal/LRstrategy.cpp:41-77 | one state for each kernel, and every entry of every state, present or absent, is what the items of the kernel and the recorded follow sets call for |
| LrStrategies.LrStrategy.FillEdges | include/tagfilterdb/dwd/internal/LRstrategy.cpp:47-59 | edges on terminals become shifts, the others gotos, and nothing else is written |
| LrStrategies.LrStrategy.FillReductions | include/tagfilterdb/dwd/internal/LRstrategy.cpp:60-74 | a reduction overrides a shift on `$` for rule 0 and on every recorded follow symbol of a complete item's left side, and only there |
| LrStrategies.TablesMean | include/tagfilterdb/dwd/internal/LRstrategy.cpp:47-74 | a state has an action exactly for what an item offers: a terminal after its dot, or, when complete, `$` for rule 0 and the recorded follow symbols of its left side for any other rule; a reduction excludes a shift, accepting is for rule 0 on `$` only, reducing for the rule of an asking item; gotos are the edges on nonterminals |
| LrPaths.ItemHistory | include/tagfilterdb/dwd/internal/update.cpp:41-79 | on a linked path, the symbols just read are those before an item's dot, and its dot-0 form lies where they began |
| LrPaths.AutomatonLooksBack | include/tagfilterdb/dwd/internal/update.cpp:41-79 | every item with its dot moved comes, across every edge into its kernel, from the same item one step earlier |
| LrPaths.ViablePrefix | include/tagfilterdb/dwd/internal/update.cpp:41-79 | the end of any path spells what stands before the dot of any item there |
| LrPaths.NonTerminalHasEdge | include/tagfilterdb/dwd/internal/update.cpp:26-79 | the left side of every dot-0 item but the start item has an edge, so a reduction never misses its goto |
| LrPaths.ShiftMeans | include/tagfilterdb/dwd/internal/LRstrategy.cpp:47-54 | a shift entry follows an edge on a terminal that is not the end mark |
| LrPaths.ReduceMeans | include/tagfilterdb/dwd/parser/LRparser.cpp:86-93 | a reduce entry finds its right side on top of the path and an edge on its left side below |
| LrPaths.AcceptMeans | include/tagfilterdb/dwd/internal/LRstrategy.cpp:66-71 | an accept entry stands on the end mark, over the whole right side of rule 0 and nothing else |
| LrPaths.Pops | include/tagfilterdb/dwd/parser/LRparser.cpp:126-142 | popping pairs leaves a stack that still mirrors a path and its trees |
| LrPaths.Pushes | include/tagfilterdb/dwd/parser/LRparser.cpp:146-150 | pushing a tree and the state its edge leads to does too |
| LrMachines.ChildrenAreAbstract | include/tagfilterdb/dwd/parser/LRparser.cpp:126-142 | the children collected by the pops are the syntax trees of the popped parses, last first |
| LrMachines.ReducedIsAbstract | include/tagfilterdb/dwd/parser/LRparser.cpp:116-145 | the node a reduction pushes is the syntax tree of the parse tree it stands for |
| LrMachines.ShiftKeeps | include/tagfilterdb/dwd/parser/LRparser.cpp:98-115 | a shift keeps the stack invariant and consumes no end mark |
| LrMachines.ReduceKeeps | include/tagfilterdb/dwd/parser/LRparser.cpp:116-150 | a reduction keeps it; no pop underflows and the goto it looks up exists |
| LrMachines.AcceptKeeps | include/tagfilterdb/dwd/parser/LRparser.cpp:81-83 | at an accept entry the trees on the stack parse everything before the end mark by rule 0 |
| LrMachines.StepIsGood | include/tagfilterdb/dwd/parser/LRparser.cpp:26-95 | a turn from a sound state leads to a sound state, accepts a parsed input, refuses a token no item offers, or finds tokens without an end mark used up; it never pops too far or misses a goto |
| LrMachines.RunKeeps | include/tagfilterdb/dwd/parser/LRparser.cpp:26-95 | what every turn keeps, every run keeps, for any property of the parser's state |
| LrMachines.RunIsGood | include/tagfilterdb/dwd/parser/LRparser.cpp:26-95 | every run from a sound state ends accepted and parsed, refused with cause, out of fuel, or behind the last of tokens without an end mark, over an untouched lower stack |
| LrMachines.MoreFuel | include/tagfilterdb/dwd/parser/LRparser.cpp:26-95 | a run that ends within its bound ends the same way with any larger bound |
| LrMachines.ParsedIsDerivable | include/tagfilterdb/dwd/parser/LRparser.cpp:81-83 | soundness: the words of the tokens before the first `$`, "#ID" for an identifier and its own text for a keyword or a symbol, are derived from the start symbol |
| LrMachines.ParsedIsLabelled | include/tagfilterdb/dwd/parser/LRparser.cpp:124-125 | every inner node of the tree handed back bears the left side of a rule and that rule's handler, the root the last symbol of rule 0 |
| LrMachines.ParsedKeepsIdentifiers | include/tagfilterdb/dwd/parser/LRparser.cpp:81-83 | with one symbol on the right of rule 0, the tree handed back reads as exactly the identifiers consumed |
| LrParsers.LrParser.Parse | include/tagfilterdb/dwd/parser/LRparser.cpp:12-97 | on every token list the loop over the member stack is the machine's run; acceptance means that the words of the tokens before the first `$` form a sentence, refusal that no item offers the word, and only a list without an end mark is read past its end; earlier stack contents stay below |
| LrParsers.LrParser.Loop | include/tagfilterdb/dwd/parser/LRparser.cpp:26-96 | each way out of the loop is the way the machine's run ends, with the same stack and index |
| LrParsers.LrParser.Turn | include/tagfilterdb/dwd/parser/LRparser.cpp:37-94 | one turn of the loop is one step of the machine, and does what the top state's row has for the word the token says: refuses, accepts, shifts on to the next token, or reduces |
| LrParsers.LrParser.PopSymbols | include/tagfilterdb/dwd/parser/LRparser.cpp:126-142 | the alternating pops remove n pairs and collect the syntax trees among the symbols, last first |
| LrCanon.AutomatonExact | include/tagfilterdb/dwd/internal/update.cpp:41-78 | every edge of the automaton leads to exactly the shifted items if and only if no word leads, in the grammar, to two items that compare equal |
| LrCanon.KernelsAreCanonical | include/tagfilterdb/dwd/internal/update.cpp:11-81 | for such a grammar a path spells a word exactly when the word leads to an item, and the kernel at its end holds exactly the items the word leads to |
| LrCanon.ApartMeans | include/tagfilterdb/dwd/internal/item.cpp:34-54 | a grammar tells its items apart exactly when no word leads to one rule with two dots, nor to two left sides of one development with the same dot |
| LrCanon.EdgeExactlyShifted | include/tagfilterdb/dwd/lib/unique.cpp:31-41 | a single edge is exact if and only if no two of its shifted items compare equal |
| LrCanon.ShortWordsSuffice | include/tagfilterdb/dwd/internal/item.cpp:34-54 | words shorter than two to the number of (rule, dot) pairs decide whether a grammar tells its items apart |
| LrCanon.ClearTellsApart | include/tagfilterdb/dwd/internal/item.cpp:34-54 | a grammar whose nonterminals share no development and whose developments repeat no symbol tells them apart |
| LrCanon.LookAlikesLost | include/tagfilterdb/dwd/internal/item.cpp:34-54 | a grammar in which a word leads to two items that compare equal, so that every automaton built for it loses one, whatever the follow sets |
| LrCanon.PostfixLost | include/tagfilterdb/dwd/internal/item.cpp:41 | in the grammar of postfix expressions two operands in a row lead to one rule with two dots, and every automaton's kernel there lacks an item |
| LrCompilers.LrCompiler.constructor | include/tagfilterdb/dwd/LRcomplier.hpp:20-27 | a compiler is built with right tables for every well-formed grammar |
| LrCompilers.LrCompiler.Run | include/tagfilterdb/dwd/parser/LRparser.cpp:12-97 | any number of parses of any token lists: accepted means that the tokens' own words form a sentence, with identifiers kept and nodes labelled by rules; refused means that no item offers the token's word; nothing else ends a run but its bound or a missing end mark |
| Boxes.UnionLeast | include/tagfilterdb/spatialIndex/broundingbox.hpp:489-499 | a box encloses the union exactly when it encloses both boxes |
| Boxes.SameEnclosers | include/tagfilterdb/spatialIndex/broundingbox.hpp:304-311 | boxes with the same enclosing boxes are equal |
| Boxes.EncloserOverlaps | include/tagfilterdb/spatialIndex/broundingbox.hpp:304-328 | enclosing a box that overlaps a target means overlapping it |
| Boxes.UnitArea | include/tagfilterdb/spatialIndex/broundingbox.hpp:288-294 | a box of unit width on every axis has area 1 |
| Boxes.AreaOfAxis | include/tagfilterdb/spatialIndex/broundingbox.hpp:288-294 | the area is proportional to the width of each axis |
| Boxes.AreaCut | include/tagfilterdb/spatialIndex/broundingbox.hpp:288-294 | cutting a box across an axis splits its area |
| Boxes.AreaGrows | include/tagfilterdb/spatialIndex/broundingbox.hpp:288-294 | a box around another with extent has the larger area, unless they are the same |
| Boxes.GrowthOfUnion | include/tagfilterdb/spatialIndex/spatialIndex.cpp:149-155 | a box with extent must grow to take in another exactly when it does not enclose it |
| Boxes.Overlap | include/tagfilterdb/spatialIndex/broundingbox.hpp:339-367 | on all boxes, the loop with its early exits computes the product of the shared lengths if and only if no axis is a reversed interval beginning inside the other, or some axis shares nothing |
| Boxes.BackwardMeasured | include/tagfilterdb/spatialIndex/broundingbox.hpp:176-183 | a box with a reversed axis for which the loop's product is negative |
| Boxes.OverlapSymmetric | include/tagfilterdb/spatialIndex/broundingbox.hpp:339-367 | the shared size does not depend on the order of the boxes |
| Boxes.OverlapPositive | include/tagfilterdb/spatialIndex/broundingbox.hpp:320-367 | a positive shared size means overlapping, and the converse for boxes with extent on every axis |
| GroupAssigns.AxisExtremes | include/tagfilterdb/spatialIndex/spatialIndex.cpp:219-235 | the first box with the lowest lower bound and the first with the highest |
| GroupAssigns.PickSeeds | include/tagfilterdb/spatialIndex/spatialIndex.cpp:213-251 | division by the zero extent makes the seeds the extremes of the first axis on which lower bounds differ, or index 0 twice |
| SplitSpec.SeedsDiffer | include/tagfilterdb/spatialIndex/spatialIndex.cpp:213-256 | the two seeds are different exactly when the lower corners are not all the same |
| GroupAssigns.GroupAssign.AssignGroup | include/tagfilterdb/spatialIndex/spatialIndex.cpp:366-391 | the entry gets its group and the group its box and count, unless the entry had one: then the assertion fails and nothing changes |
| GroupAssigns.GroupAssign.PickNext | include/tagfilterdb/spatialIndex/spatialIndex.cpp:272-308 | the scan finds the waiting entry with most at stake between the two groups, then the smaller group, then the lower index, and sends it to the group whose box swells less; if only one group's box encloses it, there |
| GroupAssigns.GroupAssign.Distribute | include/tagfilterdb/spatialIndex/spatialIndex.cpp:264-333 | the loop ends in the greedy division, and its counts are true |
| SplitSpec.GreedyDivides | include/tagfilterdb/spatialIndex/spatialIndex.cpp:264-338 | the greedy division gives every entry a group, and each group its minimum where that is possible |
| SplitSpec.DivisionFair | include/tagfilterdb/spatialIndex/spatialIndex.cpp:335-338 | both groups reach the minimum if and only if there are twice the minimum of entries |
| SplitSpec.DivisionUnique | include/tagfilterdb/spatialIndex/spatialIndex.cpp:213-333 | the division is determined by the boxes |
| SplitSpec.NextGrowsLess | include/tagfilterdb/spatialIndex/spatialIndex.cpp:276-308 | the next entry's group swells no more than the other, and for boxes with extent is the one that encloses the entry if only one does |
| SplitSpec.DivisionGrowsLeast | include/tagfilterdb/spatialIndex/spatialIndex.cpp:213-315 | a division puts the lowest entry of the first spread axis in the first group and the highest in the second, and every further step up to a full group takes the foremost entry to the group that swells less, the groups' boxes being the covers of their entries all along |
| RTrees.CoverLeast | include/tagfilterdb/spatialIndex/spatialIndex.cpp:127-137 | the cover of a node is the least box around its entries |
| RTrees.BestUnique | include/tagfilterdb/spatialIndex/spatialIndex.cpp:141-165 | there is at most one best child |
| RTrees.BestTakesIn | include/tagfilterdb/spatialIndex/spatialIndex.cpp:141-165 | if some child with extent encloses the new box, the best child is the first innermost of those that do |
| RTrees.DescentTakesIn | include/tagfilterdb/spatialIndex/spatialIndex.cpp:100-105 | in a tree of boxes with extent an insertion goes down into such a child |
| RTrees.DivisionKeeps | include/tagfilterdb/spatialIndex/spatialIndex.cpp:340-363 | a division loses and duplicates no entry, and both halves are within the limits, so storing them never splits again |
| RTreeInvariant.ChildFits | include/tagfilterdb/spatialIndex/spatialIndex.cpp:113-118 | without a split, the union with the new box is exactly the cover of the changed child |
| RTreeInvariant.CoverGrows | include/tagfilterdb/spatialIndex/spatialIndex.cpp:113-118 | a cover that gains one box is the union with it |
| RTreeInvariant.SplitChildGains | include/tagfilterdb/spatialIndex/spatialIndex.cpp:102-112 | replacing a split child by its halves adds the item and its box, and nothing else |
| RTreeInvariant.FitsKeeps | include/tagfilterdb/spatialIndex/spatialIndex.cpp:94-123 | an insertion that fits keeps a subtree sound and adds exactly its item |
| RTreeInvariant.OverflowKeeps | include/tagfilterdb/spatialIndex/spatialIndex.cpp:184-211 | an overflowing list of entries is sound and holds exactly one item more |
| RTreeInvariant.SplitsKeeps | include/tagfilterdb/spatialIndex/spatialIndex.cpp:184-364 | both halves of a split are sound and within the limits, and together gain exactly the item |
| RTreeInvariant.InsertedKeeps | include/tagfilterdb/spatialIndex/spatialIndex.cpp:67-90 | every insertion, with growth of the root, keeps the index invariant and adds exactly its item |
| RTreeInvariant.RunKeeps | include/tagfilterdb/spatialIndex/spatialIndex.cpp:31-36 | after any run of insertions the index is sound and holds the multiset of what went in |
| RTreeDecided.InsertedUnique | include/tagfilterdb/spatialIndex/spatialIndex.cpp:67-123 | the tree after an insertion is determined by the tree before it and the item |
| RTreeDecided.InsertedGoesThrough | include/tagfilterdb/spatialIndex/spatialIndex.cpp:67-123 | an insertion that has a result meets no failing assertion and no missing child |
| RTreeDecided.FullLeafStops | include/tagfilterdb/spatialIndex/spatialIndex.cpp:254-338 | a full leaf stops the program exactly when the lower corners are all the same or two nodes cannot be filled |
| RTreeDecided.StuckRun | include/tagfilterdb/spatialIndex/spatialIndex.cpp:254-338 | in either case a run of successful insertions never outgrows its first leaf |
| RTreeSearch.SearchDelivers | include/tagfilterdb/spatialIndex/spatialIndex.cpp:411-434 | a search delivers only overlapping items, none more often than stored, and all of them when the callback never says no |
| RTreeSearch.LeafAsks | include/tagfilterdb/spatialIndex/spatialIndex.cpp:419-429 | a leaf hands over its overlapping items in order, every one but the last answered yes, and stops short only at a no |
| RTreeSearch.NextChildSearched | include/tagfilterdb/spatialIndex/spatialIndex.cpp:430-432 | whatever was answered before, the next child of an inner node is searched too |
| RTreeSearch.RunDelivers | include/tagfilterdb/spatialIndex/spatialIndex.cpp:47-51 | after any run of insertions a full search finds every overlapping item that went in, as often as it went in |
| RTreeSearch.NothingBelow | include/tagfilterdb/spatialIndex/broundingbox.hpp:304-328 | in a sound tree a stored box that misses the target has nothing that overlaps it below |
| SpatialNodes.Node.Append | include/tagfilterdb/spatialIndex/spatialIndex.cpp:172-175 | the entry is stored last; the subtrees stay separate objects |
| SpatialNodes.Node.Refresh | include/tagfilterdb/spatialIndex/spatialIndex.cpp:107-118 | storing the box of a changed child makes the node whole again around it |
| SpatialIndexes.SpatialIndex.constructor | include/tagfilterdb/spatialIndex/spatialIndex.cpp:16-20 | a new index is valid and empty |
| SpatialIndexes.SpatialIndex.NodeCover | include/tagfilterdb/spatialIndex/spatialIndex.cpp:127-137 | the loop computes the cover of the node |
| SpatialIndexes.SpatialIndex.SelectBestSubNode | include/tagfilterdb/spatialIndex/spatialIndex.cpp:141-165 | the first child with the least increase and then the least area, or -1 exactly when none is below the largest number; among boxes with extent that enclose the new box, the first innermost |
| SpatialIndexes.SpatialIndex.AddSubNode | include/tagfilterdb/spatialIndex/spatialIndex.cpp:169-181 | a node with room gains the entry; a full one is divided |
| SpatialIndexes.SpatialIndex.SplitNode | include/tagfilterdb/spatialIndex/spatialIndex.cpp:184-364 | the node and a new sibling hold the division of the entries, unless an assertion fails, which is exactly when the entries cannot be divided |
| SpatialIndexes.Divide | include/tagfilterdb/spatialIndex/spatialIndex.cpp:213-338 | the assertions of a split hold exactly when the lower corners differ and two nodes can be filled |
| SpatialIndexes.Redistribute | include/tagfilterdb/spatialIndex/spatialIndex.cpp:340-363 | each of the two nodes ends up with its group's entries in order, and neither overflows |
| SpatialIndexes.SpatialIndex.RecursivelyInsertSubNode | include/tagfilterdb/spatialIndex/spatialIndex.cpp:94-123 | the subtree in memory becomes the tree the relation prescribes, is split as prescribed, or the program stops as prescribed |
| SpatialIndexes.SpatialIndex.InsertIntoChild | include/tagfilterdb/spatialIndex/spatialIndex.cpp:100-120 | the same below the chosen child, whose stored box follows |
| SpatialIndexes.SpatialIndex.InsertBelow | include/tagfilterdb/spatialIndex/spatialIndex.cpp:103-105 | the recursive call leaves the node and its other children untouched |
| SpatialIndexes.SpatialIndex.StoreHalves | include/tagfilterdb/spatialIndex/spatialIndex.cpp:106-112 | the split child's box is its cover again and its sibling is an entry of this node or of the one split off it |
| SpatialIndexes.SpatialIndex.InsertSubNode | include/tagfilterdb/spatialIndex/spatialIndex.cpp:67-90 | the root follows the insertion, one level higher when it was split |
| SpatialIndexes.SpatialIndex.Insert | include/tagfilterdb/spatialIndex/spatialIndex.cpp:31-36 | succeeds exactly when nothing on the way stops the program; then the index is valid, holds exactly one item more and counts it |
| SpatialIndexes.SpatialIndex.SearchTag | include/tagfilterdb/spatialIndex/spatialIndex.cpp:47-51 | delivers only overlapping items, none too often; each exactly as often as stored when the callback never says no |
| SpatialIndexes.SpatialIndex.RecursivelySearchTag | include/tagfilterdb/spatialIndex/spatialIndex.cpp:411-434 | the recursion over the nodes in memory visits the tree's value in order; in a leaf it hands over overlapping items until one is answered no |
| Ranges.DisjointMeans | include/tagfilterdb/support/range.hpp:42-66 | the comparison of bounds holds exactly when the two intervals share no point |
| Ranges.MergeMeans | include/tagfilterdb/support/range.hpp:64-74 | merging intervals that meet or touch gives exactly their union |
| Ranges.NormalIsCanonical | include/tagfilterdb/support/rangeSet.hpp:275-284 | two normal lists denote the same set exactly when they are the same list |
| RangeLists.AbsorbedHas | include/tagfilterdb/support/rangeSet.hpp:52-64 | the merge loop, though it compares with the stale range, yields the union of the addition and what it swallowed |
| RangeLists.AbsorbedResult | include/tagfilterdb/support/rangeSet.hpp:52-64 | and leaves a normal list that denotes the union |
| RangeLists.ListedIsTheSet | include/tagfilterdb/support/rangeSet.hpp:341-351 | the listing is strictly increasing and lists exactly the set |
| RangeCuts.NonNegativeNotCut | include/tagfilterdb/support/rangeSet.hpp:136-162 | no piece is lost from a set without negative elements |
| RangeCuts.NegativePieceCut | include/tagfilterdb/support/rangeSet.hpp:136-162 | a set with a negative element for which a piece is lost |
| RangeCuts.Cut | include/tagfilterdb/support/rangeSet.hpp:128-165 | each of split, shrink and erase keeps the loop's account of what is left and what is lost |
| RangeSets.RangeSet.Add | include/tagfilterdb/support/rangeSet.hpp:42-72 | the set becomes the union with the interval, in normal form; an empty interval changes nothing |
| RangeSets.RangeSet.AddAll | include/tagfilterdb/support/rangeSet.hpp:74-79 | the set becomes the union with the other set |
| RangeSets.RangeSet.Or | include/tagfilterdb/support/rangeSet.hpp:178-183 | a new set: the union; the operands stay |
| RangeSets.RangeSet.OrOf | include/tagfilterdb/support/rangeSet.hpp:170-176 | a new set: the union of all the sets |
| RangeSets.RangeSet.And | include/tagfilterdb/support/rangeSet.hpp:185-229 | a new set: exactly the intersection, in normal form; an index advances on every turn |
| RangeSets.RangeSet.Subtract | include/tagfilterdb/support/rangeSet.hpp:100-168 | ends in normal form with nothing but the difference, and with all of it if and only if no piece below zero is cut off |
| RangeSets.RangeSet.CutCurrent | include/tagfilterdb/support/rangeSet.hpp:126-165 | one turn on overlapping ranges makes progress and keeps the loop's account |
| RangeSets.RangeSet.Complement | include/tagfilterdb/support/rangeSet.hpp:91-93 | the vocabulary without the set, under the same condition |
| RangeSets.RangeSet.Contains | include/tagfilterdb/support/rangeSet.hpp:232-242 | the binary search decides membership |
| RangeSets.RangeSet.Equals | include/tagfilterdb/support/rangeSet.hpp:275-284 | true exactly when the two sets have the same elements |
| RangeSets.RangeSet.Remove | include/tagfilterdb/support/rangeSet.hpp:378-413 | the set loses the element and nothing else, in normal form, through the split that calls add |
| RangeSets.RangeSet.Size | include/tagfilterdb/support/rangeSet.hpp:334-340 | the length of the listing |
| RangeSets.RangeSet.ToList | include/tagfilterdb/support/rangeSet.hpp:341-351 | the listing |
| RangeSets.RangeSet.Get | include/tagfilterdb/support/rangeSet.hpp:363-376 | the i-th element of the listing, -1 past its end |
| RangeSets.RangeSet.GetMinElement | include/tagfilterdb/support/rangeSet.hpp:262-268 | the least element, -1 if there is none |
| RangeSets.RangeSet.GetMaxElement | include/tagfilterdb/support/rangeSet.hpp:254-260 | the greatest element, -1 if there is none |
| Utf8.DecodeBranches | include/tagfilterdb/support/utf8.cpp:72-153 | on every character of the RFC 3629 grammar the tables lead to the join of its length |
| Utf8.DecodeChar | include/tagfilterdb/support/utf8.cpp:105-223 | every character of the grammar is decoded whole, to a valid code point that encodes back to it |
| Utf8.DecodedIsChar | include/tagfilterdb/support/utf8.cpp:105-153 | whatever is taken without an error is a character of the grammar: no overlong forms, no surrogates, nothing above 0x10FFFF |
| Utf8.DecodeErrs | include/tagfilterdb/support/utf8.cpp:105-153 | the error answer is given exactly when the input does not begin with a character |
| Utf8.DecodeEncoded | include/tagfilterdb/support/utf8.cpp:192-223 | a valid code point is decoded back from its encoding, whatever follows |
| Utf8.Encode | include/tagfilterdb/support/utf8.cpp:192-223 | every output, also for an invalid code point, is a character of the grammar |
| Utf8.EncodingKeepsOrder | include/tagfilterdb/support/utf8.cpp:192-223 | the encodings of valid code points are in dictionary order as the code points are in theirs |
| Utf8.InvalidIsReplaced | include/tagfilterdb/support/utf8.cpp:192-196 | an invalid code point is written as EF BF BD |
| Utf8Texts.DecodesExactlyTexts | include/tagfilterdb/support/utf8.cpp:155-174 | strict decoding succeeds exactly on concatenations of characters of the grammar |
| Utf8Texts.DecodedEncodesBack | include/tagfilterdb/support/utf8.cpp:155-240 | what was decoded strictly is valid and encodes to the identical bytes |
| Utf8Texts.EncodedDecodesBack | include/tagfilterdb/support/utf8.cpp:155-240 | valid code points come back from their encoding unchanged |
| Utf8Texts.CodecIsInjective | include/tagfilterdb/support/utf8.cpp:225-240 | different valid texts have different encodings |
| Utf8Texts.LenientIsValid | include/tagfilterdb/support/utf8.cpp:176-190 | lenient decoding yields only encodable code points, and agrees with strict decoding where that succeeds |
| Utf8Texts.StrictDecode | include/tagfilterdb/support/utf8.cpp:155-174 | the loop computes strict decoding, failing where it fails |
| Utf8Texts.LenientDecode | include/tagfilterdb/support/utf8.cpp:176-190 | the loop computes lenient decoding |
| Utf8Texts.StrictEncode | include/tagfilterdb/support/utf8.cpp:225-240 | fails exactly when a code point is invalid, else gives the encoding |
| Utf8Texts.LenientEncode | include/tagfilterdb/support/utf8.cpp:242-257 | encodes with invalid code points replaced, and the result decodes strictly |
| InputStreams.CountMeans | include/tagfilterdb/compiler/inputStream.cpp:117-141 | the count computed on wrapping sizes reaches to the end of the data, beyond it for a reversed range, and otherwise from start to end |
| InputStreams.AdjacentTexts | include/tagfilterdb/compiler/inputStream.cpp:117-141 | the texts of two ranges that meet inside the data join to the text of their union |
| InputStreams.PositionStaysInside | include/tagfilterdb/compiler/inputStream.cpp:61-115 | any sequence of reset, consume and seek keeps the position within the data |
| InputStreams.InputStream.Load | include/tagfilterdb/compiler/inputStream.cpp:29-50 | bytes that begin with EF BB BF are loaded as what follows, others as they are; strict loading succeeds exactly on texts, whose bytes the data encodes to, and else changes nothing |
| InputStreams.InputStream.DoConsume | include/tagfilterdb/compiler/inputStream.cpp:63-72 | before the end moves on by one, at the end fails and stays |
| InputStreams.InputStream.DoSeek | include/tagfilterdb/compiler/inputStream.cpp:105-115 | ends at the target or at the end of the data, whichever comes first |
| InputStreams.InputStream.DoReset | include/tagfilterdb/compiler/inputStream.cpp:61 | goes back to the beginning |
| InputStreams.InputStream.LA | include/tagfilterdb/compiler/inputStream.cpp:74-92 | looking ahead and back agrees with indexing around the position, and is the end mark outside |
| InputStreams.InputStream.GetText | include/tagfilterdb/compiler/inputStream.cpp:117-141 | the encoding of the code points between the two positions, cut off at the end of the data; a range reversed by more than one place gives all from its start |
| InputStreams.InputStream.ToString | include/tagfilterdb/compiler/inputStream.cpp:150-157 | the loaded bytes without their byte order mark |

## Left out

Of the grammar compiler:

- FIRST and FOLLOW sets: the look-ahead of an item is an arbitrary function of its rule; the code's fixpoint flags are
  overwritten, so nothing textbook holds of them. Completeness of the parser depends on them and is not claimed.
- Termination of `parse`: cyclic and empty rules can loop, so runs are bounded by a number of turns; `MoreFuel` says
  the bound does not change a result.
- Grammar text: a grammar is its list of rules, and every right side has a symbol.
- LrCompilers.LrCompiler.constructor: asks, with the tables and the parser, that rule 0 has its left side on no right
  side and is not empty, that ε stands alone and is no left side, and that `$` is no terminal of the rules. The automaton
  is built without any of that.
- An item's look-aheads are a function of its rule, which they are for such grammars.
- Table entries are values instead of texts such as "s3". Hash collisions and the order of hash tables: every order is
  allowed. The closure grows from a snapshot of the items, since the code inserts into the set it iterates over.
- The lexer, handlers, display, logging. What a read past the last token yields: it ends the run.

Of the spatial index:

- Floating-point rounding and infinite coordinates: numbers are exact, with special values only where the choice of
  seeds divides by zero.
- What becomes of a tree when an assertion stops the program: only that it stops, and exactly when.
- The overflow buffer has room for one entry more than a node (the literal 5 fits four children), the sibling is
  returned instead of kept behind a pointer to a local variable, and the unread areas of the overflow buffer are
  dropped. The data type is a number; the index only copies it.
- Destruction, printing, and the numeric helpers of the box that the index does not use.

Of the range set:

- `of` and the complement between two bounds: they go through a constructor with an empty body, as does moving; values
  are taken as returned intact. Hashing, text output and overflow at the extremes of the integer type.

Of the codec and the stream:

- Loading from a C++ stream, names, mark and release. The table of leading bytes is written by its runs. The wrap-around
  of sizes is modelled in `getText`, where it matters.
