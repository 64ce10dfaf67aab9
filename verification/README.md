# UCDD, verified

UCDD stores sets of clock and boolean valuations as decision diagrams. A clock node splits the range
of a clock difference `x_i - x_j` into intervals, a boolean node is an ordinary BDD node, and negation
is a bit on the edge. This project models the library in Dafny and proves what it is for: which set
every operation computes, that reduction decides emptiness and fullness, that the incremental
constraint graph decides consistency from any state it can be in, and that nodes, reference counts,
unique tables and the operation cache stay in order while nodes die, come back, are swept and have
their addresses reused.

## Layers

| files | part |
|---|---|
| `Sequences` | lists on which nothing appears twice |
| `Bounds`, `ConstraintGraph` | raw bounds, (value, strictness) distances, difference constraints and their real solutions, inconsistent cycles |
| `Links`, `SpanningTree`, `ShortestPaths`, `Tarjan` | the incremental consistency check: array-encoded lists, the preorder list of the shortest-path tree, the run invariant, the termination measure, and the class over arrays |
| `BellmanFord` | the reference check |
| `Diagram`, `Independent`, `Canonical` | diagrams as values: meaning, normal form, node construction, the reference stack; reading the levels independently of one another, and that the normal form is then canonical |
| `Reduction`, `Zones`, `Paths`, `TarjanReduction`, `BfReduction` | what reduction computes, its theorems, and the two implementations |
| `Pieces`, `Apply`, `ApplyReduce`, `Operations`, `Tidy`, `Declarations`, `Renaming`, `Quantify`, `Extraction` | apply, apply with reduction, conditional, intervals, equivalence, interval merging, level declarations, quantification, renaming, conversion from and to zones |
| `Matrix` | the trace matrix of a boolean diagram |
| `Nodes`, `Chains`, `UniqueTable`, `NodeStore` | nodes by address, hash chains through `next` fields, the unique tables, allocation, sweep and rehash |
| `References`, `Tally`, `Whole`, `Release`, `Revival`, `Kernel`, `Roots` | saturating counts, the states in which every count is accounted for, nodes with everything below them, release, resurrection, node creation, garbage collection, the operation cache, and what stays within reach |
| `KernelApply`, `KernelReduce`, `Cached` | `cdd_apply` and `cdd_reduce` running on top of all of it, and what becomes of a cached result in `cdd_apply_reduce` |

Clocks are reals, bounds and distances are unbounded integers, addresses are numbers. Two references to
diagrams are equal as values exactly when they are the same pointer; `Kernels.Kernel.HandlesDiffer` proves
that this is what pointer comparison means in the node store.

What the statistics of a node manager decide (when to sweep, which levels have dead nodes, how much memory to
add, when to rehash) is an arbitrary sequence of decisions, so every result about the kernel holds whatever
the statistics say. Hash functions are arbitrary as well. So is the order of addresses by which `cdd_apply` sorts
its operands in `Apply`, where diagrams are values; in the node store addresses are numbers, and new memory gets
larger ones than old memory.

## Model

| member | source | states |
|---|---|---|
| Bounds.LowerToUpperMeaning | include/cdd/kernel.h:36 | a lower bound on a difference, turned round, is met as an upper bound by exactly the negated differences, and turning it back restores it |
| Bounds.UpperToLowerMeaning | include/cdd/kernel.h:37 | the same for an upper bound |
| Bounds.UpperMonotone | include/cdd/kernel.h:29-34 | a larger raw bound is weaker, so comparing raw bounds compares constraints |
| ConstraintGraph.CycleRefutes | src/bellmanford.h:31-43 | a cycle of negative length, or of length zero with a strict edge, leaves no real solution |
| ConstraintGraph.StableGivesSolution | src/bellmanford.h:31-43 | a distance vector that no edge improves yields real clock values meeting every constraint, strict ones included |
| Links.Insert | src/tarjan.c:28-35 | inserting into the array-encoded list is the list operation, in place |
| Links.Remove | src/tarjan.c:42-48 | removing likewise |
| TarjanGraph.Tarjan.constructor | src/tarjan.c:85-99 | an empty graph with an empty queue, in order |
| TarjanGraph.Tarjan.Push | src/tarjan.c:101-122 | adds the edge as newest of its row, and queues its source behind the others if and only if it is not queued and the edge improves a distance; every edge that could improve a distance still leaves a queued vertex |
| TarjanGraph.Tarjan.Pop | src/tarjan.c:124-128 | removes the newest edge of a row; distances and queue as before |
| TarjanGraph.Tarjan.Disassemble | src/tarjan.c:146-182 | finds whether a vertex lies below the root, and if not takes the whole subtree out of the tree and the queue |
| TarjanGraph.Tarjan.LinkChild | src/tarjan.c:193-207 | the preorder list and the depths describe the tree with the new leaf |
| TarjanGraph.Tarjan.PopulateQueue | src/tarjan.c:213-233 | after an inconsistent run the queue holds exactly the vertices with an improving edge, in order, so the next check may start |
| SpanningTree.WalkDone | src/tarjan.c:146-182 | the walk along the preorder list meets exactly the subtree |
| ShortestPaths.AncestorImprovedIsCycle | src/tarjan.c:305-323 | a relaxation that would make a vertex its own ancestor exhibits an inconsistent cycle |
| ShortestPaths.RelaxationStep | src/tarjan.c:279-337 | every relaxation spends energy that is bounded below, from any starting distances, so the run ends even if the constraints are inconsistent |
| ShortestPaths.EmptyQueueIsConsistent | src/tarjan.c:279-337 | once the queue is empty there is a real solution and no inconsistent cycle |
| TarjanGraph.Tarjan.CheckConsistent | src/tarjan.c:238-338 | from every state that pushes, pops and earlier checks can leave, returns true if and only if the constraints have a real solution, if and only if there is no inconsistent cycle; terminates, leaves the graph unchanged, and leaves an empty queue, or one with exactly the vertices that have an improving edge |
| BellmanFordGraph.BellmanFord.Push | src/bellmanford.c:45-54 | adds a constraint between a pair of clocks not constrained before |
| BellmanFordGraph.BellmanFord.Pop | src/bellmanford.c:56-60 | drops the newest constraint |
| BellmanFordGraph.ExtendTrail | src/bellmanford.c:98-109 | a distance that is still moving in pass p has a trail of p edges behind it, and a trail that comes back to a vertex is an inconsistent cycle |
| BellmanFordGraph.AllPassesDone | src/bellmanford.c:98-119 | with as many passes as clocks and no inconsistent cycle nothing is left to improve |
| BellmanFordGraph.BellmanFord.CheckConsistent | src/bellmanford.c:88-121 | from any distance vector, returns true if and only if there is a real solution, if and only if there is no inconsistent cycle |
| Diagrams.PickIsPiece | include/cdd/kernel.h:486-489 | every real difference lies in exactly one interval of a clock node |
| Diagrams.MakeBoolMeaning | src/kernel.c:620-628 | the boolean node over two children is the choice between them, whatever negation bits are moved |
| Diagrams.MakeBoolOk | src/kernel.c:620-628 | and it is in normal form |
| Diagrams.MergedMeaning | src/cddop.c:270-293 | joining neighbours with equal children, stretching the last piece and moving the negation bit off the first child does not change which child a difference selects |
| Diagrams.MergedOk | src/cddop.c:270-293 | and gives a node in normal form |
| Diagrams.StackPush | src/cddop.c:283-290 | pushing a finished piece keeps the reference stack the masked, merged prefix of the pieces seen |
| Canonicity.Canonical | src/kernel.c:613-768 | two diagrams in normal form are the same if and only if they agree for all differences the levels could have, each level for itself |
| Reduction.ReduceMeaning | src/cddop.c:1375-1478 | reduction inside a set of clock values agrees with the original on that set |
| Reduction.ReduceOk | src/cddop.c:1375-1478 | and is in normal form |
| Reduction.ReduceFeasible | src/cddop.c:1375-1478 | and every path of it can be taken by some clock values of the set |
| Reduction.ReducedFalse | include/cdd/cdd.h:517-527 | the result is false if and only if nothing satisfies the diagram |
| Reduction.ReducedTrue | include/cdd/cdd.h:517-527 | the result is true if and only if everything does |
| Reduction.ReduceTwice | src/cddop.c:1375-1478 | reducing a reduced diagram returns it unchanged |
| Reduction.ReduceFixed | src/cddop.c:1462-1467 | a diagram all of whose paths are feasible is its own reduction |
| Pieces.ReduceBounds | src/cddop.c:1375-1478 | reduction adds no bound at any level |
| Paths.FewerPaths | include/cdd/cdd.h:517-527 | a reduced diagram has no more paths than the original |
| Zones.NextSliceNonempty | src/cddop.c:1436-1450 | convexity: if values below and above the lower bound of an interval are possible, so are values in it; so lower and upper bound need no check together |
| Zones.LastChildOnly | src/cddop.c:1413-1420 | when only the last child is feasible it stands for the node |
| TarjanReduction.FirstChild | src/cddop.c:1405-1422 | finds the first feasible child, its upper bound being on the graph |
| TarjanReduction.NextChild | src/cddop.c:1436-1458 | decides whether anything lies above the lower bound, and reduces the child inside its interval; the graph is as before |
| TarjanReduction.ReduceRest | src/cddop.c:1434-1467 | the loop over the remaining children builds the reduction, or keeps the node if nothing changed |
| TarjanReduction.ReduceRec | src/cddop.c:1375-1478 | called on a consistent graph only; computes the reduction under its constraints and returns with the same edges |
| TarjanReduction.CddReduce | src/cddop.c:1480-1491 | reduced form: same set, false or true exactly for the empty or full set, all paths feasible |
| BfReduction.ReduceRec | src/debug.c:16-108 | the reference reduction computes the same function, its graph restored |
| BfReduction.CddBfReduce | src/debug.c:110-118 | and so the identical diagram |
| Apply.ImmediateOk | src/cddop.c:177-209 | the cases without recursion give the operation's result in normal form |
| Pieces.AlignedMeaning | src/cddop.c:251-289 | between two bounds both operands act like the pieces the walk has reached |
| Pieces.ZipNext | src/cddop.c:279-289 | one more pair keeps the results covering everything below the bound |
| Pieces.ZipDone | src/cddop.c:290-293 | the node over the stack is in normal form, denotes the combination, and has no bound that neither operand has |
| Apply.Operators.ApplyRec | src/cddop.c:153-332 | conjunction or exclusive-or of any two diagrams, in normal form, cached or not, for all differences the levels could have, each for itself, and so for all clock values; no bound appears that neither operand has; afterwards the result is in the cache, unless a shortcut gave it |
| Canonicity.OnlyResult | src/cddop.c:153-332 | so an operation on two diagrams has one result, whatever the cache held, in whatever order its operands were sorted |
| Canonicity.Associative | src/cddop.c:153-332 | and it does not matter in which order three operands are combined |
| ApplyReduction.ApplyReduceRec | src/cddop.c:1495-1742 | under a consistent graph: the combination on the graph's solutions, every path feasible, graph restored |
| ApplyReduction.ReduceOperand | src/cddop.c:1526-1595 | a shortcut or cached result that was not reduced is reduced under the current graph |
| ApplyReduction.FirstPieces | src/cddop.c:1631-1647 | skips the pairs of pieces below the graph's solutions |
| ApplyReduction.CombineRest | src/cddop.c:1656-1706 | combines the following pairs until none is feasible |
| ApplyReduction.CddApplyReduce | src/cddop.c:1744-1766 | denotes the same set as apply, in normal form, with no infeasible path and no bound that neither operand has; false or true exactly when the combination is empty or full |
| Operations.Ite | src/cddop.c:344-356 | if f then g else h, on every valuation, and for all differences the levels could have |
| Operations.BddVarMeaning | src/kernel.c:850 | the variable of a level holds exactly where the boolean is true |
| Operations.IntervalMeaning | src/kernel.c:852-868 | the interval diagram is well-formed if and only if the interval is not empty and has an end; it then holds exactly between its bounds |
| Operations.AddBound | src/cddop.c:1231-1244 | restricts a diagram to an interval |
| Operations.Equiv | src/cddop.c:1246-1260 | true if and only if both diagrams agree on all valuations |
| Operations.CanJoin | src/cddop.c:1262-1369 | split and join are found equivalent if and only if, in each of both intervals, the diagram of the other is contained in its own; the union is their disjunction |
| Operations.Reduce2Clock | src/cddop.c:1280-1357 | at a clock node exactly the greedy choice of intervals is joined: every bound that stays separates a run of children from a child that cannot join it; the result is put together from the unions of the runs, each reduced in its turn |
| Operations.CddReduce2 | src/cddop.c:1262-1371 | merging neighbouring intervals preserves the set, terminates by level, gives normal form, adds no bound at any level, and at every clock node, all the way down, leaves only bounds at which joining was impossible |
| Tidiness.TidyOnce | src/cddop.c:1262-1371 | and that determines the result: every diagram has one such form |
| Declarations.Declaration.AddClocks | src/kernel.c:1040-1065 | every new pair of clocks gets exactly one level below all earlier ones, in the order of the pairs' numbers, and found through its number; earlier levels stay |
| Declarations.Declaration.AddBool | src/kernel.c:1069-1090 | new boolean levels follow, clock levels stay declared |
| Declarations.DifferenceInjective | include/cdd/cdd.h:229-230 | pairs of clocks share a number if and only if they are the same pair |
| Declarations.DifferenceNext | include/cdd/cdd.h:229-230 | the numbers go up without a gap: (1, 0) is 0, then along the second clock, then on to the next first clock |
| Declarations.IntervalOk | src/kernel.c:884-888 | a proper interval on two clocks, in either order, holds exactly where their difference lies in it if and only if the clocks are different; a clock i paired with itself is read as clocks 0 and i + 1, or, for the last clock, outside the table; well-formed if and only if the interval is not empty and has an end |
| Declarations.UpperOk | src/kernel.c:870-898 | the upper bound on two clocks: malformed exactly for the bound that nothing meets on a pair in the wrong order; otherwise right if and only if the clocks are different or there is no bound |
| Renamings.ReadIsRenamed | src/cddop.c:916-979 | read level by level as the code does, a renaming that gives no clock level one clock twice is the substitution |
| Renamings.MergedWrong | src/cddop.c:957 | a level whose clocks become one clock: a normal diagram for which the result is wrong, or the lookup outside the table |
| Renamings.RenamingRight | src/cddop.c:916-979 | a renaming is found inside the table and right for every normal diagram if and only if it sends different clocks to different clocks |
| Quantify.SomeFreed | src/cddop.c:885-889 | a listed level may be chosen: the union of both children |
| Quantify.Transformer.CddExist | src/cddop.c:434-446 | with no clocks listed: holds at v exactly when some choice for the listed booleans makes the original hold, whatever the cache held before, for clock values and for all differences the levels could have |
| Quantify.Transformer.ExistRec | src/cddop.c:778-907 | the recursion with its per-call cache |
| Quantify.Transformer.CddReplace | src/cddop.c:910-914 | the result is the original with every level read through the renaming, a pair that became one clock i as clocks 0 and i + 1; if no level of the diagram is such a pair it is the substitution |
| Quantify.Transformer.ReplaceRec | src/cddop.c:916-979 | the recursion with its per-call cache, for every diagram whose booleans become booleans and whose pairs are looked up inside the table |
| Extraction.FromDbm | src/cddop.c:981-1052 | the conjunction of the selected bounds of the declared pairs, in normal form, never false |
| Extraction.LevelsAreMatrix | src/cddop.c:1003-1024 | with every pair of clocks declared no selected bound is lost |
| Extraction.WalkDown | src/cddop.c:1133-1163 | at every clock node into the first piece that is not false, all earlier ones being false, down to the first node that is none; the bounds handed to the matrix are exactly those of the pieces taken |
| Extraction.FirstKidOk | src/cddop.c:1151-1153 | looking at the first child only is enough to find the first piece that is not false |
| Extraction.NothingBefore | src/cddop.c:1126-1174 | beside the walk, below a piece that it takes, the diagram is false: the extracted zone is the first there is |
| Extraction.BottomAgrees | src/cddop.c:1126-1205 | the chosen path never ends in false, and in its zone the diagram is its end |
| Extraction.ExtractBdd | src/cddop.c:1176-1205 | returns the end of that walk, which is a boolean node or true, and agrees with the diagram on the chosen path |
| Extraction.ExtractDbm | src/cddop.c:1126-1174 | the zone is the one that the walk takes, and nothing of the diagram comes before it; the remainder is the diagram minus the zone; zone with bottom part, and remainder, are the diagram |
| Extraction.ExtractionShrinks | src/cddop.c:1126-1174 | a zone that is not empty takes something out |
| TraceMatrix.DynamicMatrix.DeleteIgnoredRows | src/cppext.cpp:363-373 | keeps the unmarked rows in order |
| TraceMatrix.DynamicMatrix.GetArray | src/cppext.cpp:375-392 | rows one after another, padded |
| TraceMatrix.ToMatrixRec | src/cppext.cpp:416-463 | the walk replaces the current row by one row for every path, prefixes copied correctly although the row cursor is shared |
| TraceMatrix.TracesSplit | src/cppext.cpp:416-463 | every valuation on the path fits exactly one trace, and that trace tells the value |
| TraceMatrix.TracesInOrder | src/cppext.cpp:450-459 | where two rows part for the first time they name the same variable, true in the earlier row and false in the later one |
| TraceMatrix.TracesArePaths | src/cppext.cpp:416-463 | a row that stays is a path of the diagram down to true |
| TraceMatrix.EntryOrNone | src/cppext.cpp:471-499 | the arrays have an entry if and only if the diagram is not false, and, if it is true, some boolean is declared |
| TraceMatrix.CddBddToArray | src/cppext.cpp:471-499 | if and only if there is a first entry to read the call goes on; the rows are then pairwise disjoint cubes whose union is the set of the diagram, except for the diagram true, which gets no row; they are paths to true with increasing variables, listed with true before false, with minus one in all columns behind them |
| Nodes.KeyDetermines | src/kernel.c:636-650 | in one table equal keys are equal contents |
| Nodes.LexTotal | src/kernel.c:722-733 | keys are totally ordered |
| Chains.FindPlace | src/kernel.c:636-650 | walking the chain stops behind all larger keys |
| Chains.InsertAt | src/kernel.c:671-673 | linking in at a place found before |
| Chains.InsertDescending | src/kernel.c:671-673 | keeps the chain strictly sorted |
| Chains.SweepChain | src/kernel.c:518-533 | unlinks exactly the nodes without references, in one pass over the links |
| Chains.SplitChain | src/kernel.c:815-829 | deals a chain out to two, order kept |
| UniqueTable.BucketSplits | src/kernel.c:808-829 | with one bit less to shift, bucket i becomes buckets 2i and 2i + 1 |
| UniqueTable.NoDuplicates | src/kernel.c:613-688 | no two nodes have the same contents |
| UniqueTable.FoundOrAbsent | src/kernel.c:636-650 | a key not at its place is nowhere |
| UniqueTable.RehashTable | src/kernel.c:801-829 | doubling a table keeps every chain sorted and every node in the bucket its hash selects |
| NodeStores.NodeStore.Find | src/kernel.c:630-650 | returns the node with the given contents if there is one, and says that there is none otherwise |
| NodeStores.NodeStore.Insert | src/kernel.c:660-679 | all tables stay in order |
| NodeStores.NodeStore.Sweep | src/kernel.c:502-541 | frees only nodes of the manager without references, and all of them on the levels that are due; the freed nodes, and no others, join the free list of the manager |
| NodeStores.SweepLeaksNothing | src/kernel.c:518-533 | if every unused node was on the free list of its manager before a sweep, it is so afterwards |
| NodeStores.NodeStore.Rehash | src/kernel.c:801-829 | contents and the other tables unchanged, the shift one less unless it is 0, all tables in order |
| References.LastReferenceOk | src/kernel.c:447-464 | when a node dies its claims on children become pending releases; every count below the ceiling stays exactly the claims on its node |
| References.HoldingOk | src/kernel.c:468-500 | counting the children of a node that comes back keeps the counts exact; if it held them already, exactly one reference to each of them is lost |
| References.KidsHeld | src/kernel.c:652-679 | the edges of the new node take over the references taken for it, counts staying exact |
| References.NeverTooLow | include/cdd/kernel.h:89-120 | no count is below the smaller of its ceiling and the number of claims: callers, edges of nodes that hold their children, and references that were lost |
| Releases.ReleaseAll | src/kernel.c:435-466 | recursive release ends, never meets a node without references, keeps counts exact, and lets go of the children of exactly the nodes that lose their last reference |
| Kernels.Kernel.RecDeref | src/kernel.c:435-466 | so a caller that gives back a reference it holds gets no error |
| Revivals.ReviveAll | src/kernel.c:468-500 | resurrection ends; exactly the nodes reached through nodes without references count their children, once each unless a boolean node has one for both of its children; every count grows by what was counted, up to the ceiling |
| Revivals.AgainExact | src/kernel.c:468-500 | every node reached that held its children counts them a second time, and no other does unless it came up twice |
| Revivals.NoLossExactly | src/kernel.c:645-688 | a dead node whose children are alive comes back without a loss if and only if it had let go of them and each of them has references |
| Kernels.Kernel.Reclaim | src/kernel.c:468-500 | the node is alive again; the nodes that count their children are those reached from it, each count grows by exactly what they counted, and the lost references by the children of those that held them already |
| Kernels.Kernel.LosesExactly | src/kernel.c:468-500 | resurrection loses references if, before the call, a node reached held its children, and otherwise at most when a boolean node reached has one dead node for both of its children |
| Kernels.Kernel.MakeTwice | src/kernel.c:645-688 | the input on which counts become too high: the same contents made twice with no reference taken in between |
| Kernels.SweptWhole | src/kernel.c:502-541 | after a sweep of one manager, the nodes that hold their children still have everything below them |
| Kernels.CacheSurvives | src/cache.c:43-51 | after flushing, a sweep takes no node that a cache entry names |
| Kernels.FlushCache | src/cache.c:43-51 | clears exactly the entries that name a node without references |
| Kernels.Kernel.Collect | src/kernel.c:584-600 | flush and sweep: nodes with references keep contents, children and diagram; every cache entry stays truthful; exactly the references of freed nodes that held their children are lost |
| Wholes.ShapesDiffer | src/kernel.c:613-688 | different live nodes stand for different diagrams |
| Kernels.Kernel.HandlesDiffer | include/cdd/kernel.h:56-79 | comparing live pointers is comparing diagrams |
| Kernels.Kernel.MakeBody | src/kernel.c:613-768 | returns the existing node, brought back if it was dead, nothing else changing in the store, with references lost exactly unless it had some, or had let go and all of its children have some; or a new one with count zero whose children are counted, with a sweep in the middle of the allocation and any number of rehashes; nothing is lost if all counts were accounted for and at most the children had no references |
| Kernels.Kernel.MakeRoom | src/kernel.c:584-600 | sweeps if and only if the statistics ask for it, leaving no dead node on the levels that are due, and gets the stated amount of memory if that has freed nothing, or without a sweep |
| Kernels.Kernel.PutIn | src/kernel.c:671-686 | the node stands in its chain, and its table is doubled if and only if the statistics ask for it |
| Kernels.Kernel.MakeBddNode | src/kernel.c:613-688 | the node stands for the boolean node over the children's diagrams |
| Kernels.Kernel.MakeCddNode | src/kernel.c:690-768 | the node stands for the clock node over the pieces |
| Kernels.Kernel.CacheLookup | src/cddop.c:232-240 | found exactly if the slot records this operation; a hit is the recorded result, true of both operands and alive again |
| Kernels.Kernel.CacheStore | src/cddop.c:326-331 | recording a true result keeps the cache truthful |
| Roots.PathLives | src/kernel.c:502-541 | every node on a path from a referenced node has references and holds its children |
| Roots.CollectGarbage | src/kernel.c:584-600 | a collection leaves everything within a caller's reach as it is |
| KernelApply.Finish | src/cddop.c:290-301 | makes the node over the stack and gives back exactly the references taken |
| KernelApply.JoinBool | src/cddop.c:319-323 | makes the boolean node and gives back exactly the reference that was taken on its first child, which leaves every count accounted for |
| KernelApply.ApplyRec | src/cddop.c:153-332 | on the counted, collected, cached store: the result is alive and denotes the operation, the caller's references are as before, and everything within reach is unchanged; if every node had references and every count below the ceiling was that of callers and edges, the same holds afterwards, apart from the result having no reference yet, and no reference is lost, whatever the statistics decide |
| KernelReduction.ReduceRec | src/cddop.c:1375-1478 | the same for reduction under a consistent graph: the result is alive and stands for the reduced diagram, references, reach and graph as before, every count accounted for if it was before, and no reference lost |
| KernelReduction.CddReduce | src/cddop.c:1480-1491 | on the counted, collected store: the result is alive and in reduced form, and the pointer is false or true exactly for the empty or full set |
| KernelReduction.ReduceCached | src/cddop.c:1586-1595 | the cached branch of `cdd_apply_reduce`, reduction and collections included: the result stands for the reduced form; it is alive if the caller can reach the cached result or that still has references, and dead if it is the cached result and that has none; no reference is lost if the caller can reach the cached result and every count was accounted for |
| CachedResults.SameAlive | src/cddop.c:1586-1595 | a node brought back, referenced and released: nodes with references keep some, and the nodes with references are the same as before, unless one is counted twice or could be counted up to the ceiling |
| CachedResults.ReturnCached | src/cddop.c:1586-1595 | for every node inside a cached result: all are alive afterwards if the result had references; otherwise each is alive if and only if it had references before, with the same exceptions |
| CachedResults.ReturnedDead | src/cddop.c:1586-1595 | the input on which a dead node is returned: a result made, recorded in the cache, released, and found there by the same operation; the next reference to it leaves a referenced node that does not count its children |

## Where the code and its documentation differ

- `src/kernel.c:890-898`: `cdd_upper` of a pair in the wrong order, with the bound that nothing meets, turns that
  bound into a number above every bound and builds a malformed node. `Declarations.UpperOk` gives the exact condition.
- `src/kernel.c:852-888`: `cdd_interval` and `cdd_interval_from_level` of an empty interval, or of one without any
  end, build a malformed node; `add_bound` guards against the second only. `Declarations.IntervalOk` and
  `Operations.IntervalMeaning` give the exact condition.
- `src/kernel.c:870-898`: `cdd_interval` and `cdd_upper` take a clock paired with itself. Its number is that of its successor
  paired with clock 0, so the literal on (i, i) tests `x_0 - x_(i+1)`, and for the last clock the lookup is outside the
  table. `Declarations.IntervalOk` proves that a proper interval is right if and only if the clocks are different, and
  `Declarations.UpperOk` the same for every bound but the infinite one.
- `src/cddop.c:957`: `cdd_replace` therefore goes wrong when both clocks of a level get one clock: the level is read as
  another pair (`Quantify.Transformer.CddReplace` says what comes out), or looked up outside the table.
  `Renamings.RenamingRight` proves that a renaming is right for every normal diagram if and only if it sends different
  clocks to different clocks.
- `src/kernel.c:645-688`: a node is created with count zero and holds its children already. If it is found again before
  anyone refers to it, its children are counted a second time (`Kernels.Kernel.MakeTwice`); if it is swept, the counts
  of its children stay. Nobody gives those references back. `Kernels.Kernel.Valid` therefore says that every count
  below the ceiling is exactly the number of references of callers, edges of nodes that hold their children, and lost
  references. How the lost references grow is said by `Kernels.Kernel.Reclaim`, `Kernels.Kernel.LosesExactly`,
  `Kernels.Kernel.MakeBody` and `Kernels.Kernel.Collect`. `cdd_apply` and `cdd_reduce` by themselves lose none, started where
  every node has references and every count is accounted for (`KernelApply.ApplyRec`, `KernelReduction.ReduceRec`).
- `src/cddop.c:1586-1595`: `cdd_apply_reduce` brings a dead cached result back, takes a reference, reduces it and gives the
  reference back. If the result had no references before, it is dead again then, and so is every part of it that had
  none (apart from parts counted twice, or up to the ceiling); when the reduction is the result itself or such a part (the only child left of a clock node, say), a dead node is
  returned, and the caller's `cdd_ref` leaves a referenced node that does not count its children.
  `CachedResults.ReturnCached` gives the condition for every part, `CachedResults.ReturnedDead` an input, and
  `KernelReduction.ReduceCached` shows that the result is alive whenever the caller can reach the cached one.
- `src/cppext.cpp:471-499`: the array of the diagram true has no rows, like that of an empty diagram would. The function
  reads the first entry of an empty array for the diagram false, and for true with no boolean declared, and for no other
  diagram (`TraceMatrix.EntryOrNone`).

## Left out

- Clock quantification by `relax` (`src/cddop.c:640-776`): it reads the list of clocks as an array of flags, so what it should compute is not settled by the code.
- `cdd_contains` (`src/cddop.c:358-416`): its boolean branch ignores the negation bit.
- The matrix library (`dbm_constrain`, `dbm_closex`, `dbm_analyzeForMinDBM`): its results are parameters of `Extraction.FromDbm` and `Extraction.ExtractDbm`, described by the set of clock values they stand for.
- `cdd_delay`, `cdd_past`, `cdd_predt` and the transition functions: loops around operations of the matrix library.
- Extra terminals, printing, marking and counting of nodes, the C++ wrapper apart from the trace matrix, operating-system memory.
- TraceMatrix.CddBddToArray: says nothing about the result when the code reads beyond the end of an array; it reports that case instead.
- Exact statistics of a manager (dead, used, free, keys): they are arbitrary decisions in the model. A sweep that frees nothing is followed by new memory.
- 32-bit overflow of bounds, distances and the call counter, and the error path for nodes wider than the configured maximum.
- Byte order in keys: `memcmp` over pieces is modelled as comparing words; only that it is a total order matters. A table of 2^32 buckets is not doubled again.
- NodeStores.NodeStore.Sweep: free lists are sequences, and a freed node is marked as holding nothing, where the code threads free nodes through their first field.
- Operations on values (`Apply`, `ApplyReduce`, `Operations`, `Quantify`, `Extraction`, both reductions) do not count
  references. `KernelApply` and `KernelReduce` prove the counting of `cdd_apply` and `cdd_reduce`; that of the other operations
  is not proved, and that of `cdd_apply_reduce` is wrong when the cached result it returns, or a part of it, is dead (see above).
- ApplyReduction.ApplyReduceRec: works on values, so it does not say that the node it returns is alive; `KernelReduction.ReduceCached` and `CachedResults.ReturnCached` do for cached results.
- ApplyReduction.ReduceOperand: works on values; the reference that is taken on a cached result and given back is in `KernelReduction.ReduceCached`.
- Kernels.Kernel.LosesExactly: one-way for a boolean node with one dead node for both of its children; whether that is pushed twice depends on the order of the walk.
- CachedResults.ReturnCached: if there is such a boolean node, or a count that could reach its ceiling, it says only that nodes with references keep some. The reduction of the result in between is left out here; `KernelReduction.ReduceCached` has it.
- Quantify.Transformer.CddReplace: asks that every pair of the diagram is looked up inside the table; what lies beyond its end is not part of this model.
- Quantify.Transformer.CddExist: covers calls that list no clock. The quantification and renaming caches live on values; that entries survive only while their nodes do is proved for the apply cache.
- Quantify.Transformer.ExistRec: leaves out the branch for listed clocks, which relaxes constraints.
- Extraction.FromDbm: which bounds of the matrix are selected is an input; the matrix library computes it.
- Extraction.ExtractDbm: the closed matrix is an input that stands for its set of clock values; the matrix library computes it.
