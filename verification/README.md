# Heptane: verified models of its analyses and algorithms

Heptane estimates worst-case execution times. This project models, and proves properties of, the
parts of it that a bound depends on or that are algorithms of their own:

- **The control-flow pipeline of HeptaneExtract.** Cutting an instruction list into blocks and
  edges (`CfgExtraction`), the in-place, pass-capped dominator analysis (`DominatorAnalysis`), natural
  loops (`LoopAnalysis`) and sending loop bounds to innermost loops (`Annotations`) are classes and
  methods with loops, as in the program. Beside them stand path-based definitions (`FlowGraph`,
  `DominatorSpec`, `LoopSpec`, `InnermostSpec`) and the theorems that connect the two. Lists in which an
  expanded instruction has several entries are brought back to one entry an instruction (`EntryLists`);
  the extracted graph is proved to take the program's steps and, exactly where an expansion hides a
  return (`HiddenReturns`) or a gap in the code is fallen into (`LiteralPools`), others
  (`ProgramSimulation`, with a function that has delay slots in `DelaySlots`); edges out of isolated padding
  are taken off again (`Cleaning`). So dominance and loops are statements about runs (`ProgramRuns`, `ProgramLoops`), from the instructions of a function to the bounds of its loops
  (`ProgramBounds`). Bounds written to an annotation file are read back (`LoopFiles`).
- **The expansion of ARM block transfers** into simple loads and stores (`BlockTransfer`).
- **The LRU instruction cache** of the cache simulator (`InstructionCache`) against the recency order
  of the access history (`LruSpec`).
- **Bit-level and numeric algorithms**: fdlibm's square root on split words (`SquareRoot`), LU
  decomposition in place (`LuDecomposition`, over `LinearAlgebra`), the simulator's multiplication
  (`Multiplication`), the table-driven CRC (`Crc`, `CrcSpec`, over `Polynomials`) and the DES cipher
  (`Des`, `DesSpec`, `DesRoundFunction`, `DesTables`, over `BitTables`), which is proved to be the standard's
  (`DesRefinement`): FIPS 46-3 is stated on sequences of bits, with its own tables, in `DesStandard`. What the
  tables do for the cipher is in `DesBoxes` and `DesProperties`.
- **The pacemaker controller** as runs of a state machine (`Pacemaker`).

Each method is proved against a function or predicate on values; what the program is for is proved
about these values, for all inputs, runs or graphs. Word widths are explicit: ranges with checked
signed and wrapping unsigned arithmetic (`Words`) in `SquareRoot` and `Multiplication`, bit vectors in `Crc` and
`Des` (`unsigned long` has 32 bits), wrapped addresses in `BlockTransferSpec`.
Some proofs use `hide` to keep definitions out of a lemma's context; it only removes facts.

`dafny verify dfyconfig.toml` checks the whole project.

How the code is read where it leaves room:

- Of the cfglib classes only what the analyses ask is modelled (`src/Common/cfglib/src/Cfg.cc:187-219`
  and `333-344`, `src/Common/cfglib/src/Loop.cc:146-248`). A graph is its nodes in creation order, the first
  one as start, and the predecessors of each in the order of the edges; a loop is its head, node set and
  back edges; `IsNestedIn` is inclusion of node sets.
- A pass of the dominator analysis takes news along an edge at once if the edge's source stands before
  its target in the node list, and in the next pass otherwise. The cost of a start path counts the passes:
  one for its first edge and one for each later edge that goes against the list.
- An instruction of the list counts, when edges are made, as what its own text says; in the expansion of
  a block transfer that is not what it was read as.
- Control does not fall through a gap in the addresses, where data stands; the list of instructions does not
  show the gap, so the extractor lets it.
- "d dominates n" means that every path from the start to n contains d. An unreachable node is
  dominated by every node, which is what the analysis computes for it.
- A block's address map reads as the null node for an address where no block starts, and edges to it
  are kept, as in the code.
- The order in which a set is walked through (`std::set` of pointers) is arbitrary in the methods.

Where code and documentation or expectation differ, the code is followed:

- The cap of 20 passes can leave wrong dominators, which the program does not report. It is harmless if and
  only if whatever does not dominate a node is avoided by a start path of cost at most 20
  (`DominatorSpec.ExactIffCheapDetours`); so it is up to 22 nodes, but not always with 23
  (`DominatorSpec.EnoughPasses`, `DominatorSpec.TooFewPasses`, and as a program `ChainPrograms.CapFallsShort`
  and `ChainPrograms.ProgramCapFallsShort`).
- Loops that share only dead code can overlap without being nested (`LoopSpec.DeadCodeBreaksNesting`) or
  have the same nodes (`LoopSpec.DeadCycleTwins`); their heads decide which it is
  (`LoopSpec.InsideIffHeadInside`, `LoopSpec.HeadsDecide`). A bound goes to both of two loops with the same nodes
  (`InnermostSpec.SameLoopIffOnlyLeast`, `InnermostSpec.TwinsShareTheBound`).
- A return that is an expanded `pop` no longer counts as one, so unless it comes last in its function a false
  edge follows it (`HiddenReturns.ExpandedReturnFallsThrough`). Padding before a literal pool is made to fall
  through the pool, and code behind a pool that no jump leads to joins the block before. The graph as created
  is right if and only if there is nothing of this
  (`ProgramSimulation.StepsAgreeIffNothingStray`); cleaning takes the edge off the padding if nothing leads to it
  (`LiteralPools.FinalEdgesAre`).
- For the subnormals whose highest bit the word moves put in place by themselves, the square root shifts
  a word by all its 32 places, which C leaves open. The result does not depend on it (`SquareRoot.NotShifted`).
- The decrement forms other than push put the lowest register at the highest address, against the
  architecture's rule, so they are right only for at most one register (`BlockTransferSpec.DecrementAgreesIffShort`).
- A load whose base is in its list goes on reading through the new base once it has loaded it, so without
  write back the increment forms are right if and only if the base does not come before the last register
  of the list: `ldm r3, {r2, r3}` is, `ldm r0, {r0, r1}` is not (`BlockTransferSpec.IncrementAgreesIffBaseLast`). A push that
  lists the stack pointer stores the one that has moved (`BlockTransferSpec.PushAgreesIffNoStackPointer`).
- The constructor in `icache.cc` takes sets, ways and line size in this order; the declaration in
  `icache.h` names its parameters line size, lines and ways.
- `ludcmp` compares every pivot with `eps` but the last one, which it divides by all the same. So it returns 0
  for some systems without a solution (`LuDecomposition.SolveNothing`); that pivot is zero if and only if
  the matrix is singular (`LuSpec.LastPivotZeroIffSingular`).
- An annotation file that the program wrote itself can be read again only if every loop had a bound, because a
  loop without one is left out with all loops inside it (`LoopFileSpec.ReadableIffAllBounded`).
- `pm.c` says in a comment that PACING may need a timeout; there is none, and the controller stays in
  PACING until an activation (`PacemakerSpec.PacingOnTime`).

## Model

| member | source | states |
|---|---|---|
| DominatorSets.DominatorData.FindBB | src/HeptaneExtract/src/dominatorData.cc:52-58 | the result is membership in the vector |
| DominatorSets.DominatorData.AddBB | src/HeptaneExtract/src/dominatorData.cc:60-69 | the node is put at the end, without looking whether it is already there |
| DominatorSets.DominatorData.SetNewListBB | src/HeptaneExtract/src/dominatorData.cc:71-78 | the vector afterwards lists the given set, each element once, whatever it held before |
| DominatorSets.SameSizeSameSet | src/HeptaneExtract/src/dominatorAnalysis.cc:64-74 | on a vector that repeats no node, equal sizes plus inclusion one way are set equality |
| DominatorSets.SameSizeNeedsDistinct | src/HeptaneExtract/src/dominatorAnalysis.cc:64-74 | the comparison is set equality for every set to compare with if and only if the vector repeats no node |
| DominatorSets.RepetitionAcceptsMore | src/HeptaneExtract/src/dominatorAnalysis.cc:64-74 | a vector with a repetition for which the comparison accepts a larger set |
| DominatorAnalysis.DominatorComputer.EqualDominator | src/HeptaneExtract/src/dominatorAnalysis.cc:52-75 | for a vector without repetitions the answer is equality of the two sets |
| DominatorAnalysis.DominatorComputer.Initialise | src/HeptaneExtract/src/dominatorAnalysis.cc:91-108 | all sets full except the start node's, which is its singleton |
| DominatorAnalysis.DominatorComputer.Intersect | src/HeptaneExtract/src/dominatorAnalysis.cc:124-157 | the new set of a node is the right-hand side of the dominator equation for the sets as they are now |
| DominatorAnalysis.DominatorComputer.Revise | src/HeptaneExtract/src/dominatorAnalysis.cc:159-167 | only that node's set is replaced, by the equation's value, and a change is reported if and only if the set is different |
| DominatorAnalysis.DominatorComputer.OnePass | src/HeptaneExtract/src/dominatorAnalysis.cc:116-169 | one in-place pass over the nodes in order; `change` tells exactly whether any set differs from before the pass |
| DominatorAnalysis.DominatorComputer.ComputeDominator | src/HeptaneExtract/src/dominatorAnalysis.cc:77-178 | the result is that of at most 20 passes; every set contains the node's true dominators; the sets are exactly the nodes on every start path if and only if every detour can be had at cost 20, and in any case when the last pass changed nothing or there are at most 22 nodes |
| DominatorSpec.IterateKeeps | src/HeptaneExtract/src/dominatorAnalysis.cc:110-171 | in every pass the sets only shrink and keep containing all nodes that lie on every start path |
| DominatorSpec.PassStepChanges | src/HeptaneExtract/src/dominatorAnalysis.cc:118-169 | the change flag set at single nodes adds up to whether the pass changed anything, although later nodes read earlier writes |
| DominatorSpec.QuietPassIsExact | src/HeptaneExtract/src/dominatorAnalysis.cc:110-171 | if a pass changes nothing, every node's set is exactly the nodes on every path from the start to it; all nodes for an unreachable node |
| DominatorSpec.ExactIsQuiet | src/HeptaneExtract/src/dominatorAnalysis.cc:110-171 | exact sets are left alone by every further pass |
| DominatorSpec.CheapPathExcludes | src/HeptaneExtract/src/dominatorAnalysis.cc:110-171 | a start path that goes against the node list at most k times (its first edge counted) keeps every node off it out of the set of its end after k passes, at any length |
| DominatorSpec.ExcludedHasCheapPath | src/HeptaneExtract/src/dominatorAnalysis.cc:110-171 | for every node missing from a set after k passes there is such a path that avoids it |
| DominatorSpec.PassesFindCheapDetours | src/HeptaneExtract/src/dominatorAnalysis.cc:110-171 | after k passes x is missing from the set of n if and only if a start path to n of cost at most k avoids x, for every graph, node list and k |
| DominatorSpec.ExactIffCheapDetours | src/HeptaneExtract/src/dominatorAnalysis.cc:36-36 | k passes are exact if and only if whatever does not dominate a node is avoided by a start path of cost at most k: a condition on edges and list order alone |
| DominatorSpec.PassesBoundPaths | src/HeptaneExtract/src/dominatorAnalysis.cc:110-171 | after k in-place passes each set lies within the nodes of every start path of at most k edges |
| DominatorSpec.EnoughPasses | src/HeptaneExtract/src/dominatorAnalysis.cc:36 | k passes are exact on every graph of at most k + 2 nodes, so the cap of 20 is harmless up to 22 nodes |
| DominatorSpec.TooFewPasses | src/HeptaneExtract/src/dominatorAnalysis.cc:36 | for every k there is a graph of k + 3 nodes, with the start listed first, on which k passes are not exact, so 22 is the best bound for the cap of 20 |
| ChainPrograms.ChainIsExtracted | src/HeptaneExtract/src/HeptaneExtract.cc:280-420 | that graph is the one extracted from a function of k + 3 instructions: a conditional jump, two returns and jumps back |
| ChainPrograms.CapFallsShort | src/HeptaneExtract/src/dominatorAnalysis.cc:36-36 | for every number of passes there is a function whose extracted graph they leave with wrong dominators |
| ChainPrograms.ProgramCapFallsShort | src/HeptaneExtract/src/dominatorAnalysis.cc:36-36 | the program's own cap leaves wrong dominators in a function of 23 blocks, one more than it always suffices for |
| DominatorSpec.StoppedExact | src/HeptaneExtract/src/dominatorAnalysis.cc:114-171 | stopping early changes nothing: after a pass without change or at the cap, the sets are exact if and only if every detour is cheap for the cap; after a pass without change they always are |
| DominatorSpec.PassesSettle | src/HeptaneExtract/src/dominatorAnalysis.cc:114-171 | without the cap the passes stop: from pass number of nodes minus two on nothing changes any more |
| LoopAnalysis.LoopComputer.AddPredecessors | src/HeptaneExtract/src/loopAnalysis.cc:197-223 | the recursion ends, keeps what was in the loop, and adds nodes that reach the current one outside the loop, until all their predecessors are in |
| LoopAnalysis.LoopComputer.BackEdgeSources | src/HeptaneExtract/src/loopAnalysis.cc:45-65 | exactly the predecessors whose dominator attribute holds the node |
| LoopAnalysis.LoopComputer.BuildLoop | src/HeptaneExtract/src/loopAnalysis.cc:68-97 | the new loop's node set is the natural loop of the header and these sources, with one back edge for each source in order |
| LoopAnalysis.LoopComputer.LoopOfNode | src/HeptaneExtract/src/loopAnalysis.cc:42-98 | a node without back edges creates nothing; otherwise one fresh loop is appended and the others stay |
| LoopAnalysis.LoopComputer.ComputeLoop | src/HeptaneExtract/src/loopAnalysis.cc:37-99 | one loop for each node that a back edge leads to and for no other, with pairwise different heads |
| LoopAnalysis.AddedThroughPredecessor | src/HeptaneExtract/src/loopAnalysis.cc:212-222 | what the recursion on a predecessor adds also reaches the current node without the nodes already in the loop |
| LoopAnalysis.ClosedHolds | src/HeptaneExtract/src/loopAnalysis.cc:212-222 | a set closed under predecessors except at the header holds every node with a header-free path into it |
| LoopAnalysis.ClosureIsNaturalLoop | src/HeptaneExtract/src/loopAnalysis.cc:68-97 | the closure that the recursion computes is the header plus all nodes that reach a back-edge source without passing the header |
| LoopSpec.HeaderDominates | src/HeptaneExtract/src/loopAnalysis.cc:55-63 | with exact dominators the header dominates every member of its loop |
| LoopSpec.StartOnlyAsHeader | src/HeptaneExtract/src/loopAnalysis.cc:37-99 | the start node is in a loop only if it is the header |
| LoopSpec.DominatorsAreOrdered | src/HeptaneExtract/src/dominatorAnalysis.cc:110-171 | of two dominators of a reachable node one dominates the other |
| LoopSpec.DominatedLoopInside | src/HeptaneExtract/src/loopAnalysis.cc:37-99 | of two loops with a reachable node in common the one with the dominated header is inside the other, which has its header outside it |
| LoopSpec.LoopsNest | src/HeptaneExtract/src/loopAnalysis.cc:37-99 | two loops with different headers and a reachable node in common are properly nested, for every graph, irreducible ones included |
| LoopSpec.NestIffShared | src/HeptaneExtract/src/loopAnalysis.cc:37-99 | for two loops with reachable headers: properly nested if and only if they share a reachable node (dead headers: `LoopSpec.InsideIffHeadInside`) |
| LoopSpec.InsideIffHeadInside | src/HeptaneExtract/src/loopAnalysis.cc:37-99 | under exact dominators one loop lies inside another if and only if its header does, for every graph and all headers, unreachable ones included |
| LoopSpec.HeadsDecide | src/HeptaneExtract/src/loopAnalysis.cc:37-99 | one loop lies properly inside the other, or they have the same nodes, exactly as their headers lie in the other loop or not |
| LoopSpec.DeadWayIsInside | src/HeptaneExtract/src/loopAnalysis.cc:212-222 | a node that reaches dead code through b is in the loop of b, since what stands before b on the way counts as a back edge's source |
| LoopSpec.DeadCodeBreaksNesting | src/HeptaneExtract/src/loopAnalysis.cc:37-99 | a graph whose loops overlap partially in an unreachable node: reachability is needed |
| LoopSpec.DeadCycleTwins | src/HeptaneExtract/src/loopAnalysis.cc:37-99 | a graph with two loops of different headers and the same nodes, in dead code |
| Annotations.SearchInner | src/HeptaneExtract/src/Annotations.cc:431-444 | the search from one containing loop ends at the loop that the comparison scan of the node sets chooses |
| Annotations.SetBound | src/HeptaneExtract/src/Annotations.cc:445-461 | afterwards the loop has the annotation's value, whatever bound it had |
| Annotations.AttachOne | src/HeptaneExtract/src/Annotations.cc:417-465 | each loop at which some scan ends gets the value and no other loop changes; other kinds and missing nodes change nothing |
| Annotations.Attach | src/HeptaneExtract/src/Annotations.cc:415-466 | after all annotations each loop has the value of the last one that hits it, or its prior bound |
| Annotations.CreateLoops | src/HeptaneExtract/src/HeptaneExtract.cc:457-469 | dominators and then loops of a graph: the natural loops of distinct headers; exact if the analysis settled or there are at most 22 nodes, and if and only if every detour is cheap for the cap |
| Annotations.AttachEarlier | src/HeptaneExtract/src/Annotations.cc:67-103 | a loop gets the bound that the annotation file has for it, and the others stay without one; how the file's tags find their loops is in `LoopFiles.AddAnnotations` |
| LoopFiles.AddAnnotations | src/HeptaneExtract/src/Annotations.cc:67-103 | the recursion over loop tree and tags succeeds if and only if at every place there are as many tags as loops, and then gives each loop its tag's bound and leaves the others |
| LoopFileSpec.SameShapeIffEqualCounts | src/HeptaneExtract/src/Annotations.cc:67-103 | loops and tags match if and only if every path of positions leads to as many tags as loops |
| LoopFiles.GenerateAnnotations | src/HeptaneExtract/src/Annotations.cc:105-126 | the tags written are those of the loops that have a bound and lie in none without one |
| LoopFileSpec.ReadableIffAllBounded | src/HeptaneExtract/src/Annotations.cc:67-126 | the tags written match the loops again if and only if no loop is without a bound |
| LoopFileSpec.ReadingRestores | src/HeptaneExtract/src/Annotations.cc:67-126 | read back, they give exactly the loops of the tree exactly the bounds they had |
| LoopFiles.WriteAndRead | src/HeptaneExtract/src/Annotations.cc:67-126 | written and read into other loops of the same nesting: succeeds if and only if all had bounds, and then these have them too |
| Annotations.FinalizeLoops | src/HeptaneExtract/src/HeptaneExtract.cc:457-476 | dominators, loops, bounds from the file, bounds from the binary: with exact dominators and annotations at reachable nodes, each loop ends with the last value whose innermost loop it is, or with the file's; exactness as in `CreateLoops` |
| InnermostSpec.ScanReachesLeast | src/HeptaneExtract/src/Annotations.cc:431-444 | a least loop around the node stops the scan from wherever it started |
| InnermostSpec.NestedHasLeast | src/HeptaneExtract/src/Annotations.cc:431-444 | if the loops around the node are nested, the scan ends at the least of them although it never compares with its own start again |
| InnermostSpec.SameSetIffLeast | src/HeptaneExtract/src/Annotations.cc:426-444 | the node set of the chosen loop is independent of the starting loop if and only if a least loop around the node exists |
| InnermostSpec.ScanLeavesTwin | src/HeptaneExtract/src/Annotations.cc:431-444 | a search that starts at a least loop moves to another loop with the same nodes and never comes back |
| InnermostSpec.SameLoopIffOnlyLeast | src/HeptaneExtract/src/Annotations.cc:426-444 | the loop that gets the bound is independent of the starting loop if and only if a least loop around the node exists that no other loop equals in its nodes |
| InnermostSpec.TwinsShareTheBound | src/HeptaneExtract/src/Annotations.cc:426-444 | in the dead cycle the two searches end at different loops, so the bound is written to both |
| InnermostSpec.LoopsAroundReachableNest | src/HeptaneExtract/src/Annotations.cc:414-466 | the loops around a reachable node are a nested family of different sets |
| InnermostSpec.HitsInnermostOnly | src/HeptaneExtract/src/Annotations.cc:414-466 | an annotation at a reachable node reaches exactly the least loop around the node |
| InnermostSpec.OneMoreAnnotation | src/HeptaneExtract/src/Annotations.cc:415-461 | an annotation overrides the bound of each loop it hits and leaves the others |
| InnermostSpec.BoundsGoInnermost | src/HeptaneExtract/src/Annotations.cc:414-466 | each loop ends with the value of the last annotation whose innermost loop it is, or keeps the bound it had before |
| CfgExtraction.CfgBuilder.ReadInstruction | src/HeptaneExtract/src/HeptaneExtract.cc:850-906 | all list entries of the instruction are appended, and leaders and successors are those of every instruction read so far |
| CfgExtraction.CfgBuilder.RecordTargets | src/HeptaneExtract/src/HeptaneExtract.cc:860-905 | leaders and successors grow by what the instruction's kind says: fall-through after the delay slots, jump target, both, or none |
| CfgExtraction.CfgBuilder.ReadFunction | src/HeptaneExtract/src/HeptaneExtract.cc:849-907 | after a whole function the list is the entries of its instructions in order |
| CfgExtraction.CfgBuilder.CreateBlocks | src/HeptaneExtract/src/HeptaneExtract.cc:284-361 | nodes and address map are those of the recursive block cutting of the whole list |
| CfgExtraction.CfgBuilder.LinkSuccessors | src/HeptaneExtract/src/HeptaneExtract.cc:389-411 | the edges to the recorded successors of the address are appended, one for each of them, and no others |
| CfgExtraction.CfgBuilder.CreateEdges | src/HeptaneExtract/src/HeptaneExtract.cc:363-416 | the edges are, as a set, those of the second scan over all instructions |
| CfgExtraction.CfgBuilder.BuildHeptaneCfg | src/HeptaneExtract/src/HeptaneExtract.cc:280-420 | nodes, address map and edges are those that the list and the architecture determine, cleaned for ARM |
| CfgExtraction.CfgBuilder.CleanCfg | src/HeptaneExtract/src/HeptaneExtract.cc:171-199 | in block order, the outgoing edges of every single `nop` but the first block are taken off if no edge leads to it by then |
| CfgExtraction.CfgBuilder.IsIsolatedNop | src/Common/cfglib/src/Node.cc:315-325 | one instruction, a `nop`, and no predecessor |
| CfgExtraction.CfgBuilder.RemoveEdge | src/Common/cfglib/src/Cfg.cc:207-219 | the edge is taken out once and every other one stays as often as it was |
| CfgExtraction.CfgBuilder.RemoveOutgoing | src/HeptaneExtract/src/HeptaneExtract.cc:191-196 | after removing the outgoing edges one by one exactly the other blocks' edges are left |
| Cleaning.CleanedFromIsolated | src/HeptaneExtract/src/HeptaneExtract.cc:186-197 | an edge is taken off only where it starts at padding that nothing leads to in the finished graph |
| Cleaning.CleanedExactly | src/HeptaneExtract/src/HeptaneExtract.cc:186-197 | if padding only falls into the next block, exactly the edges of padding that nothing leads to are taken off, whatever the order of the blocks |
| LiteralPools.PaddingEdge | src/HeptaneExtract/src/HeptaneExtract.cc:363-416 | in extracted graphs the only edge out of padding leads into the next block |
| LiteralPools.FinalEdgesAre | src/HeptaneExtract/src/HeptaneExtract.cc:363-418 | the edges of the finished graph are those created, without the edges of padding that no edge of the finished graph leads to |
| LiteralPools.PoolIsCleaned | src/HeptaneExtract/src/HeptaneExtract.cc:173-183 | a branch over a `nop` and a word of data: the `nop` is made to fall through the data, and cleaning takes that edge off |
| CfgExtraction.CfgBuilder.GetPredecessors | src/Common/cfglib/src/Cfg.cc:333-344 | the origins of the edges to a block in creation order |
| CfgExtraction.CfgBuilder.GetCfg | src/Common/cfglib/src/Cfg.cc:187-205 | the graph that the analyses walk: the nodes in creation order, the first one as start, and the predecessors of each |
| ExtractionSpec.BlocksAreBlocks | src/HeptaneExtract/src/HeptaneExtract.cc:284-361 | the cutting yields consecutive stretches of the list that start at leaders and at the first instruction only, in order, with nothing lost |
| ExtractionSpec.TableFinds | src/HeptaneExtract/src/HeptaneExtract.cc:298-301 | the address of a block's first instruction leads to that block in the finished map |
| ExtractionSpec.LookupIsNodeAt | src/HeptaneExtract/src/HeptaneExtract.cc:381-397 | looking an address up gives the node created for it, and the null node if and only if no block starts there |
| ExtractionSpec.RecordedOnce | src/HeptaneExtract/src/HeptaneExtract.cc:860-905 | the further entries of an instruction add nothing to the leaders and successors of its first |
| EntryLists.SameScans | src/HeptaneExtract/src/HeptaneExtract.cc:284-416 | after the entries of k instructions both scans have the blocks, address map and edges that they would have after the k first entries alone |
| EntryLists.EntriesDoNotMatter | src/HeptaneExtract/src/HeptaneExtract.cc:280-420 | blocks, address map and edges, before and after cleaning, from a list with repeated addresses are those from the first entry of each instruction |
| ProgramSimulation.LeadersAre | src/HeptaneExtract/src/HeptaneExtract.cc:860-905 | the recorded leaders are exactly the successors and fall-through addresses of the control instructions |
| ProgramSimulation.SuccessorsAre | src/HeptaneExtract/src/HeptaneExtract.cc:860-905 | with distinct addresses each instruction's recorded successors are its own targets, and no other address has any |
| ProgramSimulation.StepsByKind | src/HeptaneExtract/src/HeptaneExtract.cc:860-905 | what the program does behind the delay slots, by the kind of the control instruction: a call goes on directly behind them, a return nowhere, a jump to the instruction at its target, a conditional jump to either |
| ProgramSimulation.PlainSteps | src/HeptaneExtract/src/HeptaneExtract.cc:860-905 | everywhere else it goes on to the next instruction, unless there is a gap before it |
| ProgramSimulation.ComesToTargets | src/HeptaneExtract/src/HeptaneExtract.cc:860-905 | the successors recorded for an instruction are exactly the addresses the program comes to from it |
| ProgramSimulation.LeadersMean | src/HeptaneExtract/src/HeptaneExtract.cc:860-905 | the leaders among the instructions are exactly the jump targets and what is directly behind the last delay slot of a control instruction |
| ProgramSimulation.SlotsAreNoLeaders | src/HeptaneExtract/src/HeptaneExtract.cc:860-905 | no delay slot is a leader, so no block is cut before one |
| ProgramSimulation.NextScanKnows | src/HeptaneExtract/src/HeptaneExtract.cc:370-416 | one turn of the second scan keeps: the start of the current block, whether an entry of it counted as a control instruction, and exactly the edges due so far |
| ProgramSimulation.ScanMeaning | src/HeptaneExtract/src/HeptaneExtract.cc:363-416 | after the scan the edges are exactly the fall-through edges into blocks without a jump before them and the successor edges |
| ProgramSimulation.ControlEndsBlock | src/HeptaneExtract/src/HeptaneExtract.cc:860-905 | a block with a control instruction ends with that instruction's last delay slot |
| ProgramSimulation.TransferEndsBlock | src/HeptaneExtract/src/HeptaneExtract.cc:284-361 | control leaves only at the end of a block |
| ProgramSimulation.TransferIsControl | src/HeptaneExtract/src/HeptaneExtract.cc:379-413 | the jump flag is set at the end of a block exactly for a transfer by an instruction whose first entry still counts as a control instruction |
| ProgramSimulation.FallEdgeMeans | src/HeptaneExtract/src/HeptaneExtract.cc:379-384 | a fall-through edge joins exactly neighbouring blocks of which the first has no such transfer |
| ProgramSimulation.SuccEdgeMeans | src/HeptaneExtract/src/HeptaneExtract.cc:389-411 | a successor edge is exactly a transfer from the end of the first block to the first instruction of the second |
| ProgramSimulation.EdgeMeans | src/HeptaneExtract/src/HeptaneExtract.cc:363-416 | there is an edge between two blocks if and only if the program goes from the last instruction of one to the first of the other, or falls behind a control instruction hidden by its expansion or across a gap |
| ProgramSimulation.GraphStepMeans | src/HeptaneExtract/src/HeptaneExtract.cc:280-416 | the extracted graph has exactly the program's steps and the falls behind hidden control instructions and across gaps, on all well-placed code |
| ProgramSimulation.StepsAgree | src/HeptaneExtract/src/HeptaneExtract.cc:280-416 | if no control instruction is hidden that stops and no gap is fallen into, the extracted graph and the instruction-level program take exactly the same steps |
| ProgramSimulation.StepsAgreeIffNothingStray | src/HeptaneExtract/src/HeptaneExtract.cc:280-416 | graph and program take the same steps if and only if what is listed behind delay slots is directly behind them or a jump target, every hidden control instruction comes last or goes on to what is listed behind it anyway, and gaps stand behind transfers only |
| ProgramSimulation.HiddenStopIsStray | src/HeptaneExtract/src/HeptaneExtract.cc:412-413 | behind a hidden control instruction that stops the graph has a step that the program never takes |
| ProgramSimulation.NoLeaderIsStray | src/HeptaneExtract/src/HeptaneExtract.cc:284-416 | where what is listed behind delay slots is no leader, the block goes on where the program never does |
| ProgramSimulation.SpacedIsPlaced | src/HeptaneExtract/src/HeptaneExtract.cc:860-905 | equally spaced code whose delay slots are neither control instructions nor jump targets is well placed and has no gaps |
| ProgramSimulation.EveryEdgeIsAStep | src/HeptaneExtract/src/HeptaneExtract.cc:363-416 | every edge created, null ends included, starts at the end of a block and is a step to a block's start, a stray fall there, or a transfer out of the function |
| DelaySlots.BlocksHoldTheirSlots | src/HeptaneExtract/src/HeptaneExtract.cc:284-361 | a function for a machine with one delay slot: a conditional jump, a call and a return make three blocks, each with its slot |
| DelaySlots.EdgesOfBranchCallReturn | src/HeptaneExtract/src/HeptaneExtract.cc:363-416 | its edges are exactly those from the jump to the call and to the return, and from the call to the return |
| ProgramRuns.RunHasPath | src/HeptaneExtract/src/HeptaneExtract.cc:363-418 | every run of the program has a path of the cleaned graph through blocks that it visits, stray falls or not |
| ProgramRuns.DominatorsAreExecuted | src/HeptaneExtract/src/dominatorAnalysis.cc:77-178 | a run that comes to an instruction has executed every block that dominates the instruction's block |
| ProgramRuns.PathHasRun | src/HeptaneExtract/src/HeptaneExtract.cc:363-418 | if stray falls stand in unreachable blocks only, every path of the cleaned graph is followed by a run that visits no other block |
| ProgramRuns.DominanceIsAboutRuns | src/HeptaneExtract/src/dominatorAnalysis.cc:77-178 | if stray falls stand in unreachable blocks only, a block dominates the block of an instruction in the cleaned graph if and only if every run that comes to the instruction has executed it |
| ProgramRuns.CleaningKeepsDominance | src/HeptaneExtract/src/HeptaneExtract.cc:418-418 | cleaning changes neither what is reachable nor what dominates what |
| ProgramRuns.NothingStray | src/HeptaneExtract/src/HeptaneExtract.cc:280-420 | without hidden stops and gap falls that condition holds |
| HiddenReturns.PopHidesReturn | src/HeptaneExtract/src/HeptaneExtract.cc:548-575 | the first entry of an expanded return counts as a load, while the instruction was read as a return |
| HiddenReturns.ExpandedReturnFallsThrough | src/HeptaneExtract/src/HeptaneExtract.cc:412-413 | in every well-placed function, behind every expanded return that is not last the graph has a step that the program never takes |
| HiddenReturns.FalseEdgeBehindReturn | src/HeptaneExtract/src/HeptaneExtract.cc:379-413 | a function of two instructions with such an edge |
| ProgramLoops.RunsEnterAtHeader | src/HeptaneExtract/src/loopAnalysis.cc:37-99 | a run inside a loop of the extracted graph has executed the loop's header |
| ProgramLoops.ExecutedLoopsNest | src/HeptaneExtract/src/loopAnalysis.cc:37-99 | two loops of the extracted graph that share a block which some run executes are properly nested |
| ProgramBounds.BuiltIsExtracted | src/HeptaneExtract/src/HeptaneExtract.cc:280-420 | the graph built from all list entries is the one extracted from the instructions: blocks as nodes, the first as start, the cleaned edges |
| ProgramBounds.InnermostIsEntered | src/HeptaneExtract/src/Annotations.cc:414-466 | every run that comes to an annotated block has entered the innermost loop around it at its header |
| ProgramBounds.BoundLoops | src/HeptaneExtract/src/HeptaneExtract.cc:457-476 | reading, building and finalising one function in sequence: for well-placed code, exact dominators (always with at most 22 blocks) and annotations in executed blocks, every bound is at the innermost loop that the runs through its block enter |
| BlockTransfer.Expander.ExpandPush | src/HeptaneExtract/src/HeptaneExtract.cc:527-547 | the emitted instructions: the stack pointer down by four bytes a register, then stores upwards from it |
| BlockTransfer.Expander.ExpandMultiple | src/HeptaneExtract/src/HeptaneExtract.cc:548-575 | the emitted instructions of the other forms, with their offsets and final base update |
| BlockTransferSpec.PushAgrees | src/HeptaneExtract/src/HeptaneExtract.cc:502-547 | an expanded push has the effect of the architecture's store with decrement before and write back, on memory, registers and stack pointer |
| BlockTransferSpec.PushAgreesIffNoStackPointer | src/HeptaneExtract/src/HeptaneExtract.cc:527-547 | for a register list, an expanded push agrees with the architecture on every machine if and only if the list does not name the stack pointer |
| BlockTransferSpec.IncrementAgrees | src/HeptaneExtract/src/HeptaneExtract.cc:548-575 | the increment forms, pop among them, have the architectural effect on every machine, address wrap-around included, unless a load goes on after it has loaded its base |
| BlockTransferSpec.IncrementAgreesIffBaseLast | src/HeptaneExtract/src/HeptaneExtract.cc:548-575 | an increment form agrees with the architecture on every machine if and only if it is not a load with its base before the last register of its list |
| BlockTransferSpec.LoadsWithTheirBase | src/HeptaneExtract/src/HeptaneExtract.cc:548-575 | `ldm r3, {r2, r3}` is expanded right; on a given machine `ldm r0, {r0, r1}` loads 7 into r1 and its expansion 0 |
| BlockTransferSpec.PopUndoesPush | src/HeptaneExtract/src/HeptaneExtract.cc:502-575 | an expanded push followed by an expanded pop of the same list restores all sixteen registers and leaves the memory of the push |
| BlockTransferSpec.ShortListAgrees | src/HeptaneExtract/src/HeptaneExtract.cc:548-575 | with at most one register every form has the architectural effect, also if a load without write back names its base |
| BlockTransferSpec.DecrementAgreesIffShort | src/HeptaneExtract/src/HeptaneExtract.cc:548-575 | a decrement form other than push, its base listed or not, agrees with the architecture on every machine if and only if it lists at most one register |
| BlockTransferSpec.DecrementGives | src/HeptaneExtract/src/HeptaneExtract.cc:548-575 | the expanded decrement forms serve the registers of the list going down from the base, four bytes a register, at the base or from four bytes below it |
| InstructionCache.ICache.constructor | tools/cache_simulator/simul/icache.cc:33-50 | an empty cache holds the most recently used lines of the empty history |
| InstructionCache.ICache.LoadLine | tools/cache_simulator/simul/icache.cc:80-147 | on every trace the access hits if and only if fewer than `nbWays` other lines of the set were accessed since the line's last access, and each set keeps exactly its most recently used lines with their times; the line is the aligned stretch that the address lies in |
| InstructionCache.LineOfAddress | tools/cache_simulator/simul/icache.cc:82-84 | the line number of an address is q if and only if the address lies in stretch q of the line size, with C's division toward zero for negative addresses |
| InstructionCache.SameLineIff | tools/cache_simulator/simul/icache.cc:82-84 | two addresses count as one line if and only if one stretch holds both |
| InstructionCache.QuotientAndRemainder | tools/cache_simulator/simul/icache.cc:82-84 | quotient and remainder give the number back, the remainder smaller than the divisor and of the sign of the number |
| InstructionCache.SameLineTwice | tools/cache_simulator/simul/icache.cc:80-147 | of two accesses to one line of sixteen bytes the second hits |
| InstructionCache.TwoSets | tools/cache_simulator/simul/icache.cc:80-147 | lines of different sets do not push each other out, lines of one set do |
| InstructionCache.SetOfLine | tools/cache_simulator/simul/icache.cc:82-83 | C's remainder of a negative line number is an index only if it is the mathematical one, zero |
| LruSpec.StackOrder | tools/cache_simulator/simul/icache.cc:100-146 | the lines before one in the recency order are the lines of its set accessed since its last access |
| LruSpec.ResidentIsTop | tools/cache_simulator/simul/icache.cc:100-146 | few accesses since the last one is the same as a place among the first `nbWays` of the recency order |
| LruSpec.MoreWaysHit | tools/cache_simulator/simul/icache.cc:80-147 | what is resident with W ways is resident with any more ways, on every trace |
| LruSpec.StackTimes | tools/cache_simulator/simul/icache.cc:106-122 | lines further down the recency order have smaller timestamps |
| InstructionCache.HitOutcome | tools/cache_simulator/simul/icache.cc:102-109 | a way with the line's address is found only for a resident line, and touching it keeps the set's contents right |
| InstructionCache.MissOutcome | tools/cache_simulator/simul/icache.cc:102-109 | if no valid way has the line's address the line is not resident |
| InstructionCache.FillOutcome | tools/cache_simulator/simul/icache.cc:115-125 | writing an invalid way keeps the set's contents right |
| InstructionCache.SmallestIsLast | tools/cache_simulator/simul/icache.cc:133-141 | in a full set the way with the smallest timestamp holds the least recently used line |
| InstructionCache.EvictOutcome | tools/cache_simulator/simul/icache.cc:133-145 | replacing that way keeps the set's contents right |
| InstructionCache.TopMiss | tools/cache_simulator/simul/icache.cc:111-146 | after a miss the new line comes first, the others move down and, in a full set, the last one is gone |
| InstructionCache.TagsAndTimes | tools/cache_simulator/simul/icache.cc:100-146 | valid ways of a set have different tags and different timestamps, all below the counter |
| InstructionCache.LoadBoth | tools/cache_simulator/simul/icache.cc:80-147 | two caches over one trace with the same sets and line size: whenever the one with fewer ways hits, so does the other |
| SquareRoot.Sqrt | benchmarks/st/e_sqrt.c:94-198 | for every argument, subnormal, negative, infinite and no-number ones included: both zeros and plus infinity are their own roots, other non-positive or invalid arguments have none, and for the others the result words are a normal number with the right exponent and the correctly rounded 53-bit significand, in each rounding mode and whatever the shift by 32 places gives; in units of 2^-1074 the result is the correctly rounded square root of the argument |
| SquareRoot.PositiveRoot | benchmarks/st/e_sqrt.c:119-197 | the same for positive arguments: normal result words with the correctly rounded significand |
| SquareRoot.Normalise | benchmarks/st/e_sqrt.c:119-145 | for normal and subnormal arguments the words hold twice the significand with even exponent, and the halved exponent is right for odd and even exponents |
| SquareRoot.NormaliseSubnormal | benchmarks/st/e_sqrt.c:121-134 | a subnormal is brought to 53 bits and its exponent field counts the places, at most 61 below |
| SquareRoot.FillUpper | benchmarks/st/e_sqrt.c:122-126 | an empty upper word is filled by moving the pair up 21 or 42 places |
| SquareRoot.ShiftUp | benchmarks/st/e_sqrt.c:127-130 | the upper word is moved up until its highest bit is in place, by at most 20 |
| SquareRoot.PairShift | benchmarks/st/e_sqrt.c:131-133 | moving the upper bits of the lower word over is the shift of the pair |
| SquareRoot.Placed | benchmarks/st/e_sqrt.c:127-136 | after the shifts both words hold the subnormal's fraction moved up to 53 bits, by the number of doublings it needs, with or without a shift of the words |
| SquareRoot.NotShifted | benchmarks/st/e_sqrt.c:132-136 | without a shift up the program shifts the lower word by all 32 places, which C leaves open: cleared or unchanged, what it sets lies above the significand and is masked off |
| SquareRoot.UpperBits | benchmarks/st/e_sqrt.c:146-160 | the first loop leaves the state of the bit trials for the upper 22 bits |
| SquareRoot.LowerBits | benchmarks/st/e_sqrt.c:162-178 | the second loop, with its carries and borrows between words, leaves the state after all 54 trials |
| SquareRoot.TrialBit | benchmarks/st/e_sqrt.c:150-160 | one trial keeps: the root so far rounded down to the bit's weight and its exact scaled remainder |
| SquareRoot.TrialsAreRoot | benchmarks/st/e_sqrt.c:146-178 | after k trials the root is the square root rounded down to a multiple of the weight still open |
| SquareRoot.TrialsBound | benchmarks/st/e_sqrt.c:146-178 | roots and remainders stay within what the words can hold |
| SquareRoot.RaiseDouble | benchmarks/st/e_sqrt.c:165-169 | the doubled root in two words grows by twice the bit, carry included |
| SquareRoot.SubtractTrial | benchmarks/st/e_sqrt.c:170-172 | the remainder pair loses the trial pair, borrow included |
| SquareRoot.RootFound | benchmarks/st/e_sqrt.c:146-178 | (q, q1) is the floor of the square root of M * 2^54, and the remainder words are zero if and only if the root is exact |
| SquareRoot.RoundRoot | benchmarks/st/e_sqrt.c:180-192 | the final addition, with its two carry special cases, rounds the 54-bit root as the mode's tests say |
| SquareRoot.HalfRoot | benchmarks/st/e_sqrt.c:180-195 | last bit and remainder determine the correctly rounded half of the root; to nearest there is never a tie |
| SquareRoot.RootIsRounded | benchmarks/st/e_sqrt.c:146-195 | for every significand in [2^52, 2^54) the rounded root has 53 bits or is 2^53, and is correctly rounded |
| SquareRoot.RootOnScale | benchmarks/st/e_sqrt.c:119-197 | read as values in units of 2^-1074, the result words are the square root of the argument, correctly rounded in each mode, for normal and subnormal arguments alike |
| SquareRoot.SignificandOnScale | benchmarks/st/e_sqrt.c:119-145 | exponent and significand give the value of the argument, for subnormals as for normals |
| SquareRoot.OneScale | benchmarks/st/e_sqrt.c:119-145 | subnormals and the smallest normals count on without a gap |
| SquareRoot.Assemble | benchmarks/st/e_sqrt.c:193-197 | the result words are the exponent field plus the halved root pair |
| SquareRoot.Decode | benchmarks/st/e_sqrt.c:193-197 | reading the result words back gives exponent and significand, also when rounding carries into the exponent |
| LuDecomposition.LinearSystem.ComputeColumn | benchmarks/ludcmp/ludcmp.c:133-144 | the in-place column loop computes the column pass on the matrix held before |
| LuDecomposition.LinearSystem.ComputeRow | benchmarks/ludcmp/ludcmp.c:145-155 | the in-place row loop computes the row pass |
| LuDecomposition.LinearSystem.Decompose | benchmarks/ludcmp/ludcmp.c:128-156 | after i steps the array holds the factors of the leading part and the original elsewhere; it goes on exactly while pivots are above eps or below -eps |
| LuDecomposition.LinearSystem.Forward | benchmarks/ludcmp/ludcmp.c:158-169 | y solves the unit lower triangular system |
| LuDecomposition.LinearSystem.Backward | benchmarks/ludcmp/ludcmp.c:170-181 | x solves the upper triangular system if the last pivot is not zero |
| LuDecomposition.LinearSystem.Ludcmp | benchmarks/ludcmp/ludcmp.c:119-184 | code 999, 1 or 0 exactly as the guards say, 1 with a pivot between -eps and eps and 0 with all compared pivots above eps or below -eps; with 0 the overwritten matrix holds L and U with L*U the original, the last pivot is zero if and only if the original is singular, and if it is not, A*x = b, for every size |
| LuSpec.LastPivotZeroIffSingular | benchmarks/ludcmp/ludcmp.c:128-184 | after pivots that are not zero, the last one is zero if and only if some vector other than zero is taken to zero by the original matrix |
| LuSpec.SolutionIsUnique | benchmarks/ludcmp/ludcmp.c:158-181 | a matrix that is not singular has no other solution |
| LuDecomposition.SolveNothing | benchmarks/ludcmp/ludcmp.c:126-132 | for one equation 0 * x = 1 the code is 0 although no x solves it |
| LuSpec.StepAdvances | benchmarks/ludcmp/ludcmp.c:128-156 | one elimination step extends the factored part by a column and a row |
| LuSpec.OneMoreDone | benchmarks/ludcmp/ludcmp.c:143-154 | storing one entry finishes that entry and disturbs no finished or untouched one |
| LuSpec.AllFactored | benchmarks/ludcmp/ludcmp.c:128-156 | after all steps the packed factors multiply to the original matrix |
| LuSpec.Solved | benchmarks/ludcmp/ludcmp.c:158-181 | both substitutions together solve the original system |
| LinearAlgebra.ExchangeSums | benchmarks/ludcmp/ludcmp.c:158-181 | A*v is L*(U*v) by exchanging the order of summation |
| LinearAlgebra.SolveByFactors | benchmarks/ludcmp/ludcmp.c:158-181 | solving one factor after the other solves the product |
| Multiplication.Mult | tools/cache_simulator/simul/mipssim.cc:1057-1114 | hi:lo is the exact 64-bit product for all operands, signed (the most negative value included) and unsigned |
| Multiplication.MultiplyWords | tools/cache_simulator/simul/mipssim.cc:1081-1100 | the shift-and-add loop with carries and early exit computes the unsigned product, although `a` is shifted arithmetically |
| Multiplication.ShiftKeepsLowBits | tools/cache_simulator/simul/mipssim.cc:1091-1099 | the sign bits that the arithmetic shift copies in are never looked at, and the early exit happens only when no bit is left |
| Multiplication.NegatePair | tools/cache_simulator/simul/mipssim.cc:1104-1110 | the pair becomes its two's complement |
| Crc.CrcComputer.Icrc1 | benchmarks/crc/crc.c:64-77 | eight bitwise steps on the register with the byte added at the top |
| Crc.CrcComputer.FillTables | benchmarks/crc/crc.c:90-97 | every table entry is the eight-step image of its index, and every reflection entry its index with the bits reversed |
| Crc.CrcComputer.Icrc | benchmarks/crc/crc.c:79-119 | the table-driven result is that of the bitwise definition over the message, for all start values and both bit orders; the message is unchanged |
| Crc.CheckItself | benchmarks/crc/crc.c:123-137 | the benchmark's sequence: the check of a message followed by its own check bytes is zero |
| CrcSpec.BitStepCongruent | benchmarks/crc/crc.c:69-75 | one bitwise step multiplies the register by x modulo x^16 + x^12 + x^5 + 1 |
| CrcSpec.TableStepAgrees | benchmarks/crc/crc.c:105-113 | one table step equals eight bitwise steps, by linearity over exclusive or |
| CrcSpec.BitStepsXor | benchmarks/crc/crc.c:69-75 | any number of bitwise steps is linear over exclusive or |
| CrcSpec.RegisterIsRemainder | benchmarks/crc/crc.c:105-113 | the register is the one polynomial of degree below 16 congruent to its start moved up plus the message times x^16 |
| CrcSpec.CrcIsRemainder | benchmarks/crc/crc.c:79-119 | the result, in the register's bit order, is the unique remainder for every start value and both bit orders |
| CrcSpec.MessageCrcIsRemainder | benchmarks/crc/crc.c:79-119 | with zero start and `jrev >= 0` the result is the remainder of m(x) * x^16, for messages of any length |
| CrcSpec.CrcInTwoChunks | benchmarks/crc/crc.c:98-119 | a second call with `jinit < 0` continues the first: the result is that over the concatenation, in both `jrev` modes |
| CrcSpec.CheckedMessageIsZero | benchmarks/crc/crc.c:130-135 | appending the check bytes (high first, or low first with `jrev < 0`) gives result zero, for every start value |
| CrcSpec.CrcDetectsBursts | benchmarks/crc/crc.c:105-113 | messages of one length that differ in a burst of at most 16 bits never have the same result |
| CrcSpec.StartIsByteTwice | benchmarks/crc/crc.c:98-101 | a start value from zero on is its low byte in both halves of the register |
| CrcSpec.PublishedChecks | benchmarks/crc/crc.c:79-119 | the published check values over "123456789" of the four variants that start and bit order give |
| CrcSpec.ReverseByteBits | benchmarks/crc/crc.c:88-95 | the nibble table reverses all eight bits of a byte |
| CrcSpec.ReverseWordTwice | benchmarks/crc/crc.c:101-117 | 16-bit reflection is an involution that exchanges the bytes |
| Polynomials.RemainderUnique | benchmarks/crc/crc.c:64-77 | congruent polynomials of degree below 16 are equal |
| Des.Cipher.FillBits | benchmarks/ndes/ndes.c:64-71 | the bit table holds the single-bit masks and the flag is cleared |
| Des.Cipher.GetBit | benchmarks/ndes/ndes.c:110-115 | bit `bitno` of the pair, counted through the right word first |
| Des.Cipher.Arrange | benchmarks/ndes/ndes.c:86-91 | the two words are filled with the bits that a table selects; the same loop permutes blocks before and after and starts the key |
| Des.Cipher.Ks | benchmarks/ndes/ndes.c:117-140 | one call turns both halves by one or two places and makes the round key of the turned halves |
| Des.Cipher.CyFunction | benchmarks/ndes/ndes.c:142-226 | the round function with its expansion, six-bit groups, substitution tables and permutation; for sixteen-bit key words it is the standard's |
| Des.Cipher.NewSchedule | benchmarks/ndes/ndes.c:72-85 | all sixteen stored keys are those of the key's schedule, and the halves end as they began |
| Des.Cipher.Transform | benchmarks/ndes/ndes.c:86-108 | sixteen rounds between the two permutations under the stored keys, in the order that `isw` selects |
| Des.Cipher.Run | benchmarks/ndes/ndes.c:39-109 | one block of the standard under the new key, or with no new key flagged under any key whose schedule is stored; the schedule changes if and only if a new key is flagged, and the flag is cleared |
| Des.ThereAndBack | benchmarks/ndes/ndes.c:39-109 | a block run one way under a new key and the other way under the stored schedule comes back |
| DesRefinement.BlockIsStandard | benchmarks/ndes/ndes.c:39-109 | for every block and key the program computes the block of FIPS 46-3 on the same bits, deciphering for `isw = 1` and enciphering otherwise |
| DesRefinement.RoundsAre | benchmarks/ndes/ndes.c:86-102 | after every round the two words hold the standard's halves |
| DesRefinement.RoundFunctionIs | benchmarks/ndes/ndes.c:142-226 | the round function is the standard's cipher function of the half block and the round key |
| DesRefinement.RoundKeyIs | benchmarks/ndes/ndes.c:72-85 | the key made by call n of the schedule is the standard's round key n |
| DesRefinement.ScheduleIs | benchmarks/ndes/ndes.c:117-129 | after every call the halves are the standard's, rotated to the left as its shift table says |
| DesRefinement.EntryAgrees | benchmarks/ndes/ndes.c:150-182 | the 512 entries of the table, stored by column, row and box, are those of the standard's eight selection functions |
| DesProperties.ComplementsBlock | benchmarks/ndes/ndes.c:39-109 | complementing block and key complements the result, for every block and key and both directions |
| DesProperties.SameStartIffSameButParity | benchmarks/ndes/ndes.c:25-28 | two keys start the schedule alike if and only if they differ in parity bits only |
| DesProperties.FirstChoice | benchmarks/ndes/ndes.c:25-28 | the first choice of key bits in closed form |
| DesProperties.KeyBitsDiffer | benchmarks/ndes/ndes.c:29-32 | a round key takes no bit of the halves twice, and its first half from the first of them |
| DesProperties.InitialChoice | benchmarks/ndes/ndes.c:41-46 | the initial permutation in closed form |
| DesProperties.Expansion | benchmarks/ndes/ndes.c:143-146 | the expansion in closed form: each box gets four bits and their neighbours |
| DesProperties.SpreadIsPermutation | benchmarks/ndes/ndes.c:147-149 | the permutation behind the boxes loses no bit |
| DesBoxes.RowsArePermutations | benchmarks/ndes/ndes.c:150-182 | every row of every box is a permutation of the sixteen values |
| DesBoxes.InnerBitSpreads | benchmarks/ndes/ndes.c:150-182 | changing one inner bit that enters a box changes at least two bits that leave it |
| DesBoxes.OuterBitSpreads | benchmarks/ndes/ndes.c:150-182 | so does changing one outer bit |
| DesSpec.Deciphers | benchmarks/ndes/ndes.c:86-108 | for every block and every stored schedule, `isw = 1` undoes any other `isw`, and the other way round |
| DesSpec.RoundsBack | benchmarks/ndes/ndes.c:92-102 | after any number of rounds backwards the swapped intermediate states reappear in reverse order |
| DesTables.PermutationsUndo | benchmarks/ndes/ndes.c:41-52 | the initial and final permutations of a block undo each other, either one first |
| BitTables.PermutedBack | benchmarks/ndes/ndes.c:86-108 | gathering all 64 bits through a table and then through its inverse restores the block |
| DesSpec.ScheduleTotals | benchmarks/ndes/ndes.c:120-129 | the turns of the first n calls add up to the standard's shift table |
| DesSpec.ScheduleRestores | benchmarks/ndes/ndes.c:81-84 | all sixteen calls turn the halves by 28 places in total and restore them |
| DesRoundFunction.RoundFunctionBit | benchmarks/ndes/ndes.c:142-226 | each output bit is the bit of the entry that its box selects with six consecutive expanded bits plus key bits: outer two for the row, inner four for the column |
| DesRoundFunction.SixBit | benchmarks/ndes/ndes.c:201-209 | the shifted 32-bit words hand each box six consecutive bits of the 48 |
| DesRoundFunction.KeysAreThin | benchmarks/ndes/ndes.c:130-139 | the three words of every round key fit in sixteen bits, as the round function needs |
| Pacemaker.Controller.LowestSlope | benchmarks/pm/pm.c:57-68 | the smallest difference of neighbouring samples in the buffer |
| Pacemaker.Controller.DetectActivation | benchmarks/pm/pm.c:38-49 | the flag is one exactly below the threshold |
| Pacemaker.Controller.DecidePacing | benchmarks/pm/pm.c:70-161 | the state machine's transition with its counter resets |
| Pacemaker.Controller.Tick | benchmarks/pm/pm.c:51-174 | one tick appends the buffer's slope to the run, keeps the variables equal to the run's view, and stimulates exactly in PACING |
| PacemakerSpec.LearningPhase | benchmarks/pm/pm.c:73-82 | for the first 8192 ticks the sums and counts are those of the samples so far |
| PacemakerSpec.LearnedOnce | benchmarks/pm/pm.c:83-97 | learning ends once, with exactly 8192 samples, and the threshold stays the floor of their mean |
| PacemakerSpec.StateIsTimeSinceReset | benchmarks/pm/pm.c:99-166 | after learning the state is a function of the ticks since the last reset alone |
| PacemakerSpec.IgnoringApart | benchmarks/pm/pm.c:126-136 | entries to IGNORING are at least 1202 ticks apart, on every run |
| PacemakerSpec.PacingOnTime | benchmarks/pm/pm.c:103-122 | PACING is entered exactly 2051 ticks after the last reset, so only after 20500 ms, never earlier or later |
| PacemakerSpec.PacesOrActs | benchmarks/pm/pm.c:99-166 | 2051 ticks after any reset the controller paces, unless it took an activation in between |
| PacemakerSpec.ActsExactlyOnActivation | benchmarks/pm/pm.c:99-166 | an activation is taken exactly for a slope below the threshold outside the refractory time and the tick that starts pacing |

## Left out

- Parsing of objdump, readelf and XML files, configuration, logging and shell calls: input and output around libraries.
- The node for an annotation's address and WCET_USER annotations: found through cfglib attributes; annotations of the binary carry their node here, and those of one graph are attached together.
- Annotations.AttachEarlier: takes the file's bounds by loop heads; the loop tree that leads from tags to loops is built in `LoopTree.cc`, which is not part of this model, and is given to `LoopFiles.AddAnnotations`.
- Switch analysis, the MSP430 rewriting, `.word` attachment and the attributes of nodes and instructions.
- `loop_check` (returns at once) and `computeLoop_old` (unused).
- ProgramSimulation.StepsAgree: instructions have one size and stand at ascending nonzero addresses without overlap, each control instruction has its delay slots directly behind it, which are neither control instructions nor jump targets, and what is listed behind them is directly behind them or a jump target. `ProgramSimulation.StepsAgreeIffNothingStray` does not ask for the last of these and proves that the graph is wrong without it.
- ProgramBounds.BoundLoops: a function has at least one instruction, and its instructions have ascending addresses.
- HiddenReturns.ReadPop: the program's dispatch on text is replaced by the operations it leads to; the spelling of mnemonics is not shown.
- CfgExtraction.CfgBuilder.BuildHeptaneCfg: looking up an absent address in the address map inserts a null entry in the program; it reads the same afterwards and is not shown.
- The table of meta-instructions that `kernel` fills (an expanded push writes its first entry at index 0).
- BlockTransferSpec.PushAgrees: the stack pointer is not in the list; `BlockTransferSpec.PushAgreesIffNoStackPointer` says what else happens. The architecture stores the old one if it comes first in the list and leaves the word open otherwise.
- BlockTransferSpec.IncrementAgrees: a load with write back does not have its base in its list; there the architecture leaves the base open.
- BlockTransferSpec.PopUndoesPush: lists are ascending and without the stack pointer, so one that pops the program counter only restores its value; the jump is not modelled.
- InstructionCache.ICache.LoadLine: addresses give no negative set index, with which the program would leave its array, and the use counter does not overflow; the prefetch buffer is commented out in the program.
- SquareRoot.Sqrt: the two floating-point comparisons that find the rounding mode are replaced by the mode, and the results that floating-point arithmetic makes of infinite, negative and no-number arguments are named, not computed.
- LuDecomposition.LinearSystem.Ludcmp: arithmetic is exact, so floating-point rounding is not modelled, and a quotient by zero has an arbitrary value instead of an infinity.
- Multiplication.Mult: the rest of the simulator, with its exceptions and floating point.
- Crc.CrcComputer.Icrc: the message fits the array and the array the 16-bit counter; beyond that the program's counter wraps or leaves the array.
- Des.Cipher.GetBit: bit numbers are those of the two words; the unused entries at index zero of the tables are dropped and entries numbered from one.
- DesRoundFunction.RoundFunctionBit: key words have at most sixteen bits, as all keys of a schedule do; the deciphering theorem needs no such condition.
- Pacemaker.Controller.Tick: counters and sums do not overflow, and the unused snapshot buffer and sample index are dropped.
- The other benchmarks, the MMU, page tables, lists and statistics: short textbook code or plumbing that would add only easy members.
