# Verification of the hot-path SSA passes

A Dafny model of the algorithmic core of this LLVM pass collection, with proofs. It covers three parts.

* `sccp/` models the speculative sparse conditional constant propagation of `src/SCCPSolverTau.cpp`, its lattice
  (`include/SpecValueLattice.h`) and the driver that rewrites the function (`src/SCCPTau.cpp`), for functions made of phis,
  integer binary operators, integer comparisons, branches, jumps and returns over fixed-width integers. The element, the
  visitor and the function being rewritten are classes whose methods follow the source's branches. ConstantRange arithmetic
  and constant folding are a parameter (`SCCPProgram.Arithmetic`) assumed sound: a range operation covers every run-time result.
* `balllarus/` and `pathprofiling/` model Ball-Larus path profiling: the abstract graph, its numbering in 32-bit arithmetic,
  decoding, the Prim-style spanning tree with its table of increments, the counter an instrumented run records, and the older
  chord-increment placement with pushed initialisations and counters.
* `hpssa/` models the construction of hot-path SSA (`src/HPSSA.cpp`, `src/HPSSA_new.cpp`) and its destruction
  (`src/TDestruction.cpp`): buddy sets and caloric connectors, frames of definitions along hot paths, the two stack
  disciplines over the dominator tree, renaming, and the removal of taus.

Blocks, instructions, values and edges are named by naturals. What LLVM computes is an input with its defining property stated:
the dominator tree (a block is entered only from its dominator or from blocks below it), reverse post order (predecessors come
first in a graph without cycles), the back edges of a function, and the order in which a pointer-keyed map is walked, which is
left arbitrary.

Main results, for every input:

* Solving terminates, the work-list invariant holds at every loop head, and empty work lists mean a post-fixpoint; every run of
  the program stays inside the computed values and executable blocks. The answer is also bounded from above: apart from what
  resolvedUndefsIn forces once solving is stuck, an edge is feasible, a block executable and a value known only because of what
  the operands say, so that operators on single integers fold exactly. The rewritten program makes the same runs, and exactly
  the constants found have been propagated in it.
* Path sums are a bijection onto the numbers below the path count, and decoding inverts it, whenever the count fits in 32 bits.
* The tree grown by getIncValues is a maximum spanning tree, which is the same as no chord outweighing an edge on the tree path
  between its ends. The counter at the exit is minus the tree values on the path in spite of 32-bit wrap-around, and decodes to
  the run if and only if it is the number of a path through the same blocks. In graphs with at most one edge between two blocks
  and none from the entry straight to the exit, this says that the chords on the run have value 0.
* That every record decodes to its run is false of the code, and when it holds can be seen from the branches alone. If the entry
  reaches every edge, the records of all runs decode when the edges that are not the first of their block make up no undirected
  cycle and none of them leads from the entry straight to the exit; with at most one edge between two blocks, only then
  (`Decodability.AllRunsDecodeIffForest`). For a program all of whose blocks are reached this is a condition on its abstract
  graph before it is numbered (`LoopFreeRuns.ProgramDecodes`), and under it `LoopFreeRuns.ProfileRun`, which builds, numbers,
  instruments, records and decodes, gives back the blocks of any run without loops. `Decodability.LoseTriangleRun` carries a
  small graph through all steps: its run 0, 2, 3, 4 is decoded as another one, whatever tree is grown.
* A run of a program with loops splits at its k back edges into k + 1 numbered paths, from which it can be put together again.
* Buddy sets are the coarsest common refinement of the incoming sets, and with hot paths rooted at the entry they are the
  classes of paths with the same prefix.
* The frame a phi's definitions leave in a dominated block is the initial frame cut down to the block's hot paths, and both
  implementations give a tau the same arguments: the definitions that a hot path of the tau's block carries.
* Inserting taus, renaming, pruning and destroying the taus in any order gives back the program. Every requested tau is inserted,
  and outside phis every use names the latest tau above it. That the operands of a phi are the names found in the blocks they come
  from is false of the code, which replaces a value wherever the phi uses it; it holds exactly when no value that the phi takes
  from two blocks has different names there (`PhiOperands.RightNamesIff`), and `LostName.LoseName` runs into it on a loop.

Where code and comments differ the code is followed. `counter` keeps the absolute value of a register that is never positive on a
loop-free run, unless a tree edge leads from the entry straight to the exit; `calculateSpanningTree` of the older profiler skips every node it has just coloured, so it builds no tree, and the
tree is a parameter here; an element that is copied loses its speculative mark.

`dafny verify dfyconfig.toml` checks the project.

## Model

| member | source | states |
|---|---|---|
| SpecValueLattice.JoinIsLeastUpperBound | include/SpecValueLattice.h:483-562 | merging without widening is commutative, idempotent and gives the least upper bound of a partial order |
| SpecValueLattice.JoinAssociative | include/SpecValueLattice.h:483-562 | merging three compatible elements gives the same result in either grouping, undef and full ranges included |
| SpecValueLattice.LeqIsContainment | include/SpecValueLattice.h:483-562 | the order of the lattice is that of what the elements stand for: integers, undef and other constants; an element that excludes a constant lies between itself and overdefined only |
| SpecValueLattice.RangesJoinToHull | include/SpecValueLattice.h:539-562 | two ranges join to the range from their least to their largest bound, and to overdefined when that is the whole type |
| SpecValueLattice.GammaMonotone | include/SpecValueLattice.h:273-298 | a larger element allows every run-time integer a smaller one allows |
| SpecValueLattice.HeightDrops | include/SpecValueLattice.h:392-426 | every strict rise of an element uses up height, so ascending chains over a fixed width end |
| SpecValueLattice.SpecValueLatticeElement.Copy | include/SpecValueLattice.h:168-186 | a copy keeps the meaning, keeps the counter of a range only, and is never speculative |
| SpecValueLattice.SpecValueLatticeElement.Assign | include/SpecValueLattice.h:209-213 | assignment is copying |
| SpecValueLattice.SpecValueLatticeElement.MarkOverdefined | include/SpecValueLattice.h:309-315 | the element becomes overdefined, and says whether it was not |
| SpecValueLattice.SpecValueLatticeElement.MarkUndef | include/SpecValueLattice.h:317-324 | an unknown or undef element becomes undef |
| SpecValueLattice.SpecValueLatticeElement.MarkUnknown | include/SpecValueLattice.h:326-332 | the tag goes back to unknown while the shadow tag stays |
| SpecValueLattice.SpecValueLatticeElement.MarkConstant | include/SpecValueLattice.h:346-364 | integers become single ranges that remember undef, undef and other constants are kept as such; the answer says whether the meaning changed |
| SpecValueLattice.SpecValueLatticeElement.MarkConstantRange | include/SpecValueLattice.h:392-426 | the range is taken over, full ranges and ranges past the widening limit become overdefined, and the eight-bit counter counts extensions |
| SpecValueLattice.SpecValueLatticeElement.MergeIn | include/SpecValueLattice.h:483-562 | merging is the join, or overdefined past the widening limit; it returns true exactly when the meaning changed; a speculative right side never changes it |
| SpecValueLattice.SpecValueLatticeElement.MarkSpeculativeConstant | include/SpecValueLattice.h:335-344 | the element is a speculative constant afterwards; one that was already keeps its constant |
| SpecValueLattice.SpecValueLatticeElement.MarkSpeculativeConstantRange | include/SpecValueLattice.h:441-479 | the range is taken over and remembers undef; the element becomes speculative unless it was a range of several integers, and a full range makes it overdefined |
| SpecValueLattice.SpecValueLatticeElement.MergeInSpec | include/SpecValueLattice.h:428-438 | a speculative constant passes to the tau exactly when the safe value is overdefined, not-constant or another range, unless the tau holds a speculative constant already; otherwise the tau is left as it is |
| SCCPSolverState.EmptyListsMeanPostFixpoint | src/SCCPSolverTau.cpp:1583-1649 | the work-list invariant with empty lists makes every equation of an executable block hold |
| SCCPSolverState.InvariantPreserved | src/SCCPSolverTau.cpp:1583-1649 | any operation that only raises values, queues what it raised and handles new edges keeps the work-list invariant |
| SCCPSolverState.ProgressTransitive | src/SCCPSolverTau.cpp:1583-1649 | such operations compose: earlier changes stay pending and earlier new edges stay handled |
| SCCPSolverState.PendingPreserved | src/SCCPSolverTau.cpp:509-513 | a queued value stays pending although overdefined entries of the instruction list are skipped |
| SCCPSolver.PopOverdefined | src/SCCPSolverTau.cpp:1589-1602 | taking an entry off the overdefined list keeps the invariant up to the users of that entry |
| SCCPSolver.PopInst | src/SCCPSolverTau.cpp:1605-1619 | taking an entry off the instruction list keeps the invariant, and skipping its users is harmless once it is overdefined |
| SCCPSolver.PopBlock | src/SCCPSolverTau.cpp:1622-1647 | taking a block off its list keeps the invariant up to the users in that block |
| SCCPSolver.SCCPTauSolver.PushToWorkList | src/SCCPSolverTau.cpp:509-513 | an overdefined value goes to the overdefined list, any other to the instruction list |
| SCCPSolver.SCCPTauSolver.MergeInValue | src/SCCPSolverTau.cpp:626-637 | the value becomes overdefined exactly when the widening limit is passed, and its join with the merged one otherwise; it is queued exactly when it changed, and nothing else moves |
| SCCPSolver.SCCPTauSolver.MarkOverdefined | src/SCCPSolverTau.cpp:530-541 | the value becomes overdefined and is queued exactly when it was not |
| SCCPSolver.SCCPTauSolver.VisitPHINode | src/SCCPSolverTau.cpp:798-843 | the phi's equation over its feasible edges is met afterwards, by progress, and the phi stays at most every bound of its operands unless it is widened |
| SCCPSolver.SCCPTauSolver.RaiseCounter | src/SCCPSolverTau.cpp:840-842 | the widening counter becomes the larger of the two counts, without passing the extension bound, and nothing else changes |
| SCCPSolver.SCCPTauSolver.VisitBinaryOperator | src/SCCPSolverTau.cpp:1129-1201 | the value covers the operator's result on the operand values found and, for single integers, does not rise above it; the equation is met or, when the value is its own operand, it is queued again |
| SCCPSolver.SCCPTauSolver.VisitCmpInst | src/SCCPSolverTau.cpp:1204-1234 | the value covers the comparison's result on the operand values found and, for single integers, does not rise above it; the equation is met or, when the value is its own operand, it is queued again |
| SCCPSolver.SCCPTauSolver.GetFeasibleSuccessors | src/SCCPSolverTau.cpp:670-692 | the successors answered feasible are those the value of the condition allows |
| SCCPSolver.SCCPTauSolver.MarkBlockExecutable | src/SCCPSolverTau.cpp:501-507 | a block is queued exactly when it becomes executable |
| SCCPSolver.SCCPTauSolver.MarkEdgeExecutable | src/SCCPSolverTau.cpp:639-666 | exactly this edge becomes feasible, and only if its terminator can take it or it is forced; a new edge into an executable block has its phis visited, into a new block the block queued |
| SCCPSolver.SCCPTauSolver.VisitTerminator | src/SCCPSolverTau.cpp:950-960 | exactly the edges allowed by the condition's value found become feasible; if the value rose on the way the terminator is queued again |
| SCCPSolver.SCCPTauSolver.MarkUsersAsChanged | src/SCCPSolverTau.cpp:262-291 | every user of the value in an executable block is met or pending again |
| SCCPSolver.SCCPTauSolver.VisitBlock | src/SCCPSolverTau.cpp:1622-1647 | every user in the block is met or pending afterwards |
| SCCPSolver.SCCPTauSolver.Solve | src/SCCPSolverTau.cpp:1583-1649 | terminates with empty lists, keeps the work-list invariant at every loop head, and only raises values and adds blocks and edges |
| SCCPSolver.SCCPTauSolver.ResolvedUndefsIn | src/SCCPSolverTau.cpp:1667-1821 | answers no only when nothing changed and every instruction of an executable block is known, otherwise the measure falls; it forces only values that were unknown and false sides of branches whose condition was |
| SCCPSolver.SCCPTauSolver.RunSCCP | src/SCCPTau.cpp:228-241 | the outer loop terminates in a post-fixpoint that is exact: apart from what was forced when solving had come to its end without knowing it, edges are feasible only towards the target a known condition selects, blocks are executable only through feasible edges, operators and comparisons of single integers have exactly the result on them, and phis that were not widened are the least value above their operands; a phi with k incoming values had its range extended at most k + 1 times |
| SCCPTightness.OperationTightGrows | src/SCCPSolverTau.cpp:1129-1234 | merging what the operands demand keeps an operator or comparison at most what they demand, as long as they are single integers or the range arithmetic is monotone |
| SCCPTightness.PhiTightMerged | src/SCCPSolverTau.cpp:798-843 | merging the operands on feasible edges keeps a phi at most every bound of them; a phi that is widened has no single integer as a bound |
| SCCPTightness.TightAfterEdge | src/SCCPSolverTau.cpp:639-666 | adding an edge that its terminator can take, with its target, keeps every edge, block and value tight |
| SCCPTightness.FixpointIsExact | src/SCCPTau.cpp:236-241 | a tight post-fixpoint without unknown instructions is exact |
| SCCPTightness.ConstantsFold | src/SCCPSolverTau.cpp:1182-1234 | when the arithmetic is exact on integers, an unforced operator or comparison on known integers ends as exactly what it evaluates to at run time |
| SCCPSolver.SCCPTauSolver.VisitTauNode | src/SCCPSolverTau.cpp:846-902 | the tau ends as a speculative constant exactly when the speculative operands join to one constant that the safe value does not already have |
| SCCPSolver.JoinsToOneInteger | src/SCCPSolverTau.cpp:871-888 | the operands join to exactly {c} if and only if one is known, every known one is exactly {c}, and none may be undef |
| SCCPSoundness.ExecuteSound | src/SCCPSolverTau.cpp:1129-1234 | an instruction whose equation is met computes a value its lattice element allows |
| SCCPSoundness.StepSound | src/SCCPSolverTau.cpp:639-692 | a run inside the executable part leaves a block only along feasible edges, to executable blocks |
| SCCPSoundness.RunsAreSound | src/SCCPTau.cpp:236-241 | every run of any length only enters executable blocks and every value lies in the meaning of its element |
| SCCPTau.IRFunction.ReplaceAndErase | src/SCCPTau.cpp:178-196 | replacing all uses of an instruction and erasing it extends the substitution by it |
| SCCPTau.SimplifyBlock | src/SCCPTau.cpp:183-217 | a dead block is emptied; of a live one with nothing unknown exactly the instructions that are one integer go, all their uses become that integer, uses of dead instructions become undef, and everything else stays, in order |
| SCCPTau.SimplifiedPropagates | src/SCCPTau.cpp:140-217 | rewriting by the substitution propagates exactly the constants the solver found: operands, terminators and block bodies, one by one |
| SCCPTau.SimplificationPreservesRuns | src/SCCPTau.cpp:253-266 | whatever a run does in n steps the rewritten program does in n steps, through the same blocks to the same result |
| SCCPTau.RunSCCPTau | src/SCCPTau.cpp:221-269 | solving and rewriting in any block order leaves a program with the same runs, in which every constant of the exact solution has been propagated and every dead block listed is empty |
| InstrumentationDag.SumAppend | assets/LLVMProfiler/PathProfiling.cpp:552-561 | sums along paths add up |
| SpanningTree.TreeEdgePotential | assets/LLVMProfiler/PathProfiling.cpp:861-889 | along a tree edge the potential rises by the weight |
| SpanningTree.ClosedWalkSum | assets/LLVMProfiler/PathProfiling.cpp:552-561 | chord increments around any closed walk add up to the weights around it |
| PathProfiling.BLInstrumentationDag.CalculateChordIncrementsDfs | assets/LLVMProfiler/PathProfiling.cpp:861-889 | the walk from v gives every chord the signed contributions of exactly the nodes below v |
| PathProfiling.BLInstrumentationDag.VisitChords | assets/LLVMProfiler/PathProfiling.cpp:882-889 | the chords at v receive v's own contribution |
| PathProfiling.BLInstrumentationDag.CalculateChordIncrements | assets/LLVMProfiler/PathProfiling.cpp:552-561 | every edge ends with its weight plus the fall of the tree potential along it, nothing on tree edges |
| PathProfiling.BLInstrumentationDag.PushInitializationFromEdge | assets/LLVMProfiler/PathProfiling.cpp:807-831 | on every path from the edge to the exit the initialisation moves to one edge with the increments up to it, as far as it can go: that edge leads to the exit or to a node with several predecessor edges; nothing else changes |
| PathProfiling.BLInstrumentationDag.PushCountersFromEdge | assets/LLVMProfiler/PathProfiling.cpp:834-858 | the same upwards for the counter, as far as it can go: to edges that leave the root or a node with several successor edges, or initialise the register |
| PathProfiling.BLInstrumentationDag.PushInitialization | assets/LLVMProfiler/PathProfiling.cpp:644-649 | every initialising edge leads to the exit or to a node with several predecessor edges; the closing edge ends without initialisation and increment |
| PathProfiling.BLInstrumentationDag.PushCounters | assets/LLVMProfiler/PathProfiling.cpp:653-658 | every new counting edge leaves the root or a node with several successor edges, or initialises the register; the closing edge ends without counter and increment |
| PushMarks.NextSuccessor | assets/LLVMProfiler/PathProfiling.cpp:815-826 | handing the initialisation to one more successor splits its paths and leaves those of the siblings alone |
| PushMarks.PushedTwice | assets/LLVMProfiler/PathProfiling.cpp:644-658 | after both pushes every path has one initialising edge and one counting edge at or after it, and the increments between add up |
| PathProfiling.InstrumentedCounts | assets/LLVMProfiler/PathProfiling.cpp:644-658 | running along such a path bumps exactly one counter, whatever the register held before |
| PathProfiling.EveryPathInstrumented | assets/LLVMProfiler/PathProfiling.cpp:552-561 | every root-to-exit path counts the sum of its weights |
| PathProfiling.BLInstrumentationDag.PlaceInstrumentation | assets/LLVMProfiler/PathProfiling.cpp:1276-1279 | the three phases in order instrument every path once and count its sum of weights, for any spanning tree, with initialisations and counters pushed as far as they go |
| PathCounts.PathSumInRange | BallLarusProfiler/BallLarusProfiler.cpp:146-159 | the sum of a path's edge values is a number below the path count |
| PathCounts.PathSumInjective | BallLarusProfiler/BallLarusProfiler.cpp:146-159 | different paths have different sums, parallel edges included |
| PathCounts.PathSumOnto | BallLarusProfiler/BallLarusProfiler.cpp:146-159 | every number below the path count is the sum of a path |
| PathCounts.SuccessorHasFewer | BallLarusProfiler/BallLarusProfiler.cpp:153-157 | a successor has no more paths than the block before it |
| PathCounts.PathCountPositive | BallLarusProfiler/BallLarusProfiler.cpp:149-158 | every block of an acyclic region has at least one path |
| PathNumbering.Graph.DFS | BallLarusProfiler/BallLarusProfiler.cpp:101-114 | every finished block has finished later than its successors, and blocks below the start have no more paths |
| PathNumbering.Graph.TopoSort | BallLarusProfiler/BallLarusProfiler.cpp:116-133 | all blocks of the graph once, those the entry reaches in topological order |
| PathNumbering.InsertByFinish | BallLarusProfiler/BallLarusProfiler.cpp:126-130 | the list stays sorted by decreasing finishing time |
| PathNumbering.SuccessorsDone | BallLarusProfiler/BallLarusProfiler.cpp:146-156 | a block's successors come later in the list, so their counts are final when they are read |
| PathNumbering.Graph.NumberBlock | BallLarusProfiler/BallLarusProfiler.cpp:149-158 | one block's edges get the partial sums of final counts, in 32-bit arithmetic, and keep everything but their values |
| PathNumbering.Graph.GetEdgeValues | BallLarusProfiler/BallLarusProfiler.cpp:135-160 | when the entry's count fits in 32 bits no intermediate result wraps and every reached block is numbered; the computed count is right exactly then; edges keep everything but their values |
| GeneratePath.MaxEdge | BallLarusProfiler/GeneratePath.cpp:80-88 | in any list of edges, the first with the largest value from 0 to the number, and value -1 when there is none |
| GeneratePath.NumToPath | BallLarusProfiler/GeneratePath.cpp:75-95 | terminates for every number not negative; below the path count it returns the blocks of the one path with that sum |
| SpanningTrees.Exchange | BallLarusProfiler/BallLarusProfiler.cpp:196-246 | a spanning tree meets the cut of any missing edge in an edge that can be exchanged for it |
| SpanningTrees.GreedyIsSpanningTree | BallLarusProfiler/BallLarusProfiler.cpp:196-246 | joining every block by one edge to earlier blocks gives a spanning tree |
| SpanningTrees.GreedyIsMaximum | BallLarusProfiler/BallLarusProfiler.cpp:196-246 | when every joining edge is a largest one leaving the earlier blocks, no spanning tree weighs more |
| Forests.TreeIsForest | BallLarusProfiler/BallLarusProfiler.cpp:196-246 | a connected edge set with one edge fewer than there are blocks has no cycle |
| Forests.HeaviestIff | BallLarusProfiler/BallLarusProfiler.cpp:196-246 | a spanning tree is maximum if and only if no chord has a larger value than an edge on the tree path between its ends |
| Forests.ValuedInHeaviest | BallLarusProfiler/BallLarusProfiler.cpp:196-246 | a maximum spanning tree holds all edges that have a value if and only if these edges have no cycle |
| IncValues.TransposeGraph | BallLarusProfiler/BallLarusProfiler.cpp:90-99 | every block lists exactly the edges that end in it |
| IncValues.UpdateInc | BallLarusProfiler/BallLarusProfiler.cpp:201-211 | the table of increments holds the potential differences of the blocks joined so far, in 32-bit arithmetic |
| IncValues.NextIsGreedy | BallLarusProfiler/BallLarusProfiler.cpp:196-198 | in a connected graph the outside block with the largest distance is joined by a largest crossing edge |
| IncValues.RelaxEdges | BallLarusProfiler/BallLarusProfiler.cpp:217-245 | after relaxing both directions every outside distance is the largest value of an edge from the tree |
| IncValues.GrowTree | BallLarusProfiler/BallLarusProfiler.cpp:174-246 | from an arbitrary root and with ties broken arbitrarily the growth is greedy, parents are right and the table holds potential differences |
| IncValues.AnnotateEdges | BallLarusProfiler/BallLarusProfiler.cpp:254-264 | every edge gets its increment and its chord mark and keeps the rest |
| IncValues.ChordIff | BallLarusProfiler/BallLarusProfiler.cpp:258-262 | an edge is left uninstrumented exactly when a tree edge joins the same two blocks |
| IncValues.GetIncValues | BallLarusProfiler/BallLarusProfiler.cpp:162-266 | the closed graph gets the increments of a potential that rises by the values along the tree, and the tree is a maximum spanning tree |
| ChordCounter.RegisterIs | BallLarusProfiler/BallLarusProfiler.cpp:366-375 | along a path of any graph the register holds the potential difference less the values counted, modulo 32-bit wrap-around: for each edge the value of the tree edge that joins the same two blocks, if there is one |
| ChordCounter.CounterIsMinusTreeVals | BallLarusProfiler/BallLarusProfiler.cpp:366-375 | at the exit of a loop-free run the counter is exactly minus the sum of the tree values counted on the path, plus the value of a tree edge straight from the entry to the exit, which keeps the closing edge from being instrumented |
| ChordCounter.BlocksInjective | BallLarusProfiler/GeneratePath.cpp:75-95 | with at most one edge between any two blocks, the blocks determine the path |
| ChordCounter.SimpleRunDecodesIff | BallLarusProfiler/pathProfiler.cpp:5-15 | without parallel edges the record decodes to the run if and only if it is the sum of the run's values; without a shortcut in the tree, if and only if the chords on the run have value 0 |
| ChordCounter.RecordAndDecode | BallLarusProfiler/pathProfiler.cpp:5-15 | decoding the absolute value of the counter returns the blocks of the run if and only if it is the number of a path through them; without parallel edges and such a shortcut in the tree, if and only if the chords on the run have value 0 |
| ChordCounter.RunDecodesIff | BallLarusProfiler/pathProfiler.cpp:5-15 | the record is a number below the path count, and decodes to the run if and only if it is the number of a path through the same blocks |
| Decodability.AllRunsDecodeIff | BallLarusProfiler/BallLarusProfiler.cpp:256-263 | the records of all runs decode to the blocks they went through if no chord a run can take has a value and no shortcut with one is in the tree; without parallel edges, only if |
| Decodability.ValuedIsLater | BallLarusProfiler/BallLarusProfiler.cpp:153-157 | in a numbered graph whose edges the entry reaches, the edges with a value are those that are not the first of their block |
| Decodability.AllRunsDecodeIffForest | BallLarusProfiler/pathProfiler.cpp:5-15 | the records of all runs decode to the blocks they went through if the edges that are not the first of their block make up no undirected cycle and none of them leads from the entry to the exit; without parallel edges, only if |
| Decodability.OnlyZeroChordsIff | BallLarusProfiler/BallLarusProfiler.cpp:172-264 | a maximum spanning tree leaves only chords without a value if and only if the valued edges are part of some spanning tree |
| Decodability.NoTriangle | BallLarusProfiler/BallLarusProfiler.cpp:217-245 | a spanning tree never holds all three edges of a triangle |
| Decodability.LargestInTree | BallLarusProfiler/BallLarusProfiler.cpp:196-198 | an edge more valuable than all others is always in the tree |
| Decodability.TriangleIsNumbered | BallLarusProfiler/BallLarusProfiler.cpp:135-160 | a concrete numbered graph with four paths whose valued edges form a triangle |
| Decodability.TriangleRunIsLost | BallLarusProfiler/BallLarusProfiler.cpp:196-246 | on that graph the run 0, 2, 3, 4 crosses a chord with a value, whatever tree is grown |
| Decodability.LoseTriangleRun | BallLarusProfiler/pathProfiler.cpp:5-15 | instrumenting that graph, making the run 0, 2, 3, 4 and decoding its record gives another path |
| AbstractGraph.GetAbstractGraph | BallLarusProfiler/BallLarusProfiler.cpp:36-67 | every back edge is replaced by an edge to the exit and one from the entry to the header, which carry the number of their pair; an edge with a number is one of such a pair, and one without is a successor that is no back edge, in its place, or leads from a dead end to the exit |
| AbstractGraph.GraphReflects | BallLarusProfiler/BallLarusProfiler.cpp:36-67 | graph and table say this of the program edge by edge, in both directions |
| AbstractGraph.HeadersGrow | BallLarusProfiler/BallLarusProfiler.cpp:53-63 | the numbers of back edges follow the order of the blocks and of their successors |
| WalkSplitting.AbstractIsDag | BallLarusProfiler/BallLarusProfiler.cpp:36-66 | the abstract graph has no cycle and the exit is its only block without successors |
| WalkSplitting.RunSplits | BallLarusProfiler/BallLarusProfiler.cpp:52-64 | a run from entry to exit with k back edges splits into k + 1 entry-to-exit paths of the abstract graph |
| WalkSplitting.RunIsGlued | BallLarusProfiler/BallLarusProfiler.cpp:52-64 | the blocks of the pieces, glued at exit and entry, are the blocks of the run |
| WalkSplitting.SplitInjective | BallLarusProfiler/BallLarusProfiler.cpp:52-64 | different runs split differently |
| WalkSplitting.NumbersDetermineRun | BallLarusProfiler/BallLarusProfiler.cpp:146-159 | two runs with the same sequence of path numbers are the same run |
| WalkSplitting.NumberProgram | BallLarusProfiler/BallLarusProfiler.cpp:334-335 | building and numbering the graph of a program keeps all edges apart from their values, and makes path numbers tell its runs apart when the count fits in 32 bits |
| LoopFreeRuns.NumberedProgram | BallLarusProfiler/BallLarusProfiler.cpp:334-343 | the graph of a program all of whose blocks are reached is numbered, closed and connected as getIncValues needs it |
| LoopFreeRuns.ProgramDecodes | BallLarusProfiler/BallLarusProfiler.cpp:334-390 | on the instrumented graph of a program all paths decode if, and without parallel edges only if, its branches that are not the first of their block make up no cycle and none of them leads from the entry to the exit |
| LoopFreeRuns.LoopFreeRun | BallLarusProfiler/BallLarusProfiler.cpp:46-51 | a run that takes no back edge is one path of the abstract graph through the same blocks |
| LoopFreeRuns.ProfileRun | BallLarusProfiler/BallLarusProfiler.cpp:314-393 | under that condition on the branches, building, numbering, instrumenting, recording and decoding give back the blocks of any run without loops |
| BuddySets.SplitBuddies | src/HPSSA_new.cpp:377-393 | every set that holds some but not all of the old paths is broken in two, in place, and the second parts are collected once each |
| BuddySets.RefineBy | src/HPSSA_new.cpp:363-397 | one more incoming set turns a refinement of the sets seen into one of those and it |
| BuddySets.RefinementIsCoarsest | src/HPSSA_new.cpp:346-399 | any group of paths that no incoming set separates lies inside one buddy set |
| CaloricConnectors.VisitPred | src/HPSSA_new.cpp:352-398 | all buddy sets of one predecessor are taken into account, and cold is answered exactly when one has no path here |
| CaloricConnectors.VisitBlock | src/HPSSA_new.cpp:341-410 | the block's sets are the coarsest refinement of what its predecessors send, with the incubating paths added to each |
| CaloricConnectors.GetCaloricConnector | src/HPSSA_new.cpp:313-413 | so at every block in reverse post order, for arbitrary hot path sets |
| CaloricConnectors.BuddiesAreGroups | src/HPSSA_new.cpp:341-410 | paths that start at a block are in all of its sets; of the others those that a predecessor sends are in one, two of them together exactly when no set of a predecessor has parted them |
| PrefixClasses.GetProfileInfo | src/HPSSA.cpp:9-35 | the hot path set of a block holds the paths that go through it |
| PrefixClasses.BuddiesArePrefixClasses | src/HPSSA.cpp:189-328 | two hot paths share a buddy set at a block exactly when they took the same way from the entry to it |
| PrefixClasses.CaloricIff | src/HPSSA.cpp:235-312 | a block is a caloric connector exactly when it is hot and a predecessor is cold or carries a prefix class with no path through the block |
| PrefixClasses.FindConnectors | src/HPSSA_new.cpp:313-413 | the whole computation from profile to prefix classes |
| Frames.InitialFrameByPreds | src/HPSSA.cpp:432-457 | predecessor by predecessor, the initial frame holds each definition with the block's paths through its incoming blocks |
| Frames.InitialFrameByOperands | src/HPSSA_new.cpp:196-205 | the same frame, operand by operand |
| Frames.InitialFrameUnique | src/HPSSA.cpp:329-340 | there is only one such frame |
| Frames.RestrictKeeps | src/HPSSA.cpp:534-545 | a definition stays in the part of a frame exactly when one of the given paths carries it, with those of its paths |
| FramePropagation.PassFrame | src/HPSSA.cpp:534-545 | the part of a frame carried by the given paths is added to another |
| FramePropagation.PassToSuccs | src/HPSSA.cpp:525-549 | every dominated successor receives the paths and definitions that continue to it, and no other block |
| FramePropagation.AllArrive | src/HPSSA.cpp:464-549 | a dominated block has received all its hot paths by the time it is visited |
| FramePropagation.PropagateFrame | src/HPSSA.cpp:420-551 | at every visited block the accumulated frame is the initial frame cut down to the block's hot paths, and its taus take the definitions in it |
| FramePropagation.TausAreReached | src/HPSSA.cpp:488-523 | a caloric block visited gets a tau exactly when some definition reaches it along a hot path through the phi, with exactly the definitions that do |
| ArgAllocation.GetIncubationPaths | src/HPSSA_new.cpp:172-182 | a path is answered exactly when it is one of the block's hot paths and goes through no predecessor |
| ArgAllocation.Pop | src/HPSSA_new.cpp:29-36 | removes exactly the frames of the block on top of the stack |
| ArgAllocation.ArgAllocator.PushPhi | src/HPSSA_new.cpp:194-234 | the frame of definitions and the incubation frame are pushed when they are not empty |
| ArgAllocation.IncubationFrameIs | src/HPSSA_new.cpp:214-231 | which definitions the incubation frame holds, and which paths carry each: those of the top frame, all incubating paths, and for an operand that is no phi or tau the block's paths through its incoming block |
| ArgAllocation.ArgAllocator.MakeIncubationFrame | src/HPSSA_new.cpp:214-231 | the frame made from the top frame holds exactly these definitions, each carried by exactly these paths |
| ArgAllocation.ArgAllocator.AllocateTaus | src/HPSSA_new.cpp:236-274 | every tau is given the definitions of the top frame that a hot path of the block carries |
| ArgAllocation.ArgAllocator.AccumulateForSuccs | src/HPSSA_new.cpp:276-291 | what is accumulated for joins never concerns the phis of a block still to be walked |
| ArgAllocation.ArgAllocator.AllocateArgs | src/HPSSA_new.cpp:189-311 | leaves every phi's stack as it found it, for any graph, and gives all taus below the definitions their hot paths carry on the top frame |
| ArgAllocation.ArgsAreFrame | src/HPSSA_new.cpp:205-259 | below a phi's block every tau of the phi gets the definitions that the block's hot paths carry in the initial frame, with the incubating paths added to it when hot paths start in the phi's block |
| ArgAllocation.ArgsAreCarried | src/HPSSA_new.cpp:172-259 | below a phi's block a tau of the phi is given a definition exactly when a hot path of the tau's block came with it from an incoming block of the phi, or starts in the phi's block and the definition came with some path, is no phi or tau, or comes along a back edge |
| ArgAllocation.ArgumentsAgree | src/HPSSA_new.cpp:251-259 | both implementations give a tau the same speculative arguments in every visited block |
| ArgAllocation.AllocatedAt | src/HPSSA_new.cpp:292-306 | every block of the dominator tree is reached with frames of the blocks on its way only |
| ArgAllocation.AllocateAll | src/HPSSA_new.cpp:473-474 | the walk from the entry with empty stacks |
| RenamingState.MeetTauGood | src/HPSSA.cpp:81-98 | a tau becomes the current name of the phi it stands for, found through the operand 0 it has after renaming |
| RenamingState.PopTauGood | src/HPSSA.cpp:168-182 | pruning an unused tau and popping its stack keeps every operand's root phi |
| RenamingState.GoodIsAcyclic | src/HPSSA.cpp:93-98 | following operand 0 from tau to tau ends at the phi |
| RenamingState.NameIsLatest | src/HPSSA.cpp:55-65 | the current name of a value is the tau met last that stands for it, or the value itself |
| Renaming.Renamer.RenameUses | src/HPSSA.cpp:55-65 | replacing phi by phi is the simultaneous replacement by current names |
| Renaming.Renamer.VisitInst | src/HPSSA.cpp:49-108 | one instruction is renamed and, as phi or tau, becomes a current name |
| Renaming.Renamer.VisitBlock | src/HPSSA.cpp:49-108 | all instructions of a block, with every tau and every other instruction that is no phi naming the latest taus met before it |
| Renaming.Renamer.UpdateIncoming | src/HPSSA.cpp:116-151 | wherever the phi uses the value it takes from the block, it uses the current name of that value's root phi if the value is a phi or tau; nothing else changes and every root is kept |
| Renaming.Renamer.UpdateSuccs | src/HPSSA.cpp:113-151 | every phi in a successor has been updated for the value it takes from the block |
| Renaming.Renamer.LeaveBlock | src/HPSSA.cpp:168-186 | the taus of the block come off their stacks, every one that nothing used is erased, and nothing else changes |
| Renaming.Renamer.Search | src/HPSSA.cpp:43-187 | every stack that existed is restored, every operand keeps its root phi, and every operand of a tau or another instruction that is no phi names the latest tau above it; over the dominator tree, operands of a phi that were one value stay one value, and each has the name of its value at the end of a block the phi takes that value from |
| PhiOperands.SlotReplaced | src/HPSSA.cpp:116-151 | replacing the value a phi takes from a block, wherever the phi uses it, names all operands that were the same value as in that block and no others |
| PhiOperands.RightNamesIff | src/HPSSA.cpp:116-151 | the operands of a phi are the names found in the blocks they come from if and only if no value the phi takes from two blocks has different names there |
| LostName.LoseName | src/HPSSA.cpp:43-187 | on a concrete loop whose latch holds a tau the phi of the header does not get the names found in its two predecessors |
| TauForm.ReplaceTau | src/TDestruction.cpp:27-37 | replacing a tau by its operand 0 changes no operand's root and leaves the tau unused |
| TauForm.EraseUnused | src/TDestruction.cpp:38 | erasing an unused tau leaves the rest as it was |
| TauForm.CollectTaus | src/TDestruction.cpp:6-18 | all taus, each once |
| TauForm.NoTausLeft | src/TDestruction.cpp:19-39 | without taus the body is the program it came from |
| TauForm.DestroyTaus | src/TDestruction.cpp:19-39 | removing the taus one after the other, in any order, gives back the program |
| TauRoundTrip.InsertTaus | src/HPSSA.cpp:488-523 | every request is carried out and nothing else is inserted: the tau stands in its block, between phis and other instructions and before taus inserted earlier, with the phi and the speculative arguments as operands; nothing uses it yet |
| TauRoundTrip.BuildTauForm | src/HPSSA.cpp:488-554 | insertion carries out every request, and renaming gives the program up to taus, with nearest names everywhere outside phis, and in a phi exactly when its names agree |
| TauRoundTrip.RoundTrip | src/TDestruction.cpp:5-41 | building the tau form and destroying it gives back every instruction list and every operand |

## Left out

- LLVM itself: dominator tree, reverse post order, back edge detection, edge splitting, range arithmetic and constant folding are inputs with stated properties.
- File formats and process glue: profiles, path data and dumped graphs are values.
- Wrapped and empty constant ranges, so markNotConstant on an integer; a range is a non-empty interval.
- Struct values, loads and stores, calls, tracked globals, ssa.copy predicates, casts, sign extension rewriting, switch and indirectbr in the solver.
- Undef literals in the solved program, and speculative values in the solver's monotonicity: `SCCPSolver.SCCPTauSolver.VisitTauNode` has its own contract only, and replacing a tau's result by its speculative constant is not claimed to be sound.
- SCCPSolver.SCCPTauSolver.VisitTauNode: a safe range against a speculative operand without one is excluded, as the source asserts there, and a tau has at least one speculative operand.
- SCCPTau.RunSCCPTau: blocks the reverse post order does not list stay as they are, and instructions that are not safe to remove do not occur in the modelled language.
- calculateSpanningTree of the older profiler, split and phony edges, and the 64-bit weights and 32-bit registers of that profiler, where sums are unbounded integers.
- The back-edge branch of the instrumentation (increment, count, reset): results about the recorded counter are for loop-free runs.
- ChordCounter.RecordAndDecode: with parallel edges every chord is taken to be instrumented, whichever of the edges between its two blocks is split for it.
- IncValues.GetIncValues: the undirected abstract graph is assumed connected, as it is when the entry reaches every block (`LoopFreeRuns.NumberedProgram`); otherwise the source reads the parent of a block that has none. Signed overflow of a table entry is modelled as wrap-around.
- IncValues.GrowTree: needs the graph connected, likewise.
- IncValues.NextIsGreedy: needs the graph connected, likewise.
- Decodability.AllRunsDecodeIffForest: only sufficient with parallel edges, of which several may have values and still stand for the same blocks, and with edges the entry does not reach, a cycle of which does no harm.
- ChordCounter.BlocksInjective: at most one edge between any two blocks, without which it does not hold.
- CaloricConnectors.GetCaloricConnector: an order in which predecessors come first, so graphs without cycles.
- HPSSA on graphs with cycles: buddy sets and frame propagation are for acyclic graphs, as the source assumes; `ArgAllocation.ArgAllocator.AllocateArgs` and `Renaming.Renamer.Search` do not need it.
- Renaming.Renamer.Search: which of the names of a phi's operand is kept is said for the dominator tree only, where what is met above a block is met above its predecessors or in them.
- The children of a block in the dominator tree are given in topological order, instead of being sorted before the recursion.
- Trace logging, the block profiler, conditional taus and code generation.
