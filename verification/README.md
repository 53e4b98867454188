# A verified model of ptxroof

A model of the algorithms at the heart of ptxroof, a static analyser of PTX kernels, with proofs that each fast
algorithm agrees with a simple definition. One module per file.

## What is modelled

**The flow graph and what reads it.** Graphs (`Graphs`) keep edges at both ends; everything is specified by paths.
Depth-first order and the Cooper-Harvey-Kennedy iteration (`DepthFirst`, `DominatorTree`, `Dominators`) give true
immediate dominators; frontiers and their iteration (`Frontiers`) place phis; the on-demand lookup that climbs
immediate dominators (`Ssa`, `SsaQueries`) sees what every run last wrote. Dead-code elimination (`DeadCode`) keeps
every run's branches and effects (`Elimination`). The loop forest (`NaturalLoops`, `Loops`, `LoopForest`) is the nest
of natural loops; labels pushed over it (`LabelPaths`, `LabelOrder`, `SyncDependence`, `LabelEdges`, `JoinBlocks`) find
where the paths of a branch meet and which branches decide how a loop is left. Post-dominance over one trip
(`TripGraphs`, `ControlDependence`, `ReadingSteps`, `PredicateReaders`) decides which threads run a block. Loop
counters are header phis fed back plus one step, which may pass through the counters of nested loops (`LoopStays`,
`CounterRuns`, `InductionVariables`, `CounterWalks`), and a run makes the trips its latch is solved for (`TripCounts`).
The provisional cache of traces and trip counts is `Memo`.

**Symbolic and affine arithmetic.** Expressions built by simplifying constructors (`SymExprs`, `SymExprValues`,
`SymExprForms`, `SymExprFolds`, `SymExprBuilders`, `SymExprSymbols`, `SymQuotients`, `Spans`, `SpanEnds`), counts
summed from them (`CountAccumulators`, `CtaSums`), latches solved for trip counts (`ExitLimits`), affine forms with
Euclidean division, ranges, and xors of thread-index bits (`AffineExprs`, `AffineDivision`, `DividedForms`,
`AffineRanges`, `RangeEnds`, `SymbolicRanges`, `Swizzles`, `SwizzleForms`, `MaySets`, `MaskEnds`). The specification is
evaluation over unbounded integers; every checked or width-limited step is written out.

**Counting threads and sectors.** Three-valued predicates over thread, CTA and trip indices and their tallies (`Lanes`,
`Participation`, `Readings`, `Tallies`, `TallyBounds`, `TallyLimits`, `Elections`), sums over trips by runs between cut
points (`TripSums`) and over a launch by key (`GridSums`, `LaunchSums`, `LaunchLimits`), and the 32-byte sectors warps
touch (`Divisibility`, `Sectors`, `Footprints`, `FootprintEnds`, `OffsetLimits`, `SectorPatterns`).

For what only bounds its answer, a range, a span, a mask, a tally or a footprint, there are two halves: nothing falls
outside it, and its ends are met. `WorkedCases` applies both to forms every kernel has.

`Wrappers`, `Sets`, `Sorting` and `Divisions` are helpers.

## Conventions

- Integers are unbounded. Where the code checks a width the model has the same test (`Fits`, `FitsWide`, `ROOM`), and
  its failure takes the same way out. Division and remainder are Euclidean, as the code's `div_euclid` and `rem_euclid`.
- `usize::MAX` as "no position" is the constant `UNREACHABLE`; block handles are below 2^32.
- Words of 64 bits are sets of bit positions where bits matter (`Swizzles`, `MaySets`).
- Interned symbols are naturals; a hash map of terms is a sequence with each key once, whose order nothing depends on.
- A loop of the source is a `while` or `for` loop proved against a function or a predicate; an object updated in place
  is a class (`MemoCells`, `CountAccumulator`, `PredicateReader`).
- A statement is given by what it reads, writes and whether it is guarded; what the opcodes mean is a parameter, a machine
  on the whole register file that heeds what the statement says of itself.

## Where the code and its documentation differ

- `src/analysis/affine/sym_expr.rs:67-70` has no sum nest in a sum. Sums keep that (`SymExprForms.AddPlain`), a product
  does exactly while leading constants multiply within `i64` (`MulFlatPlain`, `MulPlain`), and past it a sum can nest:
  `NestsWherePast` gives an expression that does if and only if the constants do not fit. Termination and values are
  proved without the invariant.
- `src/analysis/affine/exit_limit.rs` refuses a `!=` latch that never meets a constant distance. One of `i64::MIN` under
  a positive step is solved all the same, because its negation does not fit (`ExitLimits.LeastDistanceIsSolved`);
  `RefusedNeverMeets` shows that this is the one exception and `UnequalTripsExact` when a count is right.
- `src/analysis/affine/sym_expr.rs:424-425` has a fully bound expression collapse to a constant. It does node by node
  exactly where checked evaluation succeeds (`SymExprForms.BindStaysConst`), for a sum of two symbols exactly where the
  sum fits (`BoundSumOfTwo`); an overflow may also be undone by a later term (`ComesBack`).
- Skipping only the statements `unused` flags is not a meaning-preserving transformation by itself: the guard of a
  statement that never runs may be flagged (`Elimination.NeverRunMustGoToo`). `Elimination.SameEffectsWhere` gives the
  exact condition on a run. What never runs has to go too, and then every run is preserved
  (`Elimination.EliminationPreservesRuns`).
- Where a swizzle sets bit 63 at a thread, the code's shift does not read its floor by 2 or more right there; everywhere
  else, and for every remainder, it does (`SwizzleForms.SwizzleReadRight`). Every swizzle the program builds comes from a
  form below 2^62 (`SwizzleForms.FormSwizzle`, `XorFormValue`), so no bit 63 arises.
- `src/analysis/thread_participation.rs:884-889` has the range of a tally cover the choices of a leader. It does for one
  election among threads no election decides (`Elections.TallyBoundsChosen`). Two elections are read with one leader, and
  an election among elected threads takes the lowest lane for theirs; both can miss the set
  (`Elections.TwoElectionsExceed`, `ElectedTwiceExceeds`).

## Model

| member | source | states |
|---|---|---|
| DominatorTree.StepKeeps | src/analysis/control_flow/dominators.rs:125-162 | One step of a pass, the block hung under the meet of its processed predecessors, keeps what the iteration relies on: every strict dominator of a block dominates its guess |
| DominatorTree.StepDescends | src/analysis/control_flow/dominators.rs:147-162 | A step that changes a block moves its guess strictly nearer the root, so the iteration ends on every graph |
| DominatorTree.SettledIsDominance | src/analysis/control_flow/dominators.rs:125-162 | Where a pass changes nothing, being on the way up from a block is lying on every path from the root to it |
| Dominators.Postorder | src/analysis/control_flow/dominators.rs:100-119 | The reachable blocks and no others, each once, backwards an order with the root first and every other block after one of its predecessors |
| Dominators.Intersect | src/analysis/control_flow/dominators.rs:128-139 | The lowest block on the way up from both |
| Dominators.MeetPreds | src/analysis/control_flow/dominators.rs:145-156 | The lowest block on the way up from every processed predecessor, those not processed skipped |
| Dominators.Pass | src/analysis/control_flow/dominators.rs:141-162 | A pass that reports no change leaves every block at the meet of its predecessors; one that reports a change lowers the total height |
| Dominators.DominatorsFrom | src/analysis/control_flow/dominators.rs:97-169 | On every graph it ends, with the true immediate dominator of every reachable block but the root and none of the others |
| Dominators.IsDominator | src/analysis/control_flow/dominators.rs:25-40 | True exactly where the block is reachable and every path from the root to it passes the other |
| Frontiers.Climb | src/analysis/control_flow/dominators.rs:46-60 | Adds a block to the frontier of exactly those blocks that dominate one predecessor of it and not strictly the block |
| Frontiers.AddBlock | src/analysis/control_flow/dominators.rs:46-60 | After its turn a block is in the frontier of exactly those blocks it is to be in |
| Frontiers.FrontiersOf | src/analysis/control_flow/dominators.rs:42-61 | The blocks where each block's dominance ends, and no others, in reverse postorder |
| Frontiers.IteratedFrontier | src/analysis/control_flow/dominators.rs:64-89 | In block order, the least set that holds the frontier of each block given and of each of its own |
| SsaQueries.New | src/ssa.rs:36-58 | A form whose phi blocks hold the frontier of each register's writing blocks and their own, and no fewer would do |
| SsaQueries.BlockOf | src/ssa.rs:131-136 | The one block holding the statement |
| SsaQueries.Lookup | src/ssa.rs:106-128 | The value seen at a point of a reachable block, none in one that is not, though found only by climbing immediate dominators |
| SsaQueries.ValueBefore | src/ssa.rs:60-65 | The value a read before a statement sees, none in an unreachable block |
| SsaQueries.Incoming | src/ssa.rs:67-81 | A phi's operands in order: the start's, nothing written, where its block is the entry, then one for each reachable predecessor as often as it is listed; none for what is no phi |
| SsaQueries.Sources | src/ssa.rs:83-104 | The values a value may be through phis, in statement order, each once |
| Ssa.MeetsAtPhi | src/ssa.rs:36-58 | A write or a phi on a path none of whose later blocks strictly dominates the last puts a phi in the last |
| Ssa.PhiDominates | src/ssa.rs:106-128 | The block of a phi a read sees dominates the block read from |
| Ssa.SeenIsLastWrite | src/ssa.rs:60-128 | SSA agrees with execution: along every path from the entry the value seen, resolved by the path's own edges, is the last statement on the path that writes the register, or none |
| SsaQueries.ResolvesToSource | src/ssa.rs:83-104 | Along any path a value resolves to one of its sources |
| SsaQueries.SourcesAreReachingDefinitions | src/ssa.rs:83-104 | The sources are exactly the definitions that reach the read: each is what some run to it last wrote, and every run's last write is one |
| DeadCode.MarkSources | src/analysis/dead_code.rs:30-52 | Marks and queues exactly the sources not live yet |
| DeadCode.Follow | src/analysis/dead_code.rs:40-52 | Following one register of a live statement keeps the live set inside every set closed under what live reads may see |
| DeadCode.ReadsAreNeeds | src/analysis/dead_code.rs:70-100 | What a statement reads, told field by field: its operands, the carry flag where it reads it, what it writes where it is not pure or may be guarded off, and an unparsed statement's registers; an effect is what is not pure and may run |
| DeadCode.Unused | src/analysis/dead_code.rs:20-100 | Flags exactly the instructions that may run and are not in every set that holds what has an effect and, with each statement, the definitions of what it needs; a guarded write keeps its old value live |
| Elimination.EliminationPreservesRuns | src/analysis/dead_code.rs:1-100 | With a right guard oracle, the run without the flagged statements is at every step where the original is, with the same branches and the same sequence of effects, from every start and on every machine that works on all registers and does of a statement what its operands, the carry flag where it reads it, and what it writes impurely tell it |
| Elimination.LeftOutOmits | src/analysis/dead_code.rs:20-100 | The flags, with the statements that never run, are such an omission |
| Elimination.NeverRunMustGoToo | src/analysis/dead_code.rs:20-100 | Skipping only what is flagged is not enough: a kernel in which a store that never runs does run once its unflagged guard definition is gone |
| Elimination.SameEffectsWhere | src/analysis/dead_code.rs:20-100 | Exactly when it is enough: leaving out flagged and pure statements keeps the effects of a run up to a step if and only if the shortened run comes to no kept effect that never runs and finds its guard true |
| Elimination.PinnedGuardNeverShows | src/analysis/dead_code.rs:20-100 | That a flagged definition reaches the guard does not decide it: here one does, and on every machine and from every start the effects stay |
| NaturalLoops.HeaderDominatesBody | src/analysis/control_flow/loops.rs:1-17 | A header dominates its whole body |
| NaturalLoops.InnerBodyInside | src/analysis/control_flow/loops.rs:1-17 | A loop that shares a block with one whose header strictly dominates its own lies inside it |
| NaturalLoops.NestedOrDisjoint | src/analysis/control_flow/loops.rs:1-17 | Two loops that share a block are strictly nested |
| NaturalLoops.HoldingHeaderHoldsBody | src/analysis/control_flow/loops.rs:123-135 | A loop that holds another's header holds all of it |
| Loops.BackEdges | src/analysis/control_flow/loops.rs:72-87 | Every edge whose target dominates its source, grouped by target, and no other |
| Loops.Body | src/analysis/control_flow/loops.rs:89-111 | In block order, the header and what reaches a latch without passing it |
| Loops.SharingIsNested | src/analysis/control_flow/loops.rs:123-135 | Of two loops found that share a block one contains the other |
| Loops.OrderBySize | src/analysis/control_flow/loops.rs:125-126 | Every loop once, none after a larger one |
| Loops.Parents | src/analysis/control_flow/loops.rs:125-135 | The loop directly around each: contained in every other that contains it |
| Loops.DepthOf | src/analysis/control_flow/loops.rs:141-149 | One more than the number of loops around it |
| Loops.ChildrenOf | src/analysis/control_flow/loops.rs:136-140 | Exactly the loops whose parent it is, in order |
| Loops.Innermost | src/analysis/control_flow/loops.rs:151-160 | The loop of each block contained in every other that holds the block |
| LoopForest.RetreatMakesCycle | src/analysis/control_flow/loops.rs:162-187 | A retreating edge that is no back edge closes a cycle that uses none |
| LoopForest.RankOf | src/analysis/control_flow/loops.rs:162-187 | Every edge but back edges and those recorded leads to a block finished earlier, so what is left has no cycle |
| LoopForest.IrreducibleEdges | src/analysis/control_flow/loops.rs:162-187 | None exactly where the reachable graph without its back edges is acyclic |
| LoopForest.LoopsOf | src/analysis/control_flow/loops.rs:89-121 | One loop per header with its latches and its body |
| LoopForest.LoopForestOf | src/analysis/control_flow/loops.rs:68-195 | The whole forest: bodies, nesting, depths, innermost loops and irreducible edges together |
| LabelEdges.LabelEntersAtHeader | src/analysis/control_flow/sync_dependence.rs:66-81 | A label edge enters a loop at its header only |
| LabelEdges.LabelEdgesAcyclic | src/analysis/control_flow/sync_dependence.rs:66-81 | On a reducible graph no path of label edges from a reachable block comes back to it |
| JoinBlocks.LabelEdgesOf | src/analysis/control_flow/sync_dependence.rs:66-81 | A header's label edges lead exactly where edges leave its loop, any other block's are its own |
| SyncDependence.Order | src/analysis/control_flow/sync_dependence.rs:112-134 | The blocks reached without passing the stop, each once, and where there is no cycle each after every block with an edge to it |
| SyncDependence.Pushes | src/analysis/control_flow/sync_dependence.rs:95-107 | Pushing one label along one edge keeps every label what the blocks pushed so far make of it |
| SyncDependence.Labels | src/analysis/control_flow/sync_dependence.rs:83-110 | Where there is no cycle, labels as the graph demands and, in block order, the blocks labels meet at |
| LabelPaths.LabelIsNearest | src/analysis/control_flow/sync_dependence.rs:83-110 | The label of a block is the one block on every path to it with no other on every path to itself |
| LabelPaths.LabelsApart | src/analysis/control_flow/sync_dependence.rs:83-110 | Blocks of different labels are reached by paths with no block in common |
| LabelPaths.MeetsWherePathsDo | src/analysis/control_flow/sync_dependence.rs:83-110 | Labels meet exactly at the blocks two paths sharing no earlier block reach |
| JoinBlocks.LabelGraphAcyclic | src/analysis/control_flow/sync_dependence.rs:66-81 | The graph labels are pushed on has no cycle from a reachable branch of a reducible graph |
| JoinBlocks.JoinBlocks | src/analysis/control_flow/sync_dependence.rs:16-33 | For each reachable block of a reducible graph exactly the blocks two ways from its successors meet at sharing none before; else every block the paths reach |
| JoinBlocks.Decides | src/analysis/control_flow/sync_dependence.rs:43-62 | Whether ways from the branch that share no block lead to the header or to exits |
| JoinBlocks.ExitBranches | src/analysis/control_flow/sync_dependence.rs:35-64 | For each loop exactly the blocks from which ways sharing no block end a trip at different places; with an irreducible edge, every block with two successors |
| TripGraphs.Without | src/ptx/cfg.rs:62-83 | Exactly the edges not listed, kept at both ends |
| TripGraphs.Reversed | src/ptx/cfg.rs:85-120 | The kept edges turned around, and an exit with an edge to exactly the blocks a trip ends at |
| TripGraphs.PostDominates | src/ptx/cfg.rs:85-120 | Dominance from that exit is lying on every path a trip takes to its end |
| ControlDependence.DecidesIs | src/analysis/thread_participation.rs:1023-1064 | The frontier in the turned graph holds exactly the branches one kept edge of which leads only to the block, and not all do |
| ControlDependence.TowardSound | src/analysis/thread_participation.rs:1081-1124 | What a branch's guard reads of a thread, negated or not, is whether the thread turns toward the block |
| ControlDependence.LastToDecide | src/analysis/thread_participation.rs:1023-1064 | The last block of a thread's path to a block that could still miss it decides on it, and is dominated by the path's start |
| ControlDependence.ReachIsVisits | src/analysis/thread_participation.rs:990-1064 | What the reading says of a thread at a dominator is whether its own path comes to the block, and it says so unless a guard is unread or the budget is spent |
| ControlDependence.BlockIsVisited | src/analysis/thread_participation.rs:996-1017 | And for the whole of a loop-free kernel whether the thread runs the block |
| ReadingSteps.ReachSpends | src/analysis/thread_participation.rs:1023-1064 | A reading spends of its budget one step for itself and the steps of each decider below the dominator, and gives up where it has fewer |
| ReadingSteps.GivesUpWhere | src/analysis/thread_participation.rs:1023-1064 | On every acyclic trip it gives up if and only if those steps, always known, are more than its budget |
| PredicateReaders.TripIsAcyclic | src/analysis/thread_participation.rs:958-969 | The edges of one trip of a scope no loop stands in have no cycle |
| PredicateReaders.TopKeepsAll | src/analysis/thread_participation.rs:958-969 | At the top level of a reducible graph a trip keeps every edge |
| PredicateReaders.TripKeepsBody | src/analysis/thread_participation.rs:958-969 | A loop's trip keeps exactly the edges between blocks of its body that do not enter its header |
| PredicateReaders.KernelBlockIsRun | src/analysis/thread_participation.rs:996-1064 | In a kernel without loops what the reader built of the graph says of a block is whether the thread's own path through the graph runs it |
| PredicateReaders.LoopBlockIsRun | src/analysis/thread_participation.rs:996-1064 | And in one trip of a loop whether the thread's path from the header comes to the block before it enters the header again |
| PredicateReaders.PredicateReader.constructor | src/analysis/thread_participation.rs:1338-1362 | A reader whose trip is the scope's: the edges kept are the graph's own, turned around, with its frontiers as deciders |
| PredicateReaders.PredicateReader.Toward | src/analysis/thread_participation.rs:1081-1124 | Computes the reading of one branch |
| PredicateReaders.PredicateReader.Reach | src/analysis/thread_participation.rs:1023-1064 | Computes the reading and the steps left |
| PredicateReaders.PredicateReader.Block | src/analysis/thread_participation.rs:996-1017 | Computes each block's reading once, every one kept staying the block's |
| Memo.Memoized | src/analysis/affine/affine_analysis.rs:632-673 | A query returns the finished result, the unfinished one, or computes; it restores the frames and never changes a finished result |
| Memo.ProvisionalIsLeast | src/analysis/affine/affine_analysis.rs:632-673 | `provisional` is the least of what it was and the frames a computation read |
| Memo.KeptExactlyWhen | src/analysis/affine/affine_analysis.rs:632-673 | A computed result is kept exactly when its computation read no frame in progress outside its own and cut nothing |
| Memo.SameWithout | src/analysis/affine/affine_analysis.rs:632-673 | A computation that reads nothing of the outermost frames goes the same way without them |
| Memo.KeptIsOutermost | src/analysis/affine/affine_analysis.rs:26-34 | A result kept while other keys are in progress is the one the finished results alone give |
| Memo.CacheIsTransparent | src/analysis/affine/affine_analysis.rs:26-34 | For keys with a meaning of their own the cache changes nothing: a query gives the meaning and leaves every kept result right |
| Memo.MemoCells.constructor | src/analysis/affine/affine_analysis.rs:87-107 | No frame, nothing provisional, nothing cached |
| Memo.MemoCells.Query | src/analysis/affine/affine_analysis.rs:632-673 | Changes the cells as the query changes the cache: finished results stay, frames are restored |
| Memo.MemoCells.Compute | src/analysis/affine/affine_analysis.rs:632-673 | Runs one key's computation in its own frame |
| Memo.MemoCells.Close | src/analysis/affine/affine_analysis.rs:650-673 | Keeps the result, or passes what it read outside on |
| Memo.MemoCells.CutAt | src/analysis/affine/affine_analysis.rs:706-710 | Nothing in progress is kept after a cut |
| Memo.MemoCells.Uncut | src/analysis/affine/affine_analysis.rs:681-704 | Each key cut at is queried on its own, the deepest first, until nothing is cut |
| CounterRuns.SeenSince | src/ssa.rs:106-128 | The value a read sees was written or merged where every path to the read passes last, and its register is not written since |
| CounterRuns.StatementMoves | src/analysis/affine/induction_variables.rs:160-193 | A mov, add or sub in the loop moves its register by what its operand moved and what it adds |
| CounterRuns.ExitMoves | src/analysis/affine/induction_variables.rs:140-156 | A nested loop's counter carries its own step once for each trip of that loop: what it feeds back last is the phi of the outer trip's start plus what its start was moved by plus inner step times inner trips |
| InductionVariables.Offset | src/analysis/affine/induction_variables.rs:128-193 | Walks what the code walks, nested counters included, and on every run the value it starts from is the phi of its trip's start plus the step found |
| CounterWalks.FoundLeadsBack | src/analysis/affine/induction_variables.rs:128-193 | What the walk finds is a way back to the phi by the loop's own movs, adds from either side and subs from the left, and by counters of the loops directly in it, and adds up what they add |
| CounterWalks.LeadsBackFound | src/analysis/affine/induction_variables.rs:128-193 | And where there is such a way of as many steps one is found, unless some way's constant leaves i64 |
| InductionVariables.Equal | src/analysis/affine/induction_variables.rs:89-100 | Whether two steps have one constant and the same exits and read the same values with the same signs |
| InductionVariables.FindCounter | src/analysis/affine/induction_variables.rs:39-115 | Finds a counter exactly where the header has a phi of the register, one value on every entering edge and one step, not zero, on every other, counters of nested loops walked through; every run moves it so |
| InductionVariables.LoopCounters | src/analysis/affine/induction_variables.rs:52-115 | Of a list of registers exactly those that are counters of the loop |
| InductionVariables.AddFed | src/analysis/affine/affine_analysis.rs:120-141 | Records a counter under exactly the values its back edges feed it, and all recorded stay counters |
| InductionVariables.Counters | src/analysis/affine/affine_analysis.rs:120-141 | Whatever the order of the loops, all found are counters on every run and so are all recorded for the loops around them |
| LoopStays.StayStarts | src/analysis/affine/affine_analysis.rs:15-24 | Wherever a run stands in a loop it entered it at the header, and the trips of the stay are the headers run since |
| LoopStays.EntryUnshared | src/analysis/control_flow/loops.rs:123-135 | Entering one loop leaves every other loop directly in the same one |
| CounterRuns.FedHolds | src/analysis/affine/affine_analysis.rs:15-24 | What a latch feeds back is the value at its trip's start plus the step |
| CounterRuns.CounterHolds | src/analysis/affine/affine_analysis.rs:453-506 | On every run, at the k-th trip since the loop was entered a counter holds its start plus k - 1 steps, a step's nested loops each giving their own step times their trips |
| TripCounts.LapsOnRun | src/analysis/affine/affine_analysis.rs:618-625 | Where each stay in a loop is left at a latch whose test counts n trips, each makes n trips, which is what a step with that loop in it asks |
| ExitLimits.BelowZeroTests | src/analysis/affine/exit_limit.rs:7-48 | The test below zero holds exactly where the comparison does |
| ExitLimits.OrderedTripsExact | src/analysis/affine/exit_limit.rs:56-95 | An ordered latch solved for T runs max(T, 1) trips, and max(T, 0) behind a guard testing k = 0 |
| ExitLimits.RefusedGoesOnForever | src/analysis/affine/exit_limit.rs:56-95 | An ordered latch refused that goes on after its first trip never stops |
| ExitLimits.UnequalTripsExact | src/analysis/affine/exit_limit.rs:56-95 | A `!=` latch solved is solved right if and only if the distance is a multiple of the step and the count at least one |
| ExitLimits.RefusedNeverMeets | src/analysis/affine/exit_limit.rs:70-95 | A constant distance is refused if and only if no trip meets it, but for i64::MIN under a positive step |
| ExitLimits.LeastDistanceIsSolved | src/analysis/affine/exit_limit.rs:70-95 | That exception is real: a step of 3 never meets i64::MIN, and it is solved |
| TripCounts.TestedIs | src/analysis/affine/affine_analysis.rs:15-24 | At the end of trip k the latch reads the counter as its start plus k steps, or k - 1 read before the increment |
| TripCounts.TripsOnRun | src/analysis/affine/affine_analysis.rs:15-24 | A run through a loop left at its latch makes exactly the trips of that test |
| TripCounts.OrderedRunTrips | src/analysis/affine/exit_limit.rs:50-95 | On every run an ordered latch solved for T is left after max(T, 1) trips |
| TripCounts.UnequalRunTrips | src/analysis/affine/exit_limit.rs:50-95 | And a `!=` latch after T trips if and only if the distance is a positive number of steps |
| SymExprValues.MulFlatValue | src/analysis/affine/sym_expr.rs:303-339 | A flattened product has the product's value, what did not fit kept apart |
| SymExprValues.MulValue | src/analysis/affine/sym_expr.rs:286-301 | A product distributed over a sum has the product's value |
| SymExprValues.AddValue | src/analysis/affine/sym_expr.rs:206-277 | A sum has the sum's value, whatever folded, grouped, sorted or stayed apart for not fitting |
| SymExprValues.SplitValue | src/analysis/affine/sym_expr.rs:104-122 | The constant split off times what is left is the value |
| SymExprFolds.AddJoins | src/analysis/affine/sym_expr.rs:206-277 | Of plain expressions, where no multipliers sum past i64, a sum has one term for each rest whose multipliers do not cancel, and is its constant where all do |
| SymExprFolds.SymbolCancels | src/analysis/affine/sym_expr.rs:206-277 | So a symbol less itself is the constant 0 |
| SymExprFolds.PositiveComeFirst | src/analysis/affine/sym_expr.rs:264-271 | And the terms whose multiplier is below zero come last |
| SymExprFolds.CompareIsExact | src/analysis/affine/sym_expr.rs:64-88 | Only an expression itself compares equal to it, and turning a comparison around turns its sign |
| SymExprFolds.SortedInOrder | src/analysis/affine/sym_expr.rs:206-277 | Sorting puts the same parts in that order |
| SymExprForms.AddPlain | src/analysis/affine/sym_expr.rs:206-277 | A sum of expressions without a sum in a sum has none either |
| SymExprForms.MulFlatPlain | src/analysis/affine/sym_expr.rs:303-339 | A flattened product of such expressions is one if and only if their leading constants multiply within i64 |
| SymExprForms.MulPlain | src/analysis/affine/sym_expr.rs:286-301 | And a product distributed over a sum where every term's does |
| SymExprForms.NestsWherePast | src/analysis/affine/sym_expr.rs:67-70 | Of c and k times a sum of two symbols plus a third, a sum nests in the sum if and only if c * k does not fit |
| SymExprForms.BindStaysConst | src/analysis/affine/sym_expr.rs:424-449 | Binding meets a constant at every node if and only if checked evaluation succeeds, and then it is the constant evaluated to |
| SymExprForms.BoundSumOfTwo | src/analysis/affine/sym_expr.rs:424-449 | Of a sum of two bound symbols binding makes a constant if and only if the sum fits |
| SymExprForms.ComesBack | src/analysis/affine/sym_expr.rs:424-449 | A constant at the end does not ask one at every node: MAX + 1 - 1 comes back to one |
| SymExprBuilders.Sum2 | src/analysis/affine/sym_expr.rs:206-277 | The loops that fold, group and sort compute that sum |
| SymExprBuilders.Product2 | src/analysis/affine/sym_expr.rs:303-339 | The loop that flattens computes that product |
| SymQuotients.DivisibleValue | src/analysis/affine/sym_expr.rs:124-137 | An expression found divisible is a multiple at every valuation |
| SymExprFolds.DivisibleIsExact | src/analysis/affine/sym_expr.rs:124-137 | A sum of multiples of different symbols and a constant is seen to be divisible if and only if all its values are multiples |
| SymQuotients.CeilQuotientValue | src/analysis/affine/sym_expr.rs:341-352 | Evaluates as the quotient rounded up, folded or not |
| SymQuotients.FloorQuotientValue | src/analysis/affine/sym_expr.rs:354-387 | Evaluates as the quotient rounded down |
| SymQuotients.RemainderValue | src/analysis/affine/sym_expr.rs:408-420 | Evaluates as the Euclidean remainder |
| SymQuotients.LeastIsBelow | src/analysis/affine/sym_expr.rs:139-153 | Below every value with no negative symbol |
| SymExprFolds.LeastIsMet | src/analysis/affine/sym_expr.rs:139-153 | Without remainders the least value is met, by symbols that are all zero |
| SymExprFolds.LeastIsKnown | src/analysis/affine/sym_expr.rs:139-153 | And it is known wherever no constant is negative and none on the way passes i64 |
| WorkedCases.PaddedLeast | src/analysis/affine/sym_expr.rs:139-153 | So the least value of a symbol and a constant that is not negative is the constant |
| SymQuotients.LargerValue | src/analysis/affine/sym_expr.rs:397-406 | Evaluates as the maximum with no negative symbol, though one operand may be dropped |
| SymQuotients.BindValue | src/analysis/affine/sym_expr.rs:424-449 | Binding commutes with evaluation |
| Spans.SpanHolds | src/analysis/affine/sym_expr.rs:155-201 | Every value under the bounds lies in the span |
| SpanEnds.SpanMet | src/analysis/affine/sym_expr.rs:155-201 | Both ends of the span are values under the bounds where no symbol comes twice |
| WorkedCases.PaddedSpan | src/analysis/affine/sym_expr.rs:155-201 | So the span of a symbol and a constant is just the symbol's bounds and the constant |
| SpanEnds.SpanIsKnown | src/analysis/affine/sym_expr.rs:155-201 | There is a span wherever every symbol has bounds and no size on the way passes i128 |
| SpanEnds.SpanNeedsBounds | src/analysis/affine/sym_expr.rs:155-201 | None where a symbol has no bounds, and unbounded only there |
| CountAccumulators.CountAccumulator.constructor | src/analysis/execution_counts.rs:38-48 | Nothing counted |
| CountAccumulators.CountAccumulator.Add | src/analysis/execution_counts.rs:49-68 | Accepts the contribution, or marks the sum as at least itself where it is unknown or does not fit |
| CountAccumulators.CountAccumulator.AddUnknown | src/analysis/execution_counts.rs:70-73 | Marks the sum as at least itself |
| CountAccumulators.CountAccumulator.Expr | src/analysis/execution_counts.rs:75-81 | Evaluates to the sum of the contributions accepted, at every valuation |
| CtaSums.WeightIsProduct | src/analysis/execution_counts.rs:415-442 | A weight is the product of the counts' values at the CTA, none negative, every `!=` distance a positive multiple of its step |
| LaunchLimits.WeightWhere | src/analysis/execution_counts.rs:415-442 | A CTA has a weight if and only if every count and distance comes to a constant, no count is negative, every distance is a positive multiple of its step, and no product of the first counts passes 64 bits |
| LaunchLimits.AxesReadWhere | src/analysis/execution_counts.rs:418-422 | The axes read are those whose symbol one of the counts reads |
| CtaSums.CtaSum | src/analysis/execution_counts.rs:444-461 | The product of the counts summed over every CTA of the grid, though unread axes only multiply; none only past the budget, at a CTA without a weight, or past 64 bits |
| Swizzles.EvalMaySet | src/analysis/affine/affine_expr.rs:75-78 | Every value of a swizzle sets only bits it may set |
| MaskEnds.SwizzleMaySetIsMet | src/analysis/affine/affine_expr.rs:75-78 | And every such bit is set at some thread of a block |
| Swizzles.Times | src/analysis/affine/affine_expr.rs:80-104 | Defined exactly where no product of two bits meets and all stay below 2^62 |
| Swizzles.MultipleIsTimes | src/analysis/affine/affine_expr.rs:80-109 | The multiple evaluates to c times the swizzle at every thread |
| SwizzleForms.VarSwizzleValue | src/analysis/affine/affine_expr.rs:577-606 | The variable is the xor read from it, at every thread and for every swizzle, plus what reading a word as signed below it slipped by |
| MaskEnds.VarSwizzleWhere | src/analysis/affine/affine_expr.rs:577-606 | A variable is read as an xor if and only if it is the thread index or a swizzle under floors and remainders by powers of two |
| SwizzleForms.DividedReadRight | src/analysis/affine/affine_expr.rs:586-593 | Of a variable read right, a floor is read right if and only if it divides by one or the variable is not negative, a remainder always |
| SwizzleForms.SwizzleReadRight | src/analysis/affine/affine_expr.rs:586-593 | So a swizzle's remainder is read right at every thread, its floor by 2 or more if and only if bit 63 is clear in its value there |
| SwizzleForms.SignBitMisread | src/analysis/affine/affine_expr.rs:586-593 | Such a swizzle: of value -2^63 everywhere, its floor by 2 read wrong |
| SwizzleForms.XorFormValue | src/analysis/affine/affine_expr.rs:53-73 | The form of two swizzles' xor is at every thread the xor of their values |
| SwizzleForms.FormSwizzle | src/analysis/affine/affine_expr.rs:609-634 | Reads a form as one xor exactly where its terms carry nothing and share no bit below 2^62; at every thread the form is the xor plus the slips of its terms |
| MaskEnds.FormSwizzleWhere | src/analysis/affine/affine_expr.rs:609-634 | It does if and only if the base is no negative constant, each term is an xor times a constant that carries nothing, no two set one bit, and none a bit from 62 on |
| SwizzleForms.UprightSlipsNone | src/analysis/affine/affine_expr.rs:609-634 | Which are none where no floor is of a swizzle that sets bit 63 |
| MaySets.GreatestHolds | src/analysis/affine/affine_expr.rs:706-717 | The bound is one at every thread, and the variable is not negative if and only if no swizzle it takes its sign from sets bit 63 |
| MaskEnds.GreatestIsTop | src/analysis/affine/affine_expr.rs:706-717 | Of indices and counters from 0 under floors, and remainders whose operands pass them all, it is known and taken |
| MaskEnds.GreatestOfSwizzleMet | src/analysis/affine/affine_expr.rs:706-717 | And a swizzle's is a value of it within the bounds |
| MaySets.SumApart | src/analysis/affine/affine_expr.rs:695-699 | Masks as large together as their union: nothing carries, and no bit outside the union is set |
| MaySets.BitsOf | src/analysis/affine/affine_expr.rs:670-704 | Computes the mask of a sum, which covers its value within bounds wherever no swizzle in it sets bit 63, carries included |
| MaskEnds.SharedBitsAre | src/analysis/affine/affine_expr.rs:670-704 | Where bits are shared it holds just the bits from the lowest one set to the largest a number up to the greatest sum may set |
| MaySets.LowBits | src/analysis/affine/affine_expr.rs:636-667 | The bits below k are those of what is left once multiples of 2^k are dropped |
| MaySets.MaySet | src/analysis/affine/affine_expr.rs:636-667 | Every bit set in any value of the form, negative or not, is in the mask, wherever no swizzle in it sets bit 63 |
| MaskEnds.MaySetIsMet | src/analysis/affine/affine_expr.rs:636-667 | Where the terms are powers of two times variables of their own and their bits lie apart, every bit of the mask is set by some value within the bounds |
| MaskEnds.LowBitsAreMet | src/analysis/affine/affine_expr.rs:636-667 | And of any form every bit below k, where what is left once multiples of 2^k are dropped is such a sum below 2^k |
| AffineExprs.PlusValue | src/analysis/affine/affine_expr.rs:473-489 | A sum of forms has the sum of their values |
| AffineExprs.ScaleValue | src/analysis/affine/affine_expr.rs:270-283 | A form times an expression has the product's value |
| AffineDivision.DivExactValue | src/analysis/affine/affine_expr.rs:294-313 | An exact division times the divisor is the form's value |
| DividedForms.DivExactWhere | src/analysis/affine/affine_expr.rs:294-313 | A form of constants divides exactly if and only if all its values are multiples |
| AffineDivision.SplitValueIs | src/analysis/affine/affine_expr.rs:370-428 | The parts evaluate to the floor and the remainder of the whole form, negative values and constants past the remaining coefficient included |
| DividedForms.SplitWhere | src/analysis/affine/affine_expr.rs:370-428 | A form splits if and only if the base's symbolic part is a multiple and so are all terms but at most one, a positive divisor of d times a variable, which with what the constants leave over stays below that divisor or within one multiple of d |
| AffineDivision.DivConstValue | src/analysis/affine/affine_expr.rs:315-332 | Whenever defined, the floor of the value by d |
| AffineDivision.ModuloConstValue | src/analysis/affine/affine_expr.rs:334-350 | Whenever defined, the value's Euclidean remainder by d |
| AffineDivision.AlignDownValue | src/analysis/affine/affine_expr.rs:352-368 | Whenever defined, d times the floor of the value by d |
| DividedForms.DividesWhere | src/analysis/affine/affine_expr.rs:315-368 | Quotient, remainder and aligned form are defined if and only if there is no term, the division is exact, or the form splits |
| DividedForms.StaysInIsExact | src/analysis/affine/affine_expr.rs:417-426 | That a term and a constant stay within one multiple is said if and only if they do at every value within the bounds |
| AffineDivision.VarRangeHolds | src/analysis/affine/affine_expr.rs:771-798 | A variable lies in its range and in its own |
| RangeEnds.VarRangeIsTaken | src/analysis/affine/affine_expr.rs:784-798 | A range holds exactly the values taken within the bounds, for floors always and for a remainder whose operand stays below it or passes a whole multiple |
| RangeEnds.SwizzleRangeMet | src/analysis/affine/affine_expr.rs:784-798 | The ends of a swizzle's range are values of it |
| RangeEnds.OwnRangeIsTaken | src/analysis/affine/affine_expr.rs:771-782 | And the range a remainder has of its own holds exactly what it takes with nothing known of its root |
| AffineRanges.FormRangeHolds | src/analysis/affine/affine_expr.rs:533-574 | Every value within bounds lies in the range, joint quotients and remainders included, or the range is the whole line |
| RangeEnds.GroupRangeMet | src/analysis/affine/affine_expr.rs:719-769 | Both ends of the range of terms in x, its floors and its remainders by one d are values of theirs, where x runs over whole multiples of d or within one and nothing leaves i128 |
| RangeEnds.FormRangeMet | src/analysis/affine/affine_expr.rs:533-574 | Both ends of a form's range are values of it within the bounds, where its groups are such and of roots of their own, unless a partial sum left i128 |
| RangeEnds.SmallFormRangeMet | src/analysis/affine/affine_expr.rs:533-574 | With coefficients of at most 2^60 in all nothing leaves i128, and both ends are values |
| WorkedCases.ByPartsRange | src/analysis/affine/affine_expr.rs:719-765 | So over a block of whole multiples of d the range of x - d * floor(x / d) is 0 to d - 1 |
| SymbolicRanges.SymbolicFormRangeMet | src/analysis/affine/affine_expr.rs:533-574 | With symbolic coefficients and base too, where no symbol and no root is shared |
| Lanes.LinearOfThread | src/analysis/affine/lane_eval.rs:37-48 | Every index below the count is its thread's, inside the block |
| Lanes.ThreadOfLinear | src/analysis/affine/lane_eval.rs:37-48 | Every thread inside the block has its own index below the count |
| Lanes.ThreadAfter | src/analysis/affine/lane_eval.rs:37-48 | The first thread is the origin, and the next is one further in x, or from the end of a row the first of the next row, or of the next layer |
| Participation.DecideIsExact | src/analysis/thread_participation.rs:445-463 | Yes exactly where every value between the ends holds, no exactly where none does |
| Readings.ConstPartIs | src/analysis/affine/sym_expr.rs:95-102 | Of a sum of constants the constant part is the value |
| WorkedCases.ConstantsBase | src/analysis/affine/sym_expr.rs:95-102 | So a base left as two constants that do not fit one counts as what they sum to |
| Readings.FormIsRead | src/analysis/thread_participation.rs:436-443 | A form of constant coefficients is read if and only if no term and no partial sum leaves i128, and what is read is its value at every valuation |
| Readings.ReadExact | src/analysis/thread_participation.rs:436-480 | A comparison reads yes if and only if its form's value meets it over all that is left open, no if and only if it meets it nowhere, and neither only else or where a sum leaves its width |
| Tallies.ElectedLane | src/analysis/thread_participation.rs:407-434 | The lane elected: certain where the first candidate is certainly active, open where others may be before it |
| Tallies.TallySet | src/analysis/thread_participation.rs:884-935 | The warps' fewest and most lanes summed, by warp and by leader tried |
| TallyBounds.ConjoinedEval | src/analysis/thread_participation.rs:175-183 | A simplified conjunction evaluates as the conjunction |
| TallyBounds.DisjoinedEval | src/analysis/thread_participation.rs:185-193 | A simplified disjunction evaluates as the disjunction |
| TallyBounds.NegatedEval | src/analysis/thread_participation.rs:134-161 | A negation pushed inward evaluates as the negation |
| TallyBounds.EvalIsSound | src/analysis/thread_participation.rs:199-254 | Yes and no hold in every world the predicate leaves open |
| TallyLimits.EvalIsExact | src/analysis/thread_participation.rs:199-254 | And are said wherever they do: a predicate stays open if and only if both truths are |
| TallyBounds.WarpBounds | src/analysis/thread_participation.rs:884-935 | A warp's lanes in the set lie between its fewest and most in every world |
| TallyBounds.TallyBoundsWorlds | src/analysis/thread_participation.rs:884-935 | In every world, CTA, trip and elected lane the threads and the warps in the set lie between certain and possible |
| TallyLimits.TallyIsMet | src/analysis/thread_participation.rs:884-935 | The bounds are the best: in some world the set has the fewest threads and warps, in another the most |
| TallyLimits.TallyIsCount | src/analysis/thread_participation.rs:884-935 | Where every comparison is read and nothing is open the tally is the number of threads whose comparisons' values over the integers satisfy the predicate, and of warps with one |
| WorkedCases.BelowTally | src/analysis/thread_participation.rs:884-935 | So tid.x < n holds n threads and the warps they begin, for certain |
| TallyLimits.NoTallyWhere | src/analysis/thread_participation.rs:884-935 | There is no tally if and only if there is no thread or the predicate is built of the true and the unread alone |
| TallyBounds.TallyBoundsActual | src/analysis/thread_participation.rs:884-935 | In every world of what the comparisons' forms come to over the integers the set lies between certain and possible |
| TallyBounds.TallyBoundsAlike | src/analysis/thread_participation.rs:837-882 | A tally taken at one place bounds the set at any other place whose comparisons may come out no other way, by exact integers and whatever overflows |
| TripSums.OpenTallyBoundsTrip | src/analysis/thread_participation.rs:884-935 | A tally with no trip fixed bounds the set of every trip in the recorded ranges |
| LaunchSums.OpenTallyBoundsCta | src/analysis/thread_participation.rs:884-935 | And one with no CTA fixed that of every CTA in the recorded ranges |
| TallyBounds.ElectedIsLowest | src/analysis/thread_participation.rs:401-434 | Where it says yes or no, the lowest active lane is or is not the one, in every world |
| Elections.TallyBoundsChosen | src/analysis/thread_participation.rs:884-935 | Where each election has active threads and leaders of its own, the tally bounds the set of every outcome if the predicate has one election and what that chooses among has none |
| Elections.OneElectionWhere | src/analysis/thread_participation.rs:291-298 | One election is that no two of its elections, nested ones too, choose among different sets |
| Elections.TwoElectionsWhere | src/analysis/thread_participation.rs:911-929 | Of two elections one leader stands for both: of what only the first picks the tally holds nothing, and it bounds the set if and only if every leader of the first is the second's |
| Elections.TwoElectionsExceed | src/analysis/thread_participation.rs:911-929 | Such elections come about: what all of a warp elect and no lane of an empty set is, is held and not counted |
| Elections.ElectedTwiceExceeds | src/analysis/thread_participation.rs:407-434 | Nor is the other condition idle: among elected threads the lowest lane is taken for the leader, and counted as certain where lane 1 was elected |
| TallyLimits.ElectedIsExact | src/analysis/thread_participation.rs:401-434 | And it is left open if and only if both are |
| TripSums.RunAlike | src/analysis/thread_participation.rs:837-882 | Between two cuts a comparison may come out at one trip no way it may not at another, for either sign of step, overflow included |
| TripSums.RunBounds | src/analysis/thread_participation.rs:837-882 | So the first trip's tally times the trips of a run bounds what those hold |
| TripSums.OverTrips | src/analysis/thread_participation.rs:837-882 | What is returned bounds the threads and warps the trips 1 to n hold, in every world of what the comparisons' forms come to and with overflow; where readings fit it is the tallies added one by one, and nothing is returned only past a limit, such as more crossings of a comparison than the budget |
| GridSums.UnreadAxesMultiply | src/analysis/thread_participation.rs:723-737 | A sum over a grid that reads no index of an axis is the sum over one index of it times its extent |
| LaunchSums.KeyPartAlike | src/analysis/thread_participation.rs:770-826 | CTAs of one key part let a comparison come out the same ways, overflow included |
| LaunchSums.KeysAlike | src/analysis/thread_participation.rs:770-826 | CTAs of one key let every comparison come out the same ways |
| LaunchLimits.UsedWhere | src/analysis/thread_participation.rs:769-800 | The axes gone through are those the weight reads and those a comparison over CTAs does |
| LaunchSums.WeightedLaunch | src/analysis/thread_participation.rs:694-737 | What is returned is exactly the threads and warps the grid's CTAs hold, each its weight times, in every world of what the comparisons' forms come to and with overflow, though one CTA per key is tallied; where readings fit nothing is returned only past a limit, such as more CTAs than the budget no two of which are read alike |
| Sectors.SameResidueSameCount | src/analysis/memory_footprint.rs:379-387 | Moving every address by whole sectors touches as many |
| Sectors.PackedAtMostTouched | src/analysis/memory_footprint.rs:64-70 | The fewest sectors the distinct bytes could occupy never exceed those touched |
| Footprints.PackedIsLeast | src/analysis/memory_footprint.rs:111-113 | Packing takes the fewest sectors that hold the bytes, and nothing else is the fewest |
| Sectors.DistinctBytes | src/analysis/memory_footprint.rs:107-114 | One pass over the sorted offsets counts the distinct bytes |
| Footprints.UniformResidues | src/analysis/memory_footprint.rs:136-175 | The uniform part modulo a sector is c plus a multiple of g, the greatest number that divides a sector, the uniform coefficients and the factors of the symbols |
| FootprintEnds.ResiduesAreMet | src/analysis/memory_footprint.rs:136-175 | And every such residue is one of the uniform part, where its coefficients are constants of different variables and symbols |
| Footprints.UniformIsTried | src/analysis/memory_footprint.rs:177-184 | The residue of every uniform part the alignments allow is one of the shifts tried |
| FootprintEnds.NarrowedIs | src/analysis/memory_footprint.rs:177-184 | Of the aligned shifts just those the uniform part leaves are tried, and all of them if and only if it leaves none |
| Footprints.WarpLanes | src/analysis/memory_footprint.rs:322-377 | Each warp's executing lanes with the offset no uniform part changes, and their common residue |
| OffsetLimits.OffsetsFitHold | src/analysis/memory_footprint.rs:26-42 | Where the code goes on every lane's offset is within 2^62 of 0 |
| OffsetLimits.SmallOffsetsFit | src/analysis/memory_footprint.rs:26-42 | And it goes on wherever the sizes of the lane terms sum to no more |
| Footprints.WarpFootprint | src/analysis/memory_footprint.rs:71-134 | For every uniform part the alignments and coefficients allow, each executing warp's sectors, and the fewest sectors that hold its bytes, lie in the ranges, whose ends are counts of a warp at a shift tried |
| FootprintEnds.FootprintIsMet | src/analysis/memory_footprint.rs:71-134 | Both ends of the sectors are touched by an access aligned as promised at some value of the uniform part |
| SectorPatterns.TotalIsEachTrip | src/analysis/memory_footprint.rs:421-428 | The pattern's total is the sum over the trips for every base of that residue |
| SectorPatterns.AlignedIsEveryTrip | src/analysis/memory_footprint.rs:413-419 | A base keeps every trip's access aligned exactly where the pattern says so |

## Left out

- Elimination.EliminationPreservesRuns: asks that every statement but labels is in a block, because the code looks the block up and stops where there is none
- Elimination.SameEffectsWhere: the condition is on a run, because none on the flags alone decides it: a flagged definition may reach the guard of a statement that never runs and never change an effect (`PinnedGuardNeverShows`)
- Elimination.NeverRunMustGoToo: one kernel; when skipping shows is `SameEffectsWhere`
- ExitLimits.OrderedTripsExact: a step of i64::MIN is excluded where the code negates it, as it stops there
- SymExprForms.BindStaysConst: says when each node is a constant; when a constant comes back only at the end is not characterised
- SymExprForms.NestsWherePast: one family of expressions; that what the constructors build nests no sum while constants fit is `AddPlain`, `MulFlatPlain` and `MulPlain`
- SwizzleForms.FormSwizzle: the slips of its terms are zero for every form the program builds, and are not removed here
- Readings.FormIsRead: forms of constant coefficients over a base of constants, as comparisons are built; the constants of a base are added without the width of i64, which one constant never leaves
- RangeEnds.GroupRangeMet: x over whole multiples of d or within one; over other ranges the code takes the remainder's whole range, and the ends may lie outside
- RangeEnds.FormRangeMet: groups of different roots; of variables that share one the ranges are added as if apart
- SpanEnds.SpanMet: a symbol that comes twice, and a remainder over several multiples, may keep the ends from being met
- MaskEnds.MaySetIsMet: powers of two and bits apart; elsewhere a mask may hold bits no value sets
- DividedForms.DivExactWhere: constants times different indices and counters; of symbolic coefficients divisibility is what `SymExprFolds.DivisibleIsExact` says
- SymExprFolds.LeastIsMet: a remainder's least value is taken as 0, and of a maximum one side may be unknown
- FootprintEnds.FootprintIsMet: a uniform part of constants times different variables and symbols; where a factor is an expression of its own its residues are taken as all
- CounterWalks.LeadsBackFound: where an add leads back from both sides the first that fits is taken
- TripSums.OverTrips: that nothing is returned only past a limit, and that the sums are the tallies one by one, is stated where readings stay in their width; the bounds ask nothing of the kind
- LaunchSums.WeightedLaunch: the same for readings over the grid
- Footprints.WarpFootprint: access alignments divide 32, as every access size does
- JoinBlocks.JoinBlocks: for blocks the entry does not reach only the order of the list is stated
- ControlDependence.ReachIsVisits: one acyclic trip without loops standing as headers, jump tables or predicated exits; a branch that is not two-way reads as unknown
- ControlDependence.BlockIsVisited: kernels whose top level is one trip; in a loop the reading is `ReachIsVisits` relative to the loop's header
- CounterRuns.CounterHolds: adds and subs are exact integers, because the code checks separately that the values fed back stay in their type; an immediate subtracted is not i64::MIN; a nested loop in a step makes one number of trips in every stay, as the code asks when it reads the step, and `TripCounts.LapsOnRun` gives it from that loop's latch
- InductionVariables.Counters: the order of the loops and the registers each writes are given; the header has a statement, as a branch target has its label
- TripCounts.OrderedRunTrips: one latch, left nowhere else, as the code asks before it counts; a step of i64::MIN is excluded where the code negates it
- TallyBounds.TallyBoundsWorlds: predicates with one election, its active set free of elections, because the code tries one leader for all; `Elections` shows that the bounds fail with two, or with one among elected threads
- Elections.TallyBoundsChosen: the condition is enough; with more elections it is exact only for the pair of `TwoElectionsWhere`
- CtaSums.CtaSum: distances are given with the launch's bindings already put in, and their condition is checked where the code checks it, at index 0 of the axes no count reads
- Memo.CacheIsTransparent: the queries are abstract, any that ask the same next question after the same answers
- Participation.Eval: which kind of uniformity an unknown atom has is not modelled, as evaluation does not read it
- `leaving`, `level`, `in_loops` and the deciders recorded by `PredicateReader`: nested loops, and bookkeeping for messages
- `counter`'s check that fed values fit, `transfer` and `loop_trip_count`: they need the opcode semantics
- `cta_classes` and `lane_masks`: the same tallies grouped for printing
- `loop_bytes`, `union_len`, shared-memory wavefronts and `served`: cache-line bookkeeping over the same counts, and hardware measurements
- `as_symbols` and `map_vars`: rewriting without arithmetic
- `build_cfg`: the parser's graph; only that edges are kept at both ends and blocks are laid out in order is used
- The lexer, parser, classifier, opcode tables, uniformity analysis, interner, rendering, reports and the command line
