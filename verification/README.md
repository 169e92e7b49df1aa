# Verified model of CDSChecker's bookkeeping

CDSChecker decides whether an execution of a C11/C++11 program is allowed by the
memory model. While it runs a program it keeps a graph of ordering constraints
between writes, clock vectors for happens-before, shadow memory for data races, a log
of copied pages for going back, and an allocator of its own. This project models these
structures in Dafny and proves what they are for. Fields that the program updates in
place are fields of Dafny classes, its loops are loops, and every method is proved
against functions and predicates whose consequences are then proved as lemmas.

**Modification order** (`Digraph`, `OrderConstraints`, `GraphHistory`, `NodeMerge`,
`MergedOrder`, `ChainEnds`, `MergeRings`, `BackEdges`, `MergeExamples`, `CycleGraph`). A
graph built by any sequence of `addEdge` and `addRMWEdge` decides its constraints: its cycle
flag is set exactly when no total order of the writes puts every requested pair in order and
every read-modify-write directly after the write it reads from (section 29.3 paragraph 12 of
ISO C++11). The proof contracts chains of read-modify-writes to points. `rollbackChanges`
restores the committed graph exactly. A successful `mergeNodes` leaves an acyclic graph
between the quotient and what its chains imply; when it fulfils a promise with a write that
reads from that promise, it is proved exactly when its loops end.

**Happens-before and coherence** (`Clocks`, `Actions`, `HappensBefore`, `Coherence`,
`FenceRules`, `LawfulSteps`, `StandardOrders`, `FenceExamples`, `TraceInvariant`,
`MoConstraints`, `ReleaseSequence`, `ReleaseSearch`, `SyncRecords`, `Certificates`,
`ExecutionState`, `Execution`, `Contiguity`, `ReleaseExamples`). In every state of every
run the clock test is reachability by the order of each thread, the creation of threads
and the recorded synchronizations, including those that are discovered late and pushed
forward over the trace. Each of these is named by the caller or is with the head of a
release sequence: a release or release fence on the chain of read-modify-writes, or the
one release off it, for which the search that found it left a certificate. And none is
missed: once no search for release sequences is pending, every release and release fence
along any path of read-modify-writes behind what is read happens before whatever
acquires it, and so does the release off the chain unless the graph interrupts that one.
Although only one action per thread gets an edge, every happens-before pair on a
location is reflected in the graph unless the work queue still holds its later action,
and so is what the fence rules demand (section 29.3 paragraphs 4 to 7). Every constraint
has a reason in the standard, unless an action was checked again after a sequentially
consistent fence had come. The work loop ends. With an empty queue, and apart from such
actions, the graph has a cycle exactly when the standard allows no modification order:
one that is coherent (section 1.10 paragraphs 15 to 18), atomic and in keeping with the
rules for sequentially consistent stores and fences. A release sequence that is
certified as contiguous is not interrupted in any such order, in this state or in any
that the run comes to later.

**Data races** (`ShadowWord`, `DataRace`, `RaceHistory`, `RaceDetector`). The shadow
word and the expanded record denote the same remembered accesses and report the same
races; up to the first race at an address they flag an access exactly when it is
unordered with some earlier conflicting access of the full history, where ordered means
happens-before as it was at the time of the access.

**Sequential consistency** (`ScOrders`, `ScFixpoint`, `ScChoices`, `ScSearch`, `ScTurns`,
`ScBranches`, `ScRuns`, `ScAnalysis`, `ScCheck`, `ScExamples`, `ScTraces`). Whatever the slow
clock inference derives holds in every sequentially consistent order that goes on as chosen.
The fixpoint ends, at the least clocks that have nothing left to take in, and a cycle is found
exactly when there are none. The search over choices, rollbacks included, ends. Under a
condition on the trace and the clocks before any choice it decides whether the trace is
sequentially consistent: its list is such an order, or no such order exists. The final check
of a list is exact.

**Scheduling** (`YieldPriorities`, `Scheduler`). The priorities by yields have no cycle
in any run, so that an enabled thread can always be picked.

**Going back** (`SnapshotLog`). For every interleaving of writes, snapshots and roll
backs, rolling back restores every covered page, on both paths.

**Tables and deadlocks** (`HashTables`, `WaitingThreads`, `Arithmetic`). Open addressing
agrees with a finite map and every probe loop ends; a deadlock is reported exactly when
threads wait on each other in a ring, by joins and locks.

**Allocation** (`SizeTrie`, `TreeIndex`, `BestFit`, `FreeBins`, `ChunkLayout`,
`Mspace`). Every run of `mspace_malloc` and `mspace_free` on one segment keeps chunks
tiling it, boundary tags right, no two free neighbours, each free chunk in exactly one
of bin, designated victim and top, and marks exact. Which chunk a request is served from is
stated against the free chunks before the call, and so is where a freed chunk goes.

## Findings

- `mergeNodes` moves the promise's read-modify-write to the write without ordering it
  before the write's other successors. `MergedOrder.MergeGap` is a graph on which the
  merge succeeds although no order can keep the read-modify-write next to the write;
  `MergedOrder.MergedOrderable` gives the exact condition under which one can.
- When a write fulfils a promise that it reads from through read-modify-writes, `mergeNodes`
  closes the chain to a circle, on which the walk of cyclegraph.cc:214-215 can go round for
  ever. On a graph that additions built the merge still ends
  (`MergeRings.NothingStrays`, `CycleGraphs.CycleGraph.MergeNodes`). After an earlier merge
  it need not: `MergeExamples.SecondMergeEndless` is such a graph. With no cycle known and
  every pointer of the promise's chain an edge, the tables before the call decide
  (`RoundExact` in `CycleGraphs`): the loop over back edges closes a cycle exactly when a
  predecessor of the promise has a chain that ends after the write; otherwise the loop over
  forward edges goes round exactly when it comes to a straying successor first, one that is
  neither on the chain nor a successor of the write, and the merge succeeds exactly when every
  successor of the promise is the write or a successor of it.
- The same merge succeeds when the promise's only edge is to its read-modify-write and that
  is the write itself. The write is its own read-modify-write then, and ordering it before
  anything else goes round for ever (`MergeExamples.SelfReader`).
- `resolvePromise` clears the promise of its node before it erases the entry under
  `promise_node->getPromise()` (cyclegraph.cc:133-135), so the entry it asks to erase is that
  of NULL. With assertions on, as they are (config.h:55), `HashTable::put` stops the program
  there (hashtable.h:103-105); without them the promise would keep its entry.
  `CycleGraphs.CycleGraph.ConvertPromise` models what is intended: the promise's entry is gone.
- `is_release` tests the order only (action.cc:222-232), so an acquire can synchronize with a
  sequentially consistent load of the thread that stored what is read.
  `ReleaseExamples.LoadHeads` is such a case; `ReleaseExamples.HeadKinds` says that heads are
  otherwise stores and fences. What contiguity means is stated for heads that are stores.
- When an action is checked again, both scans look up the last sequentially consistent fences
  of the threads as they are by then (execution.cc:1587, execution.cc:1597,
  execution.cc:1719), although the rules of 29.3 are about fences before the action. So they
  ask for constraints that the standard does not: a load that is checked again after its
  thread has stored to the location and passed two such fences always closes a cycle
  (`FenceExamples.OvertakenCycle`). `FenceExamples.After` is an execution that the standard
  allows and that is rejected this way. As long as no action is checked again after such a
  fence (`FenceRules.Overtaken`), the execution is rejected exactly when the standard allows
  no modification order for it (`Execution.ModelExecution.RejectedExactly`).
- The second half of a read-modify-write takes over its order (action.cc:305-313), but what its
  reading half asked for is not computed again. When it is sequentially consistent and the first
  half was not, paragraph 5 of 29.3 is not applied to what it reads. The field `changed` of
  `Execution.ModelExecution` holds the read-modify-writes of which the halves differ.
- A search for release sequences that was not certain is tried again only after a
  synchronization or a new edge between stores
  (`Execution.ModelExecution.ProcessWork` says exactly when). It may become certain otherwise,
  as when another thread comes after the end of the sequence:
  `ReleaseExamples.SettledQuietly`. So with an empty queue a pending search need not be
  uncertain still.
- `computeCVSlow` does not reset its array of last actions when it starts to add edges
  that are not from happens-before; `ScAnalyses.ScAnalysis.PreviousJustified` shows why
  this does no harm.
- `updateConstraints` asks for one edge per thread, but once a first one is taken in, the
  slow analysis refuses the others, and they are not asked for again.
  `ScExamples.SecondWriteMissed` is a trace of three stores on which one is lost;
  `ScChoices.WhoIsConstrained` says exactly which writes are constrained. What the clocks
  say stays true, but they say less.
- A list that `generateSC` completes without a cycle need not pass `check_rf`, although the
  trace is sequentially consistent. `ScTraces.ReadBackRun` and `ScTraces.TripleRun` are runs
  of the search that end in such a list, for one reason each: the rules for reads pass over
  the stores of the reader's own thread, and `updateConstraints` puts only one of several
  stores of other threads after what is read. Neither happens when the clocks before the first
  choice cover the trace (`ScRuns.Covered`): what is read knows of the earlier stores of the
  reader's own thread, and the stores that are not ordered with it are of one thread. Then a
  list without a cycle is a sequentially consistent order
  (`ScAnalyses.ScAnalysis.Generate`). `analyze` runs the slow version only after the fast one
  has found a cycle (scanalysis.cc:130-143), so neither trace comes to it by itself; the fast
  rules pass over the reader's own thread as well (scanalysis.cc:623), but take in every edge.
- `check_rf` asserts that reads are misread exactly when there is a cycle (scanalysis.cc:173-176).
  When the search runs out of choices its list is incomplete and misreads nothing, so that the
  assertion fails although the answer is right. Among the covered traces without a cycle before
  the first choice it holds exactly for the sequentially consistent ones
  (`ScAnalyses.ScAnalysis.Analyze`). `ScExamples.CrossedRun` is a trace on which it fails. It
  fails there whatever the fast version says: without a cycle the list of the fast version
  would be complete, and every complete list misreads something (`ScExamples.CrossedMisread`).
- `pruneArray` takes a write without a conflict and records no choice.
  `ScChoices.WriteWithoutChoice` says exactly when no order is lost: when no read to its location
  waits for another write. In covered traces that is always so.
- One race may be reported twice when the shadow word cannot hold a read
  (datarace.cc:342-353); reports are therefore compared as sets.

## Model

| member | source | states |
|---|---|---|
| OrderConstraints.Decides | cyclegraph.cc:198-275 | a graph that additions built is acyclic, with no write given two read-modify-writes, exactly when some total order of its nodes meets every requested constraint: each ordered pair in order, each read-modify-write directly after the write it reads from |
| OrderConstraints.OrderExists | cyclegraph.h:3-6 | the order itself, by contracting each chain of read-modify-writes to a point: it extends every edge and keeps every read-modify-write next to its write |
| OrderConstraints.ContestedUnsolvable | cyclegraph.cc:254-257 | no order puts two different read-modify-writes directly after one write |
| OrderConstraints.TracksAddNodeEdge | cyclegraph.cc:198-227 | addNodeEdge keeps the graph invariant: every constraint appears as an edge, every order that meets the constraints respects every edge, and what follows a write follows its read-modify-write |
| OrderConstraints.NewEdgesSound | cyclegraph.cc:209-221 | the edge that addNodeEdge adds from the end of the chain holds in every order that has the two nodes in order and the chains contiguous |
| OrderConstraints.NewEdgesReach | cyclegraph.cc:209-221 | after addNodeEdge, a new successor of a write is reachable from the read-modify-write that reads from it |
| OrderConstraints.TracksAddRmwEdge | cyclegraph.cc:242-275 | addRMWEdge keeps the graph invariant, with the constraint that the read-modify-write directly follows its write, in both cases of the code's comment: nothing ordered before the read-modify-write yet, or nothing after the write |
| OrderConstraints.RmwNewEdgesSound | cyclegraph.cc:260-274 | the successors that addRMWEdge hands to the read-modify-write come after it in every order that has it directly after its write |
| OrderConstraints.ContestedRmw | cyclegraph.cc:251-257 | after one more read-modify-write two read one write exactly when they already did or the write already had one |
| OrderConstraints.FlagStep | cyclegraph.cc:198-227 | testing whether the new edge's target reaches its source keeps the cycle flag exact |
| OrderConstraints.ChainStopProperties | cyclegraph.cc:214-215 | the walk over read-modify-write pointers ends, at the asked node or at the end of the chain, and follows pointers only |
| ChainEnds.WalkEndsWhen | cyclegraph.cc:214-215 | on any table the walk over the pointers ends exactly when it comes to the asked node or the chain has an end |
| ChainEnds.WalkBounded | cyclegraph.cc:214-215 | a walk that ends at all ends within as many steps as there are nodes |
| ChainEnds.EndsCoveredAdd | cyclegraph.cc:198-227 | addNodeEdge keeps that an edge out of a chain goes out of its end too |
| ChainEnds.EndsCoveredRmw | cyclegraph.cc:242-275 | so does addRMWEdge |
| ChainEnds.BoundsBeforeAre | cyclegraph.cc:151-190 | the bounds of a merge can be computed from the tables before it |
| GraphHistory.ExtendsPop | cyclegraph.cc:490-501 | popping the edge named by the next rollback entry is possible and leads one step back towards the committed graph |
| GraphHistory.ExtendsClear | cyclegraph.cc:494-497 | clearing the pointer named by the next entry of the second rollback vector does too |
| GraphHistory.ExtendsNothing | cyclegraph.cc:490-501 | with no entries left, edges, back edges and pointers are exactly the committed ones |
| GraphHistory.PopEdgeMirrored | cyclegraph.cc:583-592 | removing the last edge keeps edge and back-edge lists mirrored |
| GraphHistory.RemoveMembers | cyclegraph.cc:567-577 | removing a value from a duplicate-free list removes that value and nothing else |
| NodeMerge.PathsSurvive | cyclegraph.cc:151-190 | every path of the graph before a merge is a path after it, with the promise renamed to the write |
| NodeMerge.MergingStep | cyclegraph.cc:166-184 | each transferred edge keeps the merged graph between the quotient of the original one and what its chains derive from it |
| NodeMerge.MergingDone | cyclegraph.cc:166-187 | when the promise has no edges left, every edge of the quotient is there |
| NodeMerge.MergingAcyclic | cyclegraph.cc:151-190 | when the closed quotient has no cycle, no intermediate graph of the merge has one |
| NodeMerge.ClosureSound | cyclegraph.cc:151-190 | an order of the quotient that keeps chains contiguous respects the derived edges too |
| NodeMerge.PopEdgeSets | cyclegraph.cc:583-592 | removeEdge takes exactly one pair out of the edge relation |
| NodeMerge.PopBackEdgeKeeps | cyclegraph.cc:598-607 | removeBackEdge takes exactly one pair out of the edge relation and keeps the lists mirrored |
| NodeMerge.MovePointer | cyclegraph.cc:161-164 | moving the promise's read-modify-write to the write changes that pointer only, and the chains still end |
| MergedOrder.MergedOrderable | cyclegraph.cc:151-190 | after additions and one successful merge, the graph has an order that respects its edges and keeps read-modify-writes next to their writes exactly when the closure under the successors of the write, computed from the tables before the merge, has no cycle: mergeNodes does not add those edges |
| MergedOrder.MergeGap | cyclegraph.cc:161-184 | a concrete graph on which mergeNodes succeeds although no such order exists afterwards |
| MergedOrder.GapTracks | cyclegraph.cc:161-184 | that graph is one that additions build, and its constraints can be met before the merge |
| MergeRings.OnCircleEnds | cyclegraph.cc:214-215 | when a merge has made the chain a circle, the walk ends for every target on the circle |
| MergeRings.OffCircleNever | cyclegraph.cc:214-215 | and it never ends for a target off the circle |
| MergeRings.RoundForwardExact | cyclegraph.cc:176-184 | one turn of the second loop does not end exactly for a successor off the circle that the write does not have, closes a cycle exactly for one on the circle that it does not have, and changes nothing for one that it has |
| BackEdges.NotAfterWrite | cyclegraph.cc:166-175 | without a cycle, nothing ordered before the promise comes after a write that reads from it |
| BackEdges.SameAfterWrite | cyclegraph.cc:166-175 | moving edges from the promise to the write does not change what comes after the write, while no cycle is found |
| BackEdges.RoundBackExact | cyclegraph.cc:166-175 | one turn of the first loop closes a cycle exactly when the chain behind the promise's predecessor ends after the write |
| MergeRings.NothingStrays | cyclegraph.cc:176-184 | on a graph that additions built no successor of the promise strays, so that a merge into a write that reads from the promise ends |
| MergeRings.CircleCloses | cyclegraph.cc:161-184 | taking over the edge to the promise's read-modify-write closes a cycle |
| MergeExamples.TwoPromisesTracks | cyclegraph.cc:151-190 | a concrete graph with two promises that additions build |
| MergeExamples.FirstMerge | cyclegraph.cc:151-190 | merging the second promise into the read-modify-write of the first takes one turn, after which the second promise has no edges left |
| MergeExamples.SecondMergeEndless | cyclegraph.cc:151-190 | then merging the first promise into the read-modify-write of the second goes round for ever |
| MergeExamples.OnePromiseTracks | cyclegraph.cc:151-190 | a concrete graph with one promise that additions build |
| MergeExamples.SelfReader | cyclegraph.cc:151-190 | merging its promise into its read-modify-write succeeds and leaves that node its own read-modify-write, so that the next addition after it goes round for ever |
| CycleGraphs.CycleGraph.constructor | cyclegraph.cc:8-14 | the empty graph satisfies the invariant |
| CycleGraphs.CycleGraph.GetActionNode | cyclegraph.cc:87-95 | a key keeps its node; a new key gets an isolated one |
| CycleGraphs.CycleGraph.GetPromiseNode | cyclegraph.cc:106-114 | the same for promises |
| CycleGraphs.CycleGraph.CheckReachable | cyclegraph.cc:395-415 | the depth-first search ends on every graph and answers whether there is a path |
| CycleGraphs.CycleGraph.CheckOrdered | cyclegraph.cc:424-433 | for actions: a path between their nodes, when both have one |
| CycleGraphs.CycleGraph.NodeAddEdge | cyclegraph.cc:614-622 | a duplicate edge changes nothing and is reported as not added |
| CycleGraphs.CycleGraph.WalkChain | cyclegraph.cc:214-215 | the loop stops where the chain meets the target or ends; it has no answer exactly when the walk over the pointers never ends |
| CycleGraphs.CycleGraph.AddNodeEdgeTo | cyclegraph.cc:198-227 | the new graph, a flag that is exact about its cycles, and a rollback vector that still leads back to the committed graph |
| CycleGraphs.CycleGraph.AddEdgeBetween | cyclegraph.cc:294-303 | one more ordering constraint is recorded, between the nodes of the keys; no edge is lost, and the answer tells whether the two had no edge before; the class invariant (exact flag, decidable constraints, undoable changes) is kept |
| CycleGraphs.CycleGraph.AddRmwEdgeBetween | cyclegraph.cc:242-275 | one more read-modify-write constraint is recorded and the class invariant is kept, whether the read-modify-write is new or the write has nothing after it, which is what the code's comment assumes |
| CycleGraphs.CycleGraph.CheckForCycles | cyclegraph.cc:504-507 | while no promise was merged, the flag is set exactly when no total order meets the constraints |
| CycleGraphs.CycleGraph.CommitChanges | cyclegraph.cc:482-487 | the current graph, constraints and flag become the ones to go back to |
| CycleGraphs.CycleGraph.RollbackChanges | cyclegraph.cc:490-501 | edges, back edges, pointers, flag and constraints are those of the last commit, new nodes being left isolated |
| CycleGraphs.CycleGraph.RemoveEdge | cyclegraph.cc:583-592 | the last edge and its back edge are removed, or nothing is there to remove |
| CycleGraphs.CycleGraph.RemoveBackEdge | cyclegraph.cc:598-607 | the same for the last back edge |
| CycleGraphs.CycleGraph.MovePromiseRmw | cyclegraph.cc:161-164 | fails exactly when promise and write both have read-modify-writes, and then changes nothing; otherwise the tables are those with that pointer moved, for every write, also one that reads from the promise |
| CycleGraphs.CycleGraph.MoveBackEdges | cyclegraph.cc:166-175 | the first transfer loop: all edges into the promise now lead to the write, or a cycle was found; a cycle found is one of the quotient, and when the write reads from the promise one is found exactly when the tables before the merge have a predecessor of the promise whose chain ends after the write |
| CycleGraphs.CycleGraph.MoveForwardEdges | cyclegraph.cc:176-184 | the second: all edges from the promise now start at the write, or a cycle of the quotient was found, or the loop goes round for ever, which it does exactly when it meets a straying successor first; it is done exactly when the write had all successors |
| CycleGraphs.CycleGraph.AddNodeEdgeOnce | cyclegraph.cc:198-227 | addNodeEdge on any table, as far as it gets: the table afterwards, an exact cycle flag, whether it ends, and a rollback vector that still leads back |
| CycleGraphs.CycleGraph.TakeEdge | cyclegraph.cc:176-184 | one turn of the second loop: it ends exactly when its edge is the write's own or the addition ends, and finds a cycle exactly when it closes one |
| CycleGraphs.CycleGraph.TransferAll | cyclegraph.cc:161-184 | the transfers of a merge for every write, whether or not the chains stay chains |
| CycleGraphs.CycleGraph.MergeNodes | cyclegraph.cc:151-190 | for every promise and write: an incompatible or contested merge changes nothing; when the write does not read from the promise the merge ends, success leaves the promise without edges and the graph acyclic between the quotient and its bounds, and it succeeds whenever the bounds, computed before the call, have no cycle; when it does, the merge ends on every graph that additions built, and otherwise, no cycle being known and the pointers of the promise's chain being edges, the tables before the call decide exactly whether it goes round for ever, succeeds or fails |
| CycleGraphs.CycleGraph.ResolvePromise | cyclegraph.cc:125-138 | a writer with a node is merged, for every writer, and this ends while no promise was merged before; otherwise the promise's node becomes the writer's and no edge changes |
| CycleGraphs.MergedPaths | cyclegraph.cc:151-190 | after a successful merge every path survives with the promise renamed |
| CycleGraphs.MergedSound | cyclegraph.cc:151-190 | an order that respects the renamed edges and keeps the chains contiguous respects every edge of the merged graph |
| Clocks.ClockVector.constructor | clockvector.cc:17-29 | the clock of a new action: its parent's entries with its own number set |
| Clocks.ClockVector.Merge | clockvector.cc:42-61 | the vector becomes the pointwise maximum, as long as the longer of the two, and the answer tells whether an entry rose |
| Clocks.ClockVector.GetClock | clockvector.cc:85-92 | entries beyond the end are zero |
| Clocks.ClockVector.SynchronizedSince | clockvector.cc:75-82 | whether the action's number is within its thread's entry |
| HappensBefore.SyncClocked | execution.cc:2135-2152 | a synchronization edge found at any time, with the clock pushed on to everything after, keeps the clock test equal to reachability in the happens-before graph |
| HappensBefore.NewActionClocked | action.cc:402-408 | so does a new action that starts from its parent's clock |
| HappensBefore.SyncAllClocked | execution.cc:2186-2194 | so does a whole list of synchronizations of one action |
| HappensBefore.RealNew | clockvector.cc:17-29 | the entries of a new action's clock are numbers of actions |
| HappensBefore.RealSyncAll | execution.cc:2135-2152 | so are those of the clocks after late synchronization |
| HappensBefore.HBForward | action.cc:533-536 | happens-before goes forward in the trace |
| HappensBefore.HBSameThread | action.cc:533-536 | within a thread it is the order of the trace |
| HappensBefore.UninitFirst | action.cc:533-536 | the placeholder of an uninitialized value happens before everything and nothing numbered before it |
| ExecutionState.PushedAll | execution.cc:2135-2152 | walking backwards over the trace and joining clocks gives each action the clock that synchronization gives it |
| ExecutionState.NewAction | execution.cc:1064-1127 | a new action keeps clocks, records and coherence while it waits to be processed |
| SyncRecords.ThreadOrderNew | execution.cc:1064-1127 | a new action adds to the order of threads exactly the edge from the last action of its thread, or from the one that created the thread |
| SyncRecords.AccountedSearch | execution.cc:1140-1156 | a search whose acquire has synchronized with heads of release sequences only, and with all on the chain unless it stays pending, keeps every synchronization justified and every search settled or pending |
| SyncRecords.LaterTrans | execution.cc:2167-2207 | what late synchronization adds over several turns leads into acquires whose search was pending at first |
| SyncRecords.StepEvolves | execution.cc:1064-1127 | a step leaves the actions before it as they were |
| HappensBefore.TrailMore | execution.cc:1250-1361 | states that each follow from the one before follow from every earlier one |
| Coherence.ScanReadCovers | execution.cc:1579-1676 | whatever earlier action of a thread happens before the read, or is a store that the fence rules put before it, the one action at which the scan of that thread stops is at or after it |
| Coherence.ScanWriteCovers | execution.cc:1702-1817 | the same for writes, with the fence rule of paragraph 7 |
| Coherence.ReadOrderedCoherent | execution.cc:1649-1663 | with one edge per thread, every action that happens before the read is ordered no later than what it reads |
| Coherence.WriteOrderedCoherent | execution.cc:1702-1817 | with one edge per thread, every action that happens before the write is ordered before it |
| Coherence.LastScFence | execution.cc:2351-2374 | the latest sequentially consistent fence of a thread |
| Coherence.LastScWrite | execution.cc:2328-2341 | the latest sequentially consistent store to the location |
| FenceRules.ReadRule | execution.cc:1635-1645 | after r_modification_order a store is ordered no later than what the read takes, in each of three cases: it is sequentially consistent and a fence of the reading thread came between; the read is, and a fence of the storing thread came between; or a fence of the storing thread and then one of the reading thread did (29.3 paragraphs 4 to 6 of ISO C++11, fences being sequentially consistent) |
| FenceRules.WriteRule | execution.cc:1750-1755 | after w_modification_order a store of another thread is ordered before the write when a fence of that thread and then one of the writing thread came between (paragraph 7) |
| FenceRules.RuleTested | execution.cc:1586-1645 | what these paragraphs say of two actions of different threads is among what the scan tests with the last fences it looks up |
| FenceRules.ScanReadAsked | execution.cc:1579-1676 | unless a fence came after the read, the scan of a thread asks for nothing without a reason: an action that happens before the read stands for the store, or one of the three paragraphs applies |
| FenceRules.ScanWriteAsked | execution.cc:1702-1817 | the same for writes: what happens before it stands for the store, or paragraph 7 applies |
| LawfulSteps.RulesEvolve | execution.cc:1579-1817 | the rules for sequentially consistent stores and fences demand no more of an action later than when it was processed |
| LawfulSteps.ForcedEvolves | execution.cc:1579-1817 | what was a reason for a constraint stays one |
| LawfulSteps.ReadLawful | execution.cc:1317-1333 | processing a read, for the first time or again, keeps all rules and gives every new constraint its reason, unless a fence came after the read |
| LawfulSteps.WriteLawful | execution.cc:1334-1337 | so does processing a write; a sequentially consistent one is then ordered after all earlier such stores to the location, not just the last one |
| LawfulSteps.CloseLawful | execution.cc:1446-1457 | so does the second half of a read-modify-write; one that names another order than the first is noted |
| StandardOrders.SolutionAllowed | execution.cc:1579-1817 | a solution of the constraints orders the stores of the trace in a way that the standard allows: coherent with happens-before, no store between a read-modify-write and what it reads, and the rules of 29.3 for sequentially consistent stores and fences |
| StandardOrders.ForcedSooner | execution.cc:1579-1817 | what has a reason holds in every order that the standard allows |
| StandardOrders.AllowedSolves | execution.cc:1579-1817 | an order of the stores of each location that the standard allows makes one of all nodes that solves the constraints, when each has its reason |
| TraceInvariant.NewActionSound | execution.cc:1064-1127 | adding an action keeps every happens-before pair reflected except those of the new action |
| TraceInvariant.ImmediateSyncSound | execution.cc:1140-1156 | synchronizing a read with the heads of the sequence it reads from needs no re-check: the new pairs are reflected already |
| TraceInvariant.LateSyncSound | execution.cc:2135-2152 | after late synchronization exactly what it reaches has to be re-checked |
| TraceInvariant.CloseRmwSound | execution.cc:1446-1457 | turning the read into a read-modify-write keeps the invariant with its constraint |
| TraceInvariant.CloseFailedRmwSound | execution.cc:1446-1457 | turning it into a plain read does too |
| TraceInvariant.WriteTaken | execution.cc:1334-1337 | re-checking a write settles it |
| MoConstraints.SolutionCoherent | execution.cc:1312-1343 | with nothing left to re-check, every order that meets the graph's constraints is coherent with happens-before: write-write, write-read, read-read and read-write |
| MoConstraints.SolutionAtomic | execution.cc:1446-1457 | in every such order each read-modify-write directly follows what it reads |
| ReleaseSequence.ScannedAll | execution.cc:1995-2088 | what the scan of all threads certifies: in no coherent order that respects the graph does a store of another thread, other than a read-modify-write, come between head and tail |
| ReleaseSequence.ThreadBreak | execution.cc:2044-2070 | the action at which the scan of a thread stops rules out all earlier stores of that thread |
| Contiguity.LaterComesAfter | execution.cc:2026-2087 | everything that other threads do after a sequence was certified, threads created since included, comes after its end by happens-before or the graph |
| Contiguity.StaysUninterrupted | execution.cc:2026-2087 | so in every continuation of the run, with whatever constraints it adds, no coherent order that respects the graph puts a store of another thread inside a sequence that was certified in an earlier view: the search need not be repeated |
| ReleaseSequence.ViaHeads | execution.cc:1954-1993 | a head of the sequence that a read's value belongs to may be synchronized with |
| ReleaseSearch.OneOffChain | execution.cc:1995-2088 | behind a store that releases nothing and is no read-modify-write exactly one release is left to ask about, and the heads are those on the chain and that one when the scan is clear |
| ReleaseSearch.ScanDone | execution.cc:2044-2075 | a scan that stops has seen all that is to be seen of the thread |
| ReleaseSearch.BehindFence | execution.cc:2005-2018 | once an action is behind the last release fence no release of the thread can head the sequence |
| ReleaseSearch.EvolvedReleases | execution.cc:1946-2088 | whatever the run goes on to do, the heads on the chain and the release off it stay the same |
| Certificates.AnsweredConcludes | execution.cc:2167-2207 | a search that is certain and has synchronized with what it found never needs to be asked again: its release happens before the acquire, or the graph interrupts its sequence |
| Certificates.AttestedStill | execution.cc:2026-2087 | certificates stay good and settled searches settled, whatever the run goes on to do |
| ReleaseSequence.EvolvedResolved | execution.cc:2167-2207 | an acquire that has synchronized with all releases on its chain still has, whatever the run goes on to do |
| Execution.ModelExecution.constructor | execution.cc:63-90 | an empty execution satisfies the invariant |
| Execution.ModelExecution.PrepareLocation | execution.cc:2216-2232 | the first atomic action on a location brings a placeholder along |
| Execution.ModelExecution.Begin | execution.cc:1064-1127 | the new action comes last, with its parent's clock and the edge from its parent; it knows of its thread's last release fence, and is that from now on if it is one |
| Execution.ModelExecution.FindReadEdge | execution.cc:1579-1676 | the loop over one thread finds what the scan says, of which ScanReadCovers and ScanReadAsked say what it is |
| Execution.ModelExecution.FindWriteEdge | execution.cc:1702-1817 | the same for writes, with ScanWriteCovers and ScanWriteAsked |
| Execution.ModelExecution.OrderScWrite | execution.cc:1709-1716 | a sequentially consistent write is ordered after the last such write to the location |
| Execution.ModelExecution.ReadModificationOrder | execution.cc:1579-1676 | whatever happens before the read is ordered no later than what it reads, and so is every store that paragraphs 4 to 6 of 29.3 put before it; unless a fence came after the read every new constraint has one of these reasons; the answer means a new edge |
| Execution.ModelExecution.WriteModificationOrder | execution.cc:1702-1817 | the edge for every thread and the edge from the last sequentially consistent store are there, every store of another thread that paragraph 7 of 29.3 puts before the write is ordered before it, and unless a fence came after the write every new constraint has its reason; the answer means a new edge |
| Execution.ModelExecution.ChainHeads | execution.cc:1954-1993 | the heads on the chain, and no others: every release on the chain of read-modify-writes, or the release fence before a store on it; and the end of the chain, where the loop stops |
| Execution.ModelExecution.FindRelease | execution.cc:1995-2018 | the latest release of the thread on the location; none exactly when there is none or the last release fence is later |
| Execution.ModelExecution.Consider | execution.cc:2044-2074 | what the scan makes of one action of another thread: it ends the scan, is past the end, breaks the sequence, leaves it open or is nothing |
| Execution.ModelExecution.ScanThread | execution.cc:2044-2079 | what the scan of one thread sees, action by action until one ends it: broken exactly when a store that the graph puts inside, unsure exactly when one that it leaves open, ordered exactly when an action past the end; a scan that leaves nothing open rules out all of the thread |
| Execution.ModelExecution.ScanThreads | execution.cc:2025-2087 | broken exactly when the scan of some thread comes to a store that the graph puts inside; otherwise certain exactly when every other thread leaves nothing open and is settled or past the end, which is the certificate |
| Execution.ModelExecution.ReleaseSeqHeads | execution.cc:1946-2088 | exactly the heads: those on the chain, and the one release off it, when no thread breaks its sequence and all are clear, for which there is the certificate; certain exactly when that one release is out or in; nothing while the graph has a cycle |
| Execution.ModelExecution.Synchronize | execution.cc:1170-1178 | the clock is joined, or the flag for bad synchronization set when the order is wrong |
| Execution.ModelExecution.SynchronizeAll | execution.cc:2186-2189 | all heads happen before the acquire afterwards |
| Execution.ModelExecution.StepRead | execution.cc:611-668 | a read step reads from the asked write, and adds to happens-before its thread's edge and its edges from exactly the heads that the search finds at that moment; the search is pending exactly when it is not certain; release sequences are asked for again exactly when two stores have a new edge |
| Execution.ModelExecution.StepWrite | execution.cc:833-878 | a write step adds to happens-before its thread's edge and no other, a sequentially consistent write is ordered after the last one, and release sequences are asked for again exactly when two stores have a new edge |
| Execution.ModelExecution.StepCloseRmw | execution.cc:1446-1457 | the second half of a read-modify-write changes nothing of happens-before; one that succeeds has its edge from what it reads, is ordered after the last sequentially consistent write if it is one, and asks for release sequences exactly when more edges than that one came in; whether the halves name different orders is noted |
| Execution.ModelExecution.StepFence | execution.cc:885-928 | an acquire fence asks for the release sequences of exactly the relaxed reads of its thread since the last acquire fence: each search is pending exactly when it was not certain at its turn, all heads found happen before the fence, each with its certificate if it is off the chain, and no other edge is added |
| Execution.ModelExecution.AcquireFence | execution.cc:918-928 | the loop back to the acquire fence before: every relaxed read on the way is asked for at its turn, and the fence synchronizes with exactly the heads found |
| Execution.ModelExecution.SynchronizeWithHeads | execution.cc:1140-1156 | an acquire, or an acquire fence for one earlier read, happens after exactly the heads that the search finds, on the chain or with a certificate; the search is remembered exactly when it is not certain, and no other edge is added |
| Execution.ModelExecution.ReadFrom | execution.cc:1140-1156 | of a read exactly an acquire synchronizes, with exactly the heads that the search finds |
| Execution.ModelExecution.StepOther | execution.cc:941-996 | an action that synchronizes with a named earlier one, as a join does, happens after it; its thread's edge and that one are the only new ones, and all release sequences are asked for exactly when it says so |
| Execution.ModelExecution.StepCreate | execution.cc:946-959 | the created thread will start after this action, and the only new edge is that of the creating thread |
| Execution.ModelExecution.Propagate | execution.cc:2135-2152 | every later action gets the clock it should, and each is queued for a re-check |
| Execution.ModelExecution.SynchronizeLate | execution.cc:2183-2200 | an acquire synchronizes with the heads that it has not met yet, and then with everything after it pushed forward and queued for a re-check, clocks, records and constraints are as they should be |
| Execution.ModelExecution.Retry | execution.cc:2172-2200 | one pending search: what it finds now, exactly, and whether it is settled; the new edges are those from the heads that did not happen before the acquire yet, and a settled search has synchronized with its release or knows it interrupted |
| Execution.ModelExecution.ResolveReleaseSequences | execution.cc:2167-2207 | all pending searches of the location are tried, and when none finds anything exactly those that are still uncertain stay pending; others stay pending; only clocks change, they grow, and the only new edges lead into acquires whose search was pending |
| Execution.ModelExecution.RecheckRead | execution.cc:1317-1333 | the read's edges are up to date and a missed sequentially consistent store is noticed; and after a later store of its thread to the location and two fences of the thread since then, the graph has a cycle |
| Execution.ModelExecution.RecheckMoEdges | execution.cc:1312-1343 | the re-checked action is settled again, a sequentially consistent write is ordered, and release sequences are asked for again exactly when two stores have a new edge; exactly an action after which a fence came is noted |
| Execution.MissedMeans | execution.cc:1323-1328 | a store is missed exactly when the read is sequentially consistent, there is a last such store to the location before it, and what it reads happens before that one |
| Execution.ModelExecution.ProcessWork | execution.cc:1275-1348 | one turn of the work loop does what the item asks for and queues exactly what that calls for: all release sequences after a synchronization, those of the location after a new edge, and otherwise nothing; it makes progress: an action more happens before another, or two stores more have an edge, or the queue is shorter |
| Execution.ModelExecution.WorkLoop | execution.cc:1275-1348 | the loop ends with an empty queue; clocks and constraints only grow, and the only new edges of happens-before lead into acquires whose search was pending |
| Execution.ModelExecution.TakeStep | execution.cc:1275-1302 | every kind of action leaves the earlier ones as they were, but for clocks and the second half of a read-modify-write, and whatever acquires has searched for release sequences |
| Execution.ModelExecution.CheckCurrentAction | execution.cc:1250-1361 | so does a step together with all the work that it causes, which ends with an empty queue |
| Execution.ModelExecution.Run | execution.cc:1250-1361 | the states of a run, each of which follows from every earlier one |
| Execution.ModelExecution.ClocksAreExact | action.cc:533-536 | in every state of every run the clock test is reachability by the order of each thread, the creation of threads and the recorded synchronizations, each of which is from a head of a release sequence that what its acquire reads belongs to (a release or release fence on the chain, or the thread's own release with the certificate of the search that found it) or the one that the caller named for an action such as a join |
| Execution.ModelExecution.NothingMissed | execution.cc:1946-2088 | in every state of every run, once a search is settled, every head on the chain happens before the acquire, and so does the one release off the chain unless the graph puts a store of another thread inside its sequence |
| Execution.ModelExecution.NoReleaseLost | execution.cc:1954-1978 | stopping at an acquire-release operation loses nothing: along any path of read-modify-writes back from what a settled search reads to a store, the store if it is a release, and any earlier release fence of its thread, happens before the acquire, if only the searches of the acquire-release operations on the path are settled too |
| Execution.ModelExecution.AllSynchronized | execution.cc:885-928 | when no search is pending, all of it is there that ISO C++11 asks for along such paths (1.10 paragraph 8, 29.8 paragraphs 2 to 4): a release, or a release fence before the store, happens before the read when that acquires, and before every later acquire fence of the reading thread |
| ReleaseSequence.ChainIsPaths | execution.cc:1954-1978 | the stores on the chain are exactly those at the end of a path of read-modify-writes of which none but the end is an acquire-release one |
| Execution.OffChainMeans | execution.cc:1995-2018 | the release off the chain is the last one of its thread on the location before the end of the chain, a plain store that releases nothing, after which the thread has passed no release fence |
| ReleaseSearch.CertifiedWhen | execution.cc:2020-2087 | that release is a head, and the search certain, when every store of another thread is known to come before it or after the end of the chain, and every other thread is done or has come past the end |
| ReleaseSearch.NoneWhen | execution.cc:2063-2075 | it is none, and the search certain, when the graph puts a store inside that the scan comes to |
| Execution.ModelExecution.CertifiedMeans | execution.cc:1995-2088 | with an empty queue, in no solution of the constraints does a store of another thread lie inside a certified sequence |
| Execution.ModelExecution.StillContiguous | execution.cc:2026-2087 | as long as the threads that a certificate of any earlier moment counts on have done nothing since, no coherent order that respects the graph puts a store of another thread inside its sequence |
| Execution.ModelExecution.Explained | execution.cc:1579-1817 | with an empty queue and no cycle there is a modification order that the standard allows: coherent with happens-before, every read-modify-write directly after what it reads, and in keeping with the rules for sequentially consistent stores and fences |
| Execution.ModelExecution.CycleMeans | execution.cc:1579-1817 | the other way round, at any time: when no action was checked again after a fence had overtaken it, and the halves of read-modify-writes name one order, a cycle means that the standard allows no modification order |
| Execution.ModelExecution.RejectedExactly | execution.cc:1579-1817 | both together: such an execution is rejected exactly when the standard allows no modification order for it |
| Execution.ModelExecution.StraysOvertaken | execution.cc:1586-1602 | only actions after which a sequentially consistent fence came are ever noted as checked again too late |
| FenceExamples.OvertakenCycle | execution.cc:1586-1645 | checking a read again, after its thread has stored to the location and passed two fences, asks for the later store to come before what was read, which closes a cycle |
| FenceExamples.TraceOrderAllowed | execution.cc:1579-1817 | a trace of ten actions, before and after a late synchronization, for which the standard allows a modification order |
| FenceExamples.RejectedLate | execution.cc:1586-1645 | checking its load again after that asks for a cycle all the same |
| ReleaseExamples.SettledQuietly | execution.cc:2026-2042 | two views, the second after one more acquire of a thread, of which the search is certain only in the second, although graph and queue are as before |
| ReleaseExamples.LoadHeads | action.cc:222-232 | a view in which the head of a release sequence is a sequentially consistent load |
| ReleaseExamples.HeadKinds | execution.cc:1946-2088 | heads on the chain are stores and fences, and one off the chain is a store or such a load |
| ShadowWord.RoundTrip | datarace.h:65-92 | every field survives packing for thread ids up to 254 and clocks up to 0x7ffffe, the word has 64 bits and is no pointer |
| ShadowWord.SumIsBitwiseOr | datarace.h:65-88 | the sum used for the word is the bitwise combination of the macros |
| DataRaces.LaterClocksRaceLess | datarace.cc:131-148 | judging a race again with a larger clock can only drop it |
| DataRaces.RacingMore | datarace.cc:71-75 | only accesses that happened can race |
| RaceHistory.FlagsExactly | datarace.cc:175-358 | until the first race at an address, the record flags an access exactly when the full history does |
| RaceHistory.FirstRace | datarace.cc:175-358 | the first report comes at the first access that is unordered with any earlier conflicting one |
| RaceHistory.ReportedConflicts | datarace.cc:106-148 | whatever is reported names an access of the history that the new one races with, and rightly whether that was a write |
| RaceHistory.ConflictsReported | datarace.cc:175-358 | until the first race every access that the new one races with is reported, or a later one that comes after it |
| RaceHistory.AllCovered | datarace.cc:256-312 | without a race so far, every dropped access is stood for by a remembered one |
| RaceHistory.RecordedClocked | datarace.cc:315-358 | accesses made at any times of a run, each with the clock that its action had then, whatever synchronization was found later, give histories on which the record is enough |
| RaceHistory.RunRecorded | datarace.cc:315-358 | so do accesses made during any run of the model checker: the record is enough for it |
| RaceHistory.AfterIsHB | datarace.cc:71-75 | the detector's test on clocks says that an access comes after an earlier one exactly when both are of one thread or an action that follows the earlier one in its thread happens before it |
| RaceDetection.RaceDetector.ExpandRecord | datarace.cc:81-103 | the expanded record denotes what the word did |
| RaceDetection.RaceDetector.FullCheckRead | datarace.cc:256-312 | the reads that this one subsumes are dropped, and the races reported are those with the last write |
| RaceDetection.RaceDetector.FullCheckWrite | datarace.cc:175-208 | a write forgets everything before it and reports every racing read and write |
| RaceDetection.RaceDetector.CheckRead | datarace.cc:315-358 | the same on the shadow word, whether or not it has to be expanded |
| RaceDetection.RaceDetector.CheckWrite | datarace.cc:211-253 | the same for writes |
| RaceDetection.RaceDetector.Check | datarace.cc:211-358 | one access of any history: every report names an earlier access that it races with, and what that was; up to the first race all of these are reported, if only through a later one, and so races are reported exactly when the access is unordered with an earlier conflicting one |
| RaceDetection.RaceDetector.CheckDataRaces | datarace.cc:131-148 | on a feasible prefix the reported races that still race are asserted and all are forgotten |
| ScOrders.ReadFirst | scanalysis.cc:849-858 | in every sequentially consistent order a write known to come after what is read comes after the read |
| ScOrders.WriteFirst | scanalysis.cc:860-871 | and a write known to come before the read comes before what is read |
| ScOrders.MergeHolds | scanalysis.cc:184-221 | taking in the clock of something that must come before keeps the clocks true of an order |
| ScOrders.SettledSaturated | scanalysis.cc:948-1004 | a pass that changes nothing means that every forced order is known, that both rules hold for every read and write, although scans stop early, and that nothing was refused for a cycle |
| ScOrders.PlaceholdersFirst | scanalysis.cc:817-875 | an order of the numbered actions extends to one with the placeholders in front |
| ScOrders.ThreadStop | scanalysis.cc:860-871 | stopping at a write that the read knows of misses nothing in that thread |
| ScFixpoints.MergeBounds | scanalysis.cc:184-221 | taking in an edge loses none of the clocks above that have nothing left to take in |
| ScFixpoints.CloseBounds | scanalysis.cc:192-196 | and an edge that closes a cycle leaves none |
| ScFixpoints.LeastUnique | scanalysis.cc:948-1004 | the result of the inference is unique, up to entries that are zero |
| ScFixpoints.KnownTakes | scanalysis.cc:948-1004 | with nothing left to take in, knowing of an action that is left means knowing all that it knows, and never mutually |
| ScAnalyses.ScAnalysis.constructor | scanalysis.cc:541-562 | before any inference the clocks say program order only, and no action is missing from the lists |
| ScAnalyses.ScAnalysis.Merge | scanalysis.cc:184-221 | exactly when the clock is taken in, when the answer is yes, when a cycle is reported and when edges outside happens-before stop being allowed; what holds in all remaining orders is kept |
| ScAnalyses.ScAnalysis.ProcessWrite | scanalysis.cc:838-871 | both rules for one write |
| ScAnalyses.ScAnalysis.ProcessReadSlow | scanalysis.cc:817-875 | both rules for all writes of other threads |
| ScAnalyses.ScAnalysis.ComputeCVSlow | scanalysis.cc:948-1004 | the fixpoint loop ends; a cycle is found exactly when no clocks above the first have nothing left to take in, and otherwise the clocks are the least such, in whatever order and phases edges were added |
| ScAnalyses.ScAnalysis.PreviousJustified | scanalysis.cc:948-1004 | the array of last actions, which is not reset when the analysis starts to add other edges, does no harm |
| ScAnalyses.ScAnalysis.GetNextActions | scanalysis.cc:223-280 | the actions that know of no other thread's first one, by thread; without a cycle there is one as long as an action is left, which is the assertion at the end, and the fallback to happens-before is used only when no sequentially consistent order goes on as chosen |
| ScAnalyses.ScAnalysis.PruneArray | scanalysis.cc:282-327 | the only action, or the earliest that does not write, or the earliest write that constrains nothing; none only when all are writes with conflicts |
| ScAnalyses.ScAnalysis.UpdateConstraints | scanalysis.cc:579-606 | exactly which clocks change and how: in each other thread only that of the next write to the location, which takes in the chosen action exactly when that is permitted at its turn; for a free action it closes no cycle, so that every cycle after a choice comes from the inference that follows; the answer tells whether there was any such write |
| ScChoices.WhoIsConstrained | scanalysis.cc:579-606 | when any edge may be added and no cycle is closed, the next write of a thread is put after the chosen action exactly when no earlier thread has such a write, or happens-before puts it there, or both are sequentially consistent and it has the later number |
| ScExamples.SecondWriteMissed | scanalysis.cc:579-606 | with three relaxed stores of three threads to one location, the second thread's store is put after the first's and the third's is not, and the clocks are saturated |
| ScAnalyses.ScAnalysis.Take | scanalysis.cc:376-384 | one turn of the loop: the action is taken from its list, the clocks afterwards are the least that take in what updateConstraints put, and a rollback is asked for exactly when there are none |
| ScAnalyses.ScAnalysis.Decide | scanalysis.cc:355-375 | what is taken next: what pruneArray picks, or the recorded choice on the way back to a rollback, which is in range, or else the first option; and which choice is the last with another option |
| ScAnalyses.ScAnalysis.Turn | scanalysis.cc:376-407 | taking it keeps that clocks and lists depend on the actions taken only and that the list is in order, and under the condition that it misreads nothing |
| ScAnalyses.ScAnalysis.Generate | scanalysis.cc:329-409 | the whole search with its rollbacks ends. A list without a cycle holds every action once, each after all that is forced before it, reads after what they read. A cycle that remains proves that the trace is not sequentially consistent, unless a write was picked while a read waited. When the clocks before any choice cover the trace (what is read knows the earlier stores of the reader's own thread; the stores left open are of one thread), no such pick is made, no read of the list, complete or not, is misread, and a list without a cycle is a sequentially consistent order |
| ScAnalyses.ScAnalysis.CycleIsNotSc | scanalysis.cc:192-196 | a cycle before any choice proves that there is no sequentially consistent order |
| ScAnalyses.ScAnalysis.CycleRefutes | scanalysis.cc:380-401 | a cycle after choices proves that no such order begins as chosen |
| ScAnalyses.ScAnalysis.ClocksHold | scanalysis.cc:184-221 | in a sequentially consistent order everything the clocks say before any choice holds, and no cycle is reported |
| ScChoices.ReadsNeedNoChoice | scanalysis.cc:287-295 | a free action that does not write can be taken without branching: if an order goes on as chosen, one goes on with it |
| ScChoices.OnlyChoice | scanalysis.cc:284-285 | when one action only is free, every order that goes on as chosen goes on with it |
| ScChoices.WriteWithoutChoice | scanalysis.cc:297-326 | a free write without a conflict may be taken without recording a choice exactly when no read to its location waits for another write that was taken |
| ScSearches.SomeFront | scanalysis.cc:223-277 | without a cycle some first action is free |
| ScSearches.NoneCloses | scanalysis.cc:376-383 | putting writes after a free action closes no cycle |
| ScTurns.LedAlike | scanalysis.cc:386-395 | the clocks depend on nothing but the actions taken so far, so that after a rollback the same choices lead to the same point |
| ScBranches.Backtrack | scanalysis.cc:384-405 | a cycle refutes everything back to the last choice with another option |
| ScBranches.Rollback | scanalysis.cc:386-395 | the search goes back to that choice with its next option, and what was tried before on the way there is refuted |
| ScBranches.ValueMore | scanalysis.cc:386-395 | each rollback moves on in the order of all choices |
| ScRuns.CalmStep | scanalysis.cc:336-409 | under the condition each turn keeps that no read of the list is misread and that every store that could overwrite what a pending read reads is known to come later |
| ScRuns.ListIsOrder | scanalysis.cc:160-181 | a list of all actions in order that misreads nothing is a sequentially consistent order |
| ScChoices.EarliestFree | scanalysis.cc:226-247 | in every order the clocks agree with, the earliest first action is free |
| ScChoices.NextWriteIs | scanalysis.cc:586-603 | the search finds the first write to the location that no earlier write shields |
| ScChecks.CheckRf | scanalysis.cc:160-181 | exactly the reads that do not see the last write before them are reported |
| ScChecks.SeesLast | scanalysis.cc:160-181 | a read is reported exactly when its write is not before it or another write to the location comes in between |
| ScChecks.PassesIsSc | scanalysis.cc:160-181 | a list of all actions that respects the forced orders passes exactly when it is a sequentially consistent order |
| ScAnalyses.ScAnalysis.Analyze | scanalysis.cc:137-181 | the search and check_rf with its assertion: when the clocks before any choice cover the trace, a cycle is reported exactly when no sequentially consistent order exists; and when there was no cycle before any choice, the assertion that reads are misread exactly when there is a cycle holds exactly when such an order exists |
| ScExamples.CrossedRun | scanalysis.cc:173-176 | a trace on which the analysis finds that there is no such order, and then fails that assertion |
| ScExamples.CrossedHasNone | scanalysis.cc:173-176 | that trace has no sequentially consistent order |
| ScExamples.CrossedMisread | scanalysis.cc:160-181 | and every list of all its actions in program order misreads something |
| ScTraces.ReadBackRun | scanalysis.cc:817-875 | a run of the search on a sequentially consistent trace that ends without a cycle and with a misread list, because the rules for reads pass over a store of the reader's own thread |
| ScTraces.TripleRun | scanalysis.cc:579-606 | another, in which the reader's thread has no store to the location, because updateConstraints puts only one of two stores of other threads after what is read |
| ScTraces.BackOneThread | scanalysis.cc:579-606 | the first of these traces meets the half of the condition that is about other threads |
| ScTraces.TripleNoOwnStore | scanalysis.cc:817-875 | the second meets the half that is about the reader's own thread |
| YieldPriorities.YieldNode.UpdateYield | nodestack.cc:102-143 | the matrix of the new node is that of the run so far |
| YieldPriorities.YieldNode.UpdateRow | nodestack.cc:113-128 | the row of one thread changes as the enabled threads ask, and no other row does |
| YieldPriorities.PrioritiesAcyclic | nodestack.cc:102-143 | in every run the relation "goes before" has no cycle |
| YieldPriorities.BitsMean | nodestack.cc:95-143 | since the last yield: the bits say enabled all the time, disabled by the yielding thread, scheduled |
| YieldPriorities.PriorityMeans | nodestack.cc:130-142 | who gets to go before a thread that yields again |
| YieldPriorities.FirstYield | nodestack.cc:102-143 | the first yield of a thread puts no thread before it |
| YieldPriorities.PriorityStays | nodestack.cc:113-129 | without a yield of the thread, those that go before it are the same, but for the one that runs |
| Schedulers.Scheduler.SetEnabled | schedule.cc:56-71 | the thread has the status, all others keep theirs, and the array grows with disabled threads |
| Schedulers.Scheduler.AllThreadsSleeping | schedule.cc:116-125 | no thread is enabled and some thread sleeps |
| Schedulers.Scheduler.UpdateSleepSet | schedule.cc:134-141 | which threads sleep afterwards |
| Schedulers.Scheduler.SelectNextThread | schedule.cc:215-255 | the eligible thread that comes next after the last one picked, round the end of the array, or none when no thread is eligible |
| Schedulers.Scheduler.EligibleMeans | schedule.cc:219-250 | who is eligible: an enabled thread, when no thread that is not disabled goes before it by the yields of the run, and it has the fairness priority if a thread that is not disabled has it |
| Schedulers.Scheduler.SomeoneRuns | schedule.cc:215-255 | without a fairness window and sleeping threads an enabled thread is eligible whenever there is one |
| SnapshotLog.LogFault | snapshot.cc:107-134 | keeping the copy of a faulting page keeps every snapshot restorable |
| SnapshotLog.LogWrite | snapshot.cc:107-134 | a write to a page that was copied does too |
| SnapshotLog.LogTake | snapshot.cc:202-219 | so does taking another snapshot |
| SnapshotLog.LogRollFast | snapshot.cc:223-230 | writing back every copy since the latest snapshot restores it and keeps the log |
| SnapshotLog.LogRollSlow | snapshot.cc:232-248 | writing back the first copy of each page restores an older snapshot, and the log cut off there keeps all earlier ones restorable |
| SnapshotLog.Snapshotter.AddToSnapshot | snapshot.cc:187-200 | the region is registered exactly when the table has room, and otherwise nothing changes |
| SnapshotLog.Snapshotter.HandlePageFault | snapshot.cc:107-134 | exactly when the backing store has room, the page's copy is appended to it and the page can be written; every snapshot stays restorable |
| SnapshotLog.Snapshotter.Write | snapshot.cc:107-134 | a write changes that page only, faulting first when the page is protected, and fails exactly when it faults without room for the copy |
| SnapshotLog.Snapshotter.TakeSnapshot | snapshot.cc:202-219 | the snapshot is of the registered pages as they are now |
| SnapshotLog.Snapshotter.RollBack | snapshot.cc:221-249 | every page that the snapshot covered holds what it held when it was taken, on both paths, and earlier snapshots stay good; of all pages exactly those with a copy since then change, each to its first copy; the copies are forgotten and the pages protected again unless the fast path is taken |
| SnapshotLog.Snapshotter.WriteAllBack | snapshot.cc:223-230 | the loop of the fast path writes back what the log says |
| SnapshotLog.Snapshotter.WriteFirstBack | snapshot.cc:240-245 | the loop of the other path does, of several copies the first |
| HashTables.HashTable.constructor | hashtable.h:56-66 | an empty map |
| HashTables.HashTable.Reset | hashtable.h:93-96 | an empty map again |
| HashTables.HashTable.Find | hashtable.h:112-124 | the probe loop ends, at the key's slot or at the empty slot where the key belongs |
| HashTables.HashTable.Get | hashtable.h:133-148 | the value of the map, or the zero value |
| HashTables.HashTable.Contains | hashtable.h:155-170 | whether the map has the key |
| HashTables.HashTable.Put | hashtable.h:103-130 | the map with the key set, in the same or a larger table |
| HashTables.HashTable.Resize | hashtable.h:176-211 | the same map in a table of the new size, although empty slots are copied as well |
| HashTables.HoldsInsert | hashtable.h:112-128 | a new key in the first empty slot of its probes gives a table that holds the larger map |
| HashTables.HoldsUpdate | hashtable.h:116-119 | overwriting the value of a known key |
| HashTables.SlotComes | hashtable.h:112-124 | probing comes past every slot |
| Arithmetic.MaskIsRemainder | hashtable.h:112-115 | masking with a power of two less one is the remainder that the model uses |
| WaitingThreads.WaitTable.WaitingOn | threads.cc:216-226 | the thread that a pending join names, or the holder of a mutex that a pending lock names; none for any other action and for a free mutex |
| WaitingThreads.WaitTable.IsWaitingOn | threads.cc:235-242 | the loop ends as long as every circular wait goes through the thread, and answers whether one does |
| WaitingThreads.WaitTable.Stash | model.cc:478-486 | a deadlock is reported exactly when there are threads that wait on each other in a ring, by joins and locks |
| WaitingThreads.WaitTable.TakeStep | model.cc:510-513 | a thread that runs waits on nobody |
| WaitingThreads.WaitTable.Acquire | execution.cc:695-712 | taking a mutex keeps the wait graph acyclic |
| WaitingThreads.WaitTable.Release | execution.cc:717-731 | so does releasing one |
| WaitingThreads.CycleThrough | threads.cc:228-242 | a new wait of a thread closes a cycle exactly when it leads back to the thread |
| WaitingThreads.WaitsMeans | threads.cc:216-226 | a thread waits on another exactly when its next action joins that thread, or locks a mutex that the thread holds |
| WaitingThreads.RingIsCycle | threads.cc:228-242 | the wait graph has a cycle exactly when some threads, one after the other and the last on the first, join each other or lock what the next one holds |
| WaitingThreads.WaitTable.NoCircularWait | model.cc:478-486 | while no deadlock was reported no threads wait on each other in a ring |
| SizeTries.InsertTrie | malloc.c:3625-3662 | insertion keeps the bitwise trie and adds exactly the chunk |
| SizeTries.UnlinkTrie | malloc.c:3693-3762 | removal keeps the bitwise trie and takes exactly the chunk away, whether it had the parent links, shared its size or was replaced by a leaf |
| SizeTries.BitTells | malloc.c:3637-3644 | the bit that is looked at tells the halves of a subtree's range apart |
| TreeIndices.IndexRange | malloc.c:2823-2834 | a size below the width of an index lies in the range of the bin that is computed for it |
| TreeIndices.IndexMono | malloc.c:2823-2834 | larger sizes are in no smaller bins, below the width of an index |
| TreeIndices.BinHolds | malloc.c:2886-2897 | the shift for a bin makes its trie start at a multiple of its range |
| TreeIndices.MinSizeNext | malloc.c:2895-2897 | the ranges of the bins follow each other without gaps |
| TreeIndices.LeastBit | malloc.c:2915 | the lowest mark |
| TreeIndices.LeftBits | malloc.c:2918 | the marks of all later bins |
| TreeIndices.MarkClear | malloc.c:2906-2911 | marking and clearing change one bin |
| TreeIndices.MarksChange | malloc.c:2906-2911 | marking and clearing on the word add a bin to the set and take it out |
| TreeIndices.NextMark | malloc.c:2915-2918 | what least_bit and left_bits compute on the word is the bit of the least marked bin after a given one |
| TreeIndices.TwoBins | malloc.c:5486-5490 | the test on two neighbouring small bins, and which of them it takes |
| BestFit.Leftmost | malloc.c:4448-4455 | the loop over leftmost children ends with a chunk that is no larger than any of the tree |
| BestFit.LeftmostSmallest | malloc.c:2398 | the smallest size of a trie is at its root or below its leftmost child |
| BestFit.Path | malloc.c:4415-4436 | the path for a size ends at a chunk of that size, or with the subtree that has the smallest sizes above it |
| BestFit.Consider | malloc.c:4420-4425 | a node replaces the candidate exactly when it fits and leaves less than the one so far |
| FreeBins.LeastFrom | malloc.c:4439-4443 | the least marked bin from a given one on |
| FreeBins.Bins.InsertSmall | malloc.c:3547-3563 | exactly the chunk is added, in front, and marks stay exact |
| FreeBins.Bins.UnlinkSmall | malloc.c:3566-3589 | exactly the chunk is removed, and marks stay exact |
| FreeBins.Bins.FirstSmall | malloc.c:3592-3608 | a marked small bin has a chunk, of the size of the bin |
| FreeBins.Bins.InsertLarge | malloc.c:3625-3662 | exactly the chunk is added to the trie of its bin |
| FreeBins.Bins.UnlinkLarge | malloc.c:3693-3762 | exactly the chunk is removed, and the mark is cleared when it was the last |
| FreeBins.Bins.SearchLarge | malloc.c:4409-4455 | a smallest large chunk that fits, whenever one does |
| FreeBins.Bins.SearchSmallest | malloc.c:4480-4495 | a smallest large chunk |
| FreeBins.Bins.NextBin | malloc.c:4438-4446 | the root of the next bin that is not empty |
| ChunkLayouts.Disjoint | malloc.c:3400-3428 | chunks of a tiling do not overlap |
| ChunkLayouts.TotalIsSegment | malloc.c:3400-3428 | their sizes add up to the segment |
| ChunkLayouts.TakenWhole | malloc.c:3044-3046 | taking a whole free chunk into use keeps tiling, tags and coalescing |
| ChunkLayouts.TakenFront | malloc.c:3049-3050 | so does taking its front |
| ChunkLayouts.Merged | malloc.c:2276-2277 | so does joining a freed chunk with its neighbours |
| ChunkLayouts.MergedAfterFree | malloc.c:2272-2273 | so does joining when the last of them was free |
| ChunkLayouts.MergedTop | malloc.c:5633-5644 | so does joining the top |
| ChunkLayouts.MergedSets | malloc.c:5586-5685 | joining takes the chunk out of use, removes its free neighbours and adds one free chunk |
| Mspaces.RequestToSize | malloc.c:2216-2221 | aligned, large enough for the request and its head, the least such size above the minimum, and small exactly for small requests |
| Mspaces.Mspace.constructor | malloc.c:5374-5394 | the first chunk holds the state, the rest is the top |
| Mspaces.Mspace.UseChunk | malloc.c:4464-4470 | the front goes into use and the rest stays free when it is large enough for a chunk |
| Mspaces.Mspace.UseSmallBin | malloc.c:5488-5526 | a chunk of the bin goes into use; a rest too small for a chunk goes with it, and another becomes the designated victim while the old victim goes to its bin; the other bins keep what they have |
| Mspaces.Mspace.TmallocSmall | malloc.c:4480-4515 | a smallest tree chunk goes into use, and its rest and the old victim go where UseSmallBin puts them |
| Mspaces.Mspace.TmallocLarge | malloc.c:4409-4477 | a smallest tree chunk that fits goes into use unless the victim fits no worse, and its rest goes into a bin; otherwise nothing changes |
| Mspaces.Mspace.UseDv | malloc.c:5544-5562 | the victim goes into use, and what is left is the victim, or nothing is |
| Mspaces.Mspace.SplitTop | malloc.c:5564-5574 | the front of the top goes into use |
| Mspaces.Mspace.Malloc | malloc.c:5472-5584 | the chunk that is used, against the free ones before: for a small request one of a small bin that leaves nothing over, else the victim, else a smallest binned one that fits; for a large one a smallest binned one that fits, unless the victim is no larger; the top only when nothing else fits, and none only when nothing does; it goes into use for at least the padded size, aligned, its rest stays free where it belongs, nothing else changes, and the whole segment invariant is kept |
| Mspaces.Mspace.Backward | malloc.c:5604-5629 | a free chunk before joins and leaves its bin unless it is the victim |
| Mspaces.Mspace.GrowDv | malloc.c:5620-5624 | the victim takes in the freed chunk and its neighbours |
| Mspaces.Mspace.JoinTop | malloc.c:5633-5644 | the top moves down over the freed chunk and a free one before it |
| Mspaces.Mspace.JoinFree | malloc.c:5652-5664 | the freed chunk and its neighbours become one chunk for a bin |
| Mspaces.Mspace.JoinNext | malloc.c:5652-5664 | a binned chunk behind the freed one leaves its bin and joins too |
| Mspaces.Mspace.Around | malloc.c:5604-5664 | nothing free starts around a chunk in use but its two neighbours |
| Mspaces.Mspace.Free | malloc.c:5586-5685 | exactly the freed chunk goes out of use; joined with its free neighbours it becomes the top when it reaches it, else the victim when that is one of them, and else goes into a bin; the whole segment invariant is kept |
| Mspaces.Mspace.ChunksTile | malloc.c:3400-3428 | in every state chunks in use and free ones are disjoint, lie in the segment and fill it |
| Mspaces.Mspace.NoTwoFree | malloc.c:3419-3422 | no two adjacent chunks are free |
| Mspaces.Mspace.OnePlace | malloc.c:3400-3458 | each free chunk is in exactly one of a bin, the victim and the top |
| Mspaces.Mspace.MarkedBins | malloc.c:3329-3345 | the bit of a bin is set exactly when it holds a chunk |

## Left out

- Promises and future values beyond node merging: executions are those without promises, so `check_promises`, `compute_promises` and sent future values are missing from reads, writes and read-modify-writes.
- Fixing up release sequences at the end of a run, and the actions of the model thread that do it.
- Backtracking sets, the exploration of reads-from choices and feasibility pruning: which value a read takes is a parameter of its step.
- Execution.ModelExecution.StepRead: reads from a store that was made, never from a promised future value.
- Execution.ModelExecution.StepWrite: resolves no promise and sends no future values.
- Execution.ModelExecution.StepOther: does not tell mutex, condition-variable and join actions apart; the earlier action with which one of them synchronizes is a parameter.
- Execution.ModelExecution.ReleaseSeqHeads: which threads are settled (not enabled or complete) is a parameter, as thread status is modelled separately in the scheduler; `Contiguity.WentOn` says what is relied on, that a settled thread does nothing more.
- Execution.ModelExecution.WorkLoop: does not promise that a search that is still pending is still uncertain, which is not so in the source either (see the findings).
- Execution.ModelExecution.CertifiedMeans: is about heads that are stores, as a load can be taken for a head too (see the findings).
- Execution.ModelExecution.ReadModificationOrder: for a read that is checked again after a sequentially consistent fence has come, nothing is said of what else may be asked for, as the code asks for too much then (see the findings).
- Execution.ModelExecution.CycleMeans: says nothing of executions in which such an action was checked again, or the halves of a read-modify-write name different orders; `late` and `changed` are exactly those actions.
- Execution.ModelExecution.AllSynchronized: is about release sequences along read-modify-writes; that a sequence may begin with later stores of its own thread is the release off the chain, for which `NothingMissed` speaks.
- Sequentially consistent loads are checked against the last such store only when they are checked again; that they read it at first is left to the choice of what may be read.
- Actions and graph nodes are indices instead of objects; the per-object and per-thread lists are the trace filtered; placeholders for uninitialized values keep the place at which they were made instead of moving to the front.
- Clock values and sequence numbers are unbounded.
- MergedOrder.MergedOrderable: speaks of the first merge after additions, since after a merge the graph need not be one on which what follows a write also follows its read-modify-write (see the findings).
- CycleGraphs.CycleGraph.MergeNodes: when a cycle is known before, or a pointer of the promise's chain is not an edge, a merge into a write that reads from the promise is only proved to go round for ever at most when a successor strays.
- CycleGraphs.CycleGraph.ResolvePromise: after a merge into a write that reads from the promise the class invariant is not claimed, as the tables hold a circle; the contract says which tables. A promise that becomes the node of its write loses its entry, as is intended; the code asks to erase that of NULL and stops at an assertion (see the findings).
- RaceDetection.RaceDetector.Report: does not stop the program at once when the prefix is already known to be feasible; reported races are always stored first.
- RaceDetection.RaceDetector.FullCheckRead: the array of reads is a sequence, so its growth by doubling is not modelled.
- The SC analysis fast path, its statistics and annotated reads; `analyze` is modelled from where it turns to the slow version.
- ScAnalyses.ScAnalysis.Generate: that a list without a cycle passes is stated for covered traces, as two halves of one condition of which the runs in ScTraces show that each is needed; for other traces nothing is said of what the list misreads.
- Termination of exploration, fairness windows as such and the rest of the node stack; the fairness priorities are a parameter of thread selection.
- Snapshot memory is a map of pages with a protection bit, and running out of room is a result instead of an exit; page faults, `mprotect` failures, the stack of snapshots and the fork-based snapshotter are not modelled.
- HashTables.HashTable.Put: the key and its hash are numbers, the mask is the remainder (see Arithmetic.MaskIsRemainder), the load factor is one half and the table never exceeds the width of an index.
- FreeBins.Bins.FirstSmall: only finds the chunk of a marked bin; taking it out, which the macro does too, is `UnlinkSmall`.
- Chunks in bins are values: the tries are trees and the rings and small bins are sequences, without parent and link pointers, so corruption checks have no counterpart; bin maps are sets, with the bit operations proved on words in TreeIndices.
- Mspaces.Mspace.Malloc: sys_alloc fails, sizes stay below 2^40 because `compute_tree_index` narrows its argument (malloc.c:2825), and requests above that simply fail.
- Trimming, further segments, mapped chunks, footers, locks, realloc, memalign and `dispose_chunk`.
- WaitingThreads.WaitTable.Stash: a thread whose start is pending is not blocked by it, as in the source; condition variables only release their mutex.
