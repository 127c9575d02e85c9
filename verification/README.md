# A verified model of CDSChecker

CDSChecker runs a multithreaded program under its own scheduler and explores the executions that the C and C++11
memory model allows. This project models the parts of it that decide something, in Dafny, and proves what they decide.

| part | files | main results |
|---|---|---|
| Modification-order graph | `Relations`, `GraphTheory`, `GraphRollback`, `GraphRuns`, `GraphMerge`, `GraphCircles`, `MergeOutcomes`, `MergeExactness`, `MergeFailures`, `CycleGraph` | the cycle flag decides whether a modification order exists; rollback restores the last commit; what merging a promise changes, and for every merge whether it succeeds, fails or never ends |
| Clocks | `Clocks`, `HappensBefore` | clock order is reachability in every run, also when synchronization is found late |
| Coherence | `Coherence`, `Scans`, `ScanLoops`, `Steps`, `Execution`, `Feasibility`, `CheckedExecutions` | one edge per thread is enough; an execution passes the graph exactly if the C++11 rules admit a modification order for it |
| Release sequences | `ReleaseSequences`, `ReleaseCompleteness` | what exactly is certain, split or left open; when a reported head synchronizes, and that a complete search misses nothing |
| Races | `RaceTheory`, `DataRaces` | a run is reported exactly if it has a race, in the packed and in the full form |
| Snapshots | `SnapshotTheory`, `Snapshots` | rolling back gives the memory of the snapshot at any later time, by either way of copying |
| Scheduling | `YieldTheory`, `Scheduling` | after whom a thread must wait, told from the turns alone; waiting after yields never goes round; a starved thread comes first |
| Hash table | `Masks`, `HashTables` | it is a map, with masked probing; a mask reaches every slot exactly for powers of two; when a slot stays empty |
| Allocator | `Arithmetic`, `TreeIndices`, `TrieTheory`, `TrieSteps`, `TrieRings`, `TrieFit`, `TreeBins`, `HeapTheory`, `HeapSteps`, `HeapEffects`, `HeapRuns`, `BinTheory`, `Mspaces` | best fit in the tries; blocks in use never overlap in any run; every free chunk is in one place, no two free chunks touch |
| Sequentially consistent order: clocks | `ScTheory`, `ScPasses`, `ScFixpoint`, `ScSolutions`, `ScSettled`, `ScLate`, `ScTraces`, `ScUnsettled` | the passes end below the least solution of all rules; they reach it exactly if another pass finds nothing; traces on which they do and do not |
| Sequentially consistent order: search | `ScChoices`, `ScGeneration`, `ScSearch`, `ScOrders`, `ScRoutes`, `ScRespected`, `ScSettledRuns`, `ScConsistency`, `ScShadowed`, `ScLinear`, `ScPruning`, `ScComplete`, `ScAnalysis` | the search ends with a permutation that keeps thread order; settled runs keep to every rule; taking a candidate without a choice loses nothing; on tractable traces the search meets a cycle exactly if no order keeps to every rule, and then no order is sequentially consistent |

Objects whose methods change them are classes with `modifies` clauses (the graph and its nodes, clock vectors, the
execution, shadow cells, the snapshotter, nodes and scheduler, the hash table, the tree bins, the mspace, the
analysis). Their methods are proved against specification functions on values, and the theorems are about those.
Theory modules know no heap. Addresses, locations, threads and actions are numbers; an action's number is its place
in the trace.

Where the code and its comments disagree, the model follows the code:

- A seq_cst load counts as having release order (action.cc:219-229), so the search for the last release of a thread can
  stop at a load and report it as a head. `ReleaseSequences.LoadReported` gives the trace, and
  `ReleaseSequences.HeadSynchronizes` says that loads are the only such heads, and
  `ReleaseCompleteness.AllHeadsSynchronize` which traces have none.
- The passes over the clocks do not count all changes (scanalysis.cc:440-442 and scanalysis.cc:381), so they can stop
  before a fixpoint. `ScUnsettled.NotSettled` gives the trace. `ScSettled.SettledIsLeast` says exactly when it happens,
  against the least solution of the rules, and `ScTraces.TraceSettles` gives a condition on the trace alone under which
  it does not. That condition is not necessary (`ScUnsettled.SettledAllTheSame`).
- The search reports a trace as sequentially consistent if it meets no cycle (scanalysis.cc:116-122), but it ignores the
  read's own thread and the writer's (scanalysis.cc:385-388), so a read may see another write in the order found.
  `ScShadowed.NotConsistent` gives the trace, `ScConsistency.ReadsSee` says exactly when a read does in a run whose
  clocks are settled, and `ScConsistency.TraceConsistent` is a condition on the trace under which every read sees what it
  observed in every order found without a cycle.
- Copying a write's edges to its reader is said to add no cycle (cyclegraph.cc:260-265). `GraphTheory.AddRmwEdgeExact`
  says exactly when it does not, and that both reasons given suffice; `GraphTheory.MissedCycle` is a graph where it does.
- A table of capacity 1 or 2 with the usual load factor fills up, and a search for a missing key then does not end:
  `HashTables.HalfRoomy` and `HashTables.CanFillUp`.
- A table whose capacity is no power of two has slots that no probe reaches: `Masks.MaskExactly`, `Masks.SlotMissed`.
- Narrowing the shifted size to 32 bits sends some sizes from 2^40 on to a wrong tree bin: `TreeIndices.WrongBin` is
  one, `TreeIndices.IndexRightExactly` says which.
- Merging a promise into the end of its reader's own chain makes the chain circular (`GraphCircles.HandOverExactly`).
  Without earlier merges the merge still ends: it succeeds into the reader itself and fails further down
  (`MergeOutcomes.RunMerges`). But after such a success the next new edge from the reader is never finished
  (`MergeFailures.StuckAfterMerge`), and after an earlier merge the merge itself may not end
  (`MergeFailures.NeverAfterMerge`); `MergeOutcomes.CircularOutcome` says exactly when.

A trace is called tractable (`ScComplete.Tractable`) if starts come first in their threads, reads look back, and third
writes are all late or no late one is reached from a write whose clock may still grow: the traces of
`ScTraces.TraceSettles`. An order keeps to every rule (`ScLinear.Lawful`) if it keeps program order, creations, joins and
reading, and puts no write of a third thread between a read and the write it observed.

The code asserts that only a cycle makes the clocks block every front (scanalysis.cc:203). This holds in every state of
every run on the traces of `ScSettledRuns.RunsDecide`, in every settled run (`ScRespected.RunRespected`), and at the start
of any trace whose clocks are a fixpoint (`ScSettledRuns.StartDecides`). Nothing is said here about unsettled states.

## Model

| member | source | states |
|---|---|---|
| CycleGraphs.CycleNode.AddEdge | cyclegraph.cc:614-622 | An edge is added once, on both ends, and the call tells whether it was new. |
| CycleGraphs.CycleNode.RemoveEdge | cyclegraph.cc:583-592 | The last edge is popped and one entry of the target's back list goes with it. |
| CycleGraphs.CycleNode.RemoveBackEdge | cyclegraph.cc:598-607 | The same from the other end. |
| CycleGraphs.CycleNode.SetRMW | cyclegraph.cc:636-642 | The first reader stays; a second one is refused. |
| CycleGraphs.RemoveNode | cyclegraph.cc:567-577 | Exactly the first occurrence is removed. |
| CycleGraphs.SearchNodes | cyclegraph.cc:395-415 | The work-list search answers reachability exactly, in both directions. |
| CycleGraphs.ChainEnd | cyclegraph.cc:207-217 | Wherever the walk along the readers stops, it is found: the end of the chain or the target. |
| CycleGraphs.CycleGraph.constructor | cyclegraph.cc:8-14 | No nodes, no cycle, nothing logged. |
| CycleGraphs.CycleGraph.GetNode | cyclegraph.cc:87-95 | The node of an action; a new one has no edges and leaves the rest as it was. |
| CycleGraphs.CycleGraph.AddNodeEdge | cyclegraph.cc:198-227 | Wherever the call ends: the edge, the derived edge at the end of the reader chain, the flag and the log, as the specification has them. |
| CycleGraphs.CycleGraph.AddEdge | cyclegraph.cc:293-303 | The same between two actions, with nodes made on first use, and whether the edge was new. |
| CycleGraphs.CycleGraph.AddRMWEdge | cyclegraph.cc:241-275 | For a reader that nobody reads from yet, as asserted: it is set, the write's edges are copied to it, it is ordered after the write; edges and readers are logged. |
| CycleGraphs.CycleGraph.CheckReachable | cyclegraph.cc:423-433 | True exactly if both actions have nodes and one reaches the other. |
| CycleGraphs.CycleGraph.CommitChanges | cyclegraph.cc:482-487 | The logs are emptied and the flag is kept for the next rollback. |
| CycleGraphs.CycleGraph.RollbackChanges | cyclegraph.cc:490-501 | Popping the logged edges and clearing the logged readers, in the order of the logs. |
| CycleGraphs.CycleGraph.MergeNodes | cyclegraph.cc:151-190 | Wherever the call ends: graph, flag and answer are those of the specification, whose outcome the rows of `MergeOutcomes` and `MergeExactness` tell beforehand. On success the promise's edges and reader are the write's, all other edges and readers are kept, every further edge is one of the promise's with the write in its place or leads there from a reader behind it, and there is no cycle. |
| CycleGraphs.CycleGraph.ResolvePromise | cyclegraph.cc:125-138 | A write with a node takes the promise's node over by merging, with the same outcome; one without takes the node itself. |
| GraphTheory.AddNodeEdgeExact | cyclegraph.cc:198-227 | In an acyclic graph the flag goes up exactly if the new edges close a cycle. |
| GraphTheory.AddNodeEdgeDominates | cyclegraph.cc:198-227 | Whatever follows a write is reachable from its reader, after every edge addition. |
| GraphTheory.AddNodeEdgeInv | cyclegraph.cc:198-227 | Adding an edge keeps the invariant that ties edges and flag to the requests made so far. |
| GraphTheory.AddRmwEdgeFirst | cyclegraph.cc:241-275 | The graph after a first reader: which pairs there are, and when the flag goes up. |
| GraphTheory.AddRmwEdgeTaken | cyclegraph.cc:241-275 | A second reader of one write raises the flag, leaves all readers as they are, keeps the edges and orders the refused one after the write; the invariant holds. |
| GraphTheory.AddRmwEdgeInv | cyclegraph.cc:241-275 | Attaching a reader keeps the invariant. |
| GraphTheory.AddRmwEdgeExact | cyclegraph.cc:259-274 | The copied edges are not checked: with the flag down, the graph is free of cycles exactly if nothing after the write comes before the reader. A reader without incoming edges, or a write without outgoing ones, rules that out. |
| GraphTheory.MissedCycle | cyclegraph.cc:259-274 | A write, one after it, and a third after that: making the third the reader of the first closes a cycle with the flag down. |
| GraphTheory.FlagDecides | cyclegraph.cc:198-275 | The flag is down exactly if some total order keeps every requested edge and puts every read-modify-write right behind the write it reads. |
| GraphRuns.RunDecides | cyclegraph.cc:198-303 | The same after every run of calls, commits and rollbacks. |
| GraphRuns.RunEnds | cyclegraph.cc:207-217 | In every state of every run of calls, commits and rollbacks, every walk along the readers stops, so adding an edge ends. |
| GraphRollback.RollbackRestores | cyclegraph.cc:490-501 | Undoing the logs gives the committed graph, followed by nodes without edges. |
| GraphRuns.RunRollback | cyclegraph.cc:474-501 | From any point of any run, rollback gives graph, flag and requests of the last commit. |
| GraphRuns.RunLastCommit | cyclegraph.cc:482-487 | The last commit is the state in which commit was last called. |
| GraphMerge.MovedBackKeeps | cyclegraph.cc:166-174 | While no cycle shows, moving a back edge takes the last one off the promise and keeps it at the write. |
| GraphMerge.MovedEdgeKeeps | cyclegraph.cc:176-184 | The same for forward edges. |
| GraphMerge.MergeMeets | cyclegraph.cc:151-190 | A merge that ends succeeds exactly if the readers do not clash and the flag is down then; and then the promise's edges and reader are the write's, and nothing else has changed. |
| GraphCircles.HandOverExactly | cyclegraph.cc:161-164 | Handing the reader over makes some walk go on for ever exactly if the write is on the reader's chain. |
| GraphCircles.CircleExactly | cyclegraph.cc:161-217 | Once the end of a chain has the reader that the chain starts from, exactly the walks towards nodes of the chain stop. |
| GraphCircles.AddNodeEdgeCovered | cyclegraph.cc:198-227 | Adding an edge keeps this: every edge of a write leads to its readers' chain or is also an edge of the end of that chain. |
| GraphCircles.AddRmwEdgeCovered | cyclegraph.cc:241-275 | So does attaching a reader. |
| GraphCircles.RunCovered | cyclegraph.cc:198-303 | It holds in every state of every run of calls, commits and rollbacks. |
| MergeOutcomes.MergeEnds | cyclegraph.cc:151-190 | A merge ends wherever the edges are covered in this way, and always if the write is off the chain of the promise's reader. |
| MergeOutcomes.BackMovesExactly | cyclegraph.cc:166-174 | With the flag down, moving the back edges fails exactly if one of the edges it adds, which can be listed beforehand, closes a cycle. |
| MergeOutcomes.CircularOutcome | cyclegraph.cc:151-190 | The outcome of every merge with the flag down, told from the graph before it: off the chain of the promise's reader it ends; at the end of that chain it fails if a back edge closes a cycle, succeeds if the write has all the promise's edges, and otherwise the last edge it lacks decides: towards the chain it fails, anywhere else it never ends. |
| MergeOutcomes.FlaggedOutcome | cyclegraph.cc:151-190 | With the flag up, exactly which merges never end. |
| MergeOutcomes.CoveredOutcome | cyclegraph.cc:151-190 | Where the edges are covered, merging into the end of the chain of the promise's reader ends, and succeeds exactly if that end is the reader itself. |
| MergeOutcomes.RunMerges | cyclegraph.cc:151-190 | After every run of calls, commits and rollbacks every merge ends, and leaves what it should if it succeeds. Into a node on the chain of the promise's reader it succeeds exactly if that is the reader, nobody reads from it and no cycle was known; further down it fails. |
| MergeExactness.MergeExactly | cyclegraph.cc:151-190 | A merge that ends succeeds exactly if the flag was down, the readers do not clash, and there is no cycle once promise and write are one node: in the other edges, in those of the promise with the write in its place, and in those that lead there from the end of a reader chain. |
| MergeExactness.RunMergesExactly | cyclegraph.cc:151-190 | After every run of calls, commits and rollbacks every merge ends, and exactly those succeed. |
| MergeFailures.OwnReaderStuck | cyclegraph.cc:160-217 | After a promise is merged into its own reader, adding an edge from there to another node ends only if the edge is there already. |
| MergeFailures.StuckAfterMerge | cyclegraph.cc:160-217 | The calls: 1 becomes the reader of the promise 0, 0 is merged into 1 with success, and ordering 1 before a new node never ends. |
| MergeFailures.NeverAfterMerge | cyclegraph.cc:151-217 | Calls after which a merge itself never ends: two promises, each with its reader, an edge from the first promise, the second merged into the first reader with success, and then the first into the second reader. |
| Clocks.ClockVector.constructor | clockvector.cc:17-29 | The parent's clock with the action's own number. |
| Clocks.ClockVector.Merge | clockvector.cc:42-61 | The entrywise maximum; true exactly if an entry grew. |
| Clocks.ClockVector.SynchronizedSince | clockvector.cc:75-82 | Whether the action's number is below the entry of its thread. |
| Clocks.ClockVector.GetClock | clockvector.cc:85-92 | The entry, 0 for threads beyond the vector. |
| HappensBefore.ClockedTrace.GetParentAction | execution.cc:2359-2365 | The thread's last action, or for its first one exactly the action given as its creation. |
| HappensBefore.ClockedTrace.NewAction | action.cc:399-405 | The new clock is the parent's with the own number, the parent being the thread's last action or the creation given; clocks stay equal to reachability, and the creation of a thread reaches its first action. |
| HappensBefore.ClockedTrace.Synchronize | execution.cc:1165-1173 | The acquire takes over the release's clock, unless the release runs later. |
| HappensBefore.ClockedTrace.PropagateClockvector | execution.cc:2127-2144 | Exactly the later actions that the acquire happens before take over its clock. |
| HappensBefore.ClockedTrace.SynchronizeLate | execution.cc:2159-2199 | Release sequences settled late: the acquire takes in all heads it does not know, passes its clock on once, and the clocks are exact for the relation with all those edges; a head after the acquire only raises the flag. |
| HappensBefore.ClockedTrace.HappensBefore | action.cc:530-533 | The clock test is reachability. |
| HappensBefore.GatherAll | execution.cc:2177-2186 | Several heads taken in at once and passed on in one forward pass leave all clocks exact. |
| HappensBefore.SyncExact | execution.cc:2127-2144 | One forward pass after a late edge is enough for all clocks to be exact. |
| HappensBefore.RunExact | execution.cc:1135-1173 | In every run of actions and synchronizations, early or late, clock order is reachability. |
| HappensBefore.RunCreates | execution.cc:2359-2365 | In every run, the action that created a thread happens before everything the thread does. |
| HappensBefore.ExactUnique | clockvector.cc:42-82 | Exact clocks are determined by the relation alone. |
| HappensBefore.LateIsEarly | execution.cc:2159-2199 | Finding an edge late ends with the same clocks as finding it early. |
| Coherence.RequestsSuffice | execution.cc:1574-1809 | A modification order that meets the requested edges satisfies the coherence rules of section 1.10 and the fence and seq_cst rules of section 29.3 of C++11. |
| Coherence.RequestsNeeded | execution.cc:1574-1809 | An order that satisfies those rules meets every request. |
| Coherence.StepCoherent | execution.cc:1245-1348 | An action whose edges are complete and justified keeps the execution coherent. |
| Scans.SameThreadOrdered | execution.cc:1574-1668 | Older accesses of one thread and location are already ordered before what a later one made or observed. |
| Scans.ReadStopOrders | execution.cc:1574-1668 | One edge for the most recent access that must precede a read orders all that must. |
| Scans.WriteStopOrders | execution.cc:1694-1809 | The same for a write. |
| Scans.HeadsCovered | execution.cc:611-668 | Edges computed before a read synchronizes also cover what the synchronization adds. |
| ScanLoops.LastScFence | execution.cc:2314-2337 | The last seq_cst fence of a thread before a given one. |
| ScanLoops.LastScWrite | execution.cc:2291-2304 | The last seq_cst write of a location. |
| ScanLoops.ReadScan | execution.cc:1599-1656 | The backward scan stops at the most recent access of a thread that must precede the read, if there is one. |
| ScanLoops.WriteScan | execution.cc:1720-1796 | The same for a write. |
| ScanLoops.ReadThreadCovered | execution.cc:1587-1657 | After one thread's scan everything of it that must precede the read is ordered. |
| ScanLoops.WriteThreadCovered | execution.cc:1713-1797 | The same for a write. |
| ScanLoops.ScWriteCovered | execution.cc:1701-1708 | The edge from the last seq_cst write covers all earlier ones. |
| Steps.ReadStep | execution.cc:611-668 | A read with its edges and its synchronization keeps the execution coherent. |
| Steps.WriteStep | execution.cc:833-878 | A write does. |
| Steps.RmwStep | execution.cc:1441-1452 | A read-modify-write does: read, reader edge, write. |
| Steps.OtherStep | execution.cc:885-996 | Fences, locks and thread actions do, whatever they synchronize with. |
| Executions.Execution.constructor | execution.cc:64-90 | The empty execution is coherent, with nothing asked and nothing put off. |
| Executions.Execution.AddAction | execution.cc:2208-2253 | An action joins trace, lists and clocks, and is related to its parent only: the thread's last action or the creation given. |
| Executions.Execution.AddToLists | execution.cc:2208-2253 | The per-location, per-thread lists hold exactly the actions of the trace, in order. |
| Executions.Execution.RModificationOrder | execution.cc:1574-1668 | For every thread, whatever must precede the read is ordered before what it observes; every new edge has a reason. |
| Executions.Execution.WModificationOrder | execution.cc:1694-1809 | Whatever must precede the write is ordered before it; every new edge has a reason. |
| Executions.Execution.ReadFrom | execution.cc:1135-1151 | An acquire read is related to exactly the heads that the search reports, an incomplete search is put off with what it found open, and any other read is related to nothing. |
| Executions.Execution.ProcessRead | execution.cc:611-668 | A read leaves the execution coherent and its clocks exact; it is related to its parent and the reported heads and to nothing else, what created its thread happens before it, and, unless the graph is cyclic, so does every release write an acquire walks past, or the release fence before one that is no release. |
| Executions.Execution.ProcessWrite | execution.cc:833-878 | A write leaves the execution coherent and its clocks exact, related to its parent only; what created its thread happens before it. |
| Executions.Execution.ProcessRmw | execution.cc:1441-1452 | A read-modify-write does what a read and a write do, with its place right after the write it observes; what it synchronizes with is decided before its own write. |
| Executions.Execution.ProcessOther | execution.cc:1245-1348 | Every other action is related to its parent and to exactly the given actions, all of which happen before it. |
| Feasibility.Replay | execution.cc:1245-1348 | The edges an execution asks for are a run of graph calls that the graph accepts one by one. |
| Feasibility.FlagMeansCoherent | execution.cc:1429-1436 | Given what a coherent execution asked, the flag is down exactly if some modification order satisfies the C++11 rules. |
| Feasibility.EdgesForced | cyclegraph.cc:198-275 | Every edge of the graph is in every modification order those rules admit. |
| CheckedExecutions.GraphServes | cyclegraph.cc:395-433 | The graph answers every reachability question as an execution requires it, and reports a cycle whenever there is one. |
| CheckedExecutions.FlagSeen | execution.cc:1429-1436 | An execution that consults the graph: its requests are a run of graph calls, the flag it sees is down exactly if the C++11 rules admit a modification order, and every edge is in all such orders. |
| CheckedExecutions.EdgesAreWrites | execution.cc:1429-1436 | If some modification order fits, every edge of the graph that an execution makes starts at a write, which is what the completeness of release sequences asks of a relation. |
| CheckedExecutions.AcquireComplete | execution.cc:1135-1151 | After an acquire with nothing put off, all that synchronizes with it in any fitting modification order happens before it, or synchronizes with an acquiring read-modify-write that does. |
| ReleaseSequences.ReleaseSeqHeads | execution.cc:1938-2080 | All that is reported is a head; every release write walked past, every release fence before one, and the last release of the end of the chain exactly if it is secured are reported; complete says that nothing is left open, and otherwise the open writes are exactly those not placed. |
| ReleaseSequences.WalkChain | execution.cc:1946-1986 | The walk down the read-modify-writes collects every release on the chain. |
| ReleaseSequences.LastReleaseFence | execution.cc:2274-2281 | The last release fence of a thread. |
| ReleaseSequences.FindRelease | execution.cc:1987-2011 | The last access with release order, unless a release fence is more recent. |
| ReleaseSequences.CheckThread | execution.cc:2018-2070 | One other thread: split exactly if an unplaced write of it stands in between; otherwise exactly its unplaced writes, and its future is ordered exactly if one of its accesses is after the write that is read. |
| ReleaseSequences.Judge | execution.cc:2017-2080 | Certain exactly if no recorded write can stand in between and every other thread is settled or has an ordered future; split exactly if an unplaced write stands in between; otherwise uncertain, with exactly the unplaced writes. |
| ReleaseSequences.LastRelease | execution.cc:1976-2080 | The end of the chain: its thread's last release is reported if it is secured, and left open with its unplaced writes if that is uncertain. |
| ReleaseSequences.ContiguousInSequence | execution.cc:2017-2080 | Judged contiguous: in every fitting modification order no foreign write is between release and read-from. |
| ReleaseSequences.HeadSynchronizes | execution.cc:1938-2080 | A reported head synchronizes in the sense of C++11 in every fitting modification order, exactly if it is not a load. |
| ReleaseSequences.LoadReported | execution.cc:1996-2011 | A seq_cst load between two relaxed stores of a thread is reported as a head, and does not synchronize. |
| ReleaseSequences.HeadIsHead | execution.cc:1938-2080 | Any head is a write of the chain or happens before one, so coherence survives even then. |
| ReleaseCompleteness.AllHeadsSynchronize | execution.cc:1938-2080 | Where no load is the last release of a chain write's thread, every reported head synchronizes in every fitting modification order. |
| ReleaseCompleteness.HeadsComplete | execution.cc:1938-2080 | When the search is complete, for any relation whose pairs start at writes, whatever synchronizes in some fitting order is reported, happens before a reported head, or synchronizes with one that is itself an acquire. |
| ReleaseSequences.StaysContiguous | execution.cc:2023-2055 | A sequence judged complete stays contiguous in every continuation in which settled threads do not write again. |
| ReleaseSequences.FutureOutside | execution.cc:2023-2055 | A thread whose future is ordered cannot split the sequence later. |
| DataRaces.DecodeEncode | datarace.h:65-90 | What is packed into a shadow word is found again in all four fields. |
| DataRaces.MacrosAreArithmetic | datarace.h:65-90 | On 64-bit words the shifts and masks are the divisions used here. |
| DataRaces.RaceRecord.Shorten | datarace.cc:270-292 | The reads that must stay, in order, and no others. |
| DataRaces.ShadowCell.ExpandRecord | datarace.cc:81-103 | The full form stands for the same record as the word. |
| DataRaces.ShadowCell.CheckWriter | datarace.cc:194-202 | The last write is reported exactly if it is unordered with the access. |
| DataRaces.ShadowCell.CheckReaders | datarace.cc:179-192 | Of the kept reads exactly the unordered ones of other threads are reported. |
| DataRaces.ShadowCell.FullRaceCheckWrite | datarace.cc:175-208 | Full form: reports and new record are those of the abstract detector. |
| DataRaces.ShadowCell.RaceCheckWrite | datarace.cc:211-253 | Word or full form: the same reports and the same record; the word is given up exactly if thread or clock do not fit. |
| DataRaces.ShadowCell.FullRaceCheckRead | datarace.cc:256-312 | Full form of the read check. |
| DataRaces.ShadowCell.RaceCheckRead | datarace.cc:315-358 | Word or full form of the read check; the word is given up exactly if thread or clock do not fit or more than one read has to be kept. |
| DataRaces.Detect | datarace.cc:175-358 | Over a whole run: nothing is reported exactly if the run has no race, and every report names one. |
| RaceTheory.MayRaceExact | datarace.cc:71-75 | The clock test tells exactly whether the earlier access happens before the current one. |
| RaceTheory.OwnClock | datarace.cc:206-207 | A thread's entry in its own clock is the number of its last action. |
| RaceTheory.AlwaysRepresents | datarace.cc:175-358 | All along a run the record is the image of the accesses that have to be kept. |
| RaceTheory.ReportsAreRaces | datarace.cc:175-358 | Every report is a race by the definition, which knows no records. |
| RaceTheory.FirstRaceReported | datarace.cc:175-358 | While nothing raced before, an access is reported exactly if it races with an earlier one. |
| RaceTheory.RaceFreeIffQuiet | datarace.cc:175-358 | A run has a race exactly if something is reported. |
| Snapshots.Snapshotter.constructor | snapshot.cc:140-191 | Nothing protected, no snapshots. |
| Snapshots.Snapshotter.HandlePf | snapshot.cc:109-138 | A fault saves the page and lets it be written; without room no page, protection or snapshot changes. |
| Snapshots.Snapshotter.WritePage | snapshot.cc:109-138 | A store changes one page and reads back, saving the page first if needed; all other pages stay, and if saving fails nothing is stored. |
| Snapshots.Snapshotter.TakeSnapshot | snapshot.cc:209-229 | All pages are protected and a new snapshot stands for the memory as it is. |
| Snapshots.Snapshotter.RestoreAll | snapshot.cc:234-239 | Copying all saved pages back, in order. |
| Snapshots.Snapshotter.RestoreFirst | snapshot.cc:244-261 | Copying back only the first save of each page. |
| Snapshots.Snapshotter.RollBackTo | snapshot.cc:231-265 | Every page holds what it held at the snapshot; older snapshots stand for what they did. |
| SnapshotTheory.WriteKeepsImages | snapshot.cc:109-138 | A store leaves what every live snapshot stands for. |
| SnapshotTheory.TakeKeepsImages | snapshot.cc:209-229 | So does another snapshot. |
| SnapshotTheory.RollBackKeepsImages | snapshot.cc:231-265 | Rolling back gives the snapshot's memory, and it and the older ones keep standing for theirs. |
| SnapshotTheory.RunKeepsImage | snapshot.cc:109-265 | Along every run a live snapshot stands for the memory it was taken of. |
| SnapshotTheory.RunRestores | snapshot.cc:109-265 | Rolling back to a live snapshot at any later time gives back its memory. |
| SnapshotTheory.CopyAllIsCopyFirst | snapshot.cc:233-261 | When no page is saved twice, both ways of copying back agree. |
| SnapshotTheory.TunedSame | snapshot.cc:231-265 | Tuned or not, the same steps give the same memory at every point. |
| Scheduling.Node.GetYieldData | nodestack.cc:95-100 | The flags of a pair, those of an unknown thread for threads beyond the node. |
| Scheduling.Node.UpdateYield | nodestack.cc:102-143 | The node's pairs are those the specification derives from its parent's, which `YieldTheory.WaitsExactly` tells from the turns alone; a node without a parent has new pairs. |
| Scheduling.Scheduler.SetEnabled | schedule.cc:56-71 | The table grows as needed; one entry changes. |
| Scheduling.Scheduler.SelectNextThread | schedule.cc:215-255 | The first eligible thread in the order that begins after the last one and ends with it, under the fairness and yield rules; none exactly if none is eligible. |
| Scheduling.SomeoneCanRun | schedule.cc:231-251 | If waiting is acyclic and a thread is enabled, one can be picked. |
| Scheduling.StuckOnlyIfDone | schedule.cc:215-255 | In every run: nobody can be picked exactly if nobody is enabled. |
| Scheduling.PickedExactly | schedule.cc:215-255 | In every run, with yields on, a thread may be picked exactly if it is enabled, of the required priority, and owes no thread a turn that is not disabled. |
| Scheduling.StarvedComesFirst | nodestack.cc:102-143 | A thread passed over between two yields of another is not overtaken by it again before it runs. |
| YieldTheory.NextAcyclic | nodestack.cc:102-143 | One update keeps waiting free of circles. |
| YieldTheory.RunAcyclic | nodestack.cc:102-143 | So does every run. |
| YieldTheory.WaitsExactly | nodestack.cc:102-143 | Along every run of turns, t must wait for v exactly if v has not run since the first of two yields of t between which v could run all the time, or lost that by a step of t. |
| YieldTheory.MustWait | nodestack.cc:402-405 | In particular, after the second of two yields between which another thread stayed enabled without running, the yielding thread has to wait for it. |
| HashTables.HashTable.constructor | hashtable.h:56-65 | An empty table for the empty map, of any power of two; puts keep an empty slot exactly if the capacity leaves room. |
| HashTables.HashTable.Reset | hashtable.h:93-96 | The empty map again. |
| HashTables.HashTable.Put | hashtable.h:103-126 | The map with the key's value replaced, by masked probing that ends if a slot is free, the key is there, or the table is due to grow; it doubles exactly if the threshold is passed, and a table that leaves room keeps doing so. |
| HashTables.HashTable.Get | hashtable.h:133-148 | The map's value, or the default for a missing key; masked probing ends if a slot is free or the key is there. |
| HashTables.HashTable.Contains | hashtable.h:155-170 | Membership in the map, under the same condition. |
| HashTables.HashTable.Resize | hashtable.h:176-211 | A larger table for the same map, its capacity again a power of two. |
| HashTables.NeverFull | hashtable.h:103-126 | With room for it, a put always leaves an empty slot. |
| HashTables.HalfRoomy | hashtable.h:56-65 | With load factor one half there is room exactly from capacity 3 on. |
| HashTables.RoomyDoubles | hashtable.h:107-108 | Doubling keeps the room. |
| HashTables.CanFillUp | hashtable.h:103-148 | Without the room, puts can fill the table, and then a search for another key finds no end. |
| Masks.MaskExactly | hashtable.h:113-124 | Masking by capacity minus one is the remainder for every index exactly if the capacity is a power of two. |
| Masks.SlotMissed | hashtable.h:113-124 | Of any other capacity, some slot is under no mask, so no probe ever looks at it. |
| Masks.AndOnWords | hashtable.h:114 | On 32-bit words the operator is the one defined here on numbers: the number of the conjunction is the conjunction of the numbers. |
| Masks.NumCounts | hashtable.h:114 | The number of a word is what counting up from zero gives, one more at each step. |
| TreeIndices.IndexRight | malloc.c:2822-2834 | Sizes below the limit get the bin whose range holds them. |
| TreeIndices.IndexRightExactly | malloc.c:2822-2834 | From the limit on, narrowing the shifted size to 32 bits picks the right bin exactly under the stated condition. |
| TreeIndices.WrongBin | malloc.c:2822-2834 | The size 2^40 gets bin 0, whose range does not hold it. |
| TreeIndices.BinsOrdered | malloc.c:2894-2897 | Sizes of a lower bin are smaller than those of a higher one. |
| TreeIndices.SizeBitsOrder | malloc.c:2889-2892 | Within a bin the shifted words have the order of the sizes. |
| TreeIndices.BitsSame | malloc.c:3278-3326 | The 64 bits of a path determine the size. |
| TrieTheory.PlacesUnique | malloc.c:3278-3326 | No two nodes stand at one place. |
| TrieTheory.LeftSmaller | malloc.c:3278-3326 | All sizes left of a place are below all sizes right of it. |
| TrieTheory.GoesOn | malloc.c:3641-3657 | If the size is in the bin, the search down never ends early. |
| TreeBins.LargeBins.constructor | malloc.c:3278-3339 | Empty bins. |
| TreeBins.LargeBins.InsertLargeChunk | malloc.c:3625-3674 | One more chunk with its size; all invariants of the tries, rings and map are kept. |
| TreeBins.LargeBins.UnlinkLargeChunk | malloc.c:3693-3762 | Exactly that chunk is gone; all invariants are kept. |
| TreeBins.LargeBins.UnlinkWaiting | malloc.c:3696-3706 | A chunk outside the tree leaves its ring. |
| TreeBins.LargeBins.UnlinkShared | malloc.c:3693-3762 | Another chunk of the ring takes a node's place. |
| TreeBins.LargeBins.UnlinkLeaf | malloc.c:3707-3762 | A leaf goes, and an emptied bin's map bit. |
| TreeBins.LargeBins.UnlinkInner | malloc.c:3707-3762 | The rightmost descendant takes an inner node's place. |
| TreeBins.LargeBins.BestFit | malloc.c:4409-4455 | The least size not below the request; none exactly if all are smaller. |
| TreeBins.LargeBins.SearchPath | malloc.c:4414-4437 | After the walk along the path the best fit is in hand or under the node returned. |
| TreeBins.LargeBins.LeastFrom | malloc.c:4448-4455 | The best of a subtree by its left side. |
| TreeBins.LargeBins.LeastChunk | malloc.c:4480-4496 | The least chunk of all. |
| HeapSteps.TakeWhole | malloc.c:3043-3046 | Marking a free chunk as used keeps tags and cut. |
| HeapSteps.TakeFront | malloc.c:5517-5522 | So does splitting one. |
| HeapSteps.TakeTop | malloc.c:5564-5569 | So does carving from the top. |
| HeapSteps.Release | malloc.c:5602-5663 | A released chunk and its free neighbours are one free chunk with right tags. |
| HeapSteps.ReleaseToTop | malloc.c:5633-5644 | Next to the top it becomes part of the top. |
| Mspaces.Mspace.constructor | malloc.c:3873-3885 | The segment is one top chunk. |
| Mspaces.Mspace.InsertChunk | malloc.c:3766-3768 | The chunk is in the bin of its size and in no other place. |
| Mspaces.Mspace.UnlinkChunk | malloc.c:3770-3772 | The chunk is in no bin. |
| Mspaces.Mspace.InsertSmallChunk | malloc.c:3547-3563 | A small bin and its map bit. |
| Mspaces.Mspace.UnlinkSmallChunk | malloc.c:3566-3589 | The chunk leaves its small bin; an emptied bin loses its map bit. |
| Mspaces.Mspace.UnlinkFirstSmallChunk | malloc.c:3592-3607 | The same for the first chunk. |
| Mspaces.Mspace.ReplaceDv | malloc.c:3611-3620 | The old victim is binned. |
| Mspaces.Mspace.FromDv | malloc.c:5544-5562 | The victim, which was not in use, is used whole or split; the rest stays the victim. |
| Mspaces.Mspace.MallocSmall | malloc.c:5481-5533 | A smallest chunk of the bins that fits, if it is in a small bin and leaves no rest to speak of or the victim is too small, and its rest becomes the victim; otherwise nothing changes and the bins are rightly passed over. |
| Mspaces.Mspace.TmallocLarge | malloc.c:4409-4477 | A smallest chunk of the trees that fits, unless the victim fits at least as well or nothing fits; the victim stays. |
| Mspaces.Mspace.Malloc | malloc.c:5472-5584 | A chunk that was not in use before, aligned, that holds the request and is disjoint from every block in use; all others as before. Which one follows the documented order: a best fit of the bins where that is preferred to the victim, the victim, the front of the top; failure only if neither a free chunk nor the top is large enough. |
| Mspaces.Mspace.Free | malloc.c:5586-5685 | Exactly that chunk stops being used; every invariant holds again, no two free chunks touch, and the victim is the chunk it has become part of, or none if that is the top. |
| Mspaces.Mspace.MeltIntoDv | malloc.c:5620-5624 | The victim in front grows. |
| Mspaces.Mspace.MeltIntoTop | malloc.c:5633-5644 | The top grows downwards. |
| Mspaces.Mspace.MeltDvBehind | malloc.c:5645-5650 | The victim behind grows downwards. |
| Mspaces.Mspace.MeltBehind | malloc.c:5651-5660 | A free chunk behind leaves its bin and melts in. |
| Mspaces.Mspace.MeltAlone | malloc.c:5662-5676 | Nothing free behind. |
| Mspaces.Mspace.LiveApart | malloc.c:3400-3428 | Live chunks lie in the segment and do not overlap. |
| HeapEffects.GotApart | malloc.c:5472-5584 | A newly used chunk is aligned and disjoint from everything in use before. |
| HeapRuns.StaysLive | malloc.c:5472-5685 | In every run, a block stays in use until it is given back. |
| HeapRuns.RunApart | malloc.c:5472-5685 | In every run, a block handed out is aligned and never overlaps one handed out before and not given back. |
| Mspaces.Mspace.OnePlace | malloc.c:3432-3458 | A free chunk is the victim, or in the small bin of its size, or in the trees: in exactly one place. |
| Mspaces.Mspace.NoTwoFree | malloc.c:3241-3261 | The chunks fill the segment and no two neighbours are free. |
| Mspaces.RequestCovered | malloc.c:2215-2221 | The padded size is aligned, large enough, and holds the request and its tag. |
| ScAnalysis.SCAnalysis.MergeInto | scanalysis.cc:136-147 | One clock takes in another unless that closes a cycle. |
| ScAnalysis.SCAnalysis.ProcessRead | scanalysis.cc:375-419 | The loops over threads and writes compute the specified clocks and flag. |
| ScAnalysis.SCAnalysis.ComputeCV | scanalysis.cc:421-458 | The passes end, with the clocks the specification gives. |
| ScAnalysis.SCAnalysis.GetNextActions | scanalysis.cc:149-206 | The fronts that no other front precedes by the computed clocks, or if there are none, by happens-before. |
| ScAnalysis.SCAnalysis.PruneArray | scanalysis.cc:208-253 | The candidate that `ScChoices.PrunedExactly` describes, or none. |
| ScChoices.ConflictsExactly | scanalysis.cc:231-249 | A candidate has a conflict exactly if another thread still has a write of its location to come, and no write of that thread up to it has the candidate in its clock. |
| ScChoices.PrunedExactly | scanalysis.cc:208-253 | A single candidate is taken; of several the earliest that is no write, or if all are writes the earliest without a conflict; otherwise a choice is left. |
| ScPruning.AdvancedLawful | scanalysis.cc:208-253 | An order that keeps to every rule still does so after an action is moved forward past others, if what it follows and the reads that third-write rules put before it are out already, and the rules put third writes of its readers after it. |
| ScPruning.PrunedGoesOn | scanalysis.cc:208-253 | In a settled state of any run, on any regular trace: if any candidate goes on to an order that keeps to every rule, the one taken without a choice does. |
| ScComplete.EndLawful | scanalysis.cc:255-317 | Candidates of whatever kind, taken one after the other over the whole trace without a cycle, make an order that keeps to every rule. |
| ScComplete.PruningLosesNothing | scanalysis.cc:208-317 | If from a state of the search any candidates at all, also such as are never tried, lead to the end without a cycle, then so do some choices of the search that go on from the same state. |
| ScAnalysis.SCAnalysis.UpdateConstraints | scanalysis.cc:349-373 | In each other thread, the first write to come of the action's location that is not after it yet is put after it. |
| ScAnalysis.SCAnalysis.BuildVectors | scanalysis.cc:319-333 | Every thread's list is its actions in order. |
| ScAnalysis.SCAnalysis.Reset | scanalysis.cc:335-347 | No lists, no clocks, no cycle. |
| ScAnalysis.SCAnalysis.Choose | scanalysis.cc:271-286 | The action the plan picks; the recorded choices and the last open one stay right. |
| ScAnalysis.SCAnalysis.Take | scanalysis.cc:287-295 | The state after taking an action, and whether that met the first cycle. |
| ScAnalysis.SCAnalysis.RollBack | scanalysis.cc:298-308 | The search starts over with a larger plan, and every smaller one is ruled out. |
| ScAnalysis.SCAnalysis.GenerateSC | scanalysis.cc:255-317 | The search ends with a permutation of the trace that keeps every thread's order, and with the flag of the run it took; if its choices meet a cycle, so do all possible ones. On a tractable trace the flag is down exactly if some order keeps to every rule, and then the one found does. |
| ScAnalysis.SCAnalysis.CheckRf | scanalysis.cc:124-134 | Exactly the reads are recorded whose last write before them in the list is not the one they observed, with that write; nothing is recorded exactly if the list is a sequentially consistent order. |
| ScAnalysis.SCAnalysis.Analyze | scanalysis.cc:99-114 | Search and check together: a full order of the trace and its flag, and no read recorded exactly if the order is sequentially consistent. On a tractable trace a cycle means that no order is sequentially consistent; if also no write of its own or the writer's thread can come between a read and what it observed, no cycle means that the order found is. |
| ScLinear.LawfulSolves | scanalysis.cc:349-458 | The clocks of an order that keeps to every rule respect program order, creation, joins, reading and both read rules. |
| ScLinear.RunWithin | scanalysis.cc:255-458 | On any trace and whatever the choices were, as long as what a run has emitted goes on to an order that keeps to every rule, the run has met no cycle. |
| ScLinear.NextOffered | scanalysis.cc:149-206 | And the next action of that order is one of the candidates. |
| ScComplete.SearchExactly | scanalysis.cc:255-317 | On a tractable trace the search ends without a cycle exactly if some order of the trace keeps to every rule. |
| ScComplete.ConsistentLawful | scanalysis.cc:349-419 | Every order in which each read sees the last write, threads begin after their creation and joins come last keeps to every rule. |
| ScComplete.LawfulConsistent | scanalysis.cc:349-419 | And the other way round, if no write of its own or the writer's thread can come between a read and what it observed. |
| ScPasses.Computed | scanalysis.cc:421-458 | Clocks are only set and enlarged, within the trace's numbers, so passes end. |
| ScPasses.MovedSlack | scanalysis.cc:421-458 | A counted change uses up room that cannot come back. |
| ScFixpoint.ComputedCloses | scanalysis.cc:421-458 | When the passes stop, program order, creation, joins and reading of earlier writes are in the clocks, or a cycle was met. |
| ScSolutions.ComputedWithin | scanalysis.cc:136-147 | Whatever has been computed is below all clocks that respect program order, creation, joins, reading and both read rules: nothing is ordered that the trace does not entail; and if those are the clocks of a linear order, no cycle is met. |
| ScSettled.SettledExactlyIf | scanalysis.cc:375-458 | When the passes stop, from any clocks, another pass finds nothing exactly if the computed clocks respect every ordering and both rules for writes of third threads, without going round. |
| ScSettled.SettledIsLeast | scanalysis.cc:375-458 | From the start, a fixpoint is the least solution of all the rules; and what is computed is below every solution, fixpoint or not. |
| ScTraces.TraceSettles | scanalysis.cc:375-458 | A condition on the trace alone, with third writes allowed: if they all come after their reads, or none that does is reached from a write that may still grow, the passes reach a fixpoint, and without a cycle it is the least solution. |
| ScUnsettled.NotSettled | scanalysis.cc:421-458 | On a trace of thirteen actions with thread starts and creations, the passes stop although another would count a change. |
| ScUnsettled.SettledAllTheSame | scanalysis.cc:421-458 | With one read observing another thread, the same trace violates both trace conditions and the passes reach a fixpoint: where the writes stand does not decide it alone. |
| ScFixpoint.RunRespects | scanalysis.cc:149-206 | In a state without a cycle whose clocks leave a front unblocked, whatever program order, creation, joins and reading put before a candidate has been emitted. |
| ScRoutes.RunBacked | scanalysis.cc:255-317 | In every state of every run, what a clock names leads to its action along orderings of the trace, the read rules and the choices made. |
| ScRespected.TakenRespects | scanalysis.cc:287-373 | Taking a candidate in a settled state keeps the order so far within every rule of the trace and every choice made, if the next state is settled. |
| ScRespected.RunRespected | scanalysis.cc:149-317 | In every run whose states are settled, the order so far keeps to program order, creation, joins, reading and both read rules, every action has been emitted once, and some front is unblocked. |
| ScRespected.NeverFallsBack | scanalysis.cc:149-203 | So such a run never falls back on happens-before. |
| ScLate.ScanStarts | scanalysis.cc:385-416 | Where third writes are late, a scanned read names only what the write it reads already has, at the start and after every choice, so the scan changes no clock of an earlier action. |
| ScSettledRuns.LateTaken | scanalysis.cc:287-458 | Where all third writes are late, taking a candidate in a settled state meets a cycle or gives a settled state, in which emitted clocks have not grown and every choice is carried by the clocks. |
| ScSettledRuns.RunsSettle | scanalysis.cc:255-458 | On the traces of `ScTraces.TraceSettles`, every state of every run is settled as long as no cycle was met. |
| ScSettledRuns.RunsDecide | scanalysis.cc:149-203 | On those traces, in every state of every run, only a cycle can block every front, as the code asserts. |
| ScSettledRuns.StartDecides | scanalysis.cc:149-203 | Before any choice, clocks that are a fixpoint leave some front unblocked, on any trace. |
| ScChoices.SomeNext | scanalysis.cc:149-206 | While actions are left there is a candidate. |
| ScGeneration.EmittedBefore | scanalysis.cc:149-206 | What a candidate's clock names in other threads has been emitted. |
| ScGeneration.SamePrefix | scanalysis.cc:273-278 | A replayed prefix of choices leads to the same state. |
| ScGeneration.ValueGrows | scanalysis.cc:298-303 | Rolling back makes the choices larger in lexicographic order. |
| ScGeneration.Finished | scanalysis.cc:268-270 | Without candidates the order is complete. |
| ScSearch.AlsoBreaks | scanalysis.cc:295-308 | A plan that differs only where no other candidate was left meets the same cycle. |
| ScSearch.NextRuledOut | scanalysis.cc:298-308 | Rolling back skips only plans that meet a cycle. |
| ScSearch.AllRuledOut | scanalysis.cc:295-298 | A cycle without an open choice rules out all plans. |
| ScOrders.OnlyBreaks | scanalysis.cc:287-295 | In a state whose clocks leave a front unblocked, taking a candidate meets a first cycle only through what follows from it. |
| ScOrders.OrderRespects | scanalysis.cc:255-317 | In a run whose clocks always leave a front unblocked and that meets no cycle, the order respects the closure of program order, creation, joins and reading. |
| ScConsistency.ThirdOutside | scanalysis.cc:349-419 | In an order that keeps to the rules, no write of a third thread stands between a read and the write it observed. |
| ScConsistency.ReadsSee | scanalysis.cc:255-317 | In every run whose states are settled the result is an interleaving, and a read sees what it observed exactly if no write of its own thread or of the writer's thread comes in between. |
| ScConsistency.PlainConsistent | scanalysis.cc:255-317 | If the trace has no such writes, the order found by such a run is sequentially consistent. |
| ScConsistency.TraceConsistent | scanalysis.cc:255-317 | A condition on the trace alone: if reads look back, third writes are all late or no late one is reached from a write that may still grow, and no write of its own or the writer's thread can come between a read and what it observed, then every run without a cycle gives a sequentially consistent order. |
| ScShadowed.NotConsistent | scanalysis.cc:255-419 | On a trace of six actions the search meets no cycle and returns an order whose read does not see what it observed, although another order of the trace is sequentially consistent. |
| ScOrders.ExactIsForward | scanalysis.cc:178-202 | Happens-before clocks that are exact name only earlier actions of other threads, which is what the fallback relies on. |

## Left out

- The exploration itself (backtracking sets, sleep sets, read-from choices, future values) and everything about printing and statistics.
- Promises outside the graph: their creation, compatibility and expiry. The compatibility test of a promise with a write is a parameter of `MergeNodes`.
- CycleGraphs.CycleGraph.MergeNodes: callers must offer a promise node that is nobody's reader, as promise nodes are; a merge that never ends, which `MergeOutcomes.CircularOutcome` and `MergeOutcomes.FlaggedOutcome` tell beforehand, has no contract.
- GraphRuns.RunDecides: in runs, a read-modify-write is attached as a node without incoming edges, as it is when the action runs; `GraphTheory.AddRmwEdgeExact` is about the other case.
- Executions.Execution.RModificationOrder: edges to and from promises, uninitialized loads and re-runs for older actions after late synchronization are not modelled.
- Executions.Execution.WModificationOrder: future values and edges to promises are not modelled.
- Executions.Execution.ProcessRead: the flag for reads that sequential consistency forbids and the recency heuristics are not modelled, nor is choosing what to read.
- Executions.Execution.ReadFrom: resolving what was put off when later actions settle it is not modelled; the graph is consulted through a reachability function that is required to answer for the edges asked so far; `CheckedExecutions.GraphServes` and `CheckedExecutions.FlagSeen` put the graph itself in its place.
- Executions.Execution.AddAction: actions for uninitialized loads are not modelled, nor are waits on condition variables in two lists.
- Executions.Execution.AddToLists: the same.
- Executions.Execution.ProcessWrite: resolving promises is not modelled.
- Executions.Execution.ProcessOther: what the action synchronizes with is given.
- Feasibility.FlagMeansCoherent: the other reasons for which an execution counts as infeasible are not modelled.
- ReleaseSequences.ReleaseSeqHeads: chains that end in a promise are not modelled; resolving pending sequences later is covered by `HappensBefore` only as synchronization found late.
- ReleaseSequences.StaysContiguous: requires that threads that are complete or disabled do not write the location again, because a disabled thread may be enabled again in the code.
- Mutexes, condition variables and thread operations appear only as actions that synchronize with given earlier ones.
- DataRaces.Detect: accesses to one address; the address table, the dropping of repeated reports and the later check whether a race is realized are left out.
- DataRaces.ShadowCell.RaceCheckRead: requires that the thread has run an action, as every thread has.
- DataRaces.ShadowCell.FullRaceCheckRead: the read list is a sequence; doubling its capacity is not modelled.
- Snapshots.Snapshotter.constructor: regions are one run of pages, pages are values, and running out of backing pages makes the call fail instead of ending the program; the fork-based snapshotter is left out.
- Scheduling.Scheduler.SelectNextThread: the priorities of the fairness window are a parameter.
- Scheduling.SomeoneCanRun: without a fairness window and with nobody asleep, since either can leave no thread to pick.
- HashTables.HashTable.constructor: the capacity must be a power of two, as all callers have it and `Masks.SlotMissed` shows it has to be; overflow of capacities is not modelled.
- HashTables.HashTable.Get: requires that a slot is free or the key is there, since otherwise the code does not return.
- TreeBins.LargeBins.InsertLargeChunk: sizes below 2^40 only, since beyond them the bin may be wrong.
- Mspaces.Mspace.Malloc: one segment, no locks, no footers, no memory from the system; where the code would ask the system for more, the call fails.
- Mspaces.Mspace.Free: requires a live chunk, where the code runs checks that need not find an error; trimming and mapped chunks are left out.
- Mspaces.Mspace.InsertSmallChunk: small bins are sequences; the links of their lists are not modelled.
- Mspaces.Mspace.UnlinkSmallChunk: the same.
- Mspaces.Mspace.UnlinkFirstSmallChunk: the same.
- The other entry points of the allocator: realloc, memalign, bulk allocation and the inspection functions.
- ScAnalysis.SCAnalysis.GenerateSC: the statement about the flag is for tractable traces, since in unsettled states clocks can miss orderings (`ScUnsettled.NotSettled`), and then both the flag and pruning rest on what the passes happen to find; the number of threads is given and clocks of happens-before name only earlier actions of other threads, which `ScOrders.ExactIsForward` derives from the exactness proved in `HappensBefore.RunExact`.
- ScAnalysis.SCAnalysis.CheckRf: both records start out empty for the theorem about consistency, as they do in the code, where rolling back an execution empties them; the contract says through the old values what a second call would add.
- ScTraces.TraceSettles: only sufficient; whether the passes reach a fixpoint depends on how many of them the counted changes cause, and `ScUnsettled.SettledAllTheSame` has the same writes in the same places with the other outcome. The exact statement, `ScSettled.SettledExactlyIf`, is about the clocks at the end.
- ScOrders.OrderRespects: for runs in which the computed clocks leave a front unblocked, which `ScRespected.NeverFallsBack` derives from settled clocks; what an order respects after a fallback is not stated.
- ScComplete.PruningLosesNothing: for tractable traces, where every state without a cycle is settled; `ScPruning.PrunedGoesOn` has the same for one settled state of any regular trace.
- ScConsistency.ReadsSee: for runs whose states are all settled; nothing is said about writes of third threads in others, since unsettled clocks can miss orderings (`ScUnsettled.NotSettled`).
- ScConsistency.TraceConsistent: for the traces of `ScTraces.TraceSettles`, where every run is settled; on others the order depends on what the passes happen to find.
