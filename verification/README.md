# Verified models of SpiderMonkey's public headers

SpiderMonkey's public headers are mostly declarations, but some hold complete algorithms.
This project models those algorithms in Dafny and proves what the headers promise of them.
`dafny verify dfyconfig.toml` checks everything.

| part | source | files |
|---|---|---|
| heap-graph traversals | `public/UbiNodePostOrder.h`, `public/UbiNodeBreadthFirst.h` | `Graphs`, `PostOrders`, `PostOrderLaws`, `BreadthFirsts`, `BreadthFirstLaws`, `BreadthFirstTermination`, `BreadthFirstLevels`, `BreadthFirstPaths`, `BreadthFirstExamples` |
| dominator trees | `public/UbiNodeDominatorTree.h` | `Dominators`, `DominatorFixpoint`, `DominatorTrees` |
| double-to-integer conversion | `public/Conversions.h` | `Words`, `Conversions`, `ArmConversion` |
| profiling stack and sampler | `public/ProfilingStack.h` | `ProfilingStacks`, `ProfilingStackWriter` |
| garbage-collector tables, vectors, mark bits, roots | `public/GCHashTable.h`, `public/GCVector.h`, `public/HeapAPI.h`, `public/RootingAPI.h` | `GCHashTables`, `WeakCaches`, `GCVectors`, `MarkBits`, `RootLists` |
| structured clone data | `public/StructuredClone.h` | `CloneBuffers` |
| scoped properties of a debugger | `examples/jorendb.js` | `ReplCleanups` |

## How things are modelled

**Traversals.** A graph is a map from nodes to their sequences of edges: cycles, self-loops and
parallel edges are all allowed. The visitors of `PostOrder` and the handler of `BreadthFirst` are
arbitrary functions of all calls made so far (and of the referent's stored data), so they may do
whatever depends on the traversal's past. `PostOrder.Traverse` is proved against the recursive
search `DepthFirst`. `BreadthFirst.Traverse` is proved against `IsRun`, the law that the i-th call
reports the i-th edge of all nodes queued before it; `RunIsUnique` shows that this law determines
every call. All laws are then proved about `DepthFirst` and about runs. `Bounded` says that the
runs of a search do not go on for ever, which is all that `Traverse` asks of a handler;
`TerminatesIff` says when that is so.

The path finders of the repository (`public/UbiNodeShortestPaths.h:254-319`,
`src/builtin/TestingFunctions.cpp:4013-4037`) add their root with `addStart`, may stop the search,
and walk back until they meet the root; `RecordedPathsAreShortest` covers that for every target but the root.

**Dominator trees.** `DominatorFixpoint` runs the header's passes on an array of guesses, with the
sentinel for nodes that have none yet. Nothing is assumed of the numbering but that each node except
the root has a predecessor with a greater number; `PostOrderIsNumbering` proves that of the post order.
The key facts are that a guess only ever moves up its own chain, so the passes end, and that no
update drops a dominator from any chain. The visitors' collecting is written as functions of the calls made.

**Conversions.** A double is its 64-bit pattern. The meaning of both implementations is
`ToUint`/`ToInt`, written with real numbers from section 3.4 of IEEE 754-2008 and section 9.5 of
ECMA-262 (edition 5.1). Machine words are natural numbers with explicit wrap-around; shifts are
multiplications and divisions by powers of two, and the bitwise operations are defined bit by bit.

**Profiling stack.** A memory is the frame array and the stack pointer; an operation is the list of
its stores in program order. A suspended thread has performed a prefix of them. The class
`ProfilingStack` performs its stores one statement at a time and records each where it is made;
its methods are proved to perform exactly the operation's list.

**Tables.** The rekeying sweep works over the slots of the table, and a rekeyed entry may go to any
free slot, ahead of or behind the enumeration. The weak cache is a class over a map, and
`BarrierHidesDyingEntries` relates whole runs of its operations to a plain map without dying entries.

## Where the code and its documentation differ

- `PostOrder` promises one report for each reachable node and invites any number of starts. A start
  added twice is reported twice; `OncePerNodeIffDistinctStarts` gives the exact condition.
- `BreadthFirst` promises one call for each edge. A start added by `addStart` is queued again when an
  edge enters it (`UnmarkedStartReportsTwice`); `OncePerEdgeIff` gives the exact condition.
- `BreadthFirst` also promises that calls come from origins ever further from the starts. That start's
  second turn breaks the promise too (`UnmarkedStartOutOfOrder`); `CallsInLevelOrder` holds whenever no
  edge leads back to an un-marked start with edges, and `LevelOrderIff` gives the converse. A node left
  unmarked breaks it, and the promise of shortest paths, in the same way (`UnmarkedNodeOutOfOrder`).
- `public/UbiNodeDominatorTree.h:34-35` says that the root has no immediate dominator; the code, which
  the model follows, returns the root for itself.
- The comment at `public/Conversions.h:333-354` derives where the mask and the implicit one may
  matter. They are not needed by every double there: 4.0 converts to eight bits correctly without
  them (`MaskNotAlwaysNeeded`); `RawExactIff` gives the exact condition.
- `public/ProfilingStack.h:148` says that the category pair starts at bit 9; the code at lines
  214-218 puts it at bit 16, and the model follows the code.

## Model

| member | source | states |
|---|---|---|
| PostOrders.PostOrder.constructor | public/UbiNodePostOrder.h:111-123 | a new traversal has no starts, nothing seen and an empty stack |
| PostOrders.PostOrder.FillEdgesFromRange | public/UbiNodePostOrder.h:90-99 | the vector holds exactly the range's edges, in order |
| PostOrders.PostOrder.PushForTraversing | public/UbiNodePostOrder.h:101-106 | one frame with the node and all its edges goes on the stack, and nothing else changes |
| PostOrders.PostOrder.AddStart | public/UbiNodePostOrder.h:127-132 | the node becomes the last start, seen and pushed, even if it was seen before |
| PostOrders.PostOrder.Traverse | public/UbiNodePostOrder.h:144-182 | terminates on every finite graph; succeeds exactly when the visitors accept every call of the recursive search and has then made exactly those calls, else has made them up to the first one refused; at each call the stack is some starts and then a path, and a node's out-neighbours are reported before it or on the stack |
| PostOrders.UnwindStarts | public/UbiNodePostOrder.h:127-132 | unwinding a stack of untouched starts is the recursive search from the last start to the first |
| PostOrders.UnwindEdge | public/UbiNodePostOrder.h:161-178 | taking the top frame's last edge and, for an unseen referent, pushing its frame leaves exactly the rest of the recursive search to do |
| PostOrders.CallStep | public/UbiNodePostOrder.h:150-167 | the call the loop makes next is the next call of the recursive search, made in the promised context |
| PostOrders.EdgeKeepsInvariant | public/UbiNodePostOrder.h:161-178 | following an edge keeps the stack a path above waiting starts, with every seen node on it or reported |
| PostOrders.PopKeepsInvariant | public/UbiNodePostOrder.h:154-160 | so does popping a finished frame |
| PostOrderLaws.SeenIsReachable | public/UbiNodePostOrder.h:134-138 | the nodes seen in the end are exactly those reachable from the starts |
| PostOrderLaws.NodesReported | public/UbiNodePostOrder.h:32-34 | a start is reported once for each time it was added, any other node once if it is reachable and never otherwise |
| PostOrderLaws.EdgesReported | public/UbiNodePostOrder.h:43-47 | each report of a node comes with one report of each of its edges, parallel edges counted |
| PostOrderLaws.EdgesLastToFirst | public/UbiNodePostOrder.h:161-163 | each visit of a node follows its edges from the last to the first |
| PostOrderLaws.OncePerNodeIffDistinctStarts | public/UbiNodePostOrder.h:32-34 | every reachable node is reported once, and no other node, if and only if no start was added twice |
| PostOrderLaws.VisitOrder | public/UbiNodePostOrder.h:150-181 | within a visit each out-neighbour of a reported node was reported before, is a waiting start, or can reach the node |
| PostOrderLaws.ReportOrder | public/UbiNodePostOrder.h:150-181 | the same for a whole search: the exceptions are back edges and starts added before one that reaches the node |
| PostOrderLaws.LaterStartFirst | public/UbiNodePostOrder.h:127-132 | of two distinct starts the one added later is reported first |
| PostOrderLaws.ReverseTopologicalIff | public/UbiNodePostOrder.h:33-34 | on an acyclic graph with distinct starts the reports are in reverse topological order if and only if no start reaches one added before it |
| PostOrderLaws.StartAddedTwice | public/UbiNodePostOrder.h:125-132 | a single node added twice is reported twice |
| PostOrderLaws.LaterStartTooEarly | public/UbiNodePostOrder.h:33-34 | with an edge from the second start to the first, the second is reported before its out-neighbour |
| Dominators.Intersect | public/UbiNodeDominatorTree.h:311-321 | the two fingers stop at the first node common to both chains of guesses |
| Dominators.DominatesAncestor | public/UbiNodeDominatorTree.h:26-31 | what dominates a node from above one of its tree ancestors dominates that ancestor |
| DominatorFixpoint.NewGuessIsHigher | public/UbiNodeDominatorTree.h:560-597 | the new guess at an immediate dominator is in the chain of the old one |
| DominatorFixpoint.UpdateSound | public/UbiNodeDominatorTree.h:591-597 | after an update every dominator of a node is still in its chain |
| DominatorFixpoint.UpdateKeepsGuesses | public/UbiNodeDominatorTree.h:556-599 | one update keeps the whole invariant of a pass |
| DominatorFixpoint.NewGuess | public/UbiNodeDominatorTree.h:565-589 | some predecessor has a guess, and the result is the nearest node common to the chains of all that have one |
| DominatorFixpoint.SlackFalls | public/UbiNodeDominatorTree.h:591-597 | a changed guess uses up some of the room the guesses have to move |
| DominatorFixpoint.Pass | public/UbiNodeDominatorTree.h:554-600 | a pass keeps the invariant and moves some guess up, or leaves all as they are and common to all predecessors |
| DominatorFixpoint.SettledDominate | public/UbiNodeDominatorTree.h:26-31 | when nothing changes any more, every path from the root contains each node of the chain |
| DominatorFixpoint.InitializeDominators | public/UbiNodeDominatorTree.h:411-423 | the root is its own guess and no other node has one |
| DominatorFixpoint.ComputeDominators | public/UbiNodeDominatorTree.h:547-601 | the passes end; each node's chain is then exactly the set of its dominators, and its guess is its immediate dominator and no other node is |
| DominatorTrees.DoTraversal | public/UbiNodeDominatorTree.h:323-353 | collects the nodes in post order and the origins of each node's incoming edges; succeeds exactly when the root reaches fewer than 2^32 - 1 nodes |
| DominatorTrees.NumberOfNodes | public/UbiNodeDominatorTree.h:330-336 | the nodes collected are as many as the root reaches |
| DominatorTrees.PostOrderIsNumbering | public/UbiNodeDominatorTree.h:526-528 | the post order lists each reachable node once, the root last, and each other node before some node with an edge to it |
| DominatorTrees.OriginsArePredecessors | public/UbiNodeDominatorTree.h:337-348 | the origins collected for a node are exactly the reachable nodes with an edge to it |
| DominatorTrees.MapNodesToTheirIndices | public/UbiNodeDominatorTree.h:355-369 | each node is mapped to its place in the post order |
| DominatorTrees.ConvertPredecessorSetsToVectors | public/UbiNodeDominatorTree.h:371-409 | each node but the root has the indices of its predecessors, the root has none |
| DominatorTrees.DominatesIff | public/UbiNodeDominatorTree.h:26-31 | a number dominates a number if and only if its node dominates the other's node in the graph |
| DominatorTrees.ImmediateIff | public/UbiNodeDominatorTree.h:26-35 | the node of a number's guess is its node's immediate dominator, and no other node is |
| DominatorTrees.DominatorTree.constructor | public/UbiNodeDominatorTree.h:302-309 | each node of the tree but the root is mapped to its one immediate dominator |
| DominatorTrees.DominatorTree.Create | public/UbiNodeDominatorTree.h:517-609 | makes the tree of a finite graph; there is none exactly when the root reaches at least 4294967295 nodes |
| DominatorTrees.DominatorTree.GetImmediateDominator | public/UbiNodeDominatorTree.h:616-631 | nothing exactly for nodes the root does not reach, the root for the root, and for any other node its one immediate dominator |
| BreadthFirsts.Queue.constructor | public/UbiNodeBreadthFirst.h:229 | a new queue is empty |
| BreadthFirsts.Queue.EmptyMeansNoElement | public/UbiNodeBreadthFirst.h:230 | the test on `head` alone holds exactly when neither vector holds an element |
| BreadthFirsts.Queue.DeadSlotsBounded | public/UbiNodeBreadthFirst.h:220-222 | popped slots are fewer than the population just before the first pop since the last swap |
| BreadthFirsts.Queue.Front | public/UbiNodeBreadthFirst.h:231-234 | the oldest element |
| BreadthFirsts.Queue.PopFront | public/UbiNodeBreadthFirst.h:235-243 | removes the oldest element and no other, also when the vectors swap |
| BreadthFirsts.Queue.Append | public/UbiNodeBreadthFirst.h:244-246 | adds at the end of the queue, whichever vector takes the element |
| BreadthFirsts.BreadthFirst.constructor | public/UbiNodeBreadthFirst.h:89-100 | a new traversal has no starts and nothing visited or pending |
| BreadthFirsts.BreadthFirst.AddStart | public/UbiNodeBreadthFirst.h:104 | the node becomes the last start and is not marked |
| BreadthFirsts.BreadthFirst.AddStartVisited | public/UbiNodeBreadthFirst.h:108-114 | the same, with default data in the table unless the node has data there already |
| BreadthFirsts.BreadthFirst.Stop | public/UbiNodeBreadthFirst.h:195 | requests the stop and changes nothing else |
| BreadthFirsts.BreadthFirst.AbandonReferent | public/UbiNodeBreadthFirst.h:200 | requests that the referent be abandoned and changes nothing else |
| BreadthFirsts.BreadthFirst.DoNotMarkReferentAsVisited | public/UbiNodeBreadthFirst.h:204 | requests that the referent stay unmarked and changes nothing else |
| BreadthFirsts.BreadthFirst.CallHandler | public/UbiNodeBreadthFirst.h:152-160 | the handler's requests reach the traversal's flags as it decided |
| BreadthFirsts.BreadthFirst.TraverseEdge | public/UbiNodeBreadthFirst.h:142-184 | one round of the inner loop makes the run's next call, keeps the table and the pending queue those of the run, and returns exactly when the handler returned false or asked to stop |
| BreadthFirsts.BreadthFirst.Traverse | public/UbiNodeBreadthFirst.h:127-188 | returns whenever the runs are bounded; the calls made are the search's run and the table is the run's; every call but the last succeeded without a stop, and the run is complete with nothing pending unless the last one failed or stopped, which then decides the result |
| BreadthFirsts.EarlierCallsGoOn | public/UbiNodeBreadthFirst.h:156-172 | in every run each call but the last succeeded and did not ask to stop, so no call follows a failure or a stop |
| BreadthFirsts.NextAtCursor | public/UbiNodeBreadthFirst.h:142-160 | reporting the edge under the cursor continues the run and moves the cursor on |
| BreadthFirsts.StepLaw | public/UbiNodeBreadthFirst.h:162-183 | what a call does to the table and the queue for each combination of first, failing, stopping, abandoning and marking |
| BreadthFirstLaws.RunIsUnique | public/UbiNodeBreadthFirst.h:127-188 | of two runs of one search, one continues the other |
| BreadthFirstLaws.CompleteRunReports | public/UbiNodeBreadthFirst.h:133-188 | a complete run reports exactly the edges of the queued nodes, in queue order and edge order |
| BreadthFirstLaws.QueuedOnce | public/UbiNodeBreadthFirst.h:102-114 | with distinct starts, each added as visited or not entered by any edge of a reachable node, and un-marked nodes abandoned, no node is queued twice |
| BreadthFirstLaws.EdgesReported | public/UbiNodeBreadthFirst.h:44-46 | for any starts and handler, a complete run reports each edge once for each time its origin was queued |
| BreadthFirstLaws.EdgesReportedOnce | public/UbiNodeBreadthFirst.h:44-46 | with such starts and such a handler, each edge of an explored node is reported once and no other edge is |
| BreadthFirstExamples.UnmarkedStartReportsTwice | public/UbiNodeBreadthFirst.h:102-104 | a start added without being marked, with an edge to itself, has that edge reported twice |
| BreadthFirstExamples.UnmarkedStartOutOfOrder | public/UbiNodeBreadthFirst.h:46-48 | on two nodes with edges to each other, a start added without being marked is an origin again after a node further away |
| BreadthFirstExamples.UnmarkedNodeOutOfOrder | public/UbiNodeBreadthFirst.h:30-34 | in a complete run from a marked start, a node its handler left unmarked once is an origin again after a node further away, and the arrivals recorded lead round a loop |
| BreadthFirstLaws.QueuedTimes | public/UbiNodeBreadthFirst.h:102-114 | when everything is marked, whatever is abandoned, a complete run explores a node once for each time it was added as a start, and once more if an explored node has an edge to it and it was neither marked yet nor abandoned |
| BreadthFirstLaws.OncePerEdgeIff | public/UbiNodeBreadthFirst.h:44-46 | when everything is marked, whatever is abandoned, no edge is reported more often than it occurs if and only if each start with edges was added once and is not entered again unmarked |
| BreadthFirstLaws.ExploredExactly | public/UbiNodeBreadthFirst.h:62-67 | for any handler, the nodes a complete run explores are exactly those reachable from the starts along paths that avoid every node given up, that is abandoned and not queued by another arrival |
| BreadthFirstLaws.GivenUpIsAbandoned | public/UbiNodeBreadthFirst.h:62-67 | when everything is marked, the nodes given up are exactly the abandoned nodes that are no starts |
| BreadthFirstTermination.BelowShrinks | public/UbiNodeBreadthFirst.h:162-183 | following an edge to a node that stays unmarked leaves strictly fewer such nodes below, unless they form a cycle |
| BreadthFirstTermination.CallsPaidFor | public/UbiNodeBreadthFirst.h:162-183 | without such a cycle, calls made and calls still owed never exceed a bound paid for by starts and marked nodes |
| BreadthFirstTermination.TerminatesWithoutLooseCycle | public/UbiNodeBreadthFirst.h:162-183 | a search whose un-marked, un-abandoned nodes form no reachable cycle has bounded runs |
| BreadthFirstTermination.AbandoningTerminates | public/UbiNodeBreadthFirst.h:197-204 | when every un-marked first referent is abandoned, the runs are bounded on every graph |
| BreadthFirstTermination.LooseCycleNeverCompletes | public/UbiNodeBreadthFirst.h:68-71 | a handler that leaves a reachable cycle unmarked, without abandoning, always has a node still to explore |
| BreadthFirstTermination.TerminatesIff | public/UbiNodeBreadthFirst.h:68-71 | for given graph, starts and nodes that may stay unmarked: every such handler's traversal ends if and only if no cycle of those nodes (marked starts excepted) can be reached |
| BreadthFirstLevels.LevelsStep | public/UbiNodeBreadthFirst.h:142-184 | one call keeps the level invariant, for starts added in any way: levels never fall along the queue and span two, a node in its first turn stands at the level of its depth, and every edge followed goes at most one level down |
| BreadthFirstLevels.NewFoundInFirstTurn | public/UbiNodeBreadthFirst.h:104 | a start queued a second time finds nothing new |
| BreadthFirstLevels.LevelsAtEveryCursor | public/UbiNodeBreadthFirst.h:133-188 | the level invariant holds wherever the loops can be in any run |
| BreadthFirstPaths.NoShorterPath | public/UbiNodeBreadthFirst.h:30-34 | no path from a start past no node given up gets anywhere in fewer edges than the search, whether the starts were marked or not |
| BreadthFirstPaths.DepthIsDistance | public/UbiNodeBreadthFirst.h:249-251 | the depth of a start or visited node is its distance from the starts past no node given up |
| BreadthFirstPaths.PendingSpansTwoLevels | public/UbiNodeBreadthFirst.h:249-252 | whenever the outer loop looks for a node, the pending nodes, starts queued a second time excepted, have non-decreasing distances that differ by at most one |
| BreadthFirstPaths.CallsInLevelOrder | public/UbiNodeBreadthFirst.h:46-48 | in every run that marks everything, of two calls the earlier one has an origin no further from the starts, provided each start with edges was added as visited or is not entered by an edge of a reachable node |
| BreadthFirstPaths.LevelOrderIff | public/UbiNodeBreadthFirst.h:46-48 | when no start has an edge to a start, a complete run that marks everything is in level order if and only if no start with edges is queued a second time |
| BreadthFirstPaths.RecordedPathsAreShortest | public/UbiNodeBreadthFirst.h:30-34 | for starts added in any way, and also when the last call stops the run: walking recorded first arrivals back from any visited node reaches a start, and the walk is a shortest path |
| BreadthFirstPaths.CompleteRunVisits | public/UbiNodeBreadthFirst.h:30-34 | a complete run visits the end of every path of at least one edge from a start past no node given up |
| Conversions.SignedIsCongruent | public/Conversions.h:276-283 | the signed meaning is in range and congruent to the truncated value modulo 2^width |
| Conversions.TruncatedOf | public/Conversions.h:276-283 | the truncated value of the double with any given sign, exponent field and mantissa, as an integer; 0 below exponent 0 and for infinities and NaNs |
| Conversions.KnownDoubles | public/Conversions.h:276-283 | the truncated values of 1, -1.5, 5.5, 2^32 + 5 and minus infinity |
| Conversions.FloorIsMagnitude | public/Conversions.h:281-283 | the floor of a finite double's absolute value is its significand shifted by the exponent, and 0 below exponent 0 |
| Conversions.LargeIsZero | public/Conversions.h:310-320 | from exponent 52 + width on, the value is 0 modulo 2^width |
| Conversions.RawBitsSplit | public/Conversions.h:327-330 | the shifted bits are the bits above the significand times 2^exponent plus the significand's own, modulo 2^width |
| Conversions.MaskedIsMagnitude | public/Conversions.h:356-361 | below the width, masking and adding the implicit one gives exactly the integer part |
| Conversions.RawIsMagnitude | public/Conversions.h:338-354 | from the width up, the shifted bits already are the integer part modulo 2^width |
| Conversions.RawExactIff | public/Conversions.h:332-354 | the shifted bits need no correction if and only if the exponent is at least the width or the bits above the significand are congruent to 1 modulo 2^(width - exponent) |
| Conversions.MaskNotAlwaysNeeded | public/Conversions.h:332-354 | the double 4.0 at width 8 needs no correction, though its exponent is below the width |
| Conversions.MasksPickFields | public/Conversions.h:298-302 | the exponent and sign masks pick the exponent field and the sign |
| Conversions.ToUnsignedInteger | public/Conversions.h:288-366 | for every bit pattern and every width from 1 to 64 the result is sign(d) * floor(abs(d)) modulo 2^width, and 0 for NaNs and infinities |
| Conversions.ToSignedInteger | public/Conversions.h:368-377 | the result is the signed integer of that width congruent to the truncated value modulo 2^width |
| Conversions.NarrowIsLowBits | public/Conversions.h:281-283 | the result for a width is the low bits of the result for any larger width |
| ArmConversion.ToSignedInt32Arm | public/Conversions.h:383-509 | for every double the instruction sequence computes the same int32 as the generic algorithm: the number from -2^31 to 2^31 - 1 congruent to the truncated value |
| ArmConversion.ExponentSteps | public/Conversions.h:402-428 | after the two subtractions the register holds the exponent, with the minus flag exactly for exponents below 0 |
| ArmConversion.LowerMantissa | public/Conversions.h:433-459 | the lower word is the lower half shifted by exponent - 52, in either direction and for shift amounts over 8 bits |
| ArmConversion.UpperMantissa | public/Conversions.h:461-486 | the upper half, in the same way |
| ArmConversion.ShiftByLowByte | public/Conversions.h:438-452 | shifts by a register use the low byte of the amount and leave nothing of a word from 32 on |
| ArmConversion.ShiftAmount | public/Conversions.h:438-446 | the adjusted amount keeps short shifts and keeps the low byte of long ones at 32 or more |
| ArmConversion.SignificandHalves | public/Conversions.h:491-493 | joining the halves gives the integer part modulo 2^32 for every exponent |
| ArmConversion.NegateStep | public/Conversions.h:494-498 | inverting by the sign and adding the sign negates exactly the negative values |
| ArmConversion.InfinityIsZero | public/Conversions.h:413-415 | infinities and NaNs come out as 0 without a case of their own |
| ArmConversion.SmallIsZero | public/Conversions.h:424-428 | so do doubles with a negative exponent, subnormals among them |
| ProfilingStacks.FieldStoresMix | public/ProfilingStack.h:275-311 | after any stores to fields of one frame, that frame has exactly those fields replaced and nothing else changed |
| ProfilingStacks.PushIsAtomic | public/ProfilingStack.h:387-392 | a push shows the old stack until its last store, and then the old stack and the new frame |
| ProfilingStacks.OsrKeepsRest | public/ProfilingStack.h:252-260 | changing the OSR flag changes neither the frame's kind, nor its label's source, nor its category pair |
| ProfilingStacks.OsrSetsBit | public/ProfilingStack.h:252-260 | bit 3 of the new flags says whether the frame is an OSR frame, and every other bit is as before |
| ProfilingStacks.LabelShown | public/ProfilingStack.h:262-271 | the label shown is that of the category in the bits from 16 on when bit 8 is set, else the frame's own |
| ProfilingStacks.SampleIsBeforeOrAfter | public/ProfilingStack.h:381-396 | after any number of an operation's stores the sampler reads the logical stack before or after it, never a partly written frame |
| ProfilingStacks.SampleIsLogical | public/ProfilingStack.h:52-60 | in every run of operations, interrupted after any store, the sampler reads exactly the stack left by the operations finished so far |
| ProfilingStacks.SafeOrderIff | public/ProfilingStack.h:61-70 | a pop and a push into the same slot are safe to sample if and only if the decrement precedes every field store and the increment follows every one |
| ProfilingStacks.EarlyStoreIsUnsafe | public/ProfilingStack.h:66-70 | a field stored before the decrement can be seen in a torn frame |
| ProfilingStacks.LateStoreIsUnsafe | public/ProfilingStack.h:63-65 | so can a frame whose last field is stored after the increment |
| ProfilingStackWriter.LabelFlagsDecode | public/ProfilingStack.h:282-286 | a label frame's flags decode to its kind, category pair and the caller's flags |
| ProfilingStackWriter.KindFlagsDecode | public/ProfilingStack.h:292-310 | marker and JS frames have exactly their kind's bit |
| ProfilingStackWriter.LabelFrameShows | public/ProfilingStack.h:275-287 | a label frame shows its own label, or its category's if bit 8 of the caller's flags is set, its dynamic string, its stack pointer, and the category pair and the flags in their halves of the word with bit 0 set |
| ProfilingStackWriter.SpMarkerFrameShows | public/ProfilingStack.h:288-298 | a marker frame shows an empty label, no dynamic string, its stack pointer and bit 1 of the flags |
| ProfilingStackWriter.JsFrameShows | public/ProfilingStack.h:299-312 | a JS frame shows all six arguments in their fields and bit 2 of the flags |
| ProfilingStackWriter.AssignedShowsSame | public/ProfilingStack.h:155-168 | a copied frame shows the same, though the label shown is stored in place of the label stored |
| ProfilingStackWriter.ProfilingStack.constructor | public/ProfilingStack.h:398 | a new stack shows no frame |
| ProfilingStackWriter.ProfilingStack.Assign | public/ProfilingStack.h:155-168 | one slot becomes the copy of the frame, field by field |
| ProfilingStackWriter.ProfilingStack.InitNativeFrame | public/ProfilingStack.h:275-298 | stores label, dynamic string, stack pointer and flags in this order and leaves offset and realm in place |
| ProfilingStackWriter.ProfilingStack.InitJsFrame | public/ProfilingStack.h:299-312 | stores all six fields, the flags last |
| ProfilingStackWriter.ProfilingStack.EnsureCapacitySlow | src/vm/ProfilingStack.cpp:26-47 | all frames are copied to an array of twice the capacity (at first 128, and always more than the stack pointer), which shows the same frames and is published in one store |
| ProfilingStackWriter.ProfilingStack.PushLabelFrame | public/ProfilingStack.h:402-428 | performs exactly the stores of a push, in program order; the stack sampled afterwards is the old one and then a native frame with the caller's label (the category's if bit 8 of the flags is set), dynamic string, stack pointer and flags |
| ProfilingStackWriter.ProfilingStack.PushSpMarkerFrame | public/ProfilingStack.h:430-440 | the same for a marker frame, which shows an empty label and the stack pointer |
| ProfilingStackWriter.ProfilingStack.PushJsFrame | public/ProfilingStack.h:442-457 | the same for a JS frame, which shows its own label and all its arguments |
| ProfilingStackWriter.ProfilingStack.Pop | public/ProfilingStack.h:459-468 | performs one store, the decrement; the stack sampled afterwards is the old one without its last frame |
| ProfilingStackWriter.ProfilingStack.SetIsOSRFrame | public/ProfilingStack.h:252-260 | performs one store: bit 3 of the flags of that frame is set or cleared as asked, and no other bit, field or frame changes |
| GCHashTables.RekeyableHashMap.RekeyFront | public/GCHashTable.h:143-145 | the entry leaves its slot for some free slot under its new key, and no other slot changes |
| GCHashTables.RekeyableHashMap.Sweep | public/GCHashTable.h:138-147 | the table ends with exactly the live entries, each under its forwarded key with its updated value, whatever slots they were moved to and however often they were met: each full slot holds what some live entry became, and each live entry is in some slot |
| GCHashTables.MoveStep | public/GCHashTable.h:139-146 | moving a live entry keeps the survivors and extends the settled part of the table |
| GCHashTables.SettledEntries | public/GCHashTable.h:138-147 | a table of settled entries holds exactly its survivors |
| GCHashTables.SurvivorFrom | public/GCHashTable.h:139-146 | an entry survives if and only if it is what a live entry of the table becomes |
| GCHashTables.UniqueIffInjective | public/GCHashTable.h:138-158 | the swept table has one entry for each key if and only if forwarding is injective on the keys of its live entries |
| WeakCaches.Range.constructor | public/GCHashTable.h:467-469 | a range stands before the first live entry |
| WeakCaches.Range.Settle | public/GCHashTable.h:482-486 | skips dying entries only |
| WeakCaches.Range.Front | public/GCHashTable.h:473 | the first live entry left |
| WeakCaches.Range.PopFront | public/GCHashTable.h:475-478 | moves to the next live entry |
| WeakCaches.WeakCache.SetNeedsIncrementalBarrier | public/GCHashTable.h:442-446 | raises or lowers the barrier and changes no entry |
| WeakCaches.WeakCache.Lookup | public/GCHashTable.h:497-504 | with the barrier up, answers as if dying entries were gone: a dying entry is not found and is removed, and nothing else changes |
| WeakCaches.WeakCache.Has | public/GCHashTable.h:535 | true exactly for the keys the cache answers for |
| WeakCaches.WeakCache.LookupForAdd | public/GCHashTable.h:506-513 | the same as lookup, and an entry not found is really absent, so it may be added |
| WeakCaches.WeakCache.Add | public/GCHashTable.h:572-575 | the new entry is answered for unless it is dying |
| WeakCaches.WeakCache.Remove | public/GCHashTable.h:565-570 | the key's entry is gone, dying or not, and no other |
| WeakCaches.WeakCache.All | public/GCHashTable.h:515 | a range over the table's entries in any order, without the dying ones |
| WeakCaches.WeakCache.ListAll | public/GCHashTable.h:467-487 | iterating over a range lists exactly the live entries |
| WeakCaches.WeakCache.Perform | public/GCHashTable.h:497-575 | behind the barrier each operation is one step of the cache that whole runs are made of |
| WeakCaches.WeakCache.Sweep | public/GCHashTable.h:423-440 | exactly the entries that are not dying are left, unchanged; the number of steps is the number of entries before |
| WeakCaches.StepSimulates | public/GCHashTable.h:497-570 | one operation answers as on a plain map of the live entries, and leaves it the map of the live entries |
| WeakCaches.BarrierHidesDyingEntries | public/GCHashTable.h:423-570 | any run behind the barrier gets the answers of a plain map without dying entries, and the live entries left are that map |
| WeakCaches.RangeEnumeratesLive | public/GCHashTable.h:467-487 | a range over an enumeration of the map enumerates its live entries, each once |
| GCVectors.GCVector.Sweep | public/GCVector.h:156-171 | the contents become the survivors in order, each as its one call left it; every original element is passed once and unread elements are never overwritten |
| GCVectors.GCVector.NeedsSweep | public/GCVector.h:160 | the policy sees the element and may update it in place |
| GCVectors.GCVector.Move | public/GCVector.h:161-163 | the element moves down; only the two slots may change, and what stays in the source slot is unknown |
| GCVectors.SweptIsFilter | public/GCVector.h:156-171 | the result is an order-preserving filter: the k-th element comes from the k-th surviving position, and every surviving position is represented |
| MarkBits.BitmapIsInChunk | public/HeapAPI.h:444-450 | the bitmap address is the chunk's base plus the bitmap offset |
| MarkBits.WordAndMaskAre | public/HeapAPI.h:452-466 | the word and mask of a mark bit, from its index in the bitmap; the index is below the number of bits |
| MarkBits.MarkBitPlaces | public/HeapAPI.h:452-466 | with all numbers written out: the black bit is the bit of the bitmap at the index of the 8-byte unit the cell starts at in its chunk, the gray-or-black bit is the next one, and word and mask address that bit |
| MarkBits.MarkWordIsInBitmap | public/HeapAPI.h:62-72 | every mark word lies aligned in the cell's own chunk, past the arenas and before the trailer |
| MarkBits.MarkBitsDistinct | public/HeapAPI.h:452-466 | distinct mark bits of non-overlapping cells, in one chunk or two, have distinct words or masks |
| MarkBits.GrayTestDecodesTable | public/HeapAPI.h:474-490 | the test by words and masks is true exactly for cells whose two bits the colour table at lines 87-97 calls gray |
| MarkBits.ColorInNumbers | public/HeapAPI.h:87-97 | a cell tests gray exactly when the bitmap's bit at its index is clear and the next bit is set; it is black exactly when the bit at its index is set |
| MarkBits.MaskReadsBit | public/HeapAPI.h:452-466 | testing the word with the mask reads the bit at the cell's index in its chunk's bitmap |
| MarkBits.ReadAfterWrite | public/HeapAPI.h:452-466 | a written mark bit reads back, and every other mark bit of the two cells is as before |
| MarkBits.RecolorChangesOneCell | public/HeapAPI.h:87-97 | recolouring a cell gives it that colour and no other cell a different one |
| RootLists.Rooted.constructor | public/RootingAPI.h:1072-1076 | the root remembers its kind's old head and becomes the head; other heads stay |
| RootLists.RootingContext.Register | public/RootingAPI.h:1117-1122 | a new root is the newest live root, and each kind's list is still its live roots, newest first |
| RootLists.RootingContext.Unregister | public/RootingAPI.h:1124-1127 | destroying the newest live root finds it at its list's head (the destructor's assertion) and restores that head |
| RootLists.RootingContext.Walk | public/RootingAPI.h:1129 | following a list from its head meets exactly the live roots of the kind, newest first |
| RootLists.OfKindHas | public/RootingAPI.h:1129 | the list of a kind holds each live root of the kind as often as it is live, and no other root |
| RootLists.RootingContext.Run | public/RootingAPI.h:1006-1017 | nested scopes of arbitrarily mixed kinds leave every head as it was |
| CloneBuffers.RemainingIff | public/StructuredClone.h:517-523 | the iterator's segment has bytes left exactly when the whole data has |
| CloneBuffers.PositionReads | public/StructuredClone.h:518-520 | the byte the iterator points to in its segment is the flat byte at the iterator's place |
| CloneBuffers.Advance | public/StructuredClone.h:522 | advancing within a segment moves the iterator's place among the flat bytes by that much, across the segment's end too |
| CloneBuffers.SegmentUpdate | public/StructuredClone.h:518-520 | overwriting part of a segment overwrites just that part of the flat bytes |
| CloneBuffers.CloneData.AppendBytes | public/StructuredClone.h:507-510 | the flat bytes become the old ones and then the data |
| CloneBuffers.CloneData.UpdateBytes | public/StructuredClone.h:512-526 | terminates; the bytes before the iterator and those behind the data stay, and those between become the data; segments keep their lengths and the iterator ends behind the data |
| CloneBuffers.CloneData.ForEachDataChunk | public/StructuredClone.h:549-562 | the chunks are the segments in order up to the first one refused; accepted all, they concatenate to the flat bytes |
| CloneBuffers.CloneData.Append | public/StructuredClone.h:564-569 | the flat bytes become the old ones and then the other buffer's |
| ReplCleanups.Debugger.SetUntilRepl | examples/jorendb.js:457-463 | sets the property, and what every property would read once all closures had run stays the same |
| ReplCleanups.Debugger.PreReplCleanups | examples/jorendb.js:663-666 | every property reads as its first-pushed closure saved it, other properties are not written, and no closure is left |
| ReplCleanups.Debugger.DoStepOrNext | examples/jorendb.js:473-552 | exactly which callbacks are set on the debugger and on the watched frame, by kind of step, and that the closures undo all of them |
| ReplCleanups.Debugger.FinishPopped | examples/jorendb.js:478-493 | every callback is taken back, and one is set on the frame returned to, which alone is left to undo; for the outermost frame it throws with nothing left to undo |
| ReplCleanups.FirstSetDecides | examples/jorendb.js:459-463 | whatever sets and other writes follow, running the closures restores a property to its value just before it was first set since they last ran |
| ReplCleanups.UnsetPlaceKeepsLastWrite | examples/jorendb.js:663-666 | a property not set since then keeps what was last written to it |
| ReplCleanups.CleanupIffSet | examples/jorendb.js:459-463 | a property has a closure if and only if it was set since the closures last ran |

## Left out

- BreadthFirstPaths.CallsInLevelOrder: is about handlers that mark every new referent, because a node left unmarked is explored again at a later depth (`UnmarkedNodeOutOfOrder`); a handler may abandon nodes, and distances then pass no node given up.
- BreadthFirstPaths.RecordedPathsAreShortest: is about such handlers too, for the same reason.
- BreadthFirstPaths.LevelOrderIff: asks that no start has an edge to a start; a start entered only by starts may take its second turn before any further node does.
- BreadthFirstLaws.OncePerEdgeIff: is about handlers that mark every new referent; for all others `EdgesReported` counts the reports exactly, and `EdgesReportedOnce` covers those that abandon what they leave unmarked.
- PostOrders.PostOrder.Traverse: does not model running out of memory, and an edge range is the sequence it enumerates.
- ProfilingStackWriter.ProfilingStack.EnsureCapacitySlow: does not model the overflow of a capacity of 2^31 frames or more.
- ProfilingStackWriter.ProfilingStack.PushLabelFrame: asks for a category pair and caller's flags of at most 16 bits that claim no other kind of frame, as lines 171-173 and 220-225 of the header demand.
- GCHashTables.RekeyableHashMap.Sweep: asks that a live entry, looked at again under its new key, is live and not forwarded again; forwarded addresses are never moved-from addresses in the collector. The table's growth and shrinking are not modelled, and `traceWeak` (lines 149-158) has the same shape.
- RootLists.RootingContext.Run: one class stands for `Rooted` and for `AutoGCRooter`, which keep their lists in the same way; what a root holds and how it is traced is not modelled.
- CloneBuffers.CloneData.Append: appending a buffer to itself is not modelled, and the loop of `ForEachDataChunk` is written out because its function changes the buffer.
- CloneBuffers.CloneData.AppendBytes: how the unseen buffer list fills its segments is an assumption (the last segment first, then new segments of 4096 bytes); the contents do not depend on it.
- ReplCleanups.Debugger.PreReplCleanups: a property never set reads as undefined, so restoring undefined and deleting the property are not told apart; accessors and properties of dead frames are not modelled.
- The sets of dominated nodes and the retained sizes of a dominator tree, which are computed from the immediate dominators.
- Running out of memory in any operation: allocation succeeds.
- The wrapper `ToUint8` declares the return type `int8_t` (`public/Conversions.h:544`); the template is modelled at width 8, the wrappers are not.
- The ARM registers and the flags of profiling frames are natural numbers below 2^32, not bit vectors.
- `pcToOffset`, `setPC`, `trace` and `script` of profiling frames, and the extra flags of `initJsFrame`: code that is not in the headers, or constants.
- `put`, `putNew` and `relookupOrAdd` of weak caches, which skip the barrier's check, and the operations asserted not to be used while the barrier is up (`clear`, `count`, `empty`, `Enum`).
- The specialization of the weak cache for sets, which differs from the one for maps by having no values.
- In-place updates of keys that live on during `GCHashMap::sweepEntries`; the rekeying map covers moved keys.
- Locking of the store buffer, incremental barriers on reads, and tracing: engine calls without a body in the headers.
- The code that writes mark bits: it is in files that are not part of this model, so `WriteBit` models it by the word and mask of the bit.
- The nursery test of `CellIsMarkedGray` and `GetTenuredGCThingZone`: short address facts.
- `Borrow`, `AllocateBytes` and transferables of clone data.
- The debugger's input, output, argument parsing and `saveExcursion`, which saves and restores two variables.
- Header files that only declare, option bags, memory metrics and tagged pointers.
