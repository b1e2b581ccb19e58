# DG: control dependence, components, memory SSA and pointers

DG is a library of program analyses. This project models the part of it that does not depend on a
compiler: the algorithms for strong control dependence, Tarjan's components with two clients, the
interval maps and the on-demand search behind memory SSA, the splitting of basic blocks, and the
flow-insensitive pointer analysis. Objects that the program updates in place are classes; what their
methods compute is stated by a definition that does not mention the algorithm, and the laws are proved
about that definition.

`dafny verify dfyconfig.toml` checks the whole project.

## How the parts hang together

*Control dependence.* `Graphs.AllHit(s, T, B)` says that every maximal path from s meets T without
passing B first. It is defined by sets that the path can stay in, `Graphs.HitLocal` and `Graphs.HitLeast` make it
the least solution of a local rule, and `Paths.AllHitMeansPaths` says that this is the statement about
maximal paths, finite and infinite. "n is on all maximal paths from s" is `OnAllPaths(s, n)`, and a
predicate p decides n (`FrontierNTSCD.Decides`) if that holds for one successor and not for another.
The frontier, counter, symbol and depth-first algorithms are each proved against these two notions.
Two findings decide the statements:

- The frontier algorithm never reports a node as dependent on itself, because the target is never in
  its own frontier; the symbol fixpoint can. They agree on distinct nodes.
- The counter algorithm does not test whether a node is coloured already, so a start node whose
  successors all become coloured is processed twice. It colours every node that it should, and for one target exactly
  those just if `CounterNTSCD.Recolors` does not hold: that no maximal path from the target's successors avoids the
  target, and some predecessor of the target can miss it through exactly one of its successors. Which nodes are coloured too much
  is said for any set of targets by the graph alone (`Miscoloring.Overcounted`, `Miscoloring.ColorsSetExactly`).

What the wrong colours do to the callers of the counter algorithm is decided one by one:

- `NTSCD2` gives the relation of the frontier algorithm for a predicate and a target unless the target recolours and the
  predicate is `Misled`: it decides the target and all its successors are coloured, or it does not, and some successors that can
  miss the target are coloured while others are not (`Miscoloring.SplitsExactly`). On the two nodes of `Miscoloring.Fork` a dependence
  is missed. On the four nodes of `CounterNTSCD.Lasso` colours are wrong and the relation is right all the same.
- Decisive order dependence is computed on a contracted graph, whose shape (one cycle beside the
  predicate) follows from the sets being exact; then no assertion of the program fails and the arcs recorded are the
  dependences. Otherwise `DODAnalysis.Walkable` says exactly when the assertions hold and `DODAnalysis.OnRecordedArc` what is recorded
  then. On the lasso an assertion fails.
- The control closure adds only nodes that are in every strongly closed superset, however wrong the colours are, so a strongly
  closed result is always the least one. The result is strongly closed just if no node reached from it is overcounted;
  on the graph `ControlClosure.Stray` it is not.

*Components.* The search state keeps the stack and lowpoint invariant; from it follow maximality and
reverse topological numbers. The condensation keeps who reaches whom. The loops of a pointer graph are
the components of two or more nodes and the nodes whose only successor is themselves: a node with an edge
to itself beside other edges lies on a cycle and is not recorded.

*Memory SSA.* An interval map stands for a map from bytes to sets. Local value numbering is a fold whose
result is described by "last certain write and the possible writes after it". The search keeps, for every byte,
that what is recorded *answers* the question for its definitions; answers are sound for all paths.
One step of the program breaks this: `createPhi` enters the phi for all runs of uncovered bytes that `uncovered` returns,
and the last run may go past the end of the bytes that the phi is searched for. In `MissedDefinition.Gap` the block where
paths join starts with a read of bytes 0 to 3 and then overwrites bytes 0, 1 and 8 to 11: the phi for bytes 0 to 3 is entered for
bytes 2 to 7, so that a later search for bytes 4 to 7 behind the block stops at a phi that was never searched for
them, and a definition that reaches the read is missed (`MissedDefinition.GapMisses`).
A step keeps the answers sound just if it enters the phi for no byte past its site that some definition comes to the block for
(`SearchState.CreatingIsSoundIff`, `SearchState.DefinitionIsMissed`). A whole run is sound if this never happens (the ghost field
`overshot`). Whether it can happen is told by the procedure alone: it cannot if some family of byte ranges has all reads, has with
a range the runs of it that can be left open, and has none that runs past its end where paths join
(`ContainedSearches.Contained`). Procedures whose sites overlap only where they are equal have such a family, and for them the
result is exactly what reaches the use (`MemorySSA.MemorySSATransformation.GetDefinitions`).

*Pointers.* A report of change means that some points-to set or some memory cell has strictly grown, in an order in
which the unknown offset of a target stands above all known ones. The facts about a graph are finitely many, so the
worklist ends. Each kind of node is described twice: by the rules that the program applies, and by fields of pointers, cells and nodes
alone. In the end nodes that combine their operands have absorbed all operands that can reach them, and stores have
stored. A load has read what is in memory if control can go on to it from all nodes that write memory. It does not suffice that the
store in question can be followed by the load: in `MaskedStores.Mask` a store that reaches the load comes second,
finds the value in memory already, and reports nothing; the store that came first does not reach the load.

## Model

| member | source | states |
|---|---|---|
| Graphs.CDGraph.CreateNode | lib/ControlDependence/CDGraph.h:116-122 | a new node without edges; all edges stay |
| Graphs.CDGraph.AddNodeSuccessor | lib/ControlDependence/CDGraph.h:126-135 | exactly this edge is added, the two edge lists stay inverse, predicates stay the nodes with more than one successor |
| Graphs.CDGraph.AddSuccessor | include/dg/BBlockBase.h:58-71 | the edge is stored at both ends and only if it is not there yet |
| Graphs.WithEdgeIsValid | include/dg/BBlockBase.h:58-71 | adding an edge keeps edge lists inverse and without repetition |
| Graphs.HitLocal | lib/ControlDependence/NTSCD.h:41-51 | "all maximal paths meet the targets first" holds at a node just if it is a target or has successors, is not blocked and it holds at all of them |
| Graphs.HitLeast | lib/ControlDependence/NTSCD.h:41-51 | it is the least set closed under that rule |
| Paths.AllHitMeansPaths | lib/ControlDependence/NTSCD.h:15-16 | it is the same as: every path that ends in a sink and every infinite path meets the targets first |
| FrontierNTSCD.NTSCD.ComputeTarget | lib/ControlDependence/NTSCD.h:24-91 | colours exactly the nodes all of whose maximal paths meet the target, leaves other colours alone, and adds p to CD[target] just if p is another node that decides it |
| FrontierNTSCD.NTSCD.Compute | lib/ControlDependence/NTSCD.h:94-105 | on a fresh object CD[n] contains p just if p is not n, and the target n is on all maximal paths from one successor of p and not from another; revCD is the converse |
| CounterColoring.Coloring.Search | lib/ControlDependence/NTSCD.h:118-145 | what is coloured is the least set that the counters justify, counting a start node that fires twice; at most one push per node and one more per target |
| CounterNTSCD.ColorsEnough | lib/ControlDependence/NTSCD.h:118-145 | on every graph all nodes are coloured from which all maximal paths meet the targets |
| CounterNTSCD.ColorsExactly | lib/ControlDependence/NTSCD.h:132-144 | for one target the colours are exactly these nodes if and only if the target does not recolour |
| CounterNTSCD.LassoIsValid | lib/ControlDependence/NTSCD.h:118-145 | the counterexample is a graph that can be built |
| CounterNTSCD.LassoRecolors | lib/ControlDependence/NTSCD.h:118-145 | on it the target 1 recolours, and colours differ from the nodes that must meet the target |
| CounterNTSCD.NTSCD2.Compute | lib/ControlDependence/NTSCD.h:149-176 | CD[n] contains p just if some successors of p are coloured for n and some are not |
| CounterNTSCD.SplitsIsDecides | lib/ControlDependence/NTSCD.h:149-176 | for targets that do not recolour this is the relation of the frontier algorithm, and n may depend on itself |
| Miscoloring.ColorsSetExactly | lib/ControlDependence/NTSCD.h:118-145 | for any set of targets, the colours are exact if and only if no node is overcounted: has successors, can miss the targets, but has at most as many successors that can as it has successors among the targets processed again, which are the least set of targets with a rule of the same kind |
| Miscoloring.ColorsExactlyWithin | lib/ControlDependence/NTSCD.h:118-145 | the same for the colours of the nodes in a set that edges do not leave |
| Miscoloring.RecoloredIsSpill | lib/ControlDependence/NTSCD.h:118-145 | if the target has successors and cannot be missed from any of them, the coloured nodes are the least set with the target that takes in a node if all its successors are in the set, or all but one and the target is its successor |
| Miscoloring.SplitsExactly | lib/ControlDependence/NTSCD.h:149-176 | NTSCD2 is right about p and n if and only if it is not so that n recolours and misleads p |
| Miscoloring.DependenceMissed | lib/ControlDependence/NTSCD.h:149-176 | on a graph of two nodes the relation misses a dependence |
| Miscoloring.LassoIsHarmless | lib/ControlDependence/NTSCD.h:149-176 | on the lasso colours are wrong, but the relation is right for every predicate |
| CounterNTSCD.AllMaxPath.Compute | lib/ControlDependence/DOD.h:63-74 | the set of a node holds exactly the targets for which it is coloured |
| SymbolNTSCD.SymbolsTravel | lib/ControlDependence/NTSCD.h:196-242 | when no rule adds a symbol any more, a symbol at x is at every node that all maximal paths from x meet |
| SymbolNTSCD.FixpointIsExact | lib/ControlDependence/NTSCD.h:196-277 | then the symbol (p, r) is at n just if r is a successor of p and all maximal paths from r meet n |
| SymbolNTSCD.DecidesBySize | lib/ControlDependence/NTSCD.h:288-301 | then n has some but not all symbols of p just if p decides n |
| SymbolNTSCD.NTSCDRanganath.Fixpoint | lib/ControlDependence/NTSCD.h:270-278 | passes over the nodes in ascending order come to an end, with no rule left to apply and all symbols justified |
| SymbolNTSCD.NTSCDRanganath.Compute | lib/ControlDependence/NTSCD.h:249-305 | CD[n] contains p just if p decides n, n itself included; revCD is the converse |
| DepthFirstCheck.Search.Visit | lib/ControlDependence/DOD.h:563-604 | although visited nodes are shared between branches, success means that all maximal paths from the node meet the target and failure that some path from the first node of the stack does not |
| DepthFirstCheck.Search.Check | lib/ControlDependence/DOD.h:563-604 | terminates and is true just if n is on all maximal paths |
| PathForms.FirstReachedByPaths | lib/ControlDependence/DOD.h:127-147 | a node is first reached just if some path leads to it whose inner nodes are not in the set |
| PathForms.ReachByPaths | include/dg/SCC.h:13-16 | reaching, defined by closed sets, is being joined by a path |
| ApShape.AllMutual | lib/ControlDependence/DOD.h:149-188 | if p enters Ap in two places, any two nodes of Ap other than p are on all maximal paths from each other |
| ApShape.NeverBack | lib/ControlDependence/DOD.h:263-293 | then no edge of Ap leads back to p |
| ApShape.OneSuccessor | lib/ControlDependence/DOD.h:295-305 | then every other node of Ap has exactly one successor in it, which is neither p nor the node itself |
| DecisiveOrder.PairWithoutPredicate | lib/ControlDependence/DOD.h:436-454 | a predicate never decides the order of a pair that it belongs to |
| DecisiveOrder.TooSmall | lib/ControlDependence/DOD.h:165-168 | with fewer than three nodes in Ap there is nothing to decide |
| DecisiveOrder.OneEntry | lib/ControlDependence/DOD.h:181-186 | neither with fewer than two successors of p in Ap |
| DecisiveOrder.SharedEntry | lib/ControlDependence/DOD.h:234-259 | neither if both branches can enter Ap in the same node |
| DecisiveOrder.RingOrder | lib/ControlDependence/DOD.h:311-325 | on the cycle, all maximal paths meet i before k just if i is nearer along the cycle |
| DecisiveOrder.DecidesBySeparation | lib/ControlDependence/DOD.h:329-362 | p decides the order of two nodes of the cycle just if they separate the blue from the red nodes |
| DODAnalysis.FirstReachable | lib/ControlDependence/DOD.h:127-147 | lists the first nodes of the set on the paths that leave a node, each once |
| DODAnalysis.CreateAp | lib/ControlDependence/DOD.h:149-188 | an edge of Ap for every such pair, at least three nodes, and two successors of p; nothing just if there are fewer than three nodes or p has fewer than two successors |
| DODAnalysis.CreateColoredAp | lib/ControlDependence/DOD.h:190-261 | blue and red are where the two branches enter, and disjoint; no Ap just if it would be too small, entered once only, or have a shared entry |
| DODAnalysis.FindFork | lib/ControlDependence/DOD.h:276-293 | a node that it returns has more than one successor; if there is only one fork beside a cycle, it is found |
| DODAnalysis.WalkCycle | lib/ControlDependence/DOD.h:295-308 | the walk from a successor of p returns to it and has visited the nodes in between |
| DODAnalysis.CheckAp | lib/ControlDependence/DOD.h:263-309 | the assertions hold if and only if one node has several successors and the others are one cycle |
| DODAnalysis.WellShapedFits | lib/ControlDependence/DOD.h:263-309 | a well-shaped Ap is of this kind, and its fork is p |
| DODAnalysis.ExactShape | lib/ControlDependence/DOD.h:263-309 | if the set used is exactly the nodes on all maximal paths from p, Ap is well shaped, so no assertion fails |
| DODAnalysis.RingIsRing | lib/ControlDependence/DOD.h:295-308 | and the cycle of Ap is the cycle in which the graph meets these nodes |
| DODAnalysis.Find | lib/ControlDependence/DOD.h:311-325 | the first node of the second kind, and the last one of the first kind before it |
| DODAnalysis.FindArcs | lib/ControlDependence/DOD.h:332-357 | the last blue before the first red, the last red before the next blue, and whether another red follows |
| DODAnalysis.RecordArc | lib/ControlDependence/DOD.h:407-420 | exactly the nodes from one coloured node up to the next one become dependent |
| DODAnalysis.RecordArcs | lib/ControlDependence/DOD.h:332-371 | exactly the nodes of the two arcs become dependent, unless the colours alternate |
| DODAnalysis.ArcsAreDependences | lib/ControlDependence/DOD.h:332-371 | m is on one of the arcs [b2, r1) and [r2, b3), with no other red behind them, just if p decides the order of m and some n |
| DODAnalysis.ComputeOnAp | lib/ControlDependence/DOD.h:331-371 | the assertions hold if and only if Ap is a cycle beside a fork, there is a blue node, the lowest one is not the fork and neither are all red ones; then exactly the arcs behind the last blue and the last red node are recorded |
| DODComputation.DOD.ComputePredicate | lib/ControlDependence/DOD.h:436-454 | for any set: no assertion fails just if the Ap built from it can be walked, and then exactly its arcs are recorded; with the exact set none fails and CD[m] receives p just if m and some n are on all maximal paths from p and the two branches meet them in opposite orders; other predicates are untouched |
| DODComputation.ExactNodes | lib/ControlDependence/DOD.h:436-454 | an Ap of the exact set can be walked, and its arcs are the dependences |
| DODComputation.LassoFails | lib/ControlDependence/DOD.h:263-309 | on the lasso, with the sets that the counters give, an assertion fails |
| DODComputation.DOD.Compute | lib/ControlDependence/DOD.h:457-478 | runs through if and only if the Ap of no predicate fails an assertion, and then records the arcs of all; these are the dependences of each predicate whose colours are right, and if all are right it runs through |
| DODComputation.DoneIsRight | lib/ControlDependence/DOD.h:457-478 | what has been recorded is right for the predicates whose colours are |
| DODComputation.TrustedWithoutRecoloring | lib/ControlDependence/DOD.h:457-478 | the colours are right for all predicates if no target recolours |
| DODComputation.SplitsIsXor | lib/ControlDependence/DODNTSCD.h:33-40 | for two successors, the exclusive or of the two sets is the relation of the counter algorithm |
| DODComputation.DODNTSCD.ComputeNTSCD | lib/ControlDependence/DODNTSCD.h:16-42 | adds exactly that relation for p |
| DODComputation.DODNTSCD.RecordXor | lib/ControlDependence/DODNTSCD.h:36-41 | one entry for each node in exactly one of the sets |
| DODComputation.DODNTSCD.Compute | lib/ControlDependence/DODNTSCD.h:45-69 | the same for the order dependences and the relation of the counter algorithm together, and nothing else |
| SetQueues.SetQueue.Push | include/dg/ADT/SetQueue.h:24-27 | what has ever been pushed is not pushed again |
| SetQueues.SetQueue.Pop | include/dg/ADT/SetQueue.h:19 | the last element pushed leaves the queue but not the set of elements seen |
| ControlClosure.Theta | lib/ControlDependence/ControlClosure.h:86-94 | exactly the nodes of X that are met first from n, and n itself if it is in X |
| ControlClosure.Gamma | lib/ControlDependence/ControlClosure.h:38-84 | the nodes that the counters do not colour; each of them can miss the targets |
| ControlClosure.IsCritical | lib/ControlDependence/ControlClosure.h:113-139 | the three tests on an edge |
| ControlClosure.FindNode | lib/ControlDependence/ControlClosure.h:100-145 | finds a node reached from X with a critical edge, or there is no critical edge |
| ControlClosure.NewNode | lib/ControlDependence/ControlClosure.h:146-150 | a node with a critical edge is not in X, so every round adds one |
| ControlClosure.NoCriticalEdge | lib/ControlDependence/ControlClosure.h:99-153 | without critical edges, a node reached from X meets no node of X, or one and cannot be found to miss X |
| ControlClosure.ColorComesBack | lib/ControlDependence/ControlClosure.h:38-84 | if all paths from r go to e before anything else of a superset, r is coloured only if e is |
| ControlClosure.ColorGoesOn | lib/ControlDependence/ControlClosure.h:38-84 | and coloured if e is |
| ControlClosure.CriticalIsNeeded | lib/ControlDependence/ControlClosure.h:99-153 | a node with a critical edge is in every strongly closed superset, whether or not the colours are right |
| ControlClosure.ClosedExactly | lib/ControlDependence/ControlClosure.h:99-153 | a set without critical edges is strongly closed if and only if no node reached from it is overcounted |
| ControlClosure.StrayIsNotClosed | lib/ControlDependence/ControlClosure.h:99-153 | a graph of three nodes and a set without critical edges that is not strongly closed |
| ControlClosure.CloseSet | lib/ControlDependence/ControlClosure.h:99-153 | ends with a superset without critical edges that is contained in every strongly closed superset; it is strongly closed itself, and so the least one, if and only if no node reached from it is overcounted |
| StrongComponents.PopComponents | include/dg/SCC.h:74-94 | if the lowpoint of n is its number, the nodes above n are one class of mutually reachable nodes, and their edges lead to it or to earlier components |
| StrongComponents.PopKeeps | include/dg/SCC.h:74-94 | popping the component keeps the invariant of the search |
| StrongComponents.StayKeeps | include/dg/SCC.h:74 | so does leaving n on the stack |
| StrongComponents.VisitKeeps | include/dg/SCC.h:66-69 | so does taking in the lowpoint of a successor just visited |
| StrongComponents.SeenKeeps | include/dg/SCC.h:70-72 | and the number of a successor that is on the stack |
| StrongComponents.SCC.Visit | include/dg/SCC.h:54-95 | a visit keeps the invariant, and either pops n with all above it or leaves n reaching a node of the old stack named by its lowpoint |
| StrongComponents.SCC.PopComponent | include/dg/SCC.h:79-93 | exactly the nodes above the old stack are popped, numbered and listed once |
| StrongComponents.SCC.Compute | include/dg/SCC.h:26-31 | the lists partition the nodes reachable from the start into classes of mutual reachability, edges between lists go to smaller numbers, and the stack is empty |
| StrongComponents.ComponentsAreMaximal | include/dg/SCC.h:26-31 | a node is in the list of x just if it and x reach each other |
| Condensations.SCCCondensation.Compute | include/dg/SCC.h:123-147 | component i has the successor k just if k is another component that an edge from a node of i leads into |
| Condensations.SuccessorsAreSmaller | include/dg/SCC.h:88-90 | successors have smaller numbers, so the condensation has no cycle |
| Condensations.CondensationReaches | include/dg/SCC.h:123-147 | a path of the condensation joins two components just if their nodes reach each other |
| Condensations.PointerSubgraph.ComputeLoops | lib/PointerAnalysis/PointerGraph.cpp:75-100 | the loops are classes of mutually reachable nodes, each node has at most one, and the nodes that have one are known exactly |
| Condensations.RecordedIsOnCycle | lib/PointerAnalysis/PointerGraph.cpp:85-92 | what is recorded is on a cycle; a node on a cycle is recorded just if it shares it with another node or has a single successor |
| Offsets.Plus | include/dg/Offset.h:35-42 | addition up to the unknown offset, which it saturates at |
| Offsets.Minus | include/dg/Offset.h:60-66 | subtraction; unknown if it would be negative or an operand is unknown |
| IntervalMaps.DisjunctiveIntervalMap.SplitInterval | include/dg/ADT/DisjunctiveIntervalMap.h:392-413 | the entry becomes two, and every byte keeps its values |
| IntervalMaps.DisjunctiveIntervalMap.SplitExtBorders | include/dg/ADT/DisjunctiveIntervalMap.h:415-489 | no entry sticks out of the interval afterwards, bytes keep their values, and the result tells whether anything was split |
| IntervalMaps.DisjunctiveIntervalMap.Add | include/dg/ADT/DisjunctiveIntervalMap.h:505-590 | wherever one need not be subtracted from the unknown offset: entries stay sorted, disjoint and non-empty; each byte of the interval gets the value, or only that in an update; other bytes keep theirs; the result is true just if the entries differ |
| IntervalMaps.SplitNeedsKnown | include/dg/ADT/DisjunctiveIntervalMap.h:430-433 | an entry can be split in front of an interval just if the interval begins at a known offset |
| IntervalMaps.GapNeedsKnown | include/dg/ADT/DisjunctiveIntervalMap.h:558-564 | the entry for a gap is disjoint from the next one just if that begins at a known offset; if not, the values of the unknown offset are hidden |
| IntervalMaps.DisjunctiveIntervalMap.AddAll | include/dg/ADT/DisjunctiveIntervalMap.h:94-100 | the value is added to every byte that has some |
| IntervalMaps.SplitKeepsBytes | include/dg/ADT/DisjunctiveIntervalMap.h:392-413 | splitting an entry changes no byte |
| IntervalMaps.FillEntry | include/dg/ADT/DisjunctiveIntervalMap.h:566-573 | writing the next entry makes the bytes up to its end right |
| IntervalMaps.FillGap | include/dg/ADT/DisjunctiveIntervalMap.h:558-564 | so does an entry for a gap |
| IntervalMaps.DisjunctiveIntervalMap.FirstOverlap | include/dg/ADT/DisjunctiveIntervalMap.h:347-383 | the first entry that shares a byte with the interval, or none |
| IntervalMaps.DisjunctiveIntervalMap.Gather | include/dg/ADT/DisjunctiveIntervalMap.h:218-233 | the union of the values at the bytes of the interval |
| IntervalMaps.DisjunctiveIntervalMap.Uncovered | include/dg/ADT/DisjunctiveIntervalMap.h:240-295 | ascending runs without values that hold all such bytes of the interval; the last one goes past its end just if the last byte and the one after it have no values, some entry overlaps the interval and some entry follows |
| BlockDefinitions.SiteOfBytes | include/dg/MemorySSA/DefinitionsMap.h:33-40 | turning an interval into a site and back loses nothing, except in two cases at the unknown offset |
| BlockDefinitions.SiteCovers | include/dg/MemorySSA/DefinitionsMap.h:33-40 | by the fields of a site: it has the bytes from its offset on that its length says, all up to the end if the length is unknown or zero, and all bytes of the target if the offset is unknown |
| BlockDefinitions.DefinitionsMap.Write | include/dg/MemorySSA/DefinitionsMap.h:47-68 | exactly the bytes of the site are written; the result is true just if the map differs |
| BlockDefinitions.DefinitionsMap.AddAll | include/dg/MemorySSA/DefinitionsMap.h:55-61 | exactly the bytes that have definitions get one more; the result is true just if the map differs |
| BlockDefinitions.DefinitionsMap.Get | include/dg/MemorySSA/DefinitionsMap.h:108-116 | the definitions of all bytes of the site |
| BlockDefinitions.DefinitionsMap.UndefinedIntervals | include/dg/MemorySSA/DefinitionsMap.h:120-128 | the uncovered runs, or all of the site if the target is not in the map |
| BlockDefinitions.Definitions.Update | lib/MemorySSA/Definitions.cpp:23-51 | what executing a node does to the definitions and kills of each byte, writes to unknown memory included |
| BlockDefinitions.Definitions.Get | include/dg/MemorySSA/Definitions.h:46-52 | the definitions, or the writes to unknown memory if there are none at all |
| BlockDefinitions.Definitions.UncoveredSites | include/dg/MemorySSA/Definitions.h:62-65 | ordered sites that are not overwritten and hold all such bytes |
| LocalNumbering.LastWritersAre | lib/MemorySSA/Definitions.cpp:23-51 | the fold leaves exactly the writes that no later certain write hides |
| LocalNumbering.TameWritersAre | lib/MemorySSA/Definitions.cpp:23-51 | without writes to unknown memory: the last certain writer and all later writers |
| LocalNumbering.UnknownWriteIsFound | include/dg/MemorySSA/Definitions.h:46-52 | a write to unknown memory is found for a byte just if the byte had a definition before it or has none at all |
| LocalNumbering.PerformLvn | lib/MemorySSA/MemorySSA.cpp:443-455 | definitions are the fold, and a byte is killed just if some node certainly overwrote it |
| ReachingDefinitions.AnswersAreSound | lib/MemorySSA/MemorySSA.cpp:235-253 | if phi nodes are answered at their predecessors, everything that reaches the end of a block is among the nodes that an answer leads to |
| ReachingDefinitions.UsesAreSound | lib/MemorySSA/MemorySSA.cpp:18-61 | the same at a use, over all paths |
| ReachingDefinitions.CarriedReaches | lib/MemorySSA/MemorySSA.cpp:18-61 | by the fields of sites: a write to the byte reaches a node if some path leads from it to the node and no node in between is certain to overwrite the byte |
| ReachingDefinitions.ReachesIsCarried | lib/MemorySSA/MemorySSA.cpp:18-61 | and only then |
| ReachingDefinitions.OnlyPredecessorIsCloser | lib/MemorySSA/MemorySSA.cpp:176-203 | chains of only predecessors end |
| SearchState.CreatedIsWellFormed | lib/MemorySSA/MemorySSA.cpp:94-138 | creating a phi keeps the shape of the state |
| SearchState.CreatedIsSound | lib/MemorySSA/MemorySSA.cpp:106-138 | and the answers sound, if it is not entered for a byte past its site that a definition comes to the block for |
| SearchState.CreatingIsSoundIff | lib/MemorySSA/MemorySSA.cpp:106-129 | where paths join, the definitions of the block stay sound if and only if the phi is not entered for such a byte |
| SearchState.DefinitionIsMissed | lib/MemorySSA/MemorySSA.cpp:106-138 | a definition that comes to the block for a byte past the site comes to its end, the byte counts as overwritten, and what is kept for it leads to the definition if and only if the phi does |
| MissedDefinition.GapMisses | lib/MemorySSA/MemorySSA.cpp:106-138 | in a concrete procedure a definition of bytes 4 to 7 reaches their read, and what is kept after the first phi does not lead to it |
| MissedDefinition.GapPredecessorsOverwrite | lib/MemorySSA/MemorySSA.cpp:106-138 | there the predecessors of the join overwrite all of the first site, so that the phi has their own writers alone |
| MissedDefinition.GapIsNotContained | lib/MemorySSA/MemorySSA.cpp:106-138 | no family of byte ranges contains the searches of this procedure |
| ContainedSearches.OpenStays | lib/MemorySSA/MemorySSA.cpp:222-232 | if a family of byte ranges contains the searches, those that a search leads to are in it |
| ContainedSearches.JoinsStay | lib/MemorySSA/MemorySSA.cpp:106-129 | and where paths join no phi is entered past its site |
| AlignedSites.AlignedIsContained | lib/MemorySSA/MemorySSA.cpp:106-138 | there is such a family if sites overlap only where they are equal |
| SearchState.CreatingGrows | lib/MemorySSA/MemorySSA.cpp:106-138 | afterwards no byte of the site is open, and no byte opens |
| MemorySSA.CreatingCloses | lib/MemorySSA/MemorySSA.cpp:149-174 | from one phi to the next, the open (block, byte) pairs get strictly fewer |
| MemorySSA.MemorySSATransformation.GetBlockDefinitions | lib/MemorySSA/MemorySSA.cpp:414-440 | numbered once; the invariant is kept |
| MemorySSA.MemorySSATransformation.EnterPhi | lib/MemorySSA/MemorySSA.cpp:106-129 | the phi defines and overwrites exactly the runs that were not overwritten, and no kill is entered twice |
| MemorySSA.MemorySSATransformation.CreateAndPlacePhi | lib/MemorySSA/MemorySSA.cpp:131-138 | a phi for the site at the start of the block; the invariant is kept |
| MemorySSA.MemorySSATransformation.FindDefinitions | lib/MemorySSA/MemorySSA.cpp:235-253 | terminates, keeps the invariant, and the result answers for every byte of the site at the end of the block |
| MemorySSA.MemorySSATransformation.AddUncovered | lib/MemorySSA/MemorySSA.cpp:222-232 | after it the bytes that are not overwritten are answered at the start of the block |
| MemorySSA.MemorySSATransformation.FindDefinitionsInPredecessors | lib/MemorySSA/MemorySSA.cpp:176-203 | the result answers for every byte of the site at the start of the block |
| MemorySSA.MemorySSATransformation.FindDefinitionsInMultiplePredecessors | lib/MemorySSA/MemorySSA.cpp:149-174 | the same where paths join or the procedure starts |
| MemorySSA.MemorySSATransformation.FindPhiDefinitions | include/dg/MemorySSA/MemorySSA.h:152-167 | what is recorded for the phi answers at the end of every predecessor; if each predecessor overwrites the site, it is what they write last |
| MemorySSA.MemorySSATransformation.FindDefinitionsInBlock | lib/MemorySSA/MemorySSA.cpp:460-473 | numbering up to a node |
| MemorySSA.MemorySSATransformation.FindDefinitionsOfUse | lib/MemorySSA/MemorySSA.cpp:18-61 | the result answers for every byte that the node reads |
| MemorySSA.MemorySSATransformation.GatherNonPhisDefs | lib/MemorySSA/MemorySSA.cpp:776-826 | exactly the nodes that are not phi nodes among what the given nodes lead to |
| MemorySSA.MemorySSATransformation.GetDefinitions | lib/MemorySSA/MemorySSA.cpp:830-837 | after any earlier queries, every node that writes a used byte and reaches the use without a later certain overwrite is in the result, provided that no phi was entered past its site with harm, which never happens if the procedure has a family that contains the searches; if sites overlap only where they are equal, the result is exactly these nodes; both are also said by the fields of sites and paths alone |
| MemorySSA.ReachingIsCarried | lib/MemorySSA/MemorySSA.cpp:18-61 | the nodes that reach a use are those from which a path leads to it along which a byte that it reads, told by the fields of sites, is not overwritten |
| MemorySSA.StretchedIsFound | include/dg/MemorySSA/DefinitionsMap.h:33-40 | a write at the unknown offset is in such a result for a read of any byte of its target that no node on the path between is certain to overwrite |
| MemorySSA.GatheredIsExact | lib/MemorySSA/MemorySSA.cpp:776-837 | the last part, for what is gathered |
| ExactAnswers.LedComes | lib/MemorySSA/MemorySSA.cpp:149-253 | what phi nodes lead to comes along paths without being overwritten, if each phi has only what comes to its site |
| ExactAnswers.ComesIsReaching | lib/MemorySSA/MemorySSA.cpp:18-61 | a node of the procedure that comes to a use in this sense reaches it with some byte |
| BlockSplitting.SplitIsValid | include/dg/ReadWriteGraph/RWBBlock.h:89-114 | splitting a block keeps edge lists inverse and without repetition |
| BlockSplitting.SplitKeepsRuns | include/dg/ReadWriteGraph/RWBBlock.h:37-117 | the sequences of nodes that can run from any block are the same, also when the block is its own successor |
| BlockSplitting.SplitKeepsEnds | include/dg/ReadWriteGraph/RWBBlock.h:37-117 | so are those of whole executions, up to a block without successors |
| BlockSplitting.ReconnectedIsSplit | include/dg/ReadWriteGraph/RWBBlock.h:89-114 | the rewired edges are those of one or two splits |
| BlockSplitting.RWSubgraph.AddSuccessor | include/dg/BBlockBase.h:58-71 | the edge is stored at both ends and only if it is not there yet |
| BlockSplitting.RWSubgraph.SplitAround | include/dg/ReadWriteGraph/RWBBlock.h:37-117 | the block is split before and after the first occurrence of the node |
| BlockSplitting.RWSubgraph.SplitBlockOnFirstCall | lib/ReadWriteGraph/ReadWriteGraph.cpp:100-122 | the parts have their calls alone, except a rest that is shorter than the block was |
| BlockSplitting.RWSubgraph.SplitBBlocksOnCalls | lib/ReadWriteGraph/ReadWriteGraph.cpp:124-151 | terminates; the old blocks stay in front, every call that is split on is alone in its block, and the sequences of nodes that can run from any old block, to some point or to an end, are unchanged; blocks without calls stay as they are |
| PointsToSets.AddPointerGrows | include/dg/PointerAnalysis/PointsToSets/PointerIdPointsToSet.h:29-36 | adding a pointer covers more if it changes the set, although the unknown offset drops other pointers |
| PointsToSets.AddPointerIsExact | include/dg/PointerAnalysis/PointsToSets/PointerIdPointsToSet.h:34-57 | what is covered afterwards is what was, and the new pointer, or all to its target if its offset is unknown; no pointer stays beside the one with the unknown offset if there was none |
| PointsToSets.UnionGrows | include/dg/PointerAnalysis/PointsToSets/PointerIdPointsToSet.h:62 | so does a union, which keeps all pointers |
| PointerGraphs.GetNodes | include/dg/PointerAnalysis/PointerGraph.h:231-297 | the least set with the starting nodes that has the callees of each of its calls (the successors if there are none), the return sites of each of its returns (the successors if there are none), and the successors of its other nodes; each node once |
| PointerGraphs.ReachedIsLeast | include/dg/PointerAnalysis/PointerGraph.h:255-276 | being reached, as it is used by the analysis, is being in this set |
| PointerGraphs.PreprocessGeps | include/dg/PointerAnalysis/PointerAnalysisFI.h:17-36 | exactly the GEPs in loops get the unknown offset; everything else in the graph stays |
| PointerStates.StepShrinksMissing | include/dg/PointerAnalysis/PointerAnalysis.h:87-101 | a reported change leaves fewer facts that can still become true |
| PointerStates.PtsStep | lib/PointerAnalysis/PointerAnalysis.cpp:345-488 | a points-to set that grows keeps all facts, and offsets stay among unknown, zero, below the size and those of constants |
| PointerStates.CellStep | include/dg/PointerAnalysis/MemoryObject.h:46-57 | the same for a memory cell |
| PointerTransfer.GepPointerIsOk | lib/PointerAnalysis/PointerAnalysis.cpp:307-326 | the pointer that a GEP makes has an admissible offset |
| PointerTransfer.Analysis.constructor | include/dg/PointerAnalysis/PSNode.h:191-202 | memory and functions point to themselves at offset zero, constants to their operand at their offset, unknown memory anywhere in itself, other nodes nowhere |
| PointerTransfer.StartIsWell | include/dg/PointerAnalysis/PSNode.h:191-202 | the same of the first state |
| PointerTransfer.DereferencedIsMemory | lib/PointerAnalysis/PointerAnalysis.cpp:12-21 | just the pointers to allocated memory are followed |
| PointerTransfer.GepShifts | lib/PointerAnalysis/PointerAnalysis.cpp:301-330 | a GEP gets each pointer of its source at the sum of the two offsets, which wraps around, if that is zero or below the size, and below the field sensitivity; otherwise, and if an offset is unknown, it gets the unknown offset; whatever is new in its set is such a pointer |
| PointerTransfer.Analysis.ProcessGep | lib/PointerAnalysis/PointerAnalysis.cpp:301-330 | the set of the GEP has come to cover just that for all pointers of its source |
| PointerTransfer.Analysis.ProcessPhi | lib/PointerAnalysis/PointerAnalysis.cpp:396-403 | the union with the sets of all operands |
| PointerTransfer.Analysis.ProcessLoad | lib/PointerAnalysis/PointerAnalysis.cpp:35-125 | covers all that is in cells of allocated memory where the operand points, at the same offset or if one of them is unknown; null from zeroed memory in which nothing has been stored there; unknown pointers from unknown memory; adds nothing else |
| PointerTransfer.LoadReads | lib/PointerAnalysis/PointerAnalysis.cpp:35-125 | loading cell by cell and object by object comes to that |
| PointerTransfer.Analysis.ProcessStore | lib/PointerAnalysis/PointerAnalysis.cpp:348-363 | the values are added to the cells of allocated memory that the second operand points to, and nothing else differs |
| PointerTransfer.StoreIsInMemory | lib/PointerAnalysis/PointerAnalysis.cpp:348-363 | pointers to functions, null and unknown memory are not stored through |
| PointerTransfer.Analysis.ProcessMemcpy | lib/PointerAnalysis/PointerAnalysis.cpp:127-181 | for each pointer to memory of the source and each of the destination: what was d bytes behind the first is d bytes behind the second, for any d below the length, or at the unknown offset if that is past the size or the field sensitivity, or an offset is unknown; what is new in a cell comes from the cell as far behind the source; zeroed memory that is copied whole has left a zero mark, otherwise null |
| PointerTransfer.CopiesBytes | lib/PointerAnalysis/PointerAnalysis.cpp:183-299 | copying the cells in range, each to its new offset, comes to that |
| PointerTransfer.Analysis.CopyObject | lib/PointerAnalysis/PointerAnalysis.cpp:183-299 | the same for one object, which may be copied to itself |
| PointerTransfer.CopiedTwice | lib/PointerAnalysis/PointerAnalysis.cpp:127-181 | copies add up |
| PointerTransfer.Analysis.ProcessNode | lib/PointerAnalysis/PointerAnalysis.cpp:332-488 | a report of change means strict growth; none means that points-to sets and cells are the same, while zero marks may have been set; each kind of node does what its own row says, other kinds do nothing |
| PointerTransfer.NodeProcessedMeans | lib/PointerAnalysis/PointerAnalysis.cpp:332-488 | other nodes keep their sets, and a node that combines its operands has absorbed them |
| FlowInsensitive.PointerAnalysisFI.Iteration | include/dg/PointerAnalysis/PointerAnalysis.h:87-101 | nodes not reported have kept their sets, and each processed node has absorbed the operands not reported; processed stores whose operands are not reported have stored, and if no write to memory is reported, such loads have loaded; the state is the one after processing each node once, in the order of the queue |
| FlowInsensitive.PointerAnalysisFI.QueueChanged | include/dg/PointerAnalysis/PointerAnalysis.h:103-119 | everything that the changed nodes reach is queued |
| FlowInsensitive.RoundSettles | include/dg/PointerAnalysis/PointerAnalysis.h:87-119 | a round keeps: reachable nodes that are not queued have absorbed every operand that reaches them |
| FlowInsensitive.RoundSettlesMemory | include/dg/PointerAnalysis/PointerAnalysis.h:87-119 | a round also keeps: reachable nodes that are not queued have stored, and have loaded if all that writes memory can be followed by them |
| FlowInsensitive.PointerAnalysisFI.Run | lib/PointerAnalysis/PointerAnalysis.cpp:488-533 | terminates with that for all reachable nodes; before, each global node has been processed once, in order, and afterwards only reachable ones; memory, functions and constants keep their sets |
| GlobalPasses.GlobalsHold | lib/PointerAnalysis/PointerAnalysis.cpp:496-504 | in the end a global store has its values in the cells that it points to, and a global GEP, cast or phi has absorbed its operands, where these are not computed, or neither come later among the globals nor are reached |
| GlobalPasses.GlobalIsStored | lib/PointerAnalysis/PointerAnalysis.cpp:496-504 | for one value and one pointer of such a store |
| FlowInsensitive.GlobalMeans | lib/PointerAnalysis/PointerAnalysis.cpp:496-504 | for one pointer that such an operand has: the node covers it, shifted if it is a GEP |
| FlowInsensitive.GlobalIsLoaded | lib/PointerAnalysis/PointerAnalysis.cpp:496-548 | a value that a global store puts into a cell is covered at each reachable load of the cell that can follow all writes to memory and its operand |
| FlowInsensitive.StoredIsLoaded | lib/PointerAnalysis/PointerAnalysis.cpp:536-548 | in the end a value that a store puts into a cell is covered at each such load that reads the cell |
| StoredValues.NodeProcessedMemory | lib/PointerAnalysis/PointerAnalysis.cpp:332-363 | processing a node keeps what memory covers; a store's values are in all cells that it points to, and a load has what is in all cells that it can read |
| MaskedStores.BeforeIsInitial | lib/PointerAnalysis/PointerAnalysis.cpp:488-533 | the graph of the counterexample and its first state |
| MaskedStores.FirstRound | include/dg/PointerAnalysis/PointerAnalysis.h:87-101 | in the first round only the first store reports a change; the load has read before |
| MaskedStores.StoreIsMasked | include/dg/PointerAnalysis/PointerAnalysis.h:103-119 | the second round has only that store and changes nothing: in the end the load misses what the second store, which can be followed by it, has put into memory |
| FlowInsensitive.SettledMeans | lib/PointerAnalysis/PointerAnalysis.cpp:536-548 | in the end whatever such an operand may point to is covered at the node, shifted if that is a GEP |

## Left out

- CounterColoring.Coloring.Search: out-degrees are below 65536, because the counters are 16-bit numbers.
- CounterNTSCD.ColorsEnough: the other half fails; the exact conditions are in CounterNTSCD.ColorsExactly and Miscoloring.ColorsSetExactly.
- DODComputation.DOD.Compute: predicates have exactly two successors, as an assertion of the program demands; where the colours are wrong about a predicate, the arcs of its Ap are what is recorded, and they are not compared with its dependences.
- ControlClosure.CloseSet: not always strongly closed, since the colours are not always right; the exact condition is about the result, which the program does not look at again.
- IntervalMaps.DisjunctiveIntervalMap.Add: excludes intervals that end at the unknown offset where one would have to be subtracted from it; what is lost then is in IntervalMaps.SplitNeedsKnown and IntervalMaps.GapNeedsKnown.
- IntervalMaps.DisjunctiveIntervalMap.Uncovered: excludes maps in which an entry begins at the unknown offset behind a gap, for the same reason.
- IntervalMaps.DisjunctiveIntervalMap.Gather: the map is not empty, as an assertion of the program demands.
- LocalNumbering.TameWritersAre: blocks with writes to unknown memory are described by LocalNumbering.LastWritersAre and LocalNumbering.UnknownWriteIsFound only.
- MemorySSA.MemorySSATransformation.GetDefinitions: not sound for all procedures, as MissedDefinition.GapMisses shows; the condition on the procedure is sufficient, the exact one is about the step that enters a phi.
- MemorySSA.MemorySSATransformation.EnterPhi: procedures have no writes to unknown memory here, which the program would add beside the phi.
- PointerTransfer.Analysis.ProcessGep: the GEP is not its own source, since the program would change the set that it walks over.
- FlowInsensitive.PointerAnalysisFI.ProcessGlobals: one pass is made and no more; that a second one changes nothing, which an assertion of the program demands, is not shown.
- FlowInsensitive.PointerAnalysisFI.Run: nothing is claimed of a load that some write to memory cannot be followed by; what it then may miss is in MaskedStores.StoreIsMasked.
- Nodes of Ap go by the names of the nodes that they stand for; the maps between the two are left out, as is the ternary form of the relation.
- The order in which sets are walked over is left open, except for memory cells.
- Searching in reverse post-order with a workbag and `doFixpoint` false in the symbol algorithm, which the program itself calls wrong.
- The remaining functions of DODRanganath.
- Calls in memory SSA (call blocks, mod-ref sets, inputs and outputs of procedures) and reads of unknown memory.
- `intersection`, `overlaps` and `overlapsFull` of the interval map, and `join` of definitions.
- Which block a node is in is read off the lists of nodes instead of being stored in the node.
- Pointers whose target is a constant, a cast or a GEP; calls through pointers, forks, joins and invalidated memory; a bound on iterations; the check that globals have reached a fixpoint.
- Machine words for numbers of nodes and blocks, which are unbounded here.
- Compiler front ends, printing, options, ownership of memory and time.
