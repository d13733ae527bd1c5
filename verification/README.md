# Zones, pushdown exploration and bytecode of a timed-automata model checker

This project models, in Dafny, the algorithms at the heart of TChecker's branch for pushdown timed automata, and proves what
they are for. A set of clock valuations is stored as a matrix of difference bounds; everything the checker does rests on the
operations on such matrices being exact. On top of them stand the exploration of pushdown systems by a saturation table, the
search for accepting states with covering, the solver for clock bounds, the offset zones with several reference clocks, the
compiler of guards and statements to bytecode, and the intrusive lists of the state graph.

## How it is organized

- `Bounds`, `Encoding`: difference bounds as mathematical objects, and as the integers that the program stores, with its range
  checks.
- `Zones`, `FloydWarshall`, `ZoneOps`: the zone of a matrix as a set of real valuations; when it is empty; why tight matrices are
  canonical; what tightening, constraints, resets, delay and intersection do to that set.
- `Dbm`: these operations in place on an array, with early returns and overflow exceptions, proved against the above.
- `LuSimulation`, `Extrapolation`, `ExtrapolationLaws`, `DbmAbstraction`: the simulation test and the four extrapolations, as matrices,
  as sets and in place.
- `ZoneGraph`, `EdgeRuns`, `ZoneSemantics`: sequences of symbolic steps against runs of valuations, what the steps of a transition do
  to a valuation, and the successor computation in place.
- `OffsetZones`, `OffsetDbm`: several reference clocks, and how they refine ordinary zones.
- `Pushdown`, `Traces`, `Saturation`, `FindBuilder`, `Explore`, `Representatives`: well-nested runs, how the table puts them
  together, what it means, the table itself, the exploration loop, and cases where stored nodes are reached only up to simulation.
- `TimedPushdown`: pushdown timed automata with a real stack and real clocks, and that their zone graphs reach just what they can.
- `LocalBounds`, `NodeComparison`: the comparison of nodes by the constraints of their own location, as values and in place.
- `Integrality`, `Regions`: stored bounds are integers, and what such bounds can tell of a valuation.
- `LocalSimulation`, `LocalCondition`, `LocalSufficiency`, `LocalNecessity`, `Limits`, `LocalCheck`, `LocalExact`: when that
  comparison may be trusted. On the zones that nodes can have it is a simulation exactly when no edge has a gap, and that can be
  computed.
- `LocalEquivalence`: what changes when nodes must be equivalent to be dropped and diagonal constraints are listed.
- `MissedLocations`, `MissedDiagonals`, `Tolerated`: automata with gaps, for which the exploration finishes without a location that can
  be reached, and edges that are respected although a coarser look finds a gap.
- `FiniteIndex`, `TimedExploration`: why the exploration ends although nothing is extrapolated, where it starts, and that it answers
  exactly the reachability question when no edge has a gap.
- `CoverGraph`, `Covering`, `CoveringReachability`, `TimedReachability`: the hashed node table, what a covering graph says, the
  search that lets small nodes give way to bigger ones, and that by global bounds it decides reachability for timed automata.
- `ClockBounds`, `Solver`: systems of inequalities between clock bounds and their least solutions; the solver class.
- `Machine`, `Language`, `LanguageProps`: the bytecode machine; typed expressions and statements and their meaning.
- `Compiler`, `CompilerCorrect`, `StatementCorrect`, `CodeLayout`, `CodeWriter`: the generated code, that running it does what the
  program means and ends when the program does, that it is well laid out, and the visitors that write it.
- `Formulas`, `Scopes`, `ClockValues`: what programs mean beyond the machine: which clock values satisfy a formula, how long a
  declaration lives, and which values the clocks take.
- `DirectedGraph`: edges as cells of two singly linked lists, on the heap.

Bounds and clock values are reals in the theory of zones, so that statements hold for all real valuations; the stored bounds are
integers of 32 bits, the default width, and every operation that can leave their range reports it. Exceptions of the source are
results of the model (`OutOfRange`, `None`, `Throws`), and signed overflow and division by zero in bytecode are the result
`Undefined`. Clocks, files and the output stream are not modelled. `dafny verify dfyconfig.toml` checks everything.

## Model

| member | source | states |
|---|---|---|
| Encoding.OrderEmbedding | include/tchecker/dbm/db.hh:57-82 | the integer order of stored bounds is the order of tightness of the bounds they stand for |
| Encoding.MakeExact | include/tchecker/dbm/db.hh:76-82 | a bound is encoded, and decodes to itself, exactly when its value is in range; otherwise the exception |
| Encoding.SumExact | include/tchecker/dbm/db.hh:95-107 | the stored sum decodes to the sum of the decoded bounds, strict if one of them is; it exists exactly when that sum is representable; the unchecked variant gives the same integer |
| Encoding.AddExact | include/tchecker/dbm/db.hh:118-132 | adding a constant shifts the decoded bound by it, exactly when the result is representable |
| Encoding.MinExact | include/tchecker/dbm/db.hh:140-144 | the minimum of two stored bounds is the tighter of the two |
| Zones.Extend | include/tchecker/dbm/dbm.hh:152-177 | a valuation of some clocks that respects a tight consistent matrix extends to all clocks, one at a time |
| Zones.Inhabited | include/tchecker/dbm/dbm.hh:152-177 | a tight consistent matrix denotes a non-empty zone |
| Zones.Attained | src/dbm/dbm.cc:255-286 | every difference of two clocks that the two opposite bounds of a tight matrix allow is taken in its zone |
| Zones.Canonical | src/dbm/dbm.cc:272-286 | between tight matrices, entrywise comparison is inclusion of zones, in both directions |
| Zones.CanonicalForm | src/dbm/dbm.cc:255-269 | two tight consistent matrices denote the same zone if and only if they are equal |
| FloydWarshall.StepSat | src/dbm/dbm.cc:168-189 | a phase of Floyd-Warshall keeps the set of solutions |
| FloydWarshall.StepKeepsTightVia | src/dbm/dbm.cc:168-189 | a phase that leaves the diagonal clean keeps the matrix tight via all clocks treated before |
| FloydWarshall.PhasesClose | src/dbm/dbm.cc:168-189 | when all phases leave the diagonal clean, the outcome is tight, consistent and has the same solutions |
| FloydWarshall.PhasesDecide | src/dbm/dbm.cc:168-189 | the diagonal stays clean through all phases if and only if the matrix has a solution |
| FloydWarshall.EntryIsSimpleWalk | src/dbm/dbm.cc:168-189 | before any negative diagonal entry, every entry of every phase is the weight of a walk without repeated clocks in the original matrix |
| FloydWarshall.PhasesWithin | src/dbm/dbm.cc:168-189 | with entries within b, no entry of any phase exceeds (dim - 1) * b |
| Dbm.Tighten | src/dbm/dbm.cc:168-189 | exact: EMPTY only if there is no solution, otherwise tight, consistent and the same solutions; no exception when 2 * (dim - 1) * b fits, even with a negative cycle |
| Dbm.Phase | src/dbm/dbm.cc:174-185 | the inner loops of one phase compute the simultaneous update although they overwrite the matrix in place, and stop at the first negative diagonal entry |
| Dbm.TightenEdge | src/dbm/dbm.cc:192-223 | the incremental tightening computes the squeezed matrix, or reports that the new edge closes a negative loop |
| Dbm.Constrain | src/dbm/dbm.cc:226-252 | exactly the valuations that also satisfy the constraint remain; EMPTY if and only if there are none; tight and consistent again; exceptions only when five times the largest entry is out of range, or the constant itself |
| ZoneOps.SqueezeTight | src/dbm/dbm.cc:192-223 | one more bound through one edge leaves a tight matrix tight and consistent when it closes no negative loop |
| ZoneOps.SqueezeIsFloydWarshall | src/dbm/dbm.cc:192-252 | entry for entry the incremental update is the full Floyd-Warshall run on the matrix with the bound written in, and both fail together |
| Dbm.IsLe | src/dbm/dbm.cc:272-286 | true if and only if the first zone is included in the second |
| Dbm.IsEqual | src/dbm/dbm.cc:255-269 | true if and only if the two zones are the same set |
| Dbm.ResetClock | src/dbm/dbm.cc:289-299 | the dispatch to the three reset routines computes the one reset of the specification |
| Dbm.ResetToValue | src/dbm/dbm.cc:302-325 | in place, the reset to a constant, tight and consistent without any tightening; it agrees with the reset to a sum |
| Dbm.ResetToClock | src/dbm/dbm.cc:328-349 | in place, the reset to another clock; it agrees with the reset to a sum |
| Dbm.ResetToSum | src/dbm/dbm.cc:352-385 | in place, the reset to a clock plus a constant, also when the two clocks coincide |
| ZoneOps.ResetExact | src/dbm/dbm.cc:289-385 | the zone after a reset is exactly the set of updated valuations |
| Dbm.LetTimePass | src/dbm/dbm.cc:388-401 | in place, every upper bound against clock 0 is dropped, tight and consistent without any tightening |
| ZoneOps.OpenUpExact | src/dbm/dbm.cc:388-401 | the zone after a delay is exactly the set of valuations delayed by some d >= 0 |
| Dbm.Intersection | src/dbm/dbm.cc:404-424 | exactly the common valuations remain; EMPTY if and only if there are none |
| LuSimulation.AluSound | src/dbm/dbm.cc:729-778 | if the test succeeds, every valuation of the first zone is below one of the second in the LU preorder |
| LuSimulation.AluExact | src/dbm/dbm.cc:729-778 | the test succeeds if and only if the first zone is included in the abstraction of the second |
| LuSimulation.AluPreorder | src/dbm/dbm.cc:729-778 | the test is reflexive, transitive and implied by inclusion, so that the comparison in both directions is an equivalence |
| LuSimulation.LooseExact | src/dbm/dbm.cc:729-778 | the test stays exact for the negative bounds that constraints with negative constants lead to |
| DbmAbstraction.IsAluLe | src/dbm/dbm.cc:729-778 | the loops with their skips decide inclusion in the abstraction; exceptions only without room for one sum |
| DbmAbstraction.MyLuPlus | src/dbm/dbm.cc:723-726 | false if and only if the second zone is simulated by the first, or, for equivalence, each by the other |
| Extrapolation.RelaxOrder | src/dbm/dbm.cc:427-721 | the plain relaxation contains the zone and is contained in the strong one |
| Extrapolation.ExtrapolationsProper | src/dbm/dbm.cc:427-721 | extrapolated zones are tight, consistent, positive, never empty, contain the zone, are ordered, and have entries within (dim - 1) times the largest clock bound |
| Extrapolation.ExtrapolationsMonotone | src/dbm/dbm.cc:427-721 | larger clock bounds extrapolate less; in particular the variants by maximal constants are inside those by lower and upper bounds |
| Extrapolation.ExtrapolationSimulated | src/dbm/dbm.cc:637-778 | the simulation test succeeds both ways between a zone and its extrapolation: no extrapolation leaves the abstraction |
| ExtrapolationLaws.ExtrapolationsExact | src/dbm/dbm.cc:427-721 | what the extrapolations keep, said of sets of valuations: a bound between two clocks is let go exactly when some valuation exceeds the lower clock bound through it, and, by the strong variants, when the zone is past the lower bound of the first clock or the upper bound of the second; every other bound stays as it was |
| ExtrapolationLaws.RaisedStrong | src/dbm/dbm.cc:668-677 | if the zone has a clock past its lower clock bound, the strongly extrapolated zone is closed under raising that clock |
| ExtrapolationLaws.LoweredStrong | src/dbm/dbm.cc:637-721 | if the zone has a clock past its upper clock bound, the strongly extrapolated zone is closed under lowering that clock to anything above the bound |
| ExtrapolationLaws.RaisedPlain | src/dbm/dbm.cc:570-635 | if some valuation of the zone exceeds the lower clock bound of a clock against every other clock, the extrapolated zone is closed under raising that clock |
| DbmAbstraction.ExtraLuInPlace | src/dbm/dbm.cc:570-635 | in place, the plain relaxation by lower and upper bounds, then tightened when something has changed; exactly the valuations of the law of the plain extrapolation; the ignored result is never EMPTY |
| DbmAbstraction.ExtraLuPlusInPlace | src/dbm/dbm.cc:637-721 | in place, the strong relaxation, with whole rows opened and row 0 last, then tightened when something has changed; exactly the valuations of the law of the strong extrapolation |
| DbmAbstraction.ExtraMInPlace | src/dbm/dbm.cc:427-487 | in place, by loops of its own, the plain relaxation with the same constants as lower and upper bounds, then tightened when something has changed; exactly the valuations of its law |
| DbmAbstraction.ExtraMPlusInPlace | src/dbm/dbm.cc:490-567 | likewise for the strong relaxation, with whole rows opened and row 0 last; exactly the valuations of its law |
| ZoneGraph.StepSimulated | include/tchecker/zone/dbm/semantics.hh:181-211 | the LU preorder is a simulation for guards, resets to constants and delay |
| ZoneGraph.RunSound | include/tchecker/zone/dbm/semantics.hh:181-211 | every concrete run stays inside the symbolic one, extrapolations included |
| ZoneGraph.RunComplete | include/tchecker/zone/dbm/semantics.hh:181-211 | every valuation at the end of a symbolic run is simulated by the end of a concrete run |
| ZoneGraph.RunExact | include/tchecker/zone/dbm/semantics.hh:181-211 | a sequence of steps survives on extrapolated zones if and only if some valuation of the first zone can take it |
| ZoneGraph.PlainExact | include/tchecker/zone/dbm/semantics.hh:181-211 | without extrapolation the zone at the end of any steps, diagonal guards and resets to other clocks included, holds exactly the ends of the runs |
| ZoneGraph.SubsumptionIsSimulation | include/tchecker/algorithms/covreach/cover.hh:171-174 | when one zone is simulated by another for global bounds, every successor of the first is simulated by the corresponding successor of the second |
| ZoneSemantics.ConstrainAll | src/zone/dbm/semantics.cc:16-27 | a list of constraints is imposed up to the first that empties the zone; the outcome is that of the symbolic steps |
| ZoneSemantics.Next | include/tchecker/zone/dbm/semantics.hh:181-211 | the successor computed in place is the one of the symbolic steps; the status says whether the guard or the target invariant fails, or that a bound is not representable |
| ZoneSemantics.Initialize | include/tchecker/zone/dbm/semantics.hh:135-159 | the initial zone computed in place is the one of the symbolic steps from all clocks at zero; the status says whether the invariant fails, or that a bound is not representable |
| EdgeRuns.NextExact | include/tchecker/zone/dbm/semantics.hh:181-211 | without extrapolation the successor zone holds exactly the valuations that the transition leads to: the guard holds, clocks are reset in turn, the invariant holds, time passes where it may, and the invariant holds again; it is empty exactly when there are none |
| EdgeRuns.NextExtrapolated | include/tchecker/zone/dbm/extrapolation.hh:422-426 | with extrapolation, what the law of the strong extrapolation leaves of that zone |
| EdgeRuns.GuardSurvives | include/tchecker/zone/dbm/semantics.hh:181-211 | the guard is violated exactly when no valuation of the zone satisfies it |
| EdgeRuns.InitialExact | include/tchecker/zone/dbm/semantics.hh:135-159 | the initial zone holds exactly the valuations that waiting leads to from zero, with the invariant at both ends; with extrapolation, what the law of the strong one leaves of that |
| OffsetZones.LinkSat | src/dbm/offset_dbm.cc:189-203 | writing the bounds between consecutive reference clocks keeps exactly the valuations whose reference clocks are all equal |
| OffsetZones.SynchronizedExact | src/dbm/offset_dbm.cc:189-227 | Floyd-Warshall over the reference clocks alone gives a fully tight matrix of exactly the synchronized valuations |
| OffsetZones.SynchronizableExact | src/dbm/offset_dbm.cc:189-227 | the diagonal stays clean if and only if some valuation of the zone is synchronized |
| OffsetDbm.Synchronize | src/dbm/offset_dbm.cc:189-227 | in place: EMPTY only if no valuation is synchronized, otherwise tight and exactly the synchronized ones; no spurious overflow |
| OffsetZones.InSyncExact | src/dbm/offset_dbm.cc:123-141 | the bounds between consecutive reference clocks are all <=0 if and only if all valuations are synchronized |
| OffsetDbm.IsSynchronized | src/dbm/offset_dbm.cc:123-141 | decides whether all valuations of the zone are synchronized |
| OffsetZones.AsyncExact | src/dbm/offset_dbm.cc:257-306 | the matrix after an asynchronous delay denotes exactly the valuations whose delaying reference clocks have moved back, each by an amount of its own |
| OffsetDbm.AsynchronousOpenUp | src/dbm/offset_dbm.cc:282-306 | in place, for the reference clocks that may delay; tight and consistent without any tightening |
| OffsetDbm.AsynchronousOpenUpAll | src/dbm/offset_dbm.cc:257-279 | in place, for all reference clocks |
| OffsetDbm.ResetToRefclock | src/dbm/offset_dbm.cc:230-254 | in place, row and column of the variable become those of its reference clock, although they are read while they are written; exactly the valuations in which the variable has taken the value of that clock |
| OffsetZones.ProjectExact | src/dbm/offset_dbm.cc:309-338 | the projection denotes exactly the values of the ordinary clocks |
| OffsetDbm.ToDbm | src/dbm/offset_dbm.cc:309-338 | copies the projection of a synchronized matrix into an ordinary one, tight and consistent |
| OffsetZones.DelaySquare | src/dbm/offset_dbm.cc:257-279 | asynchronous delay, synchronization and projection give entry for entry the delay of the projection |
| OffsetZones.ResetSquare | src/dbm/offset_dbm.cc:230-254 | reset to the reference clock and projection give entry for entry the projection reset to zero |
| Pushdown.RunCovered | include/tchecker/graph/find_builder.hh:235-246 | a covering node has a covering well-nested run for every well-nested run |
| Pushdown.ReachedCall | include/tchecker/graph/find_builder.hh:285-296 | a push into an equivalent root and a pop recorded there make one well-nested step, up to simulation |
| Traces.TracedCall | include/tchecker/graph/find_builder.hh:247-283 | a recorded push and a recorded pop of the same symbol make one step of the runs that the table puts together |
| Traces.TraceReached | include/tchecker/graph/find_builder.hh:247-356 | what the table puts together, entering equivalent roots instead of the targets of pushes, is reached by well-nested runs up to simulation |
| Saturation.NopKeeps | include/tchecker/algorithms/explore/algorithm.hh:101-105 | a successor without stack operation, stored unless redundant, keeps all invariants of the table |
| Saturation.PushKeeps | include/tchecker/graph/find_builder.hh:247-283 | recording a push and matching it with every recorded pop keeps all invariants, the matching one included |
| Saturation.PopKeeps | include/tchecker/graph/find_builder.hh:297-329 | recording a pop and matching it with every recorded push keeps all invariants |
| Saturation.RootKeeps | include/tchecker/graph/find_builder.hh:207-233 | adding a root that no stored root is equivalent to keeps all invariants |
| Saturation.Complete | include/tchecker/graph/find_builder.hh:207-356 | in a saturated table, whatever a root reaches by a well-nested run is covered by its second-level map |
| Saturation.SaturatedExact | include/tchecker/graph/find_builder.hh:207-356 | a root holds a cover of a node if and only if the node is reached, up to simulation |
| Saturation.SaturatedLocations | include/tchecker/graph/find_builder.hh:207-356 | the locations held for a root are exactly those that it reaches by well-nested runs |
| Saturation.EquivalentsHeld | include/tchecker/graph/find_builder.hh:340-356 | with comparison by equivalence, a saturated table holds, for every internal successor of a held node, for every recorded pop of a recorded push, and behind every call, a node that simulates it and is simulated by it: what is only simulated is never dropped |
| FindBuilder.TsFindBuilder.JustAddNode | include/tchecker/graph/find_builder.hh:207-233 | stores and queues the pair, in the entry of the root or a new one |
| FindBuilder.TsFindBuilder.IsNewNode | include/tchecker/graph/find_builder.hh:340-356 | with subsumption, true if and only if no node of the location stored with the root simulates the new one; with equivalence, if and only if none simulates it and is simulated by it |
| FindBuilder.TsFindBuilder.IsNewRoot | include/tchecker/graph/find_builder.hh:365-375 | an equivalent stored root if there is one, otherwise the node itself |
| FindBuilder.TsFindBuilder.AppendPushAndMatchPop | include/tchecker/graph/find_builder.hh:247-283 | nothing if the push is recorded; otherwise it is, and the root is offered every recorded pop; no redundant node is listed |
| FindBuilder.TsFindBuilder.AppendPopAndMatchPush | include/tchecker/graph/find_builder.hh:297-329 | nothing if an equivalent pop is recorded; otherwise it is, and every recorded pusher is offered the node; no redundant node is listed |
| FindBuilder.AppendSparing | include/tchecker/graph/find_builder.hh:340-356 | a guarded addition keeps a list free of nodes that an earlier one makes redundant |
| Saturation.HeldExact | include/tchecker/graph/find_builder.hh:207-356 | the comparison itself need not be a simulation: the locations held in a saturated table are exactly those reached as soon as some simulation holds wherever the comparison does |
| Saturation.UnpushedExact | include/tchecker/algorithms/explore/algorithm.hh:101-105 | as long as no push is on record, everything held is reached exactly, whatever the comparison |
| Saturation.RootKeepsExact | include/tchecker/graph/find_builder.hh:207-233 | a new root is reached exactly |
| Saturation.NopKeepsExact | include/tchecker/algorithms/explore/algorithm.hh:101-105 | storing an internal successor keeps everything held reached exactly |
| Saturation.PushKeepsExact | include/tchecker/graph/find_builder.hh:247-283 | recording a push keeps everything held reached exactly if and only if the pushing root reaches the recorded pops that it now holds; it does if the push goes straight into the root entered, or every recorded pop is redundant for the pushing root |
| Saturation.PopKeepsExact | include/tchecker/graph/find_builder.hh:297-329 | recording a pop keeps everything held reached exactly if and only if the recorded pushers that now hold its target reach it; they do if each has pushed straight into the root, or finds the target redundant |
| Representatives.StoredNotReached | include/tchecker/graph/find_builder.hh:247-283 | calls that leave, for a root, a node that none of its well-nested runs reaches exactly: reachability of stored nodes holds only up to simulation |
| Representatives.EnteredButExact | include/tchecker/graph/find_builder.hh:247-283 | the same push, before any pop is recorded, enters an equivalent root and yet everything held stays reached exactly: going straight is not necessary |
| Representatives.PoppedNotReached | include/tchecker/graph/find_builder.hh:297-329 | but when the pop is recorded then, it is stored for the pusher, which does not reach it: without a straight push or a redundant target exactness is lost |
| Explore.ExpandPair | include/tchecker/algorithms/explore/algorithm.hh:95-121 | all edges of a node are handled for a root, and all invariants kept |
| Explore.TakeOne | include/tchecker/algorithms/explore/algorithm.hh:81-123 | one round of the loop takes the pair stored last, reports its location if the pair belongs to the initial node and the location is new, keeps all invariants and makes progress |
| Explore.Run | include/tchecker/algorithms/explore/algorithm.hh:48-140 | for any comparison that is a preorder of finite index: terminates, in a saturated table with all invariants, and reports exactly the locations held for the initial node, each once; with equivalence, the table is closed under all edges up to nodes that simulate each other; for a simulation, exactly those reached by well-nested runs |
| LocalBounds.BoundsExact | include/tchecker/zg/details/zg.hh:971-993 | the bounds of a clock are the largest constants that it is compared with from above and from below, and none when there are none |
| LocalBounds.Summary.Update | include/tchecker/zg/details/zg.hh:971-993 | a diagonal constraint is kept, a simple one raises one bound |
| LocalBounds.Summary.Build | include/tchecker/zg/details/zg.hh:890-936 | the summary of a location is that of its invariant and of the guards of its outgoing edges, and of nothing else |
| TimedPushdown.GuardsOfMembers | include/tchecker/zg/details/zg.hh:890-936 | a constraint is collected for a location exactly when it is in the invariant or in the guard of an outgoing edge |
| LocalBounds.EntailsExact | include/tchecker/zg/details/zg.hh:810-823 | one entry of a tight matrix shows whether all valuations of the zone satisfy a constraint |
| LocalBounds.ZoneEntails | include/tchecker/zg/details/zg.hh:810-823 | true if and only if every valuation of the zone satisfies the diagonal constraint |
| LocalBounds.DiagonalImplication | include/tchecker/zg/details/zg.hh:799-808 | true if and only if the second zone entails all listed constraints that the first one entails |
| LocalBounds.Equal | include/tchecker/zg/details/zg.hh:261-288 | false exactly when the first zone simulates the second for the bounds of the first location and entails all the diagonal constraints of both that the second entails; for equivalence, also the other way round |
| NodeComparison.CompareNodes | include/tchecker/zg/details/zg.hh:261-288 | built from the summaries of the location, the comparison in place is that by local bounds and listed diagonal constraints in either mode, and on zones that nodes can have the one of the explored system |
| TimedPushdown.ComparisonPreorder | include/tchecker/zg/details/zg.hh:261-288 | the comparison of nodes is a preorder, whatever the automaton |
| Integrality.PostIntegral | include/tchecker/zone/dbm/semantics.hh:181-211 | steps on integer constants keep all bounds integers, as those in store are |
| Regions.RegionLeast | include/tchecker/dbm/db.hh:57-82 | the tightest integer bounds around a valuation make the smallest zone in store that holds it |
| Regions.JoinIncluded | src/dbm/dbm.cc:729-778 | when one valuation stands for another, so does the smallest zone around it for the zone around both |
| TimedPushdown.PostSettled | include/tchecker/zone/dbm/semantics.hh:181-211 | the zone behind an edge is within the invariant of the target and closed under the waiting that is allowed there |
| LocalSimulation.StayKept | include/tchecker/zone/dbm/semantics.hh:181-211 | where a valuation may wait, one that stands for it and satisfies the invariant may wait as long, and still stands for it |
| LocalSimulation.RespectedExact | include/tchecker/zg/details/zg.hh:261-288 | among the zones that nodes can have - with integer bounds, within the invariant, closed under waiting - those that the comparison makes redundant are followed by the others along an edge if and only if the order of valuations by local bounds is carried along the edge, as far as such zones can tell; the test of diagonal constraints does not change when |
| LocalEquivalence.EquivalentExact | include/tchecker/zg/details/zg.hh:261-288 | for equivalence with listed diagonal constraints: a sufficient and a necessary condition on the zones that entail no listed constraint that a valuation fails, which agree where no clock is compared with a constant |
| LocalEquivalence.AgreeingCarried | include/tchecker/zg/details/zg.hh:261-288 | for equivalence the order must still be carried between valuations where the second satisfies no listed constraint that the first fails |
| LocalSufficiency.NoGapCarries | include/tchecker/zg/details/zg.hh:890-936 | an edge without gaps carries the order: from what stands for a valuation, or waiting makes of it, the edge can be taken and time leads above where the first one arrives |
| LocalNecessity.NoGapExact | include/tchecker/zg/details/zg.hh:890-936 | with any guard, resets to constants and no diagonal constraints in the two invariants, an edge carries the order if and only if no valuation that takes it is in a gap: a diagonal guard can tell what the source cannot; or a clock that keeps its value is ahead where the target compares and the source does not; or has a smaller value from which, by an integer bound, neither waiting at the source within its constraints nor at the target before another clock gets ahead can reach what the target or its invariant asks for |
| LocalSufficiency.WideSuffices | include/tchecker/zg/details/zg.hh:890-936 | a simpler condition that leaves integer bounds and waiting at the source out of account is sufficient |
| Limits.SolvableExact | src/dbm/dbm.cc:168-189 | finitely many bounds on differences can be met together if and only if Floyd-Warshall finds no negative diagonal entry |
| LocalCheck.NoGapChecked | include/tchecker/zg/details/zg.hh:890-936 | whether an edge has a gap is decided, for any guard, by finitely many such systems: the zone of those that take the edge, with one more variable for the smaller value |
| LocalExact.DominatesNoGap | include/tchecker/zg/details/zg.hh:890-936 | without diagonal guards there is no gap where the bounds of the source are at least those of the target on all clocks that keep their value |
| LocalExact.GaplessExact | include/tchecker/zg/details/zg.hh:890-936 | what is computed edge by edge is that all edges carry the order |
| LocalExact.SimulatingExact | include/tchecker/zg/details/zg.hh:261-288 | when edges differ in ends or stack operation, the comparison by bounds is a simulation on the nodes that can occur if and only if no edge has a gap; the comparison of the exploration, diagonal test included, is none unless that one is, and without diagonal constraints the two agree |
| LocalSimulation.ZoneGraphSimulating | include/tchecker/zg/details/zg.hh:261-288 | when all edges carry the order, the comparison lies inside a simulation, which is what the exploration needs |
| MissedLocations.Missed | include/tchecker/zg/details/zg.hh:261-288 | an automaton with a gap where, in both modes, a node is dropped and the finished exploration does not hold a location that the automaton can reach |
| MissedDiagonals.Missed | include/tchecker/zg/details/zg.hh:799-823 | and one where the next guard is diagonal: no zone entails it, so that the test of diagonal constraints passes, a node is dropped, and the location behind the guard is missed |
| Tolerated.BandRespected | include/tchecker/zg/details/zg.hh:261-288 | an edge taken between five and six has no gap and is respected, because no integer bound tells 5.5 from 5.9; between five and seven it has one, and is not respected, unless one may wait before it; the simpler condition fails each time |
| Tolerated.OpposedRespected | include/tchecker/zg/details/zg.hh:261-288 | an edge with a diagonal guard that is respected for equivalence and not for subsumption, because equivalent zones entail the same of the guard and its opposite |
| TimedPushdown.LastPush | include/tchecker/algorithms/explore/algorithm.hh:107-119 | a word that leaves a symbol on the stack has a last unmatched push of it, between balanced parts |
| TimedPushdown.RunToWord | include/tchecker/algorithms/explore/algorithm.hh:95-121 | a well-nested run of the zone graph spells a word of transitions that returns to the stack it started from |
| TimedPushdown.WordToRun | include/tchecker/algorithms/explore/algorithm.hh:95-121 | a word of transitions that returns to the empty stack and survives on the zones is spelled by a well-nested run |
| TimedPushdown.ZoneGraphExact | include/tchecker/algorithms/explore/algorithm.hh:48-140 | the zone graph reaches a location by a well-nested run if and only if the automaton, with real clocks and a real stack, can |
| TimedPushdown.FollowsExact | include/tchecker/zone/dbm/semantics.hh:181-211 | a word of transitions means just what its guards, resets, invariants and delays say, one transition after the other |
| FiniteIndex.Representative | src/dbm/dbm.cc:637-721 | the extrapolation of a zone with integer bounds is one of finitely many matrices |
| FiniteIndex.SameRepresentative | src/dbm/dbm.cc:637-778 | zones with the same extrapolation simulate each other |
| TimedExploration.ExplorationEnds | include/tchecker/zone/dbm/extrapolation.hh:422-426 | although the zones are not extrapolated, for every automaton the comparison is a preorder with finitely many classes on the nodes met, so that the exploration ends |
| TimedExploration.InitialNodeExact | include/tchecker/zone/dbm/semantics.hh:135-159 | the zone of the initial node holds exactly what the automaton can wait for from all clocks at zero |
| TimedExploration.HeldIsReachable | include/tchecker/algorithms/explore/algorithm.hh:48-140 | as long as nothing is pushed, every location held can be reached, whatever the comparison: locations are missed at most |
| TimedExploration.HeldIsComputed | include/tchecker/algorithms/explore/algorithm.hh:48-140 | when all edges carry the order, what a finished exploration holds for the initial root is exactly what the automaton can do from all clocks at zero and an empty stack |
| TimedExploration.CheckedIsComputed | include/tchecker/algorithms/explore/algorithm.hh:48-140 | the same under the condition that is computed from the automaton edge by edge |
| TimedExploration.ExplorationAnswers | include/tchecker/algorithms/explore/algorithm.hh:48-140 | put together: for an automaton without gaps the exploration from its initial node ends, and what it reports is exactly what the automaton can reach from zero |
| Solver.IndexExact | src/clockbounds/solver.cc:239-245 | variables of different clocks and locations are different, and none is the constant zero |
| Solver.ClockZeroCollides | src/clockbounds/solver.cc:239-245 | not so for clock zero, which the assertions admit |
| Solver.WithoutVariable | src/clockbounds/solver.cc:239-245 | the place of a clock is that of the constant zero only for clock zero, in the first location or without other clocks |
| ClockBounds.Imposed | src/clockbounds/solver.cc:183-236 | imposing an inequality keeps the matrix tight, consistent, non-empty and exact for the recorded system |
| ClockBounds.LevelsSolve | src/clockbounds/solver.cc:143-158 | the first row, negated, satisfies every recorded inequality, with missing bounds as minus infinity |
| ClockBounds.LevelsLeast | src/clockbounds/solver.cc:143-158 | no other solution is lower anywhere |
| ClockBounds.OrderIrrelevant | src/clockbounds/solver.cc:183-236 | the matrix depends on the recorded inequalities alone, not on their order |
| ClockBounds.SolvedWithin | src/clockbounds/solver.cc:183-236 | all entries are within (dim - 1) times the largest recorded constant |
| Solver.ClockBoundSolver.PropagatedFlows | src/clockbounds/solver.cc:201-222 | levels solve what an assignment records if and only if the level of the assigned clock behind the edge, and at all locations of other processes, is at most that of the other clock before the edge raised by the constant |
| Solver.ClockBoundSolver.Impose | src/clockbounds/solver.cc:183-236 | one inequality on one system never empties it; an exception only without room |
| Solver.ClockBoundSolver.Clear | src/clockbounds/solver.cc:167-180 | the systems without any inequality |
| Solver.ClockBoundSolver.L | src/clockbounds/solver.cc:143-149 | the least solution of the lower-bound system at the place of the clock, clock zero included |
| Solver.ClockBoundSolver.U | src/clockbounds/solver.cc:152-158 | the least solution of the upper-bound system at the place of the clock, clock zero included |
| Solver.ClockBoundSolver.AddLowerBoundGuard | src/clockbounds/solver.cc:183-189 | a level assignment solves the new lower-bound system if and only if it solved the old one and has the clock at c or higher; there is still a solution |
| Solver.ClockBoundSolver.AddUpperBoundGuard | src/clockbounds/solver.cc:192-198 | a level assignment solves the new upper-bound system if and only if it solved the old one and has the clock at c or higher; there is still a solution |
| Solver.ClockBoundSolver.AddAssignment | src/clockbounds/solver.cc:201-222 | in both systems, the solutions are the old ones for which the level of the assigned clock behind the edge, and at all locations of other processes, is at most that of the other clock before the edge raised by the constant; the least solution is one |
| Solver.ClockBoundSolver.AddNoAssignment | src/clockbounds/solver.cc:225-236 | in both systems, the solutions are the old ones for which the level of the clock behind the edge is at most that before it; the least solution is one |
| Machine.Truncates | include/tchecker/vm/vm.hh:390-397 | division truncates toward zero, and the remainder has the sign of the dividend |
| Machine.UpdateLookup | include/tchecker/vm/vm.hh:599-607 | assigning a local variable changes what its identifier means in the innermost frame that knows it, and nothing else |
| Machine.LookupInnermost | include/tchecker/vm/vm.hh:598-607 | an identifier means what the innermost frame that binds it says, and is unknown exactly when none does |
| CompilerCorrect.ArithComputes | src/vm/compilers.cc:433-450 | the instruction chosen for a binary operator computes that operator |
| CompilerCorrect.LvalueCorrect | src/vm/compilers.cc:103-158 | the code of an assignable expression computes its identifier, and fails when an array offset is out of bounds |
| CompilerCorrect.RvalueCorrect | src/vm/compilers.cc:253-424 | wherever it stands, the code of a well-typed expression pushes one word for its value, imposes its clock constraints and fails as it does; a conjunction agrees in truth, everything else in value |
| StatementCorrect.StmtRuns | src/vm/compilers.cc:826-1068 | the code of a statement leaves the stack as it was and the memory as the statement does, or fails as the statement does |
| StatementCorrect.StmtEnds | src/vm/compilers.cc:1003-1068 | if the machine ends, so does the statement: loops of the code end only when those of the statement do |
| StatementCorrect.ExpressionCompiled | src/vm/compilers.cc:617-650 | running a compiled expression returns its value, or its truth for a conjunction |
| StatementCorrect.StatementCompiled | src/vm/compilers.cc:1116-1150 | running a compiled statement returns 1 in the memory that the statement leads to |
| StatementCorrect.StatementEnds | src/vm/compilers.cc:1116-1150 | the machine ends on a compiled statement if and only if the statement ends |
| StatementCorrect.InitialiserCompiled | include/tchecker/vm/vm.hh:577-584 | the compiled declaration of a local variable, run on the machine, succeeds if and only if the initial value is not negative and fits, because it passes through an unsigned word |
| StatementCorrect.NegativeInitialiser | include/tchecker/vm/vm.hh:577-584 | running the compiled declaration with the initial value -1 fails |
| CodeLayout.BoundaryConcat | src/vm/vm.cc:28-164 | the instructions of two pieces of code put together are those of the one and those of the other |
| CodeLayout.FragmentWhile | src/vm/compilers.cc:1042-1068 | with its backward jump, the code of a loop consists of whole instructions, and its jumps land on instructions |
| CodeLayout.ProgramsComplete | src/vm/compilers.cc:617-1150 | compiled code consists of whole instructions, with jumps that land on instructions and one return, at the end |
| CodeLayout.CompiledStaysOnInstructions | include/tchecker/vm/vm.hh:214-241 | at every moment of every run of compiled code the machine stands on an instruction, never on a parameter or past the end |
| CodeLayout.Walk | src/vm/vm.cc:18-26 | walking by widths visits exactly the instructions and ends at the final return |
| CodeWriter.AcceptedExact | src/vm/compilers.cc:253-424 | among the expressions with a truth value, the visitors refuse exactly those that compare parenthesised clocks |
| CodeWriter.Writer.Rvalue | src/vm/compilers.cc:253-424 | the visitor appends exactly the code of the expression, if it accepts it |
| CodeWriter.Writer.Statement | src/vm/compilers.cc:826-942 | the visitor appends exactly the code of a typed statement, if it accepts it |
| CodeWriter.CompileExpression | src/vm/compilers.cc:617-650 | code for a truth-valued expression exactly when it is a formula |
| CodeWriter.CompileStatement | src/vm/compilers.cc:1116-1150 | code exactly for the well-typed statements |
| Formulas.TypesExact | src/expression/type_inference.cc:60-186 | the well-typed truth-valued expressions, integer terms and clocks are exactly those of a grammar; in particular no clock constraint is negated |
| Formulas.StatementsExact | src/statement/type_inference.cc:13-71 | the well-typed statements are exactly those of a grammar |
| Formulas.FormulaExact | src/vm/compilers.cc:476-502 | clock values pass a run of a formula exactly when they satisfy the formula, read with comparisons of clocks as comparisons of reals, and the clock constraints met in the conditions of choices; so run and meaning agree exactly when whoever satisfies the formula satisfies those |
| Formulas.FormulaMeans | src/vm/compilers.cc:476-502 | when no condition of a choice looks at a clock, clock values pass exactly when they satisfy the formula |
| Formulas.FormulaCompiled | src/vm/compilers.cc:617-650 | so does the compiled formula on the machine: a value other than zero and constraints that hold, for exactly the clock values that satisfy the formula |
| Formulas.ChoiceMisses | src/vm/compilers.cc:571-601 | an input where a condition on a clock within a choice is taken to be true: `x < 3 ? 0 : 1` is satisfied where x is five, and no run passes |
| Scopes.FramesExact | src/vm/compilers.cc:1116-1132 | a block is put between the two frame instructions exactly when a declaration stands in it, and is compiled as it is otherwise |
| Scopes.BlockScopes | src/vm/compilers.cc:1078-1096 | a block that runs through leaves every frame with the identifiers that it had before: no declaration outlives its block |
| Scopes.BlockDeep | src/vm/compilers.cc:1078-1096 | a block does the same with one more empty frame at the bottom of the stack: it never lacks a frame, not even when there is none |
| Scopes.CompiledScopes | src/vm/compilers.cc:1116-1150 | when the machine returns from a compiled statement, every frame binds the identifiers that it did at the start |
| Scopes.CompiledDeep | src/vm/compilers.cc:1116-1150 | the machine ends on a compiled statement as it does with one more empty frame below |
| ClockValues.StatementClocks | src/vm/compilers.cc:845-885 | the resets that a statement puts out, applied one after the other, give the clocks the values that its assignments say: an integer, another clock, or the sum of both |
| ClockValues.ClocksCompiled | src/vm/compilers.cc:845-885 | so do the resets that the machine puts out until it returns from the compiled statement |
| LanguageProps.ConstantsAgree | src/expression/static_analysis.cc:95-194 | where the evaluator of constants finds a value, every run finds the same |
| LanguageProps.ConstantsExact | src/expression/static_analysis.cc:95-194 | the evaluator finds a value if and only if a run does and every operand that a conjunction in an evaluated position skips has a value |
| LanguageProps.AgreeWithoutConjunctions | src/expression/static_analysis.cc:95-194 | so without conjunctions the evaluator and the runs agree completely |
| LanguageProps.ShortCircuit | src/expression/static_analysis.cc:151-159 | an input where they differ: the evaluator computes both operands of a conjunction, a run skips the second after a false first |
| LanguageProps.PredicateExact | src/vm/compilers.cc:476-502 | the constraints put out for a comparison of clocks allow exactly the valuations that satisfy it; undefined only for the negation of the smallest integer |
| LanguageProps.FramesBalanced | src/vm/compilers.cc:1078-1096 | a statement that runs through leaves as many frames as it has found |
| LanguageProps.RangesKept | src/vm/compilers.cc:975-994 | no run takes an integer variable out of its declared range |
| Language.FuelMonotone | src/vm/compilers.cc:1042-1068 | the meaning of a statement does not depend on how many rounds its loops are allowed |
| CoverGraph.NodeTable.AddNode | include/tchecker/graph/cover_graph.hh:366-373 | the node is in the table and knows its place; a stored node is rejected; when the container is full the exception leaves the node marked as stored, unless its container is the first |
| CoverGraph.NodeTable.RemoveNode | include/tchecker/graph/cover_graph.hh:385-393 | removes exactly the nodes of this table and rejects all others, leaving every other node at a place that it knows |
| CoverGraph.NodeTable.TakeOut | include/tchecker/graph/cover_graph.hh:98-108 | the last node of the container moves to the place of the one removed, also when they are the same |
| CoverGraph.NodeTable.IsCovered | include/tchecker/graph/cover_graph.hh:403-415 | a node of the same container that may replace the given one, and none only if there is none |
| CoverGraph.NodeTable.CoveredNodes | include/tchecker/graph/cover_graph.hh:425-432 | exactly the nodes of the same container that the given one may replace, each once |
| CoverGraph.NodeTable.NodesCount | include/tchecker/graph/cover_graph.hh:439-445 | the sum of the sizes of the containers is the number of nodes |
| CoverGraph.NodeTable.Clear | include/tchecker/graph/cover_graph.hh:350-355 | no node is stored any more, and the table has no containers left, so that nothing can be added to it |
| Covering.ReplaceSound | include/tchecker/algorithms/covreach/algorithm.hh:199-204 | when a bigger node replaces a smaller one, every edge still stands for a transition |
| Covering.ReplaceWorked | include/tchecker/algorithms/covreach/algorithm.hh:199-204 | and every expanded node still has an edge for each of its successors |
| Covering.RunRepresented | include/tchecker/algorithms/covreach/algorithm.hh:58-80 | with all nodes expanded, the state at the end of every run is below some node |
| Covering.FinishedExact | include/tchecker/algorithms/covreach/algorithm.hh:58-80 | so the graph represents exactly what is reachable, and no accepting state is |
| CoveringReachability.Search.TakeFirst | include/tchecker/utils/waiting.hh:253-294 | the first active node in the order of the queue or the stack; inactive ones are dropped |
| CoveringReachability.Search.Expand | include/tchecker/algorithms/covreach/algorithm.hh:173-188 | all successors are in the graph, each behind an actual edge, and are still to be compared |
| CoveringReachability.Keep | include/tchecker/algorithms/covreach/algorithm.hh:116-123 | a node that nothing covers has a state that is not below any state kept before |
| CoveringReachability.Search.Settle | include/tchecker/algorithms/covreach/algorithm.hh:116-132 | a new node gives way to a bigger one, or all smaller ones give way to it; what has been seen stays represented, and no node in the graph covers another |
| CoveringReachability.Search.Run | include/tchecker/algorithms/covreach/algorithm.hh:82-137 | REACHABLE exactly if an accepting state is reachable; otherwise the graph holds only reachable nodes, one above every reachable state, none that another covers unless it is initial, and an edge for every transition; ends when the comparison has finitely many classes, for both orders |
| TimedReachability.SearchDecides | include/tchecker/algorithms/covreach/algorithm.hh:58-80 | for a timed automaton the search by global bounds decides whether real clock values, all zero at the start, can get to an accepting location, and it ends although the zones are not extrapolated |
| TimedReachability.SearchAnswers | include/tchecker/algorithms/covreach/algorithm.hh:82-137 | put together: the search ends, and its verdict says whether the automaton can get to an accepting location |
| DirectedGraph.EachOnce | include/tchecker/graph/directed_graph.hh:483-544 | an edge occurs once, and in the list of one node only |
| DirectedGraph.ListEnds | include/tchecker/graph/directed_graph.hh:483-544 | following next pointers from a head goes through the list of the node and ends |
| DirectedGraph.FrontLinked | include/tchecker/graph/directed_graph.hh:495-502 | adding at the head keeps all lists of the kind consistent |
| DirectedGraph.UnlinkedLinked | include/tchecker/graph/directed_graph.hh:514-544 | taking an edge out, at the head or behind another, keeps all lists of the kind consistent |
| DirectedGraph.AddTo | include/tchecker/graph/directed_graph.hh:495-502 | the edge comes first in the list of its node; the lists of the other kind are untouched |
| DirectedGraph.RemoveFrom | include/tchecker/graph/directed_graph.hh:514-544 | the walk along the list finds the edge, and the list is the old one without it |
| DirectedGraph.Graph.AddEdge | include/tchecker/graph/directed_graph.hh:359-363 | the edge is first among the incoming edges of its target and the outgoing edges of its source; nothing else changes |
| DirectedGraph.Graph.RemoveEdge | include/tchecker/graph/directed_graph.hh:371-375 | the edge is gone from both lists; nothing else changes |
| DirectedGraph.Graph.RemoveEdges | include/tchecker/graph/directed_graph.hh:383-400 | all edges of the node are gone, self-loops once, and every other edge keeps its source and target |
| DirectedGraph.Graph.Clear | include/tchecker/graph/directed_graph.hh:331-335 | all edges of the given nodes are gone, and every other edge keeps its source and target |
| DirectedGraph.Graph.MoveIncomingEdges | include/tchecker/graph/directed_graph.hh:409-422 | the incoming edges move, in reverse order, in front of those of the other node; sources stay, no edge is lost |

## Left out

- Zones and matrices: the flat `dim*dim` array is an `array2`; hashing, output, lexical comparison, and the constructors and tests of special matrices (universal, zero, empty, positive) are easy members.
- DBM_UNSAFE: with range checks compiled out, `Encoding.SumExact` states the unchecked integer only where the sum is representable; what happens beyond is not modelled.
- Dbm.Constrain: on one clock against itself it is stated only for bounds that are not negative; a negative one breaks the consistency that the source asserts.
- is_am_le: the test by maximal constants is the LU test with the same constants for both bounds.
- ZoneGraph.RunExact: with extrapolation, guards compare one clock with a constant that the global clock bounds account for and resets are to constants; diagonal guards and resets to other clocks are not simulations for the LU preorder. Without extrapolation `ZoneGraph.PlainExact` has no such condition.
- ZoneSemantics.Next: of the extrapolations the strong one by global bounds, switched on or off; the source has commented its call out (`include/tchecker/zone/dbm/extrapolation.hh:422-426`). The non-elapsed semantics orders the same steps differently. The comment on `initialize` has the invariant hold after the delay only; the code imposes it before as well, and the model follows the code.
- TimedPushdown: one automaton with locations as names; integer variables, the product of processes and the text-level rewriting of push and pop are not modelled. Nodes are identified by location and zone; nodes of one location with different integer valuations, which the source compares by their zones alone, are outside the model. Several initial nodes are not modelled; the source compares with the last one.
- LocalBounds.Summary.Build: the cache of summaries, and the sorting and removal of duplicates in the list of diagonal constraints, which the comparison does not depend on.
- LocalSimulation.RespectedExact: for equivalence it is stated for source locations without diagonal constraints; with them `LocalEquivalence.EquivalentExact` says what lies between.
- LocalEquivalence.EquivalentExact: exact where the source compares no clock with a constant; elsewhere the necessary condition speaks only of zones that stand for the zone around them and the valuation.
- LocalNecessity.NoGapExact: resets to other clocks, and diagonal constraints in the invariants of the source and target, are covered by `LocalSimulation.RespectedExact` alone, whose condition speaks of pairs of valuations; with diagonal constraints in the invariant of the source alone, `LocalSufficiency.NoGapCarries` still holds.
- LocalExact.SimulatingExact: it speaks of all nodes whose zones have integer bounds, lie within the invariant and are closed under waiting, as every node of the zone graph does (`TimedPushdown.PostSettled`); which of them are reached from the initial node is a matter of the whole automaton.
- Saturation.SaturatedExact: reachability is stated up to simulation, because a push may enter an equivalent stored root; `Representatives.StoredNotReached` shows that exact reachability of stored nodes fails, and `Saturation.PushKeepsExact` and `Saturation.PopKeepsExact` say which calls keep it.
- Explore.Run: statistics and output are left out. Termination is stated for comparisons of finite index, which `TimedExploration.ExplorationEnds` provides for every automaton.
- The placeholder comparisons of the extrapolations other than the global LU ones, which always answer 1, are not modelled.
- Offset zones: construction of special matrices, positivity, and the operations that only forward to ordinary ones.
- Solver.ClockBoundSolver.L: at the place of the constant zero, which clock zero has in the first location, the level reported is zero and is not called least.
- Solver.ClockBoundSolver.U: likewise.
- Solver.ClockBoundSolver.AddLowerBoundGuard: not for clock zero in the first location, whose place is that of the constant zero (`Solver.WithoutVariable`): a guard that is false there would make the system infeasible.
- Solver.ClockBoundSolver.AddUpperBoundGuard: likewise.
- Solver.ClockBoundSolver.AddNoAssignment: likewise.
- Solver.ClockBoundSolver.AddAssignment: likewise, and constants that are not negative, which keep every system feasible; the use of a solver after a first failure, copying, moving, and the visitors that feed it from expressions and statements are not modelled. The declaration names the arguments of `add_assignment` in a different order from its definition; the model follows the definition.
- Compiler: bytecode words are unbounded integers, so that the size of a program is not limited; a failing run leaves no trace of what it had put out before. Variables of clocks are expressions only inside clock constraints and resets, and the two clock-assigning forms that name a sum or a clock are statements of their own. The comment on `compile_clock_reset` gives the operands in a different order from its code; the model follows the code.
- Machine: stale frames after an exception are covered only in that every theorem holds for any initial frames; `RETZ` is interpreted but never generated.
- StatementCorrect.InitialiserCompiled: the comment on the instruction promises initialization with any value; the code refuses negative ones, and the model follows the code.
- Formulas.FormulaMeans: not for formulas in which the condition of a choice looks at a clock: such a condition counts as true and is imposed as well, so that the other branch is never taken; `Formulas.FormulaExact` says what passes then, and `Formulas.ChoiceMisses` gives an input.
- ClockValues.StatementClocks: for statements that assign to no clock with identifier 0, which stands for the constant zero; clocks that are declared have others.
- DirectedGraph: the ghost sets of nodes and edges stand for the storage that the graph does not own; iterators are the loops that use them.
- CoverGraph.NodeTable.IsCovered: the comment says that it looks at the nodes with the same key; the code looks at the nodes of the same container, whose keys agree modulo the size of the table, and the model follows the code. The comparison of nodes is that of the search with covering (`include/tchecker/algorithms/covreach/cover.hh:39-44`): not with itself, and not for initial nodes.
- CoveringReachability.Search.Run: the edges are a set, so that parallel edges between the same nodes are one; how their lists are linked is the subject of `DirectedGraph`. Nodes are marked as initial when they are made. Counters are left out. Exceptions end the search with the verdict `Failed`, which happens only with a table that has no containers or a full one.
- TimedReachability.SearchDecides: the comparison by the LU test with global bounds that account for all constraints; covering by inclusion, by maximal constants and by local bounds, and the synchronized inclusion of offset zones, are other instances of `Covering.System` that are not given.
- Garbage collection, allocation, parsing, synchronization vectors, the command line and all output are not part of this model.
