# DynaPlex queue, graph and planning helpers in Dafny

This project models four parts of the DynaPlex repository and proves what they promise.

- **Queue MDP bookkeeping** (`queue_mdp/mdp.h`, `queue_mdp/mdp.cpp`). `ServerDynamicState` keeps a ragged table `busy_on[k][j]` of busy servers of type `k` on the `j`-th job type that type can serve. On it we model:
  - the guarded `assign_job` and `complete_job`;
  - the position lookup `canServeIndex`;
  - the idle capacity per job;
  - the total service rate.

  `multi_queue` keeps first-in-line ages, with `-1` for an empty line. On it we model its tick and arrival rates and the next first-in-line age after a completion. `GetInitialState` builds the all-zero state linked to the MDP's server table.
- **`DynaPlex::Graph`** (`modelling/graph.cpp`, `graph.h`). We model:
  - an edge read from configuration;
  - the parsing of a grid of `U/D/L/R` arrows into edges;
  - undirected doubling;
  - the sort by `(orig, dest)`, with either rejection of duplicates or their merge into the lightest edge;
  - the node count;
  - the row-major `NodeAt`/`Coordinates` arithmetic;
  - the all-pairs Dijkstra (`PCSP`) with its first-hop table;
  - the queries `ExistsPath`, `Distance`, `NextEdge` and `Path`.

  The tables are proved to hold shortest distances over all walks. The first hops are proved to start shortest walks.
- **The `exact_test_case` MDP** (`exact_test_case/mdp.cpp`). A four-node walk driven by actions is followed by a coin-flip event that ends the run or restarts it. Every event costs 10. The expected cost over `c` whole cycles, built from the model's own action and event steps and its event probabilities, is proved to be `20·(1 − ½^c)`, which tends to 20.
- **Python planning helpers** (`python/scripts/planning/helpers.py`). We model:
  - row-major coordinates and the Manhattan distance;
  - the ring-buffer `Database` (`clear`, `store`, `store_from_array`);
  - `symmetric_remove` and `is_odd`.

How the model is laid out:
- Each file is one module: `Wrappers`, `Categories`, `Arith`, `QueueServers`, `QueueLines`, `QueueMdp`, `ExactTestCase`, `GraphEdges`, `GraphGrid`, `GraphPaths`, `Graphs`, `PlanningHelpers`.
- Objects whose fields the source updates are classes:
  - `ServerDynamicState`, `MultiQueue`, the two `State`s, `Graph`, `Database`.
  - Their methods are proved against specification functions.
- Loops are methods with loop invariants.
- Pure computations are functions with lemmas beside them.
- Errors the source throws are `Failure` values of a `Result`.

How values are represented:
- `double` values are `real`. Integer widths are unbounded, except that an edge endpoint is checked against `MaxUint32` as the source does.
- "No path", which the source writes as `numeric_limits<double>::max()`, is the `Infinite` value of `Dist`.

Where the model follows the code rather than the comments or the evident intent:
- `update_idle_capacity` reads `busy_on[k][n]` with the job id `n` as the column, while rows are indexed by `can_serve` position. It sizes its result by `busy_on[0]`.
  - The model does the same.
  - The precondition `IdleIndexSafe` keeps the reads inside the table.
  - `IdleCapacityReadsJobIdColumn` shows a type whose servers are all busy being reported as idle.
- The guard of `assign_job` is per cell, not per server type. `PerCellGuardOverbooksType` shows a single-server type accepting two jobs.
- `GetInitialState` in `queue_mdp/mdp.cpp:69` passes `busy_on` to `update_idle_capacity`, which the header declares without parameters. It is modelled as the zero-argument call.
- The grid reader splits each row with `getline`:
  - a row ending in `|` yields one cell fewer than its separator count suggests;
  - the cells of later rows then shift to lower node indices.

  `GetlineTokens` and `GetlineTokenCount` model this as written.
- `sample_next_fil_after_completion` returns 0, not -1, for an emptied line. The model keeps 0.

## Model

| member | source | states |
|---|---|---|
| QueueServers.IndexOf | src/lib/models/models/queue_mdp/mdp.h:128-130 | -1 exactly when `x` is absent; otherwise the first position holding `x` |
| QueueServers.CanServeIndex | src/lib/models/models/queue_mdp/mdp.h:127-131 | the first position `j` with `can_serve[j] == job` for type `k`, or -1 exactly when `job` is not served |
| QueueServers.ZeroTable | src/lib/models/models/queue_mdp/mdp.h:104-109 | one row per server type, row `k` as long as `can_serve` of `k`, every cell 0 |
| QueueServers.Assign | src/lib/models/models/queue_mdp/mdp.h:175-183 | succeeds iff the job is served and its cell is below the server count; on success exactly that cell grows by 1, otherwise nothing changes; shape kept |
| QueueServers.Complete | src/lib/models/models/queue_mdp/mdp.h:118-123 | a no-op when the job is not served or the cell is at most 0; otherwise exactly that cell drops by 1; shape kept |
| QueueServers.AssignKeepsBounds | src/lib/models/models/queue_mdp/mdp.h:180-181 | `assign_job` keeps every count in `[0, servers]` |
| QueueServers.CompleteKeepsBounds | src/lib/models/models/queue_mdp/mdp.h:121-122 | `complete_job` never makes a count negative and keeps every count in `[0, servers]` |
| QueueServers.RunKeepsBounds | src/lib/models/models/queue_mdp/mdp.h:118-183 | any sequence of assign and complete calls keeps a bounded table bounded |
| QueueServers.ReachableTablesBounded | src/lib/models/models/queue_mdp/mdp.h:104-183 | every table reachable from the initial zeros has counts in `[0, servers]` |
| QueueServers.PerCellGuardOverbooksType | src/lib/models/models/queue_mdp/mdp.h:180 | a one-server type serving two job types accepts one job of each: the guard is per cell |
| QueueServers.AssignRaisesRate | src/lib/models/models/queue_mdp/mdp.h:166-183 | a successful `assign_job(k, job)` raises Σ busy·mu by exactly `mu_k` |
| QueueServers.CompleteLowersRate | src/lib/models/models/queue_mdp/mdp.h:166-173 | a `complete_job` that frees a server lowers Σ busy·mu by exactly `mu_k` |
| QueueServers.ZeroTableRate | src/lib/models/models/queue_mdp/mdp.h:104-112 | the zero table has total service rate 0, the value `initialize` stores |
| QueueServers.IdleTerm | src/lib/models/models/queue_mdp/mdp.h:145-151 | the idle servers a type contributes to job `n` are never negative |
| QueueServers.IdleAt | src/lib/models/models/queue_mdp/mdp.h:143-153 | the idle count of job `n` summed over types is never negative |
| QueueServers.IdleVector | src/lib/models/models/queue_mdp/mdp.h:139-153 | one entry per job id, entry `n` being the idle count of job `n` |
| QueueServers.IdleCapacity | src/lib/models/models/queue_mdp/mdp.h:134-155 | empty without static info, types or rows; otherwise one non-negative entry per column of row 0 |
| QueueServers.IdleAtPositiveIff | src/lib/models/models/queue_mdp/mdp.h:143-153 | job `n` has idle capacity iff some type serving `n` has fewer busy servers than servers |
| QueueServers.IdleCapacityReadsJobIdColumn | src/lib/models/models/queue_mdp/mdp.h:147 | the job id is used as the column: a fully busy type is reported as having idle servers |
| QueueServers.ZeroTableIdle | src/lib/models/models/queue_mdp/mdp.h:134-155 | in the zero table every server of a type serving `n` counts as idle for `n` |
| QueueServers.ServerDynamicState.constructor | src/lib/models/models/queue_mdp/mdp.h:89-100 | no static info, no rows, no idle capacity |
| QueueServers.ServerDynamicState.Initialize | src/lib/models/models/queue_mdp/mdp.h:102-115 | links the table; without it only clears the rows; with it builds the zero table, resets the rate, and recomputes the idle capacity and flag |
| QueueServers.ServerDynamicState.CompleteJob | src/lib/models/models/queue_mdp/mdp.h:118-123 | the table becomes `Complete` of the old table; nothing else changes |
| QueueServers.ServerDynamicState.UpdateIdleCapacity | src/lib/models/models/queue_mdp/mdp.h:134-155 | the vector becomes `IdleCapacity`; the flag holds iff some entry is positive; table and rate unchanged |
| QueueServers.ServerDynamicState.UpdateTotalServiceRate | src/lib/models/models/queue_mdp/mdp.h:158-164 | stores 0 without static info, otherwise Σ busy·mu |
| QueueServers.ServerDynamicState.GetTotalServiceRate | src/lib/models/models/queue_mdp/mdp.h:166-173 | returns Σ_k Σ_j `busy_on[k][j] * mu_k` |
| QueueServers.ServerDynamicState.AssignJob | src/lib/models/models/queue_mdp/mdp.h:175-183 | flag and new table are `Assign` of the old table; the other fields are unchanged |
| QueueLines.WaitingPlusEmpty | src/lib/models/models/queue_mdp/mdp.h:198-199 | every line is either waiting (age >= 0) or empty (-1): the two counts add up to the number of lines |
| QueueLines.Resized | src/lib/models/models/queue_mdp/mdp.h:204 | `n` entries: the kept prefix, padded with the fill value |
| QueueLines.GetMaxTickRate | src/lib/models/models/queue_mdp/mdp.h:237-239 | non-negative for non-negative inputs, and 0 without jobs or ticks |
| QueueLines.ArrivalRateAtMostMax | src/lib/models/models/queue_mdp/mdp.h:226-248 | with non-negative rates the arrival rate of the empty lines is at most the maximum arrival rate |
| QueueLines.TickRateAtMostMax | src/lib/models/models/queue_mdp/mdp.h:220-240 | with a non-negative tick rate the total tick rate is at most `n_jobs * tick_rate` |
| QueueLines.SampleNextFilAfterCompletion | src/lib/models/models/queue_mdp/mdp.h:250-278 | the next age is 0 when `i <= 0` and otherwise lies in `[0, i]` |
| QueueLines.NextFilCases | src/lib/models/models/queue_mdp/mdp.h:256-278 | for `i > 0`: 0 without events or arrivals, `i` without ticks, else 0 when `H >= i` and `i - H` otherwise |
| QueueLines.MultiQueue.constructor | src/lib/models/models/queue_mdp/mdp.h:197-201 | no lines, both rates 0 |
| QueueLines.MultiQueue.Initialize | src/lib/models/models/queue_mdp/mdp.h:203-207 | lines resized to `n_jobs`, new lines empty (-1), both rates 0 |
| QueueLines.MultiQueue.ComputeTotalTickRate | src/lib/models/models/queue_mdp/mdp.h:220-224 | `tick_rate` times the number of lines with a job |
| QueueLines.MultiQueue.GetTotalArrivalRate | src/lib/models/models/queue_mdp/mdp.h:226-235 | Σ of the arrival rates of the empty lines |
| QueueLines.MultiQueue.GetMaxArrivalRate | src/lib/models/models/queue_mdp/mdp.h:242-248 | Σ of all arrival rates |
| QueueLines.MultiQueue.UpdateTotalArrivalRate | src/lib/models/models/queue_mdp/mdp.h:210-212 | caches the arrival rate of the empty lines; nothing else changes |
| QueueLines.MultiQueue.UpdateTotalTickRate | src/lib/models/models/queue_mdp/mdp.h:215-217 | caches the tick rate of the waiting lines; nothing else changes |
| QueueMdp.State.constructor | src/lib/models/models/queue_mdp/mdp.cpp:58 | fresh managers with no table, no rows and no capacity; service, tick and arrival rates 0; no lines; category AwaitEvent |
| QueueMdp.GetStaticInfo | src/lib/models/models/queue_mdp/mdp.cpp:15-21 | one valid action |
| QueueMdp.GetStateCategory | src/lib/models/models/queue_mdp/mdp.cpp:130-134 | the category stored in the state |
| QueueMdp.GetInitialState | src/lib/models/models/queue_mdp/mdp.cpp:56-73 | category AwaitEvent; the zero table with one row per server type; linked to the MDP's table; idle capacity computed from it; service rate 0, equal to the zero table's Σ busy·mu; tick and arrival rates 0 |
| QueueMdp.InitialStateRateZero | src/lib/models/models/queue_mdp/mdp.cpp:62-65 | the initial busy table contributes service rate 0 |
| ExactTestCase.GetStaticInfo | src/lib/models/models/exact_test_case/mdp.cpp:9-16 | five valid actions, finite horizon |
| ExactTestCase.IsAllowedAction | src/lib/models/models/exact_test_case/mdp.cpp:142-144 | every action is allowed |
| ExactTestCase.GetStateCategory | src/lib/models/models/exact_test_case/mdp.cpp:137-140 | the category stored in the state |
| ExactTestCase.EventProbabilities | src/lib/models/models/exact_test_case/mdp.cpp:103-120 | events 0 and 1, probabilities summing to 1 |
| ExactTestCase.ActionStep | src/lib/models/models/exact_test_case/mdp.cpp:61-70 | below node 3 the node advances and the category stays; at 3 it resets to 0 and awaits an event |
| ExactTestCase.EventStep | src/lib/models/models/exact_test_case/mdp.cpp:19-29 | event 0 ends the run, any other awaits an action; the node is unchanged |
| ExactTestCase.ActionKeepsNodeInRange | src/lib/models/models/exact_test_case/mdp.cpp:61-70 | an action keeps the node in `[0, 3]` |
| ExactTestCase.WalkFromNode | src/lib/models/models/exact_test_case/mdp.cpp:61-63 | from node `v`, each of the next `3 - v` actions advances one node and keeps the category |
| ExactTestCase.FourActionsToEvent | src/lib/models/models/exact_test_case/mdp.cpp:61-99 | from the initial state, three actions stay in AwaitAction and the fourth reaches AwaitEvent at node 0 |
| ExactTestCase.RunKeepsNodeInRange | src/lib/models/models/exact_test_case/mdp.cpp:19-70 | along any run the node stays in `[0, 3]` |
| ExactTestCase.RunCost | src/lib/models/models/exact_test_case/mdp.cpp:28-70 | a run costs 10 per event and nothing per action |
| ExactTestCase.ExpectedCost | src/lib/models/models/exact_test_case/mdp.cpp:19-120 | the expected cost of the next `k` steps, weighing each event outcome by its probability, lies in `[0, 10·k]` and is 0 once final |
| ExactTestCase.WalkCost | src/lib/models/models/exact_test_case/mdp.cpp:61-70 | the four free actions lead from the initial state to the event at node 0 without cost |
| ExactTestCase.EventCostStep | src/lib/models/models/exact_test_case/mdp.cpp:19-29 | the event costs 10, ends the run with probability ½ and otherwise restarts the walk at node 0 |
| ExactTestCase.CycleCost | src/lib/models/models/exact_test_case/mdp.cpp:19-70 | four free actions and one 10-cost event that ends or restarts the walk with probability ½ each: one more cycle costs `10 + ½` of the cost over the previous cycles |
| ExactTestCase.ExpectedCostOfCycles | src/tests/new_tests/t_some_test.cpp:22-25 | over `c` cycles from the initial state the expected cost is `20 − 20·(½)^c`, below 20 |
| ExactTestCase.HalfBound | src/tests/new_tests/t_some_test.cpp:22-25 | `(c + 1)·(½)^c <= 1`: with `ExpectedCostOfCycles`, the expected cost over `c` cycles is within `20 / (c + 1)` of 20 |
| ExactTestCase.State.ToVarGroup | src/lib/models/models/exact_test_case/mdp.cpp:73-80 | the group holds the category under "cat" and the node under "currentNode" |
| ExactTestCase.FromVars | src/lib/models/models/exact_test_case/mdp.cpp:82-89 | succeeds iff both keys are present with the right kind, and returns their values |
| ExactTestCase.VarsRoundTrip | src/lib/models/models/exact_test_case/mdp.cpp:73-89 | reading back a written state gives the same state |
| ExactTestCase.VarsReadBack | src/lib/models/models/exact_test_case/mdp.cpp:73-89 | a group that reads back agrees with the rewritten state on both keys |
| ExactTestCase.GetState | src/lib/models/models/exact_test_case/mdp.cpp:82-89 | a fresh state holding what was read, or the read error |
| ExactTestCase.GetInitialState | src/lib/models/models/exact_test_case/mdp.cpp:91-99 | AwaitAction(0) at node 0 |
| ExactTestCase.ModifyStateWithAction | src/lib/models/models/exact_test_case/mdp.cpp:31-71 | the state becomes `ActionStep` of the old state; cost 0 |
| ExactTestCase.ModifyStateWithEvent | src/lib/models/models/exact_test_case/mdp.cpp:19-29 | the state becomes `EventStep` of the old state; cost 10 |
| GraphEdges.DefaultEdge | src/lib/models/modelling/graph.cpp:32-33 | orig 0, dest 0, weight 1 |
| GraphEdges.EdgeFromConfig | src/lib/models/modelling/graph.cpp:12-30 | succeeds iff both ends are present and in `[0, 2^32-1]`, they differ, and the weight (default 1) is positive; the edge carries those values; a missing key is reported |
| GraphEdges.EdgesFromConfig | src/lib/models/modelling/graph.cpp:46 | succeeds iff every entry is a valid edge, and then holds them in order |
| GraphEdges.AddReversedEdges | src/lib/models/modelling/graph.cpp:128-141 | the edges followed by the reverse of each, same weight: exactly twice as many |
| GraphEdges.Reversed | src/lib/models/modelling/graph.cpp:134-138 | endpoints swapped, same weight |
| GraphEdges.ReversedTwice | src/lib/models/modelling/graph.cpp:134-138 | reversing twice gives the edge back |
| GraphEdges.DoubledIsSymmetric | src/lib/models/modelling/graph.cpp:128-141 | after doubling the reverse of every edge is present |
| GraphEdges.NotBelowHead | src/lib/models/modelling/graph.cpp:262-264 | no key taken from a sorted tail or above its head falls below that head |
| GraphEdges.ConsSorted | src/lib/models/modelling/graph.cpp:262-264 | a head no greater than any key keeps the list sorted |
| GraphEdges.InsertByKey | src/lib/models/modelling/graph.cpp:262-264 | inserting into a sorted list keeps it sorted and adds exactly that edge |
| GraphEdges.SortByKey | src/lib/models/modelling/graph.cpp:262-264 | sorted by `(orig, dest)` and a permutation of the input |
| GraphEdges.NodeCount | src/lib/models/modelling/graph.cpp:254-260 | every endpoint is below the count, and the count is the start value or one more than some endpoint |
| GraphEdges.ComputeNumNodes | src/lib/models/modelling/graph.cpp:254-260 | the loop computes `NodeCount` |
| GraphEdges.AdjacentDistinctIffUnique | src/lib/models/modelling/graph.cpp:265-273 | on a sorted list, no two neighbours share a key iff all keys strictly increase |
| GraphEdges.CheckNoDuplicates | src/lib/models/modelling/graph.cpp:265-273 | succeeds iff the sorted edges have strictly increasing keys; a failure names the first key, in sorted order, that repeats its neighbour |
| GraphEdges.FirstDuplicateUnique | src/lib/models/modelling/graph.cpp:268-272 | the first repeated key of a list is unique, so the reported error is determined |
| GraphEdges.Merged | src/lib/models/modelling/graph.cpp:274-299 | a nonempty input gives a nonempty result ending with the key of the last input edge |
| GraphEdges.MergedFromInput | src/lib/models/modelling/graph.cpp:283-298 | every kept edge is one of the input edges, weight included |
| GraphEdges.MergedStrictlySorted | src/lib/models/modelling/graph.cpp:283-298 | on sorted input exactly one edge per key remains |
| GraphEdges.MergedKeepsLightest | src/lib/models/modelling/graph.cpp:285-293 | for every input edge, the kept edge with its key weighs no more |
| GraphEdges.MergeDoubleEdges | src/lib/models/modelling/graph.cpp:274-299 | the loop computes `Merged` |
| GraphGrid.Split | src/lib/models/modelling/graph.cpp:71-73 | `k` separators give `k + 1` pieces, none containing the separator |
| GraphGrid.CountChar | src/lib/models/modelling/graph.cpp:62-67 | `std::count` is at most the length, and 0 exactly when the character does not occur |
| GraphGrid.JoinSplit | src/lib/models/modelling/graph.cpp:71-73 | joining the pieces gives the row back |
| GraphGrid.GetlineTokens | src/lib/models/modelling/graph.cpp:71-77 | no cell contains `|` |
| GraphGrid.LastPieceEmpty | src/lib/models/modelling/graph.cpp:73 | the last piece is empty iff the row is empty or ends in the separator |
| GraphGrid.GetlineTokenCount | src/lib/models/modelling/graph.cpp:66-77 | a row yields one cell per separator, plus one unless it is empty or ends in `|` |
| GraphGrid.RemoveSpaces | src/lib/models/modelling/graph.cpp:75 | no white space is left in the cell |
| GraphGrid.IsSpace | src/lib/models/modelling/graph.cpp:75 | `isspace` in the C locale holds for exactly space, tab, newline, vertical tab, form feed and carriage return |
| GraphGrid.RemoveSpacesKeepsOthers | src/lib/models/modelling/graph.cpp:75 | every character that is not white space is kept, as often as it occurs |
| GraphGrid.GridIndexCoords | src/lib/models/modelling/graph.cpp:153-183 | division and remainder by the width recover row and column from `row * width + col` |
| GraphGrid.GridIndexBound | src/lib/models/modelling/graph.cpp:153-179 | a cell inside the grid has an index below `width * height` |
| GraphGrid.ArrowIsGridStep | src/lib/models/modelling/graph.cpp:93-108 | an arrow that stays inside yields a weight-1 edge between side-sharing cells |
| GraphGrid.ArrowStep | src/lib/models/modelling/graph.cpp:89-114 | a space adds nothing; an in-grid arrow adds its edge; an off-grid arrow or other character is the matching error |
| GraphGrid.CellEdges | src/lib/models/modelling/graph.cpp:89-115 | succeeds iff every character is accepted; every arrow's edge is added; every edge leaves the cell and is a grid step |
| GraphGrid.EdgesBefore | src/lib/models/modelling/graph.cpp:81-117 | the scan so far yields only grid steps, or an arrow or character error |
| GraphGrid.CellResult | src/lib/models/modelling/graph.cpp:83-115 | a cell past the last one read contributes nothing; otherwise only grid steps leaving the cell |
| GraphGrid.ScanCoversCells | src/lib/models/modelling/graph.cpp:81-117 | the scan succeeds iff every earlier cell does, and then contains every earlier cell's edges |
| GraphGrid.FailureSticks | src/lib/models/modelling/graph.cpp:81-117 | once the scan fails, later cells do not change the error |
| GraphGrid.CellFailureSticks | src/lib/models/modelling/graph.cpp:89-115 | once a cell fails, its later characters do not change the error |
| GraphGrid.GridSpec | src/lib/models/modelling/graph.cpp:54-117 | width is the separator count of row 0 plus 1 and height the number of rows; the result is the not-rectangular error iff a row's count differs; all edges are grid steps |
| GraphGrid.GridHasEveryArrow | src/lib/models/modelling/graph.cpp:81-117 | every arrow of every read cell of a parsed grid is one of its edges |
| GraphGrid.AppendCells | src/lib/models/modelling/graph.cpp:71-77 | appends the row's cells with white space removed |
| GraphGrid.FlattenRows | src/lib/models/modelling/graph.cpp:64-78 | the flattened cells, or the not-rectangular error exactly when some row's separator count differs from row 0's |
| GraphGrid.CellEdgesSnoc | src/lib/models/modelling/graph.cpp:89-114 | scanning one more character of a cell adds that character's edge or stops with its error |
| GraphGrid.PushArrow | src/lib/models/modelling/graph.cpp:91-113 | the `switch` on one character pushes exactly what `ArrowStep` gives, or returns its error |
| GraphGrid.AddCellEdges | src/lib/models/modelling/graph.cpp:89-115 | appends `CellEdges` of the cell, or returns its error |
| GraphGrid.ScanCell | src/lib/models/modelling/graph.cpp:82-115 | one pass of the inner loop extends the row-major scan by one cell; a cell that was not read adds nothing |
| GraphGrid.ScanCells | src/lib/models/modelling/graph.cpp:80-117 | the two nested loops compute the whole row-major scan, or its first error |
| GraphGrid.ParseGrid | src/lib/models/modelling/graph.cpp:54-117 | the two grid loops compute `GridSpec` |
| GraphPaths.WalkSnoc | src/lib/models/modelling/graph.cpp:218-224 | a walk extended by an edge leaving its end is a walk, heavier by that edge |
| GraphPaths.WalkLowerBound | src/lib/models/modelling/graph.cpp:324-332 | when every edge is relaxed, a finite distance at the start bounds the end of any walk by start distance plus walk weight |
| GraphPaths.RelaxedStays | src/lib/models/modelling/graph.cpp:324-332 | lowering other entries keeps a node's edges relaxed |
| GraphPaths.PopMin | src/lib/models/modelling/graph.cpp:318-320 | the least `(dist, node)` pair leaves the queue; the rest is the queue minus it |
| GraphPaths.PushKeepsBeyond | src/lib/models/modelling/graph.cpp:327-329 | pushing a better pair beyond the popped distance keeps every queued pair an upper bound for its node |
| GraphPaths.LinkKeepsImproved | src/lib/models/modelling/graph.cpp:325-330 | recording an improving edge from the popped node keeps every node either unchanged or improved through that node |
| GraphPaths.RelaxSkip | src/lib/models/modelling/graph.cpp:324-332 | an edge that does not improve its end leaves the loop invariant true one edge further |
| GraphPaths.RelaxUpdate | src/lib/models/modelling/graph.cpp:324-332 | an edge that improves its end, once recorded and pushed, leaves the loop invariant true one edge further |
| GraphPaths.RelaxEdge | src/lib/models/modelling/graph.cpp:325-331 | one pass of the edge loop keeps the loop invariant |
| GraphPaths.RelaxFrom | src/lib/models/modelling/graph.cpp:324-332 | every edge leaving the node is relaxed, improvements are pushed with their predecessor and edge, and nothing gets worse; a relaxed node changes nothing |
| GraphPaths.PopKeeps | src/lib/models/modelling/graph.cpp:317-322 | popping a stale or settled entry keeps the search invariant |
| GraphPaths.SettleKeeps | src/lib/models/modelling/graph.cpp:317-333 | settling the least fresh entry and relaxing its edges keeps the search invariant |
| GraphPaths.SearchStep | src/lib/models/modelling/graph.cpp:318-332 | one pass of the `while` loop keeps the search invariant and settles a node or shrinks the queue |
| GraphPaths.SearchDone | src/lib/models/modelling/graph.cpp:317-333 | when the queue is empty, every edge is relaxed and the table is a shortest-path tree |
| GraphPaths.Search | src/lib/models/modelling/graph.cpp:309-333 | the source is at 0, every edge is relaxed, an infinite entry has no finite predecessor, and each finite node links to its predecessor by an edge accounting for its distance |
| GraphPaths.FindEdge | src/lib/models/modelling/graph.cpp:342-347 | the first edge from `orig` to `dest`, or -1 exactly when there is none |
| GraphPaths.Backtrack | src/lib/models/modelling/graph.cpp:335-349 | -1 for the source or an unreachable node; otherwise an edge leaving the source after which a walk of the remaining distance exists; a walk of weight `D[d]` exists |
| GraphPaths.RowPrefixStep | src/lib/models/modelling/graph.cpp:335-337 | filling one more entry with the search result and its first hop extends the filled prefix |
| GraphPaths.ShortestRow | src/lib/models/modelling/graph.cpp:308-350 | the row of distances and first hops for one source satisfies the row invariant |
| GraphPaths.RowIsShortest | src/lib/models/modelling/graph.cpp:308-350 | a row entry is finite iff some walk exists; no walk is lighter; a walk of exactly that weight exists |
| GraphPaths.FirstHopDistance | src/lib/models/modelling/graph.cpp:335-349 | the first hop of a reachable pair is an edge leaving the source, and its end is that edge's weight closer to the target |
| Graphs.Doubled | src/lib/models/modelling/graph.cpp:128-141 | twice the edges: the originals, then the reverse of each |
| Graphs.Format | src/lib/models/modelling/graph.cpp:41-42 | the "format" key, "edge_list" when absent |
| Graphs.GraphType | src/lib/models/modelling/graph.cpp:126-127 | the "type" key, "directed" when absent |
| Graphs.ReversedGridStep | src/lib/models/modelling/graph.cpp:128-141 | reversing a grid step gives a grid step |
| Graphs.FormatEdges | src/lib/models/modelling/graph.cpp:41-124 | weights positive; grid edges are grid steps; a grid exactly for format "grid"; other formats are rejected |
| Graphs.ConfigEdges | src/lib/models/modelling/graph.cpp:41-145 | weights positive; grid edges are grid steps; a grid exactly for format "grid"; success only for type directed or undirected; other formats are rejected |
| Graphs.ValidatedWithin | src/lib/models/modelling/graph.cpp:253-300 | validation keeps edges within the node count and leaves one edge per key when it succeeds |
| Graphs.ValidateEdges | src/lib/models/modelling/graph.cpp:253-300 | the node count, the sorted list, and the validated list exactly when double edges are allowed or no key repeats, else the duplicate error naming the first repeated key of the sorted list |
| Graphs.FollowHops | src/lib/models/modelling/graph.cpp:213-227 | following the first hops from `o` reaches `d` along a walk whose weight is the distance |
| Graphs.GridNodeBound | src/lib/models/modelling/graph.cpp:254-260 | a grid graph has at most `width * height` nodes |
| Graphs.Graph.constructor | src/lib/models/modelling/graph.cpp:186-187 | no nodes, no edges, not a grid; the graph is valid |
| Graphs.Graph.FromConfig | src/lib/models/modelling/graph.cpp:40-150 | the configuration's error; or, after a successful load, the duplicate error naming the first repeated key in sorted order; or a valid graph with the validated edges, the node count, the grid flag and the dimensions |
| Graphs.Graph.LoadFormat | src/lib/models/modelling/graph.cpp:41-124 | loads exactly the edges and dimensions `FormatEdges` gives, or its error |
| Graphs.Graph.LoadEdges | src/lib/models/modelling/graph.cpp:41-145 | loads exactly the edges and dimensions `ConfigEdges` gives, or its error |
| Graphs.Graph.ValidateEdgeVectorAndComputeNumNodes | src/lib/models/modelling/graph.cpp:253-300 | node count computed; succeeds iff double edges are allowed or no key repeats, else the error names the first repeated key in sorted order; edges sorted and merged, one per key, within the node count |
| Graphs.Graph.PCSP | src/lib/models/modelling/graph.cpp:304-352 | every row of the tables holds shortest distances and first hops; other fields unchanged |
| Graphs.Graph.NodeAt | src/lib/models/modelling/graph.cpp:153-162 | succeeds iff a grid with row and column in range; the not-a-grid error off a grid, otherwise the invalid-row or invalid-column error |
| Graphs.Graph.Width | src/lib/models/modelling/graph.cpp:164-168 | succeeds iff a grid |
| Graphs.Graph.Height | src/lib/models/modelling/graph.cpp:169-173 | succeeds iff a grid |
| Graphs.Graph.Coordinates | src/lib/models/modelling/graph.cpp:175-183 | succeeds iff a grid and the node is below `width * height`; the not-a-grid error off a grid, otherwise the node-not-in-grid error |
| Graphs.Graph.CoordinatesOfNodeAt | src/lib/models/modelling/graph.cpp:153-183 | `Coordinates(NodeAt(r, c)) == (r, c)` |
| Graphs.Graph.NodeAtOfCoordinates | src/lib/models/modelling/graph.cpp:153-183 | every grid node's coordinates are in range and `NodeAt` of them is the node |
| Graphs.Graph.ExistsPath | src/lib/models/modelling/graph.cpp:189-194 | the invalid-node error out of range; otherwise true iff some walk leads from `o` to `d` |
| Graphs.Graph.Distance | src/lib/models/modelling/graph.cpp:196-204 | the invalid-node or no-path error; otherwise the weight of a lightest walk |
| Graphs.Graph.NextEdge | src/lib/models/modelling/graph.cpp:234-252 | the invalid-node, no-path or origin-is-destination error; otherwise an edge leaving `o` whose end is exactly its weight closer to `d` |
| Graphs.Graph.Path | src/lib/models/modelling/graph.cpp:207-230 | the invalid-node or no-path error; otherwise a walk from `o` to `d` whose weight is the shortest distance |
| PlanningHelpers.FloorDiv | python/scripts/planning/helpers.py:15 | Python's floor division for either sign of the divisor |
| PlanningHelpers.GraphElementToCoordinate | python/scripts/planning/helpers.py:14-17 | the division error iff `size_x == 0`; otherwise `row * size_x + column == location` with the column in `[0, size_x)` (or `(size_x, 0]`) |
| PlanningHelpers.Distance | python/scripts/planning/helpers.py:20-27 | the division error iff `size_x == 0`; otherwise non-negative |
| PlanningHelpers.CoordinateDeterminesLocation | python/scripts/planning/helpers.py:14-17 | two locations have the same coordinates iff they are equal |
| PlanningHelpers.DistanceSymmetric | python/scripts/planning/helpers.py:20-27 | the distance is symmetric |
| PlanningHelpers.DistanceZeroIffSameLocation | python/scripts/planning/helpers.py:20-27 | the distance is 0 iff the locations are equal |
| PlanningHelpers.DistanceTriangle | python/scripts/planning/helpers.py:20-27 | the distance satisfies the triangle inequality |
| PlanningHelpers.LatestAfterStore | python/scripts/planning/helpers.py:190-198 | a store makes the written slot hold the newest entry and leaves the others' entries in place |
| PlanningHelpers.AppendKeepsSlots | python/scripts/planning/helpers.py:191-193 | appending while not full keeps every slot holding its latest entry |
| PlanningHelpers.OverwriteKeepsSlots | python/scripts/planning/helpers.py:194-198 | overwriting slot `h mod max_size` when full keeps every slot holding its latest entry |
| PlanningHelpers.Rows | python/scripts/planning/helpers.py:201-205 | the first `n` entries, entry `i` being `[arg[i] for arg in args]` |
| PlanningHelpers.MinLength | python/scripts/planning/helpers.py:203-204 | no array is shorter, and some array has exactly that length |
| PlanningHelpers.StoredCount | python/scripts/planning/helpers.py:201-205 | 0 without arrays; all row indexes of `args[0]` when no array is shorter; otherwise the length of a shortest array |
| PlanningHelpers.Database.constructor | python/scripts/planning/helpers.py:178-183 | empty buffer, indexes 0 |
| PlanningHelpers.Database.Clear | python/scripts/planning/helpers.py:185-188 | empty buffer, `insert_index == size == 0` |
| PlanningHelpers.Database.Store | python/scripts/planning/helpers.py:190-198 | appends while not full; when full overwrites exactly slot `insert_index` and advances it, wrapping at `size`; `size <= max_size` and the buffer holds the latest entries |
| PlanningHelpers.Database.StoreFromArray | python/scripts/planning/helpers.py:200-205 | IndexError iff there are no arrays or one is shorter than `args[0]`; in every case the complete entries before the failing index are stored, in order |
| PlanningHelpers.PySlice | python/scripts/planning/helpers.py:243-245 | a slice is never longer than the list |
| PlanningHelpers.IsOdd | python/scripts/planning/helpers.py:248-250 | bit 0 is set iff `n` is odd, also for negative `n` |
| PlanningHelpers.TruncHalf | python/scripts/planning/helpers.py:241 | `int(n / 2)` truncates toward zero: `n` is `2·h` or `2·h ± 1` on the side of its sign |
| PlanningHelpers.SymmetricRemove | python/scripts/planning/helpers.py:238-246 | never longer than `x`; a negative `n` removes only the first item, and only when `n` is odd |
| PlanningHelpers.TrimBothEnds | python/scripts/planning/helpers.py:241-243 | `x[half:-half]` is the middle of `x`, or empty when the two ends overlap |
| PlanningHelpers.DropFirst | python/scripts/planning/helpers.py:244-245 | `x[1:]` drops the first item, if any |
| PlanningHelpers.SymmetricRemoveSlice | python/scripts/planning/helpers.py:238-246 | for `n >= 0` the result is `x[n//2 + n%2 : len(x) - n//2]`, of length `max(0, len(x) - n)` |

## Left out

- Queue MDP `ModifyStateWithEvent`, `ModifyStateWithAction`, `GetEvent`, `EventProbabilities`, `GetFeatures` and `IsAllowedAction` are not modelled: they only throw "not implemented".
- The queue MDP constructor is not modelled. It reads configuration into a local vector that it never stores.
- The random draw and `std::log` step of `sample_next_fil_after_completion` are not modelled. The geometric draw `H` is a parameter instead.
- Reading configuration (`VarGroup`) is not modelled. The graph and edge constructors take an already-read configuration whose absent keys are `None`. `GetState` takes a map of tagged values.
- QueueServers.ServerDynamicState.UpdateIdleCapacity: requires `IdleIndexSafe`. It keeps the job-id column reads inside the table, where the source would read out of bounds.
- Graphs.GridRowsPresent: a grid configuration must have at least one row. The source reads `rows[0]` without checking.
- Graphs.Graph.FromConfig: is a static method returning a `Result`, not a throwing constructor. The exception messages are error constructors, and the `(row,col)` text of an arrow error is kept as numbers.
- Graphs.Graph.Path: the "failed to construct path" branch is not modelled. On a valid graph the first-hop table never holds -1 for a reachable pair (`FirstHopDistance`), so the branch cannot be reached.
- Graphs.Graph.NextEdge: the "failed to find next edge" branch is not modelled, for the same reason.
- `std::sort` is modelled by the insertion-sort specification `SortByKey` (sorted and a permutation). Equal keys may come out in another order than `std::sort` puts them. After the duplicate check or the merge, only the lightest weight of a key is observable.
- The heap of `PCSP`'s priority queue is a sequence from which `PopMin` removes the least pair.
- The previous-node array is modelled together with a ghost array of the edges that set each predecessor.
- Integer widths (`int64_t`, `int32_t`, `int`) are unbounded; only the `uint32_t` range check on configured endpoints is kept.
- GraphEdges.NodeCount: `numNodes = edge.dest + 1` (and `edge.orig + 1`) at graph.cpp:257,259 is `uint32_t` arithmetic that wraps to 0 at endpoint `2^32-1`, where the model gives `2^32`.
- Floating-point rounding is not modelled: weights, rates and distances are exact reals.
- `total_service_rate` is never initialised by the default constructor in the source. The model starts it at 0.
- `static_info` is a pointer in the source and an `Option` holding the server table here. The table is never written after the MDP is built.
- `Database.reshuffle`, `__next__` and `sample_array` are not modelled: they are random shuffling and numpy batching.
- The exact solver that the test runs is not modelled. Only the expected cost from the initial state over whole cycles of the modelled steps is stated.
- `Database` assumes `max_size >= 1`. With 0 the first `store` would index an empty list.
- The numpy, torch and file helpers of `helpers.py`, `mcts_stochastic.py`, the render scripts, executables, bindings and `policies.h` are not modelled. They are I/O, floating-point search or declarations.
