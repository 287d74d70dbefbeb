# Graph search and hill climbing, verified in Dafny

This project models the search and local-search examples of the
`applied-ai` course repository and proves what each of them computes:

- **best-first search over weighted graphs**: uniform-cost search
  (`ucs.cpp`), A* with a heuristic table and an expansion log
  (`astar_exercise.cpp`), A* with a heuristic callable (`astar.cpp`);
- **greedy best-first search** (`gbfs.cpp`);
- **breadth-first and depth-first search** over unweighted graphs (`bfs.cpp`,
  `dfs.cpp`);
- **iterative deepening**, over index graphs (`ids.cpp`) and over maps of
  arbitrary node values (`ids_template.cpp`);
- **iterative-deepening A\*** (`idastar.cpp`), including the numbering of
  node values into indices;
- **the route finder** (`formative_assessment/route_finder.py`): path costs,
  a random depth-first initial route, Dijkstra with a city to avoid, and a
  steepest shortcut hill climber;
- **hill climbing**: the steepest-descent travelling salesman example
  (`hill_climbing_TSP_steepest.cpp`), with its tour-cost function, and the
  1D climber (`hill_climbing_1D.cpp`).

Each source routine that works by updating variables in a loop is an
imperative Dafny `method` with loop invariants. Each is proved against a
specification function or predicate, and the properties the routines
promise are lemmas about those specifications.

- **Best-first engine.** The three best-first searches share one engine.
  - `BestFirst` describes the priority-queue loop as a ghost state machine
    (`Init`, `Step`, `Finish`, `Run`, `Explore`).
  - `SearchLoop.Search` is the loop itself, proved equal to `Explore`.
  - `Routes` and `BestFirst.RouteCorrect` state what the reported route
    means.
  - Uniform-cost search is the engine with the zero heuristic.
- **Unweighted searches.** Breadth-first and depth-first search share the
  discovery invariant of `Discovery`.
- **Iterative deepening.** Both versions share the budget theory of
  `DepthLimit`.

Modelling choices:

- **Numbers and containers.**
  - C++ `int` values and Python floats are unbounded integers or naturals.
  - `INT_MAX` and `float("inf")` are the `Inf` case of `Cost`.
  - A priority queue is a multiset whose pop takes the least entry.
  - Linked result lists are sequences.
- **The route finder.**
  - `random.shuffle` is a parameter: any permutation of the neighbour list.
  - The optional city to avoid is an `Option`. As in Python,
    `city_to_avoid and ...` makes an empty name avoid nothing in `dijkstra`,
    while `generate_random_path` compares with `avoid` directly.
- **Heuristics and objectives.**
  - The 1D objective is any `int -> int` function; its value is read
    through the source's `(int)` cast.
  - The TSP objective is any function of the tour; the example's lambda is
    `TspTour.TourCost`.
  - The heuristic callable of `astar.cpp` is any function `(node, target) ->
    nat`, read once per node.

## Model

| member | source | states |
|---|---|---|
| Common.AddCost | applied-ai/ucs.cpp:61-65 | `g + w` is infinite exactly when `g` is, and otherwise adds `w` |
| Common.CountFalse | applied-ai/ucs.cpp:32 | the number of open nodes is at most the node count and is 0 exactly when every node is closed |
| Common.CountFalseSet | applied-ai/ucs.cpp:48 | closing an open node lowers the number of open nodes by one (the termination measure of every search loop) |
| Common.Pos | applied-ai/gbfs.cpp:34 | the first position of a node in the expansion order: its entry is the node, earlier entries differ, and it is in range exactly when the node was expanded |
| Walks.SumConcat | applied-ai/ucs.cpp:65 | the cost of two joined walks is the sum of their costs |
| Walks.WalkJoin | applied-ai/ucs.cpp:56-70 | two walks that meet join into one walk |
| Walks.CutCycle | applied-ai/idastar.cpp:50-51 | removing a cycle from a walk gives a shorter walk between the same ends that costs no more |
| Walks.SimpleWalk | applied-ai/idastar.cpp:50-51 | every walk can be replaced by a repetition-free walk between the same ends that costs no more |
| Walks.ConsistentAlongWalk | applied-ai/astar_exercise.cpp:80-87 | along any walk a consistent heuristic drops by at most the walk's cost |
| Walks.ZeroConsistent | applied-ai/ucs.cpp:61-67 | the zero heuristic of uniform-cost search is consistent |
| Frontier.LeastExists | applied-ai/ucs.cpp:36 | every non-empty queue of (priority, node) pairs has a least entry in `greater<pair>` order |
| Frontier.LeastOf | applied-ai/ucs.cpp:43-44 | `pq.top()` exists: an entry of the queue no greater than any other |
| Frontier.LeastUnique | applied-ai/ucs.cpp:43-44 | the least entry is unique, so `pq.top()` is determined by the queue's contents |
| Chains.PathToProps | applied-ai/ucs.cpp:76-83 | following parent links from a node back to the source gives a chain that starts at the source, ends at the node and links each node to its parent |
| Chains.RankedNoDup | applied-ai/ucs.cpp:76-83 | a chain whose ranks strictly increase repeats no node |
| Chains.TracePath | applied-ai/gbfs.cpp:57-62 | the collecting loop gathers the parent chain from the goal back to the root |
| Chains.Reverse | applied-ai/gbfs.cpp:63 | `std::reverse` puts entry `i` at position `n - 1 - i` |
| BestFirst.RelaxEdge | applied-ai/ucs.cpp:58-68 | relaxing an edge keeps the state well formed, leaves the closed set and the log alone, never raises a cost, and leaves closed nodes' costs unchanged |
| BestFirst.RelaxEdgeCases | applied-ai/ucs.cpp:59-68 | an improving edge records the parent, the new `g` and `f = g + h` and pushes `(f, v)`; any other edge changes nothing |
| BestFirst.RelaxFrom | applied-ai/ucs.cpp:56-70 | the `for` loop over a node's edges keeps the state well formed and closed costs unchanged |
| BestFirst.Step | applied-ai/ucs.cpp:43-70 | one iteration of the `while` loop keeps the state well formed and either closes a node or shrinks the queue |
| BestFirst.Run | applied-ai/ucs.cpp:41-71 | the `while` loop ends in a well-formed state |
| BestFirst.StepInv | applied-ai/ucs.cpp:43-70 | an iteration that does not pop the target keeps the search invariant and only extends the expansion log |
| BestFirst.FinishFinal | applied-ai/ucs.cpp:50-54 | popping the target closes it, stores its popped priority and leaves the final facts intact |
| BestFirst.PopOptimal | applied-ai/astar_exercise.cpp:54-65 | with a consistent heuristic, a node popped for the first time has its shortest distance as its cost |
| BestFirst.RunOptimal | applied-ai/astar_exercise.cpp:52-91 | with a consistent heuristic, every node the loop closes gets its shortest distance |
| BestFirst.EmptyFrontier | applied-ai/ucs.cpp:41 | an exhausted queue with the target still open means no walk reaches the target and its parent was never set |
| BestFirst.FirstStep | applied-ai/ucs.cpp:38-48 | the first iteration pops `(0, S)` and closes the source |
| BestFirst.ExploreFacts | applied-ai/ucs.cpp:31-71 | the search closes the source first, ends in a final state and, with a consistent heuristic, every closed node has its shortest distance |
| BestFirst.ChainWalk | applied-ai/ucs.cpp:64-65 | the parent chain to any node with a parent is a walk whose prefix costs are the recorded `g` values |
| BestFirst.FoundRoute | applied-ai/ucs.cpp:73-84 | a found route is a repetition-free walk from `S` to `T` whose prefixes cost the recorded `g`, and a shortest one when closed costs are optimal |
| BestFirst.RouteCorrect | applied-ai/astar_exercise.cpp:40-104 | a route is reported exactly when `T` is reachable and exactly when `T` was expanded (then last); the log starts at `S` and repeats nothing; `f = g + h` everywhere; the route is a repetition-free walk, shortest under a consistent heuristic |
| SearchLoop.RelaxOne | applied-ai/ucs.cpp:58-68 | the body of the `for` loop computes exactly `RelaxEdge` |
| SearchLoop.RelaxEdges | applied-ai/ucs.cpp:56-70 | the `for` loop computes exactly `RelaxFrom` from the first edge |
| SearchLoop.Start | applied-ai/ucs.cpp:31-39 | the initialisation builds exactly the initial state: all nodes open and parentless, only `S` costed and queued |
| SearchLoop.Turn | applied-ai/ucs.cpp:43-70 | one iteration computes `Step` (or `Finish` when it pops the open target) and lowers the termination measure |
| SearchLoop.Search | applied-ai/ucs.cpp:31-71 | the loop's final variables are exactly the state `Explore` describes |
| Routes.RouteExists | applied-ai/ucs.cpp:73-74 | `parents[T] == -1` (no route) exactly when `T` is unreachable from `S` |
| Routes.RouteFacts | applied-ai/ucs.cpp:73-84 | the reported route is a repetition-free walk from `S` to `T` whose prefixes cost the recorded `g`, shortest under a consistent heuristic |
| Routes.ChainShortest | applied-ai/ucs.cpp:76-83 | with optimal closed costs, every node of the reconstructed route carries its shortest distance |
| Routes.LogFacts | applied-ai/astar_exercise.cpp:63 | the expansion log starts at the source, names no node twice and only names nodes of the graph |
| Ucs.Swap | applied-ai/ucs.cpp:58 | the (weight, neighbour) pairs of `ucs.cpp` read as (neighbour, weight) pairs, entry by entry |
| Ucs.Trace | applied-ai/ucs.cpp:76-84 | the reconstruction loop builds the listing of the route: every node with its distance, the target with 0 |
| Ucs.FindPath | applied-ai/ucs.cpp:23-85 | `UCS::findPath` returns exactly the expected list: `[S]` when `S == T`, none when `T` was never reached, else the listing of the reported route |
| Ucs.FindPathCorrect | applied-ai/ucs.cpp:23-85 | a list is returned exactly when `T` is reachable; it runs from `S` to `T` without repeats along a least-cost walk, each node but `T` carrying its shortest distance |
| AStarTable.Trace | applied-ai/astar_exercise.cpp:96-104 | the reconstruction loop builds the listing of the route with each node's `f` and `g`, the target without them |
| AStarTable.FindPath | applied-ai/astar_exercise.cpp:30-105 | `AStar::findPath` returns exactly the expected list and expansion log |
| AStarTable.FindPathLog | applied-ai/astar_exercise.cpp:33-71 | with `S == T` the log is empty; otherwise it starts at `S`, repeats nothing, and a list comes back exactly when `T` is reachable, which is exactly when `T` was logged, then last |
| AStarTable.FindPathRoute | applied-ai/astar_exercise.cpp:93-104 | a returned list runs from `S` to `T` along a walk with `f = g + h` on its nodes, of least cost under a consistent heuristic |
| AStarTable.ListingFacts | applied-ai/astar_exercise.cpp:96-104 | the listing of a repetition-free walk whose nodes carry their prefix costs reports that walk |
| AStarCallable.Table | applied-ai/astar.cpp:53 | the heuristic values `h(v, T)`, one per node |
| AStarCallable.FindPath | applied-ai/astar.cpp:34-107 | the templated `findPath` returns exactly the table-driven result for `h(·, T)` |
| AStarCallable.FindPathCorrect | applied-ai/astar.cpp:34-107 | a list comes back exactly when `T` is reachable, and it reports a walk from `S` to `T`, of least cost when `h(·, T)` is consistent |
| Gbfs.MarkOne | applied-ai/gbfs.cpp:44-50 | marking a neighbour records its parent, pushes it with its heuristic and keeps the invariant |
| Gbfs.Expand | applied-ai/gbfs.cpp:42-51 | after the `for` loop, exactly the old marks and the node's neighbours are marked, and the invariant holds |
| Gbfs.OrderDiscovered | applied-ai/gbfs.cpp:42-51 | every node expanded after the root was discovered by an earlier expansion |
| Gbfs.OrderGreedy | applied-ai/gbfs.cpp:29-34 | the greedy choice: each node expanded after the root has an entry `(h, id)` no greater than that of every neighbour of an already expanded node that was not yet expanded, whether that neighbour is expanded later or never |
| Gbfs.Exhausted | applied-ai/gbfs.cpp:29 | when the queue runs dry, the expanded nodes are exactly those reachable from the root, and the goal is not one of them |
| Gbfs.RouteFacts | applied-ai/gbfs.cpp:54-63 | with the goal popped, its parent chain is a repetition-free route from the root whose nodes appear in expansion order |
| Gbfs.Search | applied-ai/gbfs.cpp:16-52 | the loop ends with the goal popped last (stopped) or with the queue drained, with the matching facts |
| Gbfs.FindShortestPath | applied-ai/gbfs.cpp:12-66 | the expansion order is greedy (as in `Gbfs.OrderGreedy`, so nodes still queued at the stop are covered too); with the goal expanded (last), the path is a repetition-free route from root to goal in expansion order; otherwise the path is empty, the goal is unreachable and the order holds exactly the reachable nodes |
| Discovery.PopKeeps | applied-ai/bfs.cpp:40-41 | taking a node off the worklist keeps the discovery invariant |
| Discovery.MarkKeeps | applied-ai/bfs.cpp:46-54 | marking a neighbour, recording its parent and queueing it keeps the discovery invariant |
| Discovery.Drained | applied-ai/bfs.cpp:38 | an empty worklist with the target unmarked means the target is unreachable |
| Discovery.ChainToSource | applied-ai/bfs.cpp:66-73 | the parent chain of a marked node is a repetition-free path from the source whose length is its depth plus one |
| Discovery.Trace | applied-ai/bfs.cpp:66-74 | the reconstruction loop builds the parent chain from source to target |
| Bfs.PopFront | applied-ai/bfs.cpp:40-41 | dequeuing the front keeps the invariant, and depths never decrease along the queue |
| Bfs.Scan | applied-ai/bfs.cpp:43-58 | the `for` loop keeps the layered invariant and stops exactly when the target is marked |
| Bfs.Search | applied-ai/bfs.cpp:28-59 | the loop ends with the target marked or with the worklist drained, every marked node at its least number of edges from the source |
| Bfs.FindPath | applied-ai/bfs.cpp:20-75 | `[S]` when `S == T`; none exactly when `T` is unreachable; otherwise a repetition-free path from `S` to `T` with no more nodes than any other path |
| Dfs.TopIsFirst | applied-ai/dfs.cpp:41-52 | scanning the neighbours from last to first leaves the first-listed unmarked neighbour on top of the stack |
| Dfs.Scan | applied-ai/dfs.cpp:41-56 | the `for` loop pushes exactly the unmarked neighbours from last to first, stopping right after the target, and keeps the invariant |
| Dfs.Search | applied-ai/dfs.cpp:28-57 | the loop ends with the target marked or with the stack drained |
| Dfs.FindPath | applied-ai/dfs.cpp:20-73 | `[S]` when `S == T`; none exactly when `T` is unreachable; otherwise a repetition-free path from `S` to `T` |
| Unweighted.ClosedSetBlocks | applied-ai/bfs.cpp:38-59 | nothing outside a set closed under edges is reachable from inside it |
| DepthLimit.Record | applied-ai/ids.cpp:88-93 | recording a better budget for a neighbour only raises records |
| DepthLimit.BudgetAlong | applied-ai/ids.cpp:86-101 | after a failed round, each node along a trail from the source was recorded with a budget no smaller than the limit minus its position |
| DepthLimit.Exhausted | applied-ai/ids.cpp:31-37 | a failed round with limit `L` means every trail from the source to the target has more than `L + 1` nodes |
| Ids.AsEdges | applied-ai/ids.cpp:22 | the index graph read as a map from each node to its neighbour list |
| Ids.Dls | applied-ai/ids.cpp:79-103 | `DLS` succeeds at once on the target, fails at limit 0 elsewhere, only raises budgets, and on success traces a path to the target through parent links |
| Ids.Visit | applied-ai/ids.cpp:88-100 | one neighbour of the `for` loop: recorded with at least the current budget, and on success traced through `parents` |
| Ids.Rebuild | applied-ai/ids.cpp:40-53 | the reconstruction loop builds exactly the traced path |
| Ids.FindShortestPath | applied-ai/ids.cpp:22-60 | a returned path is a repetition-free path from `src` to `target` of at most `maxDepth + 1` nodes and no longer than any other; none exactly when every path is longer than `maxDepth + 1` nodes |
| IdsTemplate.Dls | applied-ai/ids_template.cpp:87-116 | as `Ids.Dls`, and also fails at a node without an adjacency entry |
| IdsTemplate.Visit | applied-ai/ids_template.cpp:101-113 | one neighbour: recorded with at least the current budget; traced on success; on failure the settled budgets hold |
| IdsTemplate.Rebuild | applied-ai/ids_template.cpp:44-62 | the reconstruction loop stops at the source and builds exactly the traced path |
| IdsTemplate.FindShortestPath | applied-ai/ids_template.cpp:25-68 | as `Ids.FindShortestPath`, over trails of the node-value map |
| IdaStar.Search | applied-ai/idastar.cpp:31-71 | FOUND exactly when a goal path within the threshold starts here; EXCEEDED with the least end f-value of the cut-off paths; NOT_FOUND when neither kind exists; on FOUND the parent links hold the path |
| IdaStar.Child | applied-ai/idastar.cpp:45-63 | the `for` loop over the children combines their outcomes the same way, from the current child on |
| IdaStar.GoalWalk | applied-ai/idastar.cpp:36-40 | a goal path is a repetition-free walk to the goal, off the stack, whose `g + h(goal)` stays within the threshold |
| IdaStar.FrontierWalk | applied-ai/idastar.cpp:36-38 | a frontier path is a repetition-free walk off the stack whose end f-value is its cost plus the last heuristic and exceeds the threshold |
| IdaStar.FrontierBound | applied-ai/idastar.cpp:36-38 | every frontier path's end f-value is bounded by the open-node count times the largest weight plus the largest heuristic, which makes the threshold loop terminate |
| IdaStar.Classify | applied-ai/idastar.cpp:36-63 | every repetition-free walk to the goal off the stack begins with a goal path or a frontier path, and under an admissible heuristic the frontier path's end f-value is at most the walk's cost |
| IdaStar.Raise | applied-ai/idastar.cpp:135-142 | a probe that finds nothing leaves no walk to the goal cheaper than the new threshold, and an infinite threshold means the goal is unreachable |
| IdaStar.Pass | applied-ai/idastar.cpp:137-141 | one probe from the root: it reports what `Probed` says the probe at that threshold reports; FOUND yields a goal path through the parent links; the reported value is infinite exactly on NOT_FOUND |
| IdaStar.ProbeUnique | applied-ai/idastar.cpp:31-71 | the probe at a given threshold has one possible outcome and value, so the thresholds tried are determined by `h(root)` |
| IdaStar.TriedSnoc | applied-ai/idastar.cpp:135-142 | recording one more probe, and trying its value next when it is EXCEEDED, keeps the record of thresholds and probes consistent |
| IdaStar.Thresholds | applied-ai/idastar.cpp:130-142 | the loop records every probe at its threshold: each but the last is EXCEEDED with the next, greater threshold as its value; the last is FOUND (with the goal path through the parent links) or NOT_FOUND (goal unreachable) |
| IdaStar.Deepen | applied-ai/idastar.cpp:130-155 | the thresholds start at `h(root)` and strictly increase; the probe at each threshold but the last is EXCEEDED, so no goal path lies within it, and its least cut-off f-value is the next threshold; the last probe ended the loop and is FOUND exactly when a path is returned; the path is empty exactly when the goal is unreachable and is otherwise a repetition-free walk from root to goal |
| IdaStarGraph.GetIdx | applied-ai/idastar.cpp:83-91 | `get_idx` keeps the two maps inverse, returns the node's index, and appends a new node under the next index |
| IdaStarGraph.NumberNodes | applied-ai/idastar.cpp:94-99 | the first loop numbers exactly the nodes the graph mentions, bijectively |
| IdaStarGraph.BuildAdj | applied-ai/idastar.cpp:109-119 | the indexed adjacency lists hold exactly the graph's edges, in list order |
| IdaStarGraph.BuildH | applied-ai/idastar.cpp:121-127 | each index gets the heuristic entry of its node, the last one when listed twice, and 0 when absent |
| IdaStarGraph.EdgeToIdx | applied-ai/idastar.cpp:112-119 | every edge of the graph is an edge of the indexed graph |
| IdaStarGraph.EdgeFromIdx | applied-ai/idastar.cpp:112-119 | every edge of the indexed graph is an edge of the graph |
| IdaStarGraph.AdmissibleIdx | applied-ai/idastar.cpp:121-127 | an admissible heuristic over node values stays admissible once indexed |
| IdaStarGraph.FindShortestPath | applied-ai/idastar.cpp:74-157 | empty when root or goal is unmentioned; otherwise empty exactly when the goal is unreachable; a returned path is a repetition-free walk from root to goal, of least cost under an admissible heuristic |
| RouteGraph.RouteCostFinite | applied-ai/formative_assessment/route_finder.py:57-70 | `get_path_cost` is finite exactly when every consecutive pair is listed |
| RouteGraph.RouteCostJoin | applied-ai/formative_assessment/route_finder.py:57-70 | the cost of two routes joined at a shared city is the sum of their costs |
| RouteGraph.WalkCost | applied-ai/formative_assessment/route_finder.py:57-70 | without parallel listings, a walk's `get_path_cost` is the sum of its weights |
| RouteGraph.Lookup | applied-ai/formative_assessment/route_finder.py:63-67 | the inner loop finds the first listed weight to `v`, or none |
| RouteGraph.PathCost | applied-ai/formative_assessment/route_finder.py:57-70 | the loop computes the route's cost, finite exactly when every pair is listed |
| RouteQueue.EntryLeOrder | applied-ai/formative_assessment/route_finder.py:87-94 | Python's order on (cost, city, path) tuples is total, transitive and antisymmetric |
| RouteQueue.LeastOf | applied-ai/formative_assessment/route_finder.py:94 | `heappop` has a least tuple to return |
| RouteQueue.LeastUnique | applied-ai/formative_assessment/route_finder.py:94 | the least tuple is unique, so `heappop` is determined |
| RouteDijkstra.Expand | applied-ai/formative_assessment/route_finder.py:104-111 | the push loop adds exactly one tuple per listed neighbour that is neither avoided nor visited, and `pushes` counts them |
| RouteDijkstra.PopOptimal | applied-ai/formative_assessment/route_finder.py:94-101 | a popped, unvisited, unavoided city's cost is a lower bound on every clear walk to it |
| RouteDijkstra.Arrive | applied-ai/formative_assessment/route_finder.py:116-117 | popping the goal returns a clear repetition-free walk of the popped cost, which is the least; without parallel listings it is also its `get_path_cost` |
| RouteDijkstra.Exhausted | applied-ai/formative_assessment/route_finder.py:119 | an empty queue means no clear walk reaches the goal |
| RouteDijkstra.Skip | applied-ai/formative_assessment/route_finder.py:96-99 | dropping a tuple whose city is avoided or visited removes exactly that tuple and keeps the invariant |
| RouteDijkstra.Enter | applied-ai/formative_assessment/route_finder.py:101-117 | visiting the popped city adds it to the visited set and pushes the tuples of its clear unvisited pairs; it reports the tuple exactly when the city is the goal, and otherwise keeps the invariant and shrinks the unvisited cities |
| RouteDijkstra.StepOf | applied-ai/formative_assessment/route_finder.py:94-117 | a pass, dropping or visiting the least tuple, is one `Step`: that tuple leaves the queue, a newly visited city's pushed tuples join it, and the city joins the visited set unless avoided; the pass stops exactly when the popped city is the goal, neither avoided nor visited before |
| RouteDijkstra.PopsSnoc | applied-ai/formative_assessment/route_finder.py:92-117 | one more step extends the trace of pops; a pop that reaches the goal after none did ends the search, and one that does not leaves no pop so far reaching it |
| RouteDijkstra.Pop | applied-ai/formative_assessment/route_finder.py:93-117 | one iteration pops a least tuple and extends the trace by that `Step`; it either keeps the invariant and shrinks the unvisited cities, or reports the goal's route as the last pop; the queue loses the popped tuple and gains its `pushes`, none when the tuple is dropped |
| RouteDijkstra.Search | applied-ai/formative_assessment/route_finder.py:91-119 | the loop counts one iteration per pop: `popped` traces the pops from the start's tuple alone, each taking a least tuple of its queue and leaving the next; the loop stops at the first pop that reaches the goal, or with the queue empty and no pop reaching it |
| RouteDijkstra.Dijkstra | applied-ai/formative_assessment/route_finder.py:73-119 | the path is empty exactly when the cost is infinite, exactly when no clear walk connects start and goal; otherwise the path is a clear repetition-free walk of that cost, and the cost is least; `iterations` is the number of pops in the trace, each of a least queued tuple, and only the last reaches the goal (its tuple gives path and cost), or else the final queue is empty; `iterations` is also one plus the pushes minus the tuples `left` queued, and no smaller than the path's length |
| RandomRoute.CandidatesMembers | applied-ai/formative_assessment/route_finder.py:47 | a city is a candidate exactly when it is listed, unvisited and not the city to avoid |
| RandomRoute.RandomPath | applied-ai/formative_assessment/route_finder.py:41-54 | only grows `visited`; at the goal returns the path; a returned path extends the given one by a repetition-free, unavoided route to the goal; none means every unvisited route is blocked |
| RandomRoute.NoRouteOut | applied-ai/formative_assessment/route_finder.py:50-54 | when the search from a city fails, no route from it avoids the visited cities |
| RandomRoute.InitialRoute | applied-ai/formative_assessment/route_finder.py:136 | the initial route is a repetition-free route from start to goal avoiding the city; none exactly when there is no such route |
| RouteCut.ShortcutPicks | applied-ai/formative_assessment/route_finder.py:173 | a shortcut keeps the route's ends, drops `j - i - 1` cities and picks the rest in order |
| RouteCut.PicksCompose | applied-ai/formative_assessment/route_finder.py:179-181 | a shortcut of a shortcut is still a subsequence of the original route |
| RouteCut.ShortcutCheaper | applied-ai/formative_assessment/route_finder.py:170-174 | a qualifying shortcut is a linked route cheaper than the route it replaces |
| RouteCut.Concluded | applied-ai/formative_assessment/route_finder.py:157-177 | after the scan, no candidate exactly when no pair qualifies; otherwise the candidate is the first cheapest qualifying shortcut, of that cost, below the current cost |
| RouteHill.RowsCount | applied-ai/formative_assessment/route_finder.py:157-159 | for `n >= 3`, a scan over a route of `n` cities evaluates `(n - 2)(n - 3)/2` pairs (a one-city route has none) |
| RouteHill.Consider | applied-ai/formative_assessment/route_finder.py:159-177 | the body of the inner loop keeps the scan invariant one pair further |
| RouteHill.ScanRow | applied-ai/formative_assessment/route_finder.py:158-177 | the inner loop counts its evaluations and keeps the scan invariant to the row's end |
| RouteHill.Scan | applied-ai/formative_assessment/route_finder.py:149-177 | the scan counts every evaluation; no candidate exactly when no pair qualifies; otherwise the steepest qualifying shortcut with its cost |
| RouteHill.Climb | applied-ai/formative_assessment/route_finder.py:150-193 | one outer iteration either moves to a strictly shorter and cheaper route or stops at a route with no qualifying pair |
| RouteHill.Climbs | applied-ai/formative_assessment/route_finder.py:140-195 | the climb ends at a repetition-free, unavoided route from start to goal, of finite cost, with no qualifying pair; it counts iterations, last improvement and evaluations |
| RouteHill.HillClimbing | applied-ai/formative_assessment/route_finder.py:122-195 | the result is empty exactly when no unavoided route exists; otherwise it is a local optimum of the shortcut neighbourhood, obtained from the initial route by cuts |
| TspTour.Dist | applied-ai/hill_climbing_TSP_steepest.cpp:94-101 | the table distance is 0 between a city and itself |
| TspTour.DistSymmetric | applied-ai/hill_climbing_TSP_steepest.cpp:98-101 | the triangular table reads the same in both directions |
| TspTour.TourCost | applied-ai/hill_climbing_TSP_steepest.cpp:87-105 | the lambda `F` computes the closed tour's cost |
| TspTour.TourRotations | applied-ai/hill_climbing_TSP_steepest.cpp:87-105 | every rotation of a tour costs the same |
| TspTour.TourReverse | applied-ai/hill_climbing_TSP_steepest.cpp:87-105 | a tour costs the same backwards |
| TspClimb.Swap | applied-ai/hill_climbing_TSP_steepest.cpp:45-46 | exchanging two positions swaps those entries, keeps the rest and keeps the multiset of cities |
| TspClimb.Pass | applied-ai/hill_climbing_TSP_steepest.cpp:37-57 | a pass returns exactly the outcome of the row-by-row reference scan `TspClimb.Next`, so for every `eps` the exchange it keeps is fixed; by `TspClimb.NextFacts` it keeps nothing exactly when every exchange's value minus the current value is at least `eps`, otherwise the exchange it keeps is the last one that undercut the running best by `eps`, no later exchange undercuts it by `eps`, and with `eps == 0` it is the first exchange of least value |
| TspClimb.NextFacts | applied-ai/hill_climbing_TSP_steepest.cpp:37-57 | the reference scan keeps nothing exactly when the tour is stuck; what it keeps is an exchange of the tour with its value, undercut by no later exchange by `eps`, below the current value by `eps` when `eps <= 0`, and the first steepest exchange when `eps == 0` |
| TspClimb.SweepKeeps | applied-ai/hill_climbing_TSP_steepest.cpp:41-55 | from any state the inner loops can reach, the rest of the scan ends in a state that keeps the pass invariant over every exchange |
| TspClimb.SweepStep | applied-ai/hill_climbing_TSP_steepest.cpp:41-55 | one exchange tried (or one row ended) keeps the pass invariant and leaves the rest of the scan's outcome unchanged |
| TspClimb.Solve | applied-ai/hill_climbing_TSP_steepest.cpp:27-71 | the result is a permutation of the start with its value; at most `maxIter` passes; a non-converged result admits no improving exchange and the reference scan keeps nothing from it; each step of the trail of tours is the exchange the reference scan `TspClimb.Next` keeps, so the trail is a descent |
| TspClimb.DescentDecreases | applied-ai/hill_climbing_TSP_steepest.cpp:50-63 | with `eps <= 0` each kept tour is strictly below every earlier one, so no tour repeats |
| Climb1D.Pass | applied-ai/hill_climbing_1D.cpp:33-45 | a pass returns exactly the outcome of the left-to-right reference scan `Climb1D.Next`, so for every `eps` the point it keeps is fixed; by `Climb1D.NextFacts` it finds nothing exactly when no point of the window is `eps` above the value, otherwise it keeps the last point that beat the running best by `eps`, which nothing after beats by `eps`, and with `eps == 0` a highest point |
| Climb1D.NextFacts | applied-ai/hill_climbing_1D.cpp:33-45 | the reference scan finds nothing exactly when the point is a peak, and then keeps the point; otherwise it keeps a window point with its value that no later point beats by `eps`, at least `eps` above the value when `eps >= 0`, a highest point when `eps == 0`; with `eps <= 0` and a non-negative radius it always finds one |
| Climb1D.ScanKeeps | applied-ai/hill_climbing_1D.cpp:37-43 | from any point of the window, the rest of the scan ends in a state that keeps the pass invariant over the whole window |
| Climb1D.Solve | applied-ai/hill_climbing_1D.cpp:23-55 | the result carries its value; at most `maxIter` passes; a non-converged result is a peak of its window and the reference scan finds nothing from it; each step of the trail of points is the point the reference scan `Climb1D.Next` keeps, so the trail is an ascent of steps within `radius` |
| Climb1D.AscentBounds | applied-ai/hill_climbing_1D.cpp:37-49 | with `eps >= 0` the value rises by at least `eps` per move, and the `l`-th point lies within `l * radius` of the start |

## Left out

- **Machine arithmetic.**
  - 32-bit `int` overflow is not modelled. Costs, thresholds and heuristic
    values are unbounded naturals, so a sum past `INT_MAX` is not wrapped.
  - `(int)f(n)` in `hill_climbing_1D.cpp` is modelled by taking `f` as
    `int -> int`. The floating-point cosine objective in `main` is left out.
- **Floating point in the route finder.** Weights are naturals instead of
  floats; `float("inf")` is `Inf`, and `<` between costs is `Below`.
- **Output and experiment code.**
  - `printPath`, `printPathConLettere`, `deletePath` and every `main` are
    left out (output and freeing memory only).
  - The sample graphs are left out.
  - In `ids.cpp` the print loop never advances `curr`, so it would not end
    on a path of more than one node. It is output only and is not
    modelled.
  - In `route_finder.py`, the CSV logs (`log_path`, `init_csv`,
    `append_csv`) are left out (logging only); the `pushes` counter they
    log is kept, as `RouteDijkstra.Expand` returns it. Also left out are
    `load_data`, `experiment` and the plotting scripts.
- **Other climbers.** `sa.cpp`, `hill_climbing_TSP.cpp` and
  `hill_climbing_TSP_2opt.cpp` are not part of this model; they rely on
  random moves and restarts.
- **astar.cpp defects.** The file reads each edge through `vector<int>
  neigh = adj[node_idx][i]`, which does not compile for a `pair`, and
  declares a private `heuristic` that returns nothing. The model reads each
  edge as the intended (neighbour, weight) pair and uses the `Heuristic`
  argument.
- **Linked lists and ownership.** Linked result lists (`Node *`,
  `unique_ptr`) are sequences, so allocation, ownership transfer and
  freeing are not modelled.
- **Randomness.** `random.shuffle` is an arbitrary permutation parameter.
  The model states what holds for every permutation, not which one is
  drawn.
- **maxDepth width (IDS).** `maxDepth` is a natural. In the source,
  `size_t limit <= maxDepth` turns a negative `maxDepth` into a huge bound;
  that case is not modelled.
- Dfs.TopIsFirst: proved only for neighbour lists without repeats. With a
  repeated neighbour (`[a, b, a]`) the first-listed unmarked node is not the
  one left on top.
- RouteDijkstra.Arrive: the returned cost equals `get_path_cost` of the
  returned path only when no pair of cities is listed twice. With parallel
  listings Dijkstra may take a cheaper later listing that `get_path_cost`
  does not read.
- RouteHill.HillClimbing:
  - Python's `not current_path` on a `None` result is the `None` case;
    `generate_random_path` never returns an empty list.
  - The scan starts at `i = 1` as in the source, so a shortcut out of the
    start city is never tried. The result is a local optimum of that
    neighbourhood, not a cheapest route.
- TspTour.TourCost: the table is required to be triangular and the tour to
  name only its cities. The source reads out of range otherwise, which is
  undefined behaviour and not modelled.
- TspClimb.Solve and Climb1D.Solve: `converged` is the last pass's flag, as
  in the source. It is true when the loop stopped at `maxIter` with a pass
  that still improved.
- IdaStar.Thresholds: the loop's termination uses the bound of
  `IdaStar.FrontierBound`. The source relies on `INT_MAX` instead, which is
  not modelled.
