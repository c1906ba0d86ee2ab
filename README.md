# Path finding on weighted graphs

This project models the path-finding core of a maze generator and solver. It has
two parts. The first is all of `path_finding.py`:

- Floyd-Warshall all-pairs distances, with its three output formats;
- Dijkstra (spelled `djikstra` in the source);
- A*, breadth-first search and depth-first search;
- Bellman-Ford, with its negative-cycle check;
- bidirectional search and beam search.

The second is `filter_maze_passages` from `maze_methods.py`. It removes closed
passages (weight 100) from a generated maze before the maze is searched.

A graph is a map from a node to a map from neighbour to integer weight
(`Graphs.Graph`). Floyd-Warshall takes a square matrix of extended integers.
There, `Inf` stands for `math.inf` and an off-diagonal 0 means "no edge".
Every search is a method with the source's loops. Its loop invariants are
bundled into ghost predicates, and small lemmas carry them across one step.

Ghost state records when each node was labelled. That proves the walks back
along `came_from` or `predecessor` terminate. Each search's contract ties its
result to paths of the graph:

- the path returned leads from start to the goal;
- the cost returned is the path's weight (for `bfs`, an upper bound on it that is the weight of some other path to the goal);
- nothing is returned exactly when the goal cannot be reached (for bidirectional search: when start and goal differ, with every meeting node counted; see "Left out");
- bidirectional search and `bfs` are not claimed to return a shortest path, though their docstrings say so: bidirectional search ignores weights and stops at the first node both sides have seen, and `bfs` stops when the goal is first taken from its queue (see "Left out");
- Dijkstra and Bellman-Ford return a path no heavier than any other;
- Bellman-Ford raises `ValueError` exactly when a negative cycle can be reached from start.

Source errors are modelled as values:

- a `KeyError` on an unreachable goal is `None` (or `Missing`);
- the `ValueError` is `NegativeCycle`;
- the type-check message of `floyd_warshall` is `NotAllowed`.

## Model

| member | source | states |
|---|---|---|
| FloydWarshall.InitialDistances | path_finding.py:88-95 | every cell is the starting matrix: 0 on the diagonal, the edge weight off it, `Inf` where the graph has 0 |
| FloydWarshall.FloydWarshallMatrix | path_finding.py:88-99 | every distance is exactly the weight of some walk from i to j and never above the starting matrix; `dist[i][j]` is `Inf` only when every walk from i to j weighs `Inf`; with no negative cycle no walk from i to j is lighter than `dist[i][j]`, and the triangle inequality holds |
| FloydWarshall.Relaxed | path_finding.py:99 | one relaxation sets cell (i, j) to `min(dist[i][j], dist[i][k] + dist[k][j])` and leaves every other cell alone |
| FloydWarshall.RelaxStep | path_finding.py:96-99 | if the three cells bound walks through intermediates below k, the relaxed cell bounds walks through intermediates below k + 1 |
| FloydWarshall.RelaxWalk | path_finding.py:96-99 | the relaxed value is at most the weight of any walk whose intermediates are below k + 1 |
| FloydWarshall.CutAt | path_finding.py:96-99 | a walk through k splits into a walk to k, a cycle and a walk from k, whose weights add up to the whole |
| FloydWarshall.RelaxKeeps | path_finding.py:97-99 | one cell update keeps a walk of exactly each entry's weight, the bound by the starting matrix, and the shortest-walk bound |
| FloydWarshall.ReachedStep | path_finding.py:96-99 | the relaxed cell is finite once some walk through intermediates below k + 1 has a finite weight |
| FloydWarshall.RelaxReaches | path_finding.py:97-99 | one cell update keeps every entry finite where a walk considered so far is finite |
| FloydWarshall.FinishReached | path_finding.py:96-99 | after all passes an `Inf` entry means every walk between its two nodes weighs `Inf` |
| FloydWarshall.DirectWalk | path_finding.py:90-95 | a walk with no intermediate node weighs at least the starting entry |
| FloydWarshall.Triangle | path_finding.py:96-99 | after all passes `dist[i][j] <= dist[i][k] + dist[k][j]` |
| FloydWarshall.WalkSplit | path_finding.py:99 | the weight of a walk is the sum of the weights of its two halves |
| FloydWarshallViews.Letter | path_finding.py:62 | node i is the one-character string `chr(ord('A') + i)` |
| FloydWarshallViews.LettersMeaning | path_finding.py:61-72 | the letters dictionary has exactly one key per node, and a row holds exactly the finite entries with their values |
| FloydWarshallViews.LettersRoundTrip | path_finding.py:61-72 | the matrix can be read back from the letters dictionary: a present entry is its value, an absent one is `Inf` |
| FloydWarshallViews.LettersView | path_finding.py:61-72 | the loops build the letters dictionary |
| FloydWarshallViews.CoordsMeaning | path_finding.py:73-84 | (i, j) is a key exactly when `dist[i][j]` is finite; its row holds (j, k) for k ≠ j with `dist[j][k]` finite, valued `dist[i][j] + dist[j][k]` |
| FloydWarshallViews.CoordsView | path_finding.py:73-84 | the loops build the coordinates dictionary |
| FloydWarshallViews.FloydWarshallEntry | path_finding.py:36-103 | an unknown type gives the "type not allowed" message; otherwise the result has the requested form, built from the computed matrix |
| Graphs.PathCost | path_finding.py:190-193 | summing the weights of consecutive pairs gives the path's weight |
| Graphs.ArgMin | path_finding.py:126 | the index of an item whose key is least |
| Graphs.RemoveAt | path_finding.py:126 | taking item k out keeps the others in order, and the multiset loses exactly that item |
| Graphs.Reverse | path_finding.py:189 | the reversed path lists the same nodes back to front |
| Graphs.PathReverse | path_finding.py:359-363 | on an undirected graph a reversed path leads back with the same ends |
| Graphs.PathConcat | path_finding.py:354-364 | two paths that meet join into one whose weight is the sum |
| Graphs.ReachableKnown | path_finding.py:215-226 | a node reachable from a known start is known once the known set is closed under the edges |
| Dijkstra.Djikstra | path_finding.py:106-136 | a path from start to the goal whose cost is its weight and which no other path undercuts; `None` exactly when the goal is unreachable |
| Dijkstra.SearchStart | path_finding.py:122-124 | the starting distances and the one-entry heap satisfy the loop invariant |
| Dijkstra.Taken | path_finding.py:126 | a popped entry carries a real path from start of its recorded weight |
| Dijkstra.StaleDropped | path_finding.py:127-128 | skipping a stale entry keeps the invariant |
| Dijkstra.SettleOptimal | path_finding.py:126-130 | a least entry that is not stale has the node's distance, and no path from start to it is lighter |
| Dijkstra.Popped | path_finding.py:126-131 | settling that node keeps the invariant |
| Dijkstra.Arrived | path_finding.py:129-130 | the path returned when the goal is popped leads from start to the goal and weighs its distance |
| Dijkstra.RelaxNeighbours | path_finding.py:131-135 | after relaxing every edge out of the settled node the invariant holds, and distances have only gone down |
| Dijkstra.Frontier | path_finding.py:125-135 | a path leaving the settled set has an unsettled node whose distance is at most the path's weight |
| Dijkstra.Exhausted | path_finding.py:136 | with the heap empty, every node reachable from start is settled |
| ParentTree.TreeStart | path_finding.py:169-172 | `came_from = {start: None}` with `cost_so_far = {start: 0}` is a parent tree |
| ParentTree.Relabel | path_finding.py:177-183 | giving a neighbour a lower label and the current node as parent keeps the parent tree |
| ParentTree.WalkBack | path_finding.py:184-189 | the walk back from the goal ends at start and gives a path no heavier than the goal's label |
| LabelSearch.ExpandOne | path_finding.py:177-183 | labelling and queueing one neighbour keeps the neighbour-loop invariant |
| LabelSearch.ExpandEnd | path_finding.py:177-183 | after the neighbour loop every node is still covered and the labels have improved or stayed |
| Frontier.PopFirstCovered | path_finding.py:216 | after `popleft` every known node is queued or finished, except possibly the one taken |
| Frontier.PopLastCovered | path_finding.py:258 | after `pop` every known node is queued or finished, except possibly the one taken |
| Frontier.PushCovered | path_finding.py:222 | queueing a newly known node keeps every known node covered |
| Frontier.EmptyCovered | path_finding.py:215 | once the frontier is empty the known nodes are closed under the edges |
| AStar.AStar | path_finding.py:139-193 | a path from start to the goal whose cost is its weight; `None` (the source's `KeyError`) exactly when the goal is unreachable |
| AStar.Explore | path_finding.py:173-183 | the search loop keeps a parent tree and labels a reachable goal |
| AStar.Expand | path_finding.py:177-183 | the neighbour loop keeps the parent tree and the coverage, and only improves labels |
| BFS.Bfs | path_finding.py:196-234 | no cost exactly when the goal is unreachable, and then the path is empty; otherwise a path from start to the goal no heavier than the cost, and the cost is the weight of some path from start to the goal |
| BFS.Explore | path_finding.py:215-226 | the search loop keeps a parent tree, labels a reachable goal, and every label is the weight of some path from start |
| BFS.Expand | path_finding.py:219-224 | the neighbour loop keeps the parent tree, the coverage, every queued cost at least its node's label, and every label and queued cost the weight of some path from start |
| BFS.WalkExtend | path_finding.py:220-224 | a path to `current` of weight `current_cost` followed by the edge gives a path to the neighbour of weight `new_cost` |
| BFS.WalksPush | path_finding.py:222-224 | labelling and queueing the neighbour with `new_cost` keeps every label and queued cost a path weight |
| BFS.WalksPopFirst | path_finding.py:216 | the cost stored with the item taken is the weight of some path to its node |
| BFS.KeysPopFirst | path_finding.py:216 | the cost stored with the item taken is at least its node's label |
| BFS.KeysPush | path_finding.py:222-224 | queueing `(neighbor, new_cost)` with the label `new_cost` keeps queued costs above labels |
| DFS.Dfs | path_finding.py:237-273 | a path from start to the goal whose cost is its weight; `None` (the source's `KeyError`) exactly when the goal is unreachable |
| DFS.Explore | path_finding.py:255-264 | the search loop keeps every `came_from` link a real edge with its weight, and records a reachable goal |
| DFS.Expand | path_finding.py:261-264 | the neighbour loop keeps the links, covers the new nodes, and never overwrites an existing `came_from` entry |
| DFS.WalkBack | path_finding.py:265-273 | the walk back ends at start, and the summed stored edge costs are the path's weight |
| BellmanFord.BellmanFord | path_finding.py:276-315 | `ValueError` exactly when a negative cycle can be reached from start; `KeyError` exactly when there is none and the goal is unreachable; otherwise a path no other path undercuts, with its weight as cost |
| BellmanFord.Passes | path_finding.py:298-303 | after `len(graph) - 1` passes every finite distance is backed by a path, no path with at most that many edges is lighter than its end's distance, and predecessors stay consistent |
| BellmanFord.Pass | path_finding.py:299-303 | one pass leaves every edge relaxed with respect to the distances before it |
| BellmanFord.RelaxFrom | path_finding.py:300-303 | relaxing the edges out of u leaves each of them relaxed with respect to u's earlier distance |
| BellmanFord.RelaxStep | path_finding.py:301-303 | one relaxation keeps the predecessor invariant and only lowers distances |
| BellmanFord.WitnessStep | path_finding.py:302 | a lowered distance is still backed by a path from start |
| BellmanFord.BoundStep | path_finding.py:298-303 | a pass extends the shortest-path bound from paths of k edges to paths of k + 1 |
| BellmanFord.Shortcut | path_finding.py:298 | without a reachable negative cycle every path from start can be cut to one with no repeated node and no more weight |
| BellmanFord.CutCycle | path_finding.py:298 | removing a cycle from a path does not make it heavier when no negative cycle is reachable |
| BellmanFord.ShortEnough | path_finding.py:298 | a path with no repeated node has at most `len(graph) - 1` edges |
| BellmanFord.CycleOrSettled | path_finding.py:298-307 | after the passes either a negative cycle is reachable or no edge can be relaxed |
| BellmanFord.StillRelaxable | path_finding.py:304-307 | the final check is true exactly when some edge can still be relaxed |
| BellmanFord.PathBound | path_finding.py:304-307 | when nothing can be relaxed, the end of a path has a distance at most the start's plus the path weight |
| BellmanFord.NoNegativeCycle | path_finding.py:304-307 | when nothing can be relaxed, no negative cycle can be reached from start |
| BellmanFord.WalkBack | path_finding.py:308-315 | the walk along `predecessor` ends at start with a path whose weight is the summed cost and the goal's distance |
| Bidirectional.BidirectionalSearch | path_finding.py:318-400 | a returned path leads from start to the goal and costs its weight; for distinct ends `None` exactly when the goal is unreachable, any meeting node being taken (including one the source treats as false) |
| Bidirectional.GetPath | path_finding.py:335-364 | the stitched path leads from start to the goal through the intersection |
| Bidirectional.Meet | path_finding.py:372-377 | the result at an intersection is a path from start to the goal whose cost is its weight |
| Bidirectional.Visit | path_finding.py:378-385 | a visit keeps the parent chain, covers its new nodes, and stops at a node the other side has seen |
| Bidirectional.ForwardStep | path_finding.py:378-385 | the forward step keeps the search invariant and shrinks the measure |
| Bidirectional.BackwardStep | path_finding.py:392-399 | the backward step keeps the search invariant and shrinks the measure |
| Bidirectional.Apart | path_finding.py:400 | when a queue runs dry with the two seen sets apart, the goal is unreachable |
| Bidirectional.BackwardMeet | path_finding.py:392-399 | a backward neighbour seen only forward means neither queue is empty |
| Bidirectional.SearchStart | path_finding.py:366-370 | the starting queues and maps satisfy the search invariant |
| BeamSearch.SortByCost | path_finding.py:441 | the result is sorted by cost and a permutation of the queue |
| BeamSearch.Insert | path_finding.py:441 | inserting into a sorted list keeps it sorted and adds exactly that candidate |
| BeamSearch.SliceEnd | path_finding.py:441 | the length Python's `[:width]` keeps, negative widths included |
| BeamSearch.Prune | path_finding.py:441 | the kept candidates are sorted, as many as the slice keeps, drawn from the queue, and none costs more than a dropped one |
| BeamSearch.PrefixKept | path_finding.py:441 | a prefix of a sorted list is sorted and costs no more than the rest |
| BeamSearch.NextCandidate | path_finding.py:438-440 | the new path is the old path extended by the neighbour |
| BeamSearch.Expand | path_finding.py:435-440 | one candidate is queued for each unvisited neighbour |
| BeamSearch.GrownValid | path_finding.py:436-440 | every new candidate's cost is the weight of its path from start |
| BeamSearch.ExpandStep | path_finding.py:433-441 | an expansion followed by the sort and cut keeps the search invariant |
| BeamSearch.PopStep | path_finding.py:429-433 | dropping a candidate whose node was visited keeps the search invariant |
| BeamSearch.Arrived | path_finding.py:430-432 | a candidate ending at the goal is a path from start to the goal whose cost is its weight |
| BeamSearch.NoneLeft | path_finding.py:442 | an emptied queue under a wide enough beam means the goal is unreachable |
| BeamSearch.BeamSearch | path_finding.py:403-442 | a returned path leads from start to the goal and costs its weight; with a beam wider than the edge count, `None` exactly when unreachable; the nodes expanded are distinct nodes of the graph other than the goal, at most as many as the graph has |
| BeamSearch.RecordStep | path_finding.py:433-434 | a node is expanded only when not yet visited, so the record of expanded nodes never repeats one |
| BeamSearch.RecordBound | path_finding.py:433-434 | the record of expanded nodes is no longer than the graph has nodes |
| MazeMethods.OpenAdjacents | maze_methods.py:182-185 | exactly the adjacent cells whose weight is not 100, with their weights |
| MazeMethods.OpenPassages | maze_methods.py:180-188 | a cell is kept exactly when it has an open passage, and its row holds exactly its open passages |
| MazeMethods.FilterMazePassages | maze_methods.py:180-188 | the loops build the filtered maze |
| MazeMethods.FilterAdjacents | maze_methods.py:182-185 | the inner loop builds one cell's open passages |
| MazeMethods.OpenPassagesIsSubMap | maze_methods.py:180-188 | the filtered maze is contained in the maze, weights included |
| MazeMethods.OpenPassagesIdempotent | maze_methods.py:180-188 | filtering twice is filtering once |

## Left out

- Iteration order of Python dictionaries and sets is not modelled. Every loop over neighbours or nodes takes them in an arbitrary order. So each contract holds whatever order the source sees.
- Tie-breaks of `heapq` and `PriorityQueue` are not modelled, and neither is the node comparison that Python makes on equal priorities. A frontier gives up some item of least key.
- Weights are integers. Floating-point weights, `float('inf')` arithmetic beyond the `Inf` value, and the `int(beam_width)` conversion of a non-integer width are left out.
- AStar.AStar: optimality of the returned path is not claimed. The source promises it only for an admissible heuristic, and none is assumed.
- AStar.AStar: the heuristic is a parameter. The default Manhattan distance on coordinate tuples (path_finding.py:143) is not modelled.
- BFS.Bfs: the returned cost bounds the returned path's weight only from above. It is the weight of some path to the goal, but not always of the one returned. With S→A 10, S→B 1, B→A 1 and A→G 1, one dequeue order labels G with 11 (the path S, A, G), then walks back S, B, A, G, which weighs 3.
- BFS.Bfs: the docstring's "shortest path" (path_finding.py:209) is not claimed, and it is false of the source. On {S: {G: 10, A: 1}, A: {G: 1}} with S first expanding G, the source returns S, G at cost 10, although S, A, G weighs 2.
- Bidirectional.BidirectionalSearch: when start equals the goal, no claim is made about `None`. The source returns `None` for an isolated start and a round trip otherwise.
- Bidirectional.BidirectionalSearch: the docstring's "shortest path" (path_finding.py:321, 332, 341) is not claimed, and it is false of the source. The search ignores weights and stops at the first node both sides have seen. On the undirected graph {S: {A: 1, G: 100}, A: {S: 1, G: 1}, G: {S: 100, A: 1}}, start S, goal G, the forward pop of S finds G already seen backward, so the source returns S, G at cost 100, although S, A, G weighs 2.
- Bidirectional.BidirectionalSearch: the intersection is an `Option`, so any meeting node counts. The source tests `if intersection:` (path_finding.py:372, 386), so a falsy meeting node (0, '', ()) is ignored. The source may then return another path, or `None` although the goal is reachable. Example: {1: {0: 1}, 0: {0: 1, 1: 1, 2: 1}, 2: {0: 1}}, start 1, goal 2. Both queues run dry after meeting only at 0, so the source returns `None`, while the model returns 1, 0, 2.
- Bidirectional.BidirectionalSearch: it requires start and goal to be nodes of an undirected graph. The source raises `KeyError` when either is missing.
- Dijkstra, A*, BFS, DFS and beam search require start to be a node of the graph or the goal itself, and require every neighbour to be a node (`Closed`). The source raises `KeyError` when either fails. Bellman-Ford requires only `Closed`.
- Dijkstra, A* and BFS also require non-negative weights (`NonNegative`). The optimality and termination arguments rest on them.
- BeamSearch.BeamSearch: "unreachable" is claimed for `None` only when the beam is wider than the number of edges. A narrower beam can cut every path to the goal. Optimality is not claimed.
- BeamSearch.SortByCost: the stability of Python's `sorted` is not proved. Only order by cost and permutation are.
- The default beam width is 500, as in the code. The function's documentation says 2.
- FloydWarshallViews.LettersView: it is limited to at most 55231 nodes (`MaxLetters`). Beyond that, `chr` would reach the surrogate range, which Dafny strings cannot hold.
- The `'Invalid type'` branch of `floyd_warshall_to_dict` is not modelled. The entry point never reaches it.
- `maze_app.py`, `graph_methods.py` and the rest of `maze_methods.py` are not part of this model. They cover maze generation, drawing and I/O.
