/**
 * `a_star` from path_finding.py: a priority frontier of `(priority, node)`, the
 * `came_from` and `cost_so_far` maps, a stop when the goal is taken from the
 * frontier, the walk back along `came_from`, and a final pass that adds up the
 * edge weights along the path.
 *
 * The frontier gives up some item of least priority (the `PriorityQueue`
 * tie-break on the node is not modelled). The heuristic is any function of
 * `(goal, node)`, called as the source calls it.
 */
module AStar {
  import opened Graphs
  import opened Frontier
  import opened ParentTree
  import opened LabelSearch

  /**
   * The search loop up to the `break`: start labelled 0, then take an item of
   * least priority and, unless it is the goal, expand it. The maps keep the
   * parent-tree shape, and a reachable goal always ends up labelled.
   */
  method Explore<N(!new)>(g: Graph<N>, start: N, goal: N, heuristic: (N, N) -> int)
    returns (cameFrom: map<N, Option<N>>, cost: map<N, int>, ghost stamp: map<N, nat>, ghost clock: nat)
    requires Closed(g) && NonNegative(g) && (start in g || start == goal)
    ensures Tree(g, start, cameFrom, cost, stamp, clock)
    ensures Reachable(g, start, goal) ==> goal in cameFrom
  {
    var frontier := [Item(start, 0)];
    cameFrom, cost, stamp, clock := map[start := None], map[start := 0], map[start := 0], 1;
    TreeStart(g, start);
    assert frontier[0].node == start;
    while frontier != []
      invariant Searching(g, start, frontier, cameFrom, cost, stamp, clock)
      decreases |(g.Keys + {start}) - cost.Keys|, Total(cost), |frontier|
    {
      SumNonNegative(cost, cost.Keys);
      var k := ArgMin(frontier, (q: Item<N>) => q.key);
      var current := frontier[k].node;
      PopCovered(g, frontier, cost.Keys, k);
      frontier := RemoveAt(frontier, k);
      if current == goal {
        return;
      }
      assert current in g;
      ghost var cost0 := cost;
      frontier, cameFrom, cost, stamp, clock := Expand(g, start, goal, heuristic, current, frontier, cameFrom, cost, stamp, clock);
      if Improved(cost0, cost) {
        MeasureFalls(g.Keys + {start}, cost0, cost);
      }
    }
    EmptyCovered(g, cost.Keys);
    if Reachable(g, start, goal) {
      var p :| PathFrom(g, p, start, goal);
      ReachableKnown(g, cost.Keys, start, p, goal);
    }
  }

  /**
   * The `for neighbor, cost in graph[current].items()` loop: a neighbour seen for
   * the first time or reached more cheaply gets the new cost, a frontier item with
   * priority `new_cost + heuristic(goal, neighbor)`, and `current` as its parent.
   */
  method Expand<N(!new)>(g: Graph<N>, start: N, goal: N, heuristic: (N, N) -> int, current: N,
                         frontier: seq<Item<N>>, cameFrom: map<N, Option<N>>, cost: map<N, int>,
                         ghost stamp: map<N, nat>, ghost clock: nat)
    returns (frontier': seq<Item<N>>, cameFrom': map<N, Option<N>>, cost': map<N, int>,
             ghost stamp': map<N, nat>, ghost clock': nat)
    requires Closed(g) && NonNegative(g) && current in g && current in cost
    requires Tree(g, start, cameFrom, cost, stamp, clock) && cost.Keys <= g.Keys + {start}
    requires Covered(g, frontier, cost.Keys, {current})
    ensures Searching(g, start, frontier', cameFrom', cost', stamp', clock')
    ensures Grown(frontier, cost, frontier', cost')
  {
    frontier', cameFrom', cost', stamp', clock' := frontier, cameFrom, cost, stamp, clock;
    var rest := g[current].Keys;
    ExpandStart(g, start, current, frontier, cameFrom, cost, stamp, clock);
    while rest != {}
      invariant ExpandLoop(g, start, current, rest, frontier, cost, frontier', cameFrom', cost', stamp', clock')
      decreases rest
    {
      var neighbor :| neighbor in rest;
      var newCost := cost'[current] + g[current][neighbor];
      if neighbor !in cost' || newCost < cost'[neighbor] {
        var priority := newCost + heuristic(goal, neighbor);
        var nextFrontier, nextCameFrom, nextCost := frontier' + [Item(neighbor, priority)], cameFrom'[neighbor := Some(current)], cost'[neighbor := newCost];
        ExpandOne(g, start, current, neighbor, rest, frontier, cost, frontier', cameFrom', cost', stamp', clock',
                  newCost, Item(neighbor, priority), nextFrontier, nextCameFrom, nextCost);
        frontier', cameFrom', cost' := nextFrontier, nextCameFrom, nextCost;
        stamp', clock' := stamp'[neighbor := clock'], clock' + 1;
      } else {
        ExpandSkip(g, start, current, neighbor, rest, frontier, cost, frontier', cameFrom', cost', stamp', clock');
      }
      rest := rest - {neighbor};
    }
    ExpandEnd(g, start, current, frontier, cost, frontier', cameFrom', cost', stamp', clock');
  }

  /**
   * The search and the reconstruction. When the goal was never labelled the walk
   * back fails on the missing `came_from` key, which is `None` here, and that
   * happens exactly when the goal cannot be reached. Otherwise the result is a
   * path from start to goal whose cost is exactly the sum of its edge weights.
   */
  method AStar<N(!new)>(g: Graph<N>, start: N, goal: N, heuristic: (N, N) -> int) returns (r: Option<Found<N>>)
    requires Closed(g) && NonNegative(g) && (start in g || start == goal)
    ensures r.None? <==> !Reachable(g, start, goal)
    ensures r.Some? ==> PathFrom(g, r.value.path, start, goal) && r.value.cost == PathWeight(g, r.value.path)
  {
    var cameFrom, cost;
    ghost var stamp, clock;
    cameFrom, cost, stamp, clock := Explore(g, start, goal, heuristic);
    if goal !in cameFrom {
      return None;
    }
    var path := WalkBack(g, start, goal, cameFrom, cost, stamp, clock);
    var total := PathCost(g, path);
    r := Some(Found(path, total));
  }
}
