/**
 * `bfs` from path_finding.py: a first-in first-out frontier of `(node, cost)`,
 * the same `came_from` / `cost_so_far` labelling as `a_star` with the new cost
 * taken from the cost stored in the item just taken, a stop when the goal is
 * taken, and the walk back along `came_from`.
 *
 * The cost returned is the goal's label. It is the weight of some path from the
 * start to the goal, and it bounds the weight of the path walked back from above:
 * a parent found later may have lowered the labels on the way without the goal
 * being relabelled.
 */
module BFS {
  import opened Graphs
  import opened Frontier
  import opened ParentTree
  import opened LabelSearch

  /** Every queued cost is at least the current label of its node. */
  ghost predicate KeysAbove<N>(frontier: seq<Item<N>>, cost: map<N, int>)
  {
    forall i :: 0 <= i < |frontier| ==> frontier[i].node in cost && frontier[i].key >= cost[frontier[i].node]
  }

  /** Queueing `(v, c)` along with the label c, first or lower, keeps the queued costs above the labels. */
  lemma KeysPush<N>(frontier: seq<Item<N>>, cost: map<N, int>, v: N, c: int, frontier': seq<Item<N>>, cost': map<N, int>)
    requires KeysAbove(frontier, cost) && (v !in cost || c < cost[v])
    requires frontier' == frontier + [Item(v, c)] && cost' == cost[v := c]
    ensures KeysAbove(frontier', cost')
  {
    forall i | 0 <= i < |frontier'| ensures frontier'[i].node in cost' && frontier'[i].key >= cost'[frontier'[i].node] {
      if i < |frontier| {
        assert frontier'[i] == frontier[i];
      }
    }
  }

  /** Taking the oldest item leaves the queued costs above the labels, its own included. */
  lemma KeysPopFirst<N>(frontier: seq<Item<N>>, cost: map<N, int>)
    requires KeysAbove(frontier, cost) && |frontier| > 0
    ensures frontier[0].node in cost && frontier[0].key >= cost[frontier[0].node]
    ensures KeysAbove(frontier[1..], cost)
  {
    forall i | 0 <= i < |frontier| - 1 ensures frontier[1..][i].node in cost && frontier[1..][i].key >= cost[frontier[1..][i].node] {
      assert frontier[1..][i] == frontier[i + 1];
    }
  }

  /** Some path from start to x weighs exactly w. */
  ghost predicate WalkOf<N(!new)>(g: Graph<N>, start: N, x: N, w: int)
  {
    exists p :: PathFrom(g, p, start, x) && PathWeight(g, p) == w
  }

  /** Every label and every queued cost is the weight of some path from start to its node. */
  ghost predicate Walks<N(!new)>(g: Graph<N>, start: N, frontier: seq<Item<N>>, cost: map<N, int>)
  {
    && (forall x {:trigger WalkOf(g, start, x, cost[x])} :: x in cost ==> WalkOf(g, start, x, cost[x]))
    && (forall i {:trigger WalkOf(g, start, frontier[i].node, frontier[i].key)} :: 0 <= i < |frontier| ==>
          WalkOf(g, start, frontier[i].node, frontier[i].key))
  }

  lemma WalksStart<N(!new)>(g: Graph<N>, start: N)
    ensures Walks(g, start, [Item(start, 0)], map[start := 0])
  {
    assert PathFrom(g, [start], start, start) && PathWeight(g, [start]) == 0;
  }

  /** A path to u of weight c followed by the edge to v is a path to v of weight c plus the edge. */
  lemma WalkExtend<N(!new)>(g: Graph<N>, start: N, u: N, c: int, v: N)
    requires WalkOf(g, start, u, c) && IsEdge(g, u, v)
    ensures WalkOf(g, start, v, c + g[u][v])
  {
    var p :| PathFrom(g, p, start, u) && PathWeight(g, p) == c;
    PathAppend(g, p, v);
    assert PathFrom(g, p + [v], start, v);
  }

  /** Queueing and labelling v with the cost of a step from u keeps every cost a path weight. */
  lemma WalksPush<N(!new)>(g: Graph<N>, start: N, frontier: seq<Item<N>>, cost: map<N, int>, u: N, base: int, v: N,
                           frontier': seq<Item<N>>, cost': map<N, int>)
    requires Walks(g, start, frontier, cost) && WalkOf(g, start, u, base) && IsEdge(g, u, v)
    requires frontier' == frontier + [Item(v, base + g[u][v])] && cost' == cost[v := base + g[u][v]]
    ensures Walks(g, start, frontier', cost')
  {
    WalkExtend(g, start, u, base, v);
    forall i | 0 <= i < |frontier'| ensures WalkOf(g, start, frontier'[i].node, frontier'[i].key) {
      if i < |frontier| {
        assert frontier'[i] == frontier[i];
      }
    }
  }

  /** Taking the oldest item: its cost is a path weight, and so are the rest. */
  lemma WalksPopFirst<N(!new)>(g: Graph<N>, start: N, frontier: seq<Item<N>>, cost: map<N, int>)
    requires Walks(g, start, frontier, cost) && |frontier| > 0
    ensures WalkOf(g, start, frontier[0].node, frontier[0].key)
    ensures Walks(g, start, frontier[1..], cost)
  {
    forall i | 0 <= i < |frontier| - 1 ensures WalkOf(g, start, frontier[1..][i].node, frontier[1..][i].key) {
      assert frontier[1..][i] == frontier[i + 1];
    }
  }

  /** The invariant of the neighbour loop: the shared one, the queued costs, and u's cost from its item. */
  ghost predicate BfsLoop<N(!new)>(g: Graph<N>, start: N, u: N, base: int, rest: set<N>, frontier0: seq<Item<N>>, cost0: map<N, int>,
                             frontier: seq<Item<N>>, cameFrom: map<N, Option<N>>, cost: map<N, int>, stamp: map<N, nat>, clock: nat)
  {
    && ExpandLoop(g, start, u, rest, frontier0, cost0, frontier, cameFrom, cost, stamp, clock)
    && KeysAbove(frontier, cost)
    && base >= cost[u]
    && WalkOf(g, start, u, base)
    && Walks(g, start, frontier, cost)
  }

  /**
   * The search loop up to the `break`: take the oldest item and, unless it is the
   * goal, expand it with the cost it was queued with. The maps keep the
   * parent-tree shape, every label is the weight of some path to its node,
   * and a reachable goal always ends up labelled.
   */
  method Explore<N(!new)>(g: Graph<N>, start: N, goal: N)
    returns (cameFrom: map<N, Option<N>>, cost: map<N, int>, ghost stamp: map<N, nat>, ghost clock: nat)
    requires Closed(g) && NonNegative(g) && (start in g || start == goal)
    ensures Tree(g, start, cameFrom, cost, stamp, clock)
    ensures Reachable(g, start, goal) ==> goal in cameFrom
    ensures forall x :: x in cost ==> WalkOf(g, start, x, cost[x])
  {
    var frontier := [Item(start, 0)];
    cameFrom, cost, stamp, clock := map[start := None], map[start := 0], map[start := 0], 1;
    TreeStart(g, start);
    WalksStart(g, start);
    assert frontier[0].node == start;
    while frontier != []
      invariant Searching(g, start, frontier, cameFrom, cost, stamp, clock) && KeysAbove(frontier, cost)
      invariant Walks(g, start, frontier, cost)
      decreases |(g.Keys + {start}) - cost.Keys|, Total(cost), |frontier|
    {
      SumNonNegative(cost, cost.Keys);
      var current, currentCost := frontier[0].node, frontier[0].key;
      PopFirstCovered(g, frontier, cost.Keys);
      KeysPopFirst(frontier, cost);
      WalksPopFirst(g, start, frontier, cost);
      frontier := frontier[1..];
      if current == goal {
        return;
      }
      assert current in g;
      ghost var cost0 := cost;
      frontier, cameFrom, cost, stamp, clock := Expand(g, start, current, currentCost, frontier, cameFrom, cost, stamp, clock);
      if Improved(cost0, cost) {
        MeasureFalls(g.Keys + {start}, cost0, cost);
      }
    }
    EmptyCovered(g, cost.Keys);
    if Reachable(g, start, goal) {
      var p :| PathFrom(g, p, start, goal);
      ReachableKnown(g, cost.Keys, start, p, goal);
    }
  }

  /**
   * The `for neighbor in graph[current]` loop: with `new_cost = current_cost +
   * weight`, a neighbour not yet in `came_from`, or one whose label is higher,
   * gets the new cost, `current` as its parent, and a frontier item.
   */
  method Expand<N(!new)>(g: Graph<N>, start: N, current: N, currentCost: int,
                         frontier: seq<Item<N>>, cameFrom: map<N, Option<N>>, cost: map<N, int>,
                         ghost stamp: map<N, nat>, ghost clock: nat)
    returns (frontier': seq<Item<N>>, cameFrom': map<N, Option<N>>, cost': map<N, int>,
             ghost stamp': map<N, nat>, ghost clock': nat)
    requires Closed(g) && NonNegative(g) && current in g && current in cost && currentCost >= cost[current]
    requires Tree(g, start, cameFrom, cost, stamp, clock) && cost.Keys <= g.Keys + {start}
    requires Covered(g, frontier, cost.Keys, {current}) && KeysAbove(frontier, cost)
    requires WalkOf(g, start, current, currentCost) && Walks(g, start, frontier, cost)
    ensures Searching(g, start, frontier', cameFrom', cost', stamp', clock') && KeysAbove(frontier', cost')
    ensures Walks(g, start, frontier', cost')
    ensures Grown(frontier, cost, frontier', cost')
  {
    frontier', cameFrom', cost', stamp', clock' := frontier, cameFrom, cost, stamp, clock;
    var rest := g[current].Keys;
    BfsStart(g, start, current, currentCost, frontier, cameFrom, cost, stamp, clock);
    while rest != {}
      invariant BfsLoop(g, start, current, currentCost, rest, frontier, cost, frontier', cameFrom', cost', stamp', clock')
      decreases rest
    {
      var neighbor :| neighbor in rest;
      var newCost := currentCost + g[current][neighbor];
      if neighbor !in cameFrom' || newCost < cost'[neighbor] {
        var nextFrontier, nextCameFrom, nextCost := frontier' + [Item(neighbor, newCost)], cameFrom'[neighbor := Some(current)], cost'[neighbor := newCost];
        BfsOne(g, start, current, currentCost, neighbor, rest, frontier, cost, frontier', cameFrom', cost', stamp', clock',
               newCost, nextFrontier, nextCameFrom, nextCost);
        frontier', cameFrom', cost' := nextFrontier, nextCameFrom, nextCost;
        stamp', clock' := stamp'[neighbor := clock'], clock' + 1;
      } else {
        BfsSkip(g, start, current, currentCost, neighbor, rest, frontier, cost, frontier', cameFrom', cost', stamp', clock');
      }
      rest := rest - {neighbor};
    }
    BfsEnd(g, start, current, currentCost, frontier, cost, frontier', cameFrom', cost', stamp', clock');
  }

  /** Before the neighbour loop its invariant holds with every neighbour still to see. */
  lemma BfsStart<N(!new)>(g: Graph<N>, start: N, u: N, base: int, frontier: seq<Item<N>>, cameFrom: map<N, Option<N>>, cost: map<N, int>,
                          stamp: map<N, nat>, clock: nat)
    requires Closed(g) && NonNegative(g) && u in g && u in cost && base >= cost[u]
    requires Tree(g, start, cameFrom, cost, stamp, clock) && cost.Keys <= g.Keys + {start}
    requires Covered(g, frontier, cost.Keys, {u}) && KeysAbove(frontier, cost)
    requires WalkOf(g, start, u, base) && Walks(g, start, frontier, cost)
    ensures BfsLoop(g, start, u, base, g[u].Keys, frontier, cost, frontier, cameFrom, cost, stamp, clock)
  {
    ExpandStart(g, start, u, frontier, cameFrom, cost, stamp, clock);
  }

  /** A neighbour that is already labelled no higher is passed over, and the invariant stays. */
  lemma BfsSkip<N(!new)>(g: Graph<N>, start: N, u: N, base: int, v: N, rest: set<N>, frontier0: seq<Item<N>>, cost0: map<N, int>,
                         frontier: seq<Item<N>>, cameFrom: map<N, Option<N>>, cost: map<N, int>, stamp: map<N, nat>, clock: nat)
    requires BfsLoop(g, start, u, base, rest, frontier0, cost0, frontier, cameFrom, cost, stamp, clock) && v in rest && v in cost
    ensures BfsLoop(g, start, u, base, rest - {v}, frontier0, cost0, frontier, cameFrom, cost, stamp, clock)
  {
    ExpandSkip(g, start, u, v, rest, frontier0, cost0, frontier, cameFrom, cost, stamp, clock);
  }

  /** With every neighbour seen, the neighbour loop leaves the state the search loop expects. */
  lemma BfsEnd<N(!new)>(g: Graph<N>, start: N, u: N, base: int, frontier0: seq<Item<N>>, cost0: map<N, int>,
                        frontier: seq<Item<N>>, cameFrom: map<N, Option<N>>, cost: map<N, int>, stamp: map<N, nat>, clock: nat)
    requires BfsLoop(g, start, u, base, {}, frontier0, cost0, frontier, cameFrom, cost, stamp, clock)
    ensures Searching(g, start, frontier, cameFrom, cost, stamp, clock) && KeysAbove(frontier, cost)
    ensures Walks(g, start, frontier, cost)
    ensures Grown(frontier0, cost0, frontier, cost)
  {
    ExpandEnd(g, start, u, frontier0, cost0, frontier, cameFrom, cost, stamp, clock);
  }

  /** One improving step of the neighbour loop keeps its invariant. */
  lemma BfsOne<N(!new)>(g: Graph<N>, start: N, u: N, base: int, v: N, rest: set<N>, frontier0: seq<Item<N>>, cost0: map<N, int>,
                  frontier: seq<Item<N>>, cameFrom: map<N, Option<N>>, cost: map<N, int>, stamp: map<N, nat>, clock: nat,
                  c: int, frontier': seq<Item<N>>, cameFrom': map<N, Option<N>>, cost': map<N, int>)
    requires BfsLoop(g, start, u, base, rest, frontier0, cost0, frontier, cameFrom, cost, stamp, clock) && v in rest
    requires c == base + g[u][v] && (v !in cameFrom || c < cost[v])
    requires frontier' == frontier + [Item(v, c)]
    requires cameFrom' == cameFrom[v := Some(u)] && cost' == cost[v := c]
    ensures BfsLoop(g, start, u, base, rest - {v}, frontier0, cost0, frontier', cameFrom', cost', stamp[v := clock], clock + 1)
  {
    ExpandOne(g, start, u, v, rest, frontier0, cost0, frontier, cameFrom, cost, stamp, clock, c, Item(v, c), frontier', cameFrom', cost');
    KeysPush(frontier, cost, v, c, frontier', cost');
    WalksPush(g, start, frontier, cost, u, base, v, frontier', cost');
  }

  /**
   * The search and the reconstruction. The cost is absent exactly when the goal
   * cannot be reached, and then the path is empty; otherwise the path leads from
   * start to the goal and weighs no more than the cost returned, which is itself
   * the weight of some path from start to the goal.
   */
  method Bfs<N(!new)>(g: Graph<N>, start: N, goal: N) returns (path: seq<N>, cost: Option<int>)
    requires Closed(g) && NonNegative(g) && (start in g || start == goal)
    ensures cost.None? <==> !Reachable(g, start, goal)
    ensures cost.None? ==> path == []
    ensures cost.Some? ==> PathFrom(g, path, start, goal) && PathWeight(g, path) <= cost.value
    ensures cost.Some? ==> exists w :: PathFrom(g, w, start, goal) && PathWeight(g, w) == cost.value
  {
    var cameFrom, costSoFar;
    ghost var stamp, clock;
    cameFrom, costSoFar, stamp, clock := Explore(g, start, goal);
    if goal !in cameFrom {
      return [], None;
    }
    path := WalkBack(g, start, goal, cameFrom, costSoFar, stamp, clock);
    cost := Some(costSoFar[goal]);
    assert WalkOf(g, start, goal, costSoFar[goal]);
  }
}
