/**
 * The labelling search shared by `a_star` and `bfs`: a frontier of items, the
 * `came_from` / `cost_so_far` maps, and the loop over the neighbours of the node
 * just taken, which gives a neighbour a label when it has none or when the new
 * cost is lower. The predicates are the loop invariants; the lemmas carry them
 * across one step.
 */
module LabelSearch {
  import opened Graphs
  import opened Frontier
  import opened ParentTree

  /** The search state between two takes from the frontier. */
  ghost predicate Searching<N>(g: Graph<N>, start: N, frontier: seq<Item<N>>, cameFrom: map<N, Option<N>>,
                               cost: map<N, int>, stamp: map<N, nat>, clock: nat)
  {
    && Tree(g, start, cameFrom, cost, stamp, clock)
    && cost.Keys <= g.Keys + {start}
    && Covered(g, frontier, cost.Keys, {})
  }

  /**
   * What an expansion does to the labels: none is raised, and either some label
   * is new or lower or nothing changed at all.
   */
  ghost predicate Grown<N>(frontier0: seq<Item<N>>, cost0: map<N, int>, frontier: seq<Item<N>>, cost: map<N, int>)
  {
    NoneRaised(cost0, cost) && (Improved(cost0, cost) || (frontier == frontier0 && cost == cost0))
  }

  /** The invariant of the loop over the neighbours of u; `rest` holds those not yet looked at. */
  ghost predicate ExpandLoop<N>(g: Graph<N>, start: N, u: N, rest: set<N>, frontier0: seq<Item<N>>, cost0: map<N, int>,
                                frontier: seq<Item<N>>, cameFrom: map<N, Option<N>>, cost: map<N, int>, stamp: map<N, nat>, clock: nat)
  {
    && Closed(g) && NonNegative(g) && u in g && u in cost && rest <= g[u].Keys
    && Tree(g, start, cameFrom, cost, stamp, clock)
    && cost.Keys <= g.Keys + {start}
    && Covered(g, frontier, cost.Keys, {u})
    && (forall y :: y in g[u] && y !in rest ==> y in cost)
    && Grown(frontier0, cost0, frontier, cost)
  }

  lemma ExpandStart<N>(g: Graph<N>, start: N, u: N, frontier: seq<Item<N>>, cameFrom: map<N, Option<N>>, cost: map<N, int>,
                       stamp: map<N, nat>, clock: nat)
    requires Closed(g) && NonNegative(g) && u in g && u in cost
    requires Tree(g, start, cameFrom, cost, stamp, clock) && cost.Keys <= g.Keys + {start}
    requires Covered(g, frontier, cost.Keys, {u})
    ensures ExpandLoop(g, start, u, g[u].Keys, frontier, cost, frontier, cameFrom, cost, stamp, clock)
  {
  }

  lemma ExpandEnd<N>(g: Graph<N>, start: N, u: N, frontier0: seq<Item<N>>, cost0: map<N, int>,
                     frontier: seq<Item<N>>, cameFrom: map<N, Option<N>>, cost: map<N, int>, stamp: map<N, nat>, clock: nat)
    requires ExpandLoop(g, start, u, {}, frontier0, cost0, frontier, cameFrom, cost, stamp, clock)
    ensures Searching(g, start, frontier, cameFrom, cost, stamp, clock)
    ensures Grown(frontier0, cost0, frontier, cost)
  {
    FinishCovered(g, frontier, cost.Keys, u);
  }

  /**
   * One improving step of the neighbour loop keeps its invariant: v gets the label
   * c, no smaller than u's label plus the weight and smaller than v's old label,
   * u as its parent, and a frontier item.
   */
  lemma ExpandOne<N>(g: Graph<N>, start: N, u: N, v: N, rest: set<N>, frontier0: seq<Item<N>>, cost0: map<N, int>,
                     frontier: seq<Item<N>>, cameFrom: map<N, Option<N>>, cost: map<N, int>, stamp: map<N, nat>, clock: nat,
                     c: int, item: Item<N>, frontier': seq<Item<N>>, cameFrom': map<N, Option<N>>, cost': map<N, int>)
    requires ExpandLoop(g, start, u, rest, frontier0, cost0, frontier, cameFrom, cost, stamp, clock) && v in rest
    requires c >= cost[u] + g[u][v] && (v !in cost || c < cost[v])
    requires item.node == v && frontier' == frontier + [item]
    requires cameFrom' == cameFrom[v := Some(u)] && cost' == cost[v := c]
    ensures ExpandLoop(g, start, u, rest - {v}, frontier0, cost0, frontier', cameFrom', cost', stamp[v := clock], clock + 1)
  {
    assert v in g[u] && v in g;
    Relabel(g, start, cameFrom, cost, stamp, clock, u, v, c);
    PushLabel(g, u, frontier, cost, v, c, item, frontier', cost');
    GrownPush(frontier0, cost0, frontier, cost, v, c, frontier', cost');
  }

  /** A neighbour that already has a label no larger than the new cost is passed over. */
  lemma ExpandSkip<N>(g: Graph<N>, start: N, u: N, v: N, rest: set<N>, frontier0: seq<Item<N>>, cost0: map<N, int>,
                      frontier: seq<Item<N>>, cameFrom: map<N, Option<N>>, cost: map<N, int>, stamp: map<N, nat>, clock: nat)
    requires ExpandLoop(g, start, u, rest, frontier0, cost0, frontier, cameFrom, cost, stamp, clock) && v in rest && v in cost
    ensures ExpandLoop(g, start, u, rest - {v}, frontier0, cost0, frontier, cameFrom, cost, stamp, clock)
  {
  }

  /** Labelling v and queueing it keeps the coverage of the neighbour loop. */
  lemma PushLabel<N>(g: Graph<N>, u: N, frontier: seq<Item<N>>, cost: map<N, int>, v: N, c: int,
                     item: Item<N>, frontier': seq<Item<N>>, cost': map<N, int>)
    requires Covered(g, frontier, cost.Keys, {u})
    requires item.node == v && frontier' == frontier + [item] && cost' == cost[v := c]
    ensures Covered(g, frontier', cost'.Keys, {u}) && cost'.Keys == cost.Keys + {v}
  {
    assert cost'.Keys == cost.Keys + {v};
    PushCovered(g, frontier, cost.Keys, {u}, item);
  }

  /** A first or lower label for v keeps no label raised and makes some label new or lower. */
  lemma GrownPush<N>(frontier0: seq<Item<N>>, cost0: map<N, int>, frontier: seq<Item<N>>, cost: map<N, int>,
                     v: N, c: int, frontier': seq<Item<N>>, cost': map<N, int>)
    requires Grown(frontier0, cost0, frontier, cost) && (v !in cost || c < cost[v]) && cost' == cost[v := c]
    ensures Grown(frontier0, cost0, frontier', cost') && Improved(cost0, cost')
  {
    assert v in cost' && (v !in cost0 || cost'[v] < cost0[v]);
  }
}
