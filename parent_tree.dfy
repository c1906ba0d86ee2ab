/**
 * The `came_from` / `cost_so_far` pair that `a_star` and `bfs` keep, and the
 * walk back along `came_from` from the goal that both end with.
 *
 * A node gets a new parent whenever it gets a new, smaller label, so the parent
 * pointers can change many times. What keeps the walk back finite is that a
 * parent's label plus the edge weight never exceeds its child's, and when they
 * are equal the parent's label was set earlier; `stamp` (ghost) records when
 * each label was last set.
 */
module ParentTree {
  import opened Graphs

  /** Node v's parent pointer is an edge that leads to v no more expensively than v's own label. */
  ghost predicate ParentOk<N>(g: Graph<N>, cameFrom: map<N, Option<N>>, cost: map<N, int>, stamp: map<N, nat>, v: N)
  {
    && v in cameFrom && v in cost && v in stamp && cameFrom[v].Some?
    && var u := cameFrom[v].value;
    && u in cost && u in stamp && IsEdge(g, u, v)
    && cost[u] + g[u][v] <= cost[v]
    && (cost[u] + g[u][v] == cost[v] ==> stamp[u] < stamp[v])
  }

  /**
   * The shape of the two maps during the search: the same keys, start labelled 0
   * with no parent, every label non-negative, every other node's parent as above,
   * and every stamp earlier than `clock`.
   */
  ghost predicate Tree<N>(g: Graph<N>, start: N, cameFrom: map<N, Option<N>>, cost: map<N, int>, stamp: map<N, nat>, clock: nat)
  {
    && cameFrom.Keys == cost.Keys && cost.Keys == stamp.Keys
    && start in cameFrom && cameFrom[start] == None && cost[start] == 0
    && (forall v {:trigger cost[v]} :: v in cost ==> cost[v] >= 0)
    && (forall v {:trigger ParentOk(g, cameFrom, cost, stamp, v)} :: v in cameFrom && v != start ==> ParentOk(g, cameFrom, cost, stamp, v))
    && (forall v {:trigger stamp[v]} :: v in stamp ==> stamp[v] < clock)
  }

  /** The maps as the search starts: `came_from = {start: None}`, `cost_so_far = {start: 0}`. */
  lemma TreeStart<N>(g: Graph<N>, start: N)
    ensures Tree(g, start, map[start := None], map[start := 0], map[start := 0], 1)
  {
  }

  /**
   * Relabelling v through the edge u -> v with a label c no smaller than u's label
   * plus the weight: v is neither start nor u, and the shape is kept. The children
   * of v see their parent's label drop, so their equalities become strict.
   */
  lemma Relabel<N>(g: Graph<N>, start: N, cameFrom: map<N, Option<N>>, cost: map<N, int>, stamp: map<N, nat>, clock: nat,
                   u: N, v: N, c: int)
    requires NonNegative(g) && Tree(g, start, cameFrom, cost, stamp, clock)
    requires u in cost && IsEdge(g, u, v) && c >= cost[u] + g[u][v]
    requires v !in cost || c < cost[v]
    ensures v != start && v != u
    ensures Tree(g, start, cameFrom[v := Some(u)], cost[v := c], stamp[v := clock], clock + 1)
  {
    var cameFrom', cost', stamp' := cameFrom[v := Some(u)], cost[v := c], stamp[v := clock];
    forall x | x in cameFrom' && x != start ensures ParentOk(g, cameFrom', cost', stamp', x) {
      if x != v {
        assert ParentOk(g, cameFrom, cost, stamp, x);
        var p := cameFrom[x].value;
        if p == v {
          assert IsEdge(g, v, x);
          assert g[v][x] >= 0;
        }
      }
    }
  }

  /**
   * The source's reconstruction: walk `came_from` back from the goal to start,
   * appending each node, then append start and reverse. The result is a path from
   * start to goal whose weight is at most the goal's label.
   */
  method WalkBack<N>(g: Graph<N>, start: N, goal: N, cameFrom: map<N, Option<N>>,
                     ghost cost: map<N, int>, ghost stamp: map<N, nat>, ghost clock: nat)
    returns (path: seq<N>)
    requires NonNegative(g) && Tree(g, start, cameFrom, cost, stamp, clock) && goal in cameFrom
    ensures PathFrom(g, path, start, goal)
    ensures PathWeight(g, path) <= cost[goal]
  {
    var current := goal;
    var walked: seq<N> := [];
    while current != start
      invariant current in cameFrom
      invariant PathFrom(g, [current] + Reverse(walked), current, goal)
      invariant PathWeight(g, [current] + Reverse(walked)) + cost[current] <= cost[goal]
      decreases cost[current], stamp[current]
    {
      assert ParentOk(g, cameFrom, cost, stamp, current);
      var parent := cameFrom[current].value;
      PathPrepend(g, parent, [current] + Reverse(walked));
      ReverseSnoc(walked, current);
      walked := walked + [current];
      current := parent;
    }
    ReverseSnoc(walked, start);
    walked := walked + [start];
    path := Reverse(walked);
  }
}
