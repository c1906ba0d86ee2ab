/**
 * `dfs` from path_finding.py: a stack of `(node, cost)`, a `came_from` map whose
 * entries `(parent, edge_cost)` are set once, when a node is first seen, a stop
 * when the goal is popped, and a walk back along `came_from` that appends each
 * node and adds up the stored edge costs.
 *
 * The costs carried on the stack are computed as the source computes them but
 * never read back, as in the source.
 */
module DFS {
  import opened Graphs
  import opened Frontier

  /** A `came_from` value `(parent, edge_cost)`. */
  datatype Link<N> = Link(parent: N, weight: int)

  /** v's link is an edge of the graph with its own weight, from a parent labelled earlier. */
  ghost predicate LinkOk<N>(g: Graph<N>, cameFrom: map<N, Option<Link<N>>>, stamp: map<N, nat>, v: N)
  {
    && v in cameFrom && v in stamp && cameFrom[v].Some?
    && var l := cameFrom[v].value;
    && l.parent in cameFrom && l.parent in stamp && IsEdge(g, l.parent, v)
    && l.weight == g[l.parent][v] && stamp[l.parent] < stamp[v]
  }

  /**
   * The shape of `came_from`: start with no link, every other node with a link
   * as above; `stamp` (ghost) records when each node was first seen.
   */
  ghost predicate Links<N>(g: Graph<N>, start: N, cameFrom: map<N, Option<Link<N>>>, stamp: map<N, nat>, clock: nat)
  {
    && cameFrom.Keys == stamp.Keys
    && start in cameFrom && cameFrom[start] == None
    && (forall v {:trigger LinkOk(g, cameFrom, stamp, v)} :: v in cameFrom && v != start ==> LinkOk(g, cameFrom, stamp, v))
    && (forall v {:trigger stamp[v]} :: v in stamp ==> stamp[v] < clock)
  }

  /** The search state between two pops. */
  ghost predicate Searching<N>(g: Graph<N>, start: N, stack: seq<Item<N>>, cameFrom: map<N, Option<Link<N>>>,
                               stamp: map<N, nat>, clock: nat)
  {
    && Links(g, start, cameFrom, stamp, clock)
    && cameFrom.Keys <= g.Keys + {start}
    && Covered(g, stack, cameFrom.Keys, {})
  }

  /** What an expansion does: nodes are only added, and when none is the stack is unchanged. */
  ghost predicate Grown<N>(stack0: seq<Item<N>>, known0: set<N>, stack: seq<Item<N>>, known: set<N>)
  {
    known0 <= known && (known0 != known || stack == stack0)
  }

  /** Every entry of `came_from` is still there, unchanged: a link is set once and never overwritten. */
  ghost predicate Kept<N>(cameFrom0: map<N, Option<Link<N>>>, cameFrom: map<N, Option<Link<N>>>)
  {
    forall x :: x in cameFrom0 ==> x in cameFrom && cameFrom[x] == cameFrom0[x]
  }

  /** The invariant of the loop over the neighbours of u; `rest` holds those not yet looked at. */
  ghost predicate ExpandLoop<N>(g: Graph<N>, start: N, u: N, rest: set<N>, stack0: seq<Item<N>>, known0: set<N>,
                                stack: seq<Item<N>>, cameFrom: map<N, Option<Link<N>>>, stamp: map<N, nat>, clock: nat)
  {
    && Closed(g) && u in g && u in cameFrom && rest <= g[u].Keys
    && Links(g, start, cameFrom, stamp, clock)
    && cameFrom.Keys <= g.Keys + {start}
    && Covered(g, stack, cameFrom.Keys, {u})
    && (forall y :: y in g[u] && y !in rest ==> y in cameFrom)
    && Grown(stack0, known0, stack, cameFrom.Keys)
  }

  /**
   * The search loop up to the `break`: pop the newest item and, unless it is the
   * goal, push every neighbour not seen before. `came_from` keeps its shape, and
   * a reachable goal always ends up in it.
   */
  method Explore<N(!new)>(g: Graph<N>, start: N, goal: N)
    returns (cameFrom: map<N, Option<Link<N>>>, ghost stamp: map<N, nat>, ghost clock: nat)
    requires Closed(g) && (start in g || start == goal)
    ensures Links(g, start, cameFrom, stamp, clock)
    ensures Reachable(g, start, goal) ==> goal in cameFrom
  {
    var stack := [Item(start, 0)];
    cameFrom, stamp, clock := map[start := None], map[start := 0], 1;
    assert stack[0].node == start;
    while stack != []
      invariant Searching(g, start, stack, cameFrom, stamp, clock)
      decreases |(g.Keys + {start}) - cameFrom.Keys|, |stack|
    {
      var k := |stack| - 1;
      var current, cost := stack[k].node, stack[k].key;
      PopLastCovered(g, stack, cameFrom.Keys);
      stack := stack[..k];
      if current == goal {
        return;
      }
      assert current in g;
      ghost var known0 := cameFrom.Keys;
      stack, cameFrom, stamp, clock := Expand(g, start, current, cost, stack, cameFrom, stamp, clock);
      if known0 != cameFrom.Keys {
        FewerLeft(g.Keys + {start}, known0, cameFrom.Keys);
      }
    }
    EmptyCovered(g, cameFrom.Keys);
    if Reachable(g, start, goal) {
      var p :| PathFrom(g, p, start, goal);
      ReachableKnown(g, cameFrom.Keys, start, p, goal);
    }
  }

  /**
   * The `for neighbor, edge_cost in graph[current].items()` loop: a neighbour not
   * yet in `came_from` is pushed with `cost + edge_cost` and linked to
   * `(current, edge_cost)`.
   */
  method Expand<N(!new)>(g: Graph<N>, start: N, current: N, cost: int,
                         stack: seq<Item<N>>, cameFrom: map<N, Option<Link<N>>>, ghost stamp: map<N, nat>, ghost clock: nat)
    returns (stack': seq<Item<N>>, cameFrom': map<N, Option<Link<N>>>, ghost stamp': map<N, nat>, ghost clock': nat)
    requires Closed(g) && current in g && current in cameFrom
    requires Links(g, start, cameFrom, stamp, clock) && cameFrom.Keys <= g.Keys + {start}
    requires Covered(g, stack, cameFrom.Keys, {current})
    ensures Searching(g, start, stack', cameFrom', stamp', clock')
    ensures Grown(stack, cameFrom.Keys, stack', cameFrom'.Keys)
    ensures Kept(cameFrom, cameFrom')
  {
    stack', cameFrom', stamp', clock' := stack, cameFrom, stamp, clock;
    var rest := g[current].Keys;
    while rest != {}
      invariant ExpandLoop(g, start, current, rest, stack, cameFrom.Keys, stack', cameFrom', stamp', clock')
      invariant Kept(cameFrom, cameFrom')
      decreases rest
    {
      var neighbor :| neighbor in rest;
      var edgeCost := g[current][neighbor];
      if neighbor !in cameFrom' {
        var nextStack, nextCameFrom := stack' + [Item(neighbor, cost + edgeCost)], cameFrom'[neighbor := Some(Link(current, edgeCost))];
        ExpandOne(g, start, current, neighbor, rest, stack, cameFrom.Keys, stack', cameFrom', stamp', clock',
                  Item(neighbor, cost + edgeCost), nextStack, nextCameFrom);
        stack', cameFrom' := nextStack, nextCameFrom;
        stamp', clock' := stamp'[neighbor := clock'], clock' + 1;
      }
      rest := rest - {neighbor};
    }
    FinishCovered(g, stack', cameFrom'.Keys, current);
  }

  /** Linking a new neighbour v to u and pushing it keeps the loop invariant. */
  lemma ExpandOne<N>(g: Graph<N>, start: N, u: N, v: N, rest: set<N>, stack0: seq<Item<N>>, known0: set<N>,
                     stack: seq<Item<N>>, cameFrom: map<N, Option<Link<N>>>, stamp: map<N, nat>, clock: nat,
                     item: Item<N>, stack': seq<Item<N>>, cameFrom': map<N, Option<Link<N>>>)
    requires ExpandLoop(g, start, u, rest, stack0, known0, stack, cameFrom, stamp, clock) && v in rest && v !in cameFrom
    requires item.node == v && stack' == stack + [item] && cameFrom' == cameFrom[v := Some(Link(u, g[u][v]))]
    ensures ExpandLoop(g, start, u, rest - {v}, stack0, known0, stack', cameFrom', stamp[v := clock], clock + 1)
  {
    var stamp' := stamp[v := clock];
    assert v in g[u] && v in g;
    forall x | x in cameFrom' && x != start ensures LinkOk(g, cameFrom', stamp', x) {
      if x != v {
        assert LinkOk(g, cameFrom, stamp, x);
      }
    }
    assert cameFrom'.Keys == cameFrom.Keys + {v};
    PushCovered(g, stack, cameFrom.Keys, {u}, item);
  }

  /**
   * The reconstruction: walk `came_from` back from the goal, appending each node
   * and adding its stored edge cost, then append start and reverse. The result
   * is a path from start to goal, and the cost is exactly its weight.
   */
  method WalkBack<N>(g: Graph<N>, start: N, goal: N, cameFrom: map<N, Option<Link<N>>>,
                     ghost stamp: map<N, nat>, ghost clock: nat)
    returns (r: Found<N>)
    requires Links(g, start, cameFrom, stamp, clock) && goal in cameFrom
    ensures PathFrom(g, r.path, start, goal)
    ensures r.cost == PathWeight(g, r.path)
  {
    var current := goal;
    var walked: seq<N> := [];
    var total := 0;
    while current != start
      invariant current in cameFrom
      invariant PathFrom(g, [current] + Reverse(walked), current, goal)
      invariant total == PathWeight(g, [current] + Reverse(walked))
      decreases stamp[current]
    {
      assert LinkOk(g, cameFrom, stamp, current);
      var link := cameFrom[current].value;
      PathPrepend(g, link.parent, [current] + Reverse(walked));
      ReverseSnoc(walked, current);
      walked := walked + [current];
      total := total + link.weight;
      current := link.parent;
    }
    ReverseSnoc(walked, start);
    walked := walked + [start];
    r := Found(Reverse(walked), total);
  }

  /**
   * The search and the reconstruction. When the goal was never seen the walk back
   * fails on the missing `came_from` key, which is `None` here, and that happens
   * exactly when the goal cannot be reached. Otherwise the result is a path from
   * start to goal whose cost is exactly the sum of its edge weights.
   */
  method Dfs<N(!new)>(g: Graph<N>, start: N, goal: N) returns (r: Option<Found<N>>)
    requires Closed(g) && (start in g || start == goal)
    ensures r.None? <==> !Reachable(g, start, goal)
    ensures r.Some? ==> PathFrom(g, r.value.path, start, goal) && r.value.cost == PathWeight(g, r.value.path)
  {
    var cameFrom;
    ghost var stamp, clock;
    cameFrom, stamp, clock := Explore(g, start, goal);
    if goal !in cameFrom {
      return None;
    }
    var found := WalkBack(g, start, goal, cameFrom, stamp, clock);
    r := Some(found);
  }
}
