/**
 * `djikstra` from path_finding.py: a heap of `(distance, node, prefix)` entries,
 * lazy deletion of stale entries, and a stop as soon as the goal is popped.
 *
 * The heap is a sequence from which some entry of least distance is taken
 * (heapq's tie-break on the node and prefix is not modelled). Distances are
 * extended integers; a node of the graph starts at `Inf`.
 */
module Dijkstra {
  import opened Graphs

  /** One heap entry: the distance, the node, and the path that led to it (without the node). */
  datatype Entry<N> = Entry(d: int, node: N, prefix: seq<N>)

  /** The entry's path `prefix + [node]` runs from start to the node and weighs exactly `d`. */
  ghost predicate EntryOk<N>(g: Graph<N>, start: N, e: Entry<N>)
  {
    PathFrom(g, e.prefix + [e.node], start, e.node) && e.d == PathWeight(g, e.prefix + [e.node])
  }

  /** The heap holds an entry for y at distance v. */
  ghost predicate Pending<N>(pq: seq<Entry<N>>, y: N, v: int)
  {
    exists i :: 0 <= i < |pq| && pq[i].node == y && pq[i].d == v
  }

  /** Nodes still at `Inf`. */
  ghost function Unlabelled<N>(dist: map<N, Ext>): set<N>
  {
    set x | x in dist && dist[x].Inf?
  }

  /** The finite distances. */
  ghost function Labels<N>(dist: map<N, Ext>): map<N, int>
  {
    map x | x in dist && dist[x].Fin? :: dist[x].v
  }

  /**
   * The loop invariant. `settled` (ghost) holds the nodes popped with their current
   * distance and expanded: their distance is final and their out-edges relaxed.
   * Every other node with a finite distance still has a heap entry at that distance.
   */
  ghost predicate Inv<N(!new)>(g: Graph<N>, start: N, dist: map<N, Ext>, pq: seq<Entry<N>>, settled: set<N>)
  {
    && Expanded(g, start, dist, pq, settled)
    && forall x :: x in settled ==> RelaxedOutside(g, dist, x, {})
  }

  /** Every edge x -> y with y outside `rest` is relaxed: dist[y] <= dist[x] + w. */
  ghost predicate RelaxedOutside<N>(g: Graph<N>, dist: map<N, Ext>, x: N, rest: set<N>)
  {
    && x in g && x in dist
    && forall y :: y in g[x] && y !in rest ==> y in dist && Le(dist[y], Add(dist[x], Fin(g[x][y])))
  }

  /** Lowering distances other than x's keeps x's edges relaxed. */
  lemma RelaxedMonotone<N>(g: Graph<N>, dist: map<N, Ext>, dist': map<N, Ext>, x: N, rest: set<N>)
    requires RelaxedOutside(g, dist, x, rest)
    requires dist'.Keys == dist.Keys && dist'[x] == dist[x]
    requires forall y :: y in dist ==> Le(dist'[y], dist[y])
    ensures RelaxedOutside(g, dist', x, rest)
  {
  }

  /** All of the invariant except the relaxation of the settled nodes' edges. */
  ghost predicate Expanded<N(!new)>(g: Graph<N>, start: N, dist: map<N, Ext>, pq: seq<Entry<N>>, settled: set<N>)
  {
    && dist.Keys == g.Keys + {start}
    && dist[start] == Fin(0)
    && (forall x :: x in dist && dist[x].Fin? ==> dist[x].v >= 0)
    && (forall e :: e in pq ==> EntryOk(g, start, e) && e.node in dist && Le(dist[e.node], Fin(e.d)))
    && SettledFinal(g, start, dist, settled)
    && (forall y :: y in dist && dist[y].Fin? && y !in settled ==> Pending(pq, y, dist[y].v))
  }

  /** Settled nodes are nodes of the graph whose distance no path beats. */
  ghost predicate SettledFinal<N(!new)>(g: Graph<N>, start: N, dist: map<N, Ext>, settled: set<N>)
  {
    forall x :: x in settled ==> x in g && x in dist && dist[x].Fin? && NoShorterPath(g, start, x, dist[x].v)
  }

  /**
   * The search. A result is a path from start to goal whose cost is its weight and
   * which no path beats; `None` exactly when the goal cannot be reached.
   */
  method Djikstra<N(!new)>(g: Graph<N>, start: N, goal: N) returns (r: Option<Found<N>>)
    requires Closed(g) && NonNegative(g) && (start in g || start == goal)
    ensures r.Some? ==> PathFrom(g, r.value.path, start, goal) && r.value.cost == PathWeight(g, r.value.path)
    ensures r.Some? ==> NoShorterPath(g, start, goal, r.value.cost)
    ensures r.None? <==> !Reachable(g, start, goal)
  {
    var dist: map<N, Ext> := map x | x in g :: Inf;
    dist := dist[start := Fin(0)];
    var pq := [Entry(0, start, [])];
    ghost var settled: set<N> := {};
    SearchStart(g, start, dist);
    while pq != []
      invariant Inv(g, start, dist, pq, settled) && goal !in settled
      decreases |Unlabelled(dist)|, Total(Labels(dist)), |pq|
    {
      LabelsNonNegative(dist);
      var k := ArgMin(pq, (e: Entry<N>) => e.d);
      var e := pq[k];
      Taken(g, start, dist, pq, settled, k);
      ghost var before := pq;
      pq := RemoveAt(pq, k);
      if Less(dist[e.node], Fin(e.d)) {
        StaleDropped(g, start, dist, before, settled, k);
        continue;
      }
      SettleOptimal(g, start, dist, before, settled, k);
      if e.node == goal {
        Arrived(g, start, goal, e);
        return Some(Found(e.prefix + [e.node], e.d));
      }
      Popped(g, start, dist, before, settled, k);
      settled := settled + {e.node};
      ghost var dist0, pq0 := dist, pq;
      dist, pq := RelaxNeighbours(g, start, e, dist, pq, settled);
      assert |pq| == |pq0| ==> dist == dist0;
    }
    Exhausted(g, start, dist, settled);
    return None;
  }

  /** The state before the first pop: start at 0, every other node at `Inf`, one entry for start. */
  lemma SearchStart<N(!new)>(g: Graph<N>, start: N, dist: map<N, Ext>)
    requires dist == (map x | x in g :: Inf)[start := Fin(0)]
    ensures Inv(g, start, dist, [Entry(0, start, [])], {})
  {
    var pq := [Entry(0, start, [])];
    assert EntryOk(g, start, pq[0]);
    assert Pending(pq, start, 0);
  }

  /** The entry taken from the heap is well formed and names a node with a distance. */
  lemma Taken<N(!new)>(g: Graph<N>, start: N, dist: map<N, Ext>, pq: seq<Entry<N>>, settled: set<N>, k: nat)
    requires Inv(g, start, dist, pq, settled) && k < |pq|
    ensures EntryOk(g, start, pq[k]) && pq[k].node in dist
  {
    assert pq[k] in pq;
  }

  /** An entry for the goal whose distance no path beats is the answer, and the goal is reachable. */
  lemma Arrived<N(!new)>(g: Graph<N>, start: N, goal: N, e: Entry<N>)
    requires EntryOk(g, start, e) && e.node == goal
    ensures PathFrom(g, e.prefix + [e.node], start, goal) && e.d == PathWeight(g, e.prefix + [e.node])
    ensures Reachable(g, start, goal)
  {
  }

  /**
   * The `for neighbor, weight in graph[curr_node].items()` loop: every neighbour
   * reached more cheaply through the popped node gets the smaller distance and a
   * new heap entry. Distances only decrease, the heap only grows, and any push
   * lowers the termination measure.
   */
  method RelaxNeighbours<N(!new)>(g: Graph<N>, start: N, e: Entry<N>, dist: map<N, Ext>, pq: seq<Entry<N>>, ghost settled: set<N>)
    returns (dist': map<N, Ext>, pq': seq<Entry<N>>)
    requires Closed(g) && NonNegative(g)
    requires Expanded(g, start, dist, pq, settled)
    requires e.node in settled && EntryOk(g, start, e) && dist[e.node] == Fin(e.d)
    requires forall x :: x in settled && x != e.node ==> RelaxedOutside(g, dist, x, {})
    ensures Inv(g, start, dist', pq', settled)
    ensures Lowered(dist, pq, dist', pq')
  {
    var u := e.node;
    dist', pq' := dist, pq;
    var rest := g[u].Keys;
    RelaxStart(g, start, e, dist, pq, settled);
    while rest != {}
      invariant rest <= g[u].Keys
      invariant RelaxLoop(g, start, e, settled, rest, dist, pq, dist', pq')
      decreases rest
    {
      var v :| v in rest;
      var distance := e.d + g[u][v];
      if Less(Fin(distance), dist'[v]) {
        var nextDist, nextPq := dist'[v := Fin(distance)], pq' + [Entry(distance, v, e.prefix + [u])];
        RelaxOne(g, start, e, v, dist', pq', settled, rest, dist, pq, nextDist, nextPq);
        dist', pq' := nextDist, nextPq;
      } else {
        RelaxSkip(g, start, e, v, dist', pq', settled, rest, dist, pq);
      }
      rest := rest - {v};
    }
    RelaxEnd(g, start, e, settled, dist, pq, dist', pq');
  }

  /** The invariant of the loop over the popped node's neighbours; `rest` holds those not yet looked at. */
  ghost predicate RelaxLoop<N(!new)>(g: Graph<N>, start: N, e: Entry<N>, settled: set<N>, rest: set<N>,
                                     dist0: map<N, Ext>, pq0: seq<Entry<N>>, dist: map<N, Ext>, pq: seq<Entry<N>>)
  {
    && Closed(g) && NonNegative(g) && e.node in g && rest <= g[e.node].Keys
    && Expanded(g, start, dist, pq, settled) && EntryOk(g, start, e) && e.node in dist && dist[e.node] == Fin(e.d)
    && RelaxedAll(g, dist, settled, e.node, rest) && Lowered(dist0, pq0, dist, pq)
  }

  lemma RelaxStart<N(!new)>(g: Graph<N>, start: N, e: Entry<N>, dist: map<N, Ext>, pq: seq<Entry<N>>, settled: set<N>)
    requires Closed(g) && NonNegative(g)
    requires Expanded(g, start, dist, pq, settled)
    requires e.node in settled && EntryOk(g, start, e) && dist[e.node] == Fin(e.d)
    requires forall x :: x in settled && x != e.node ==> RelaxedOutside(g, dist, x, {})
    ensures RelaxLoop(g, start, e, settled, g[e.node].Keys, dist, pq, dist, pq)
  {
    assert SettledFinal(g, start, dist, settled);
    assert RelaxedAll(g, dist, settled, e.node, g[e.node].Keys);
  }

  lemma RelaxSkip<N(!new)>(g: Graph<N>, start: N, e: Entry<N>, v: N, dist: map<N, Ext>, pq: seq<Entry<N>>, settled: set<N>,
                           rest: set<N>, dist0: map<N, Ext>, pq0: seq<Entry<N>>)
    requires RelaxLoop(g, start, e, settled, rest, dist0, pq0, dist, pq) && v in rest
    requires !Less(Fin(e.d + g[e.node][v]), dist[v])
    ensures RelaxLoop(g, start, e, settled, rest - {v}, dist0, pq0, dist, pq)
  {
  }

  lemma RelaxEnd<N(!new)>(g: Graph<N>, start: N, e: Entry<N>, settled: set<N>,
                          dist0: map<N, Ext>, pq0: seq<Entry<N>>, dist: map<N, Ext>, pq: seq<Entry<N>>)
    requires RelaxLoop(g, start, e, settled, {}, dist0, pq0, dist, pq)
    ensures Inv(g, start, dist, pq, settled) && Lowered(dist0, pq0, dist, pq)
  {
    assert forall x :: x in settled ==> RelaxedOutside(g, dist, x, if x == e.node then {} else {});
  }

  /** The edges of the settled nodes are relaxed, except those of u into `rest`. */
  ghost predicate RelaxedAll<N>(g: Graph<N>, dist: map<N, Ext>, settled: set<N>, u: N, rest: set<N>)
  {
    forall x :: x in settled ==> RelaxedOutside(g, dist, x, if x == u then rest else {})
  }

  /** The relaxation loop so far: same keys, no distance raised, the heap only extended, any push lowers the measure. */
  ghost predicate Lowered<N>(dist0: map<N, Ext>, pq0: seq<Entry<N>>, dist: map<N, Ext>, pq: seq<Entry<N>>)
  {
    && dist.Keys == dist0.Keys && (forall x :: x in dist0 ==> Le(dist[x], dist0[x]))
    && |pq| >= |pq0| && pq[..|pq0|] == pq0
    && (|pq| == |pq0| ==> dist == dist0)
    && (|pq| > |pq0| ==> LexLess(|Unlabelled(dist)|, Total(Labels(dist)), |Unlabelled(dist0)|, Total(Labels(dist0))))
  }

  /** One improving relaxation u -> v keeps every loop invariant of RelaxNeighbours. */
  lemma RelaxOne<N(!new)>(g: Graph<N>, start: N, e: Entry<N>, v: N, dist: map<N, Ext>, pq: seq<Entry<N>>, settled: set<N>,
                          rest: set<N>, dist0: map<N, Ext>, pq0: seq<Entry<N>>, dist': map<N, Ext>, pq': seq<Entry<N>>)
    requires RelaxLoop(g, start, e, settled, rest, dist0, pq0, dist, pq) && v in rest
    requires Less(Fin(e.d + g[e.node][v]), dist[v])
    requires dist' == dist[v := Fin(e.d + g[e.node][v])] && pq' == pq + [Entry(e.d + g[e.node][v], v, e.prefix + [e.node])]
    ensures RelaxLoop(g, start, e, settled, rest - {v}, dist0, pq0, dist', pq')
  {
    var u, d := e.node, e.d + g[e.node][v];
    assert v in dist;
    NewEntry(g, start, e, v, dist, settled);
    assert v !in settled;
    PushKeeps(g, start, dist, pq, settled, Entry(d, v, e.prefix + [u]), dist', pq');
    LoweredPush(dist0, pq0, dist, pq, v, d, dist', pq');
    RelaxedAllPush(g, dist, settled, u, rest, v, d, dist');
  }

  /** Lowering v's distance and pushing an entry extends the relaxation loop's progress. */
  lemma LoweredPush<N>(dist0: map<N, Ext>, pq0: seq<Entry<N>>, dist: map<N, Ext>, pq: seq<Entry<N>>, v: N, d: int,
                        dist': map<N, Ext>, pq': seq<Entry<N>>)
    requires Lowered(dist0, pq0, dist, pq) && v in dist && Less(Fin(d), dist[v])
    requires dist' == dist[v := Fin(d)] && |pq'| == |pq| + 1 && pq'[..|pq|] == pq
    ensures Lowered(dist0, pq0, dist', pq')
  {
    LabelDrop(dist, v, d);
    assert pq'[..|pq0|] == pq[..|pq0|];
  }

  /** Lowering the distance of v, a neighbour of u still in `rest`, relaxes u -> v and keeps the other edges relaxed. */
  lemma RelaxedAllPush<N>(g: Graph<N>, dist: map<N, Ext>, settled: set<N>, u: N, rest: set<N>, v: N, d: int, dist': map<N, Ext>)
    requires RelaxedAll(g, dist, settled, u, rest) && u in g && u in dist && dist[u].Fin?
    requires v in rest && v in g[u] && v in dist && d == dist[u].v + g[u][v] && Less(Fin(d), dist[v])
    requires v !in settled && dist' == dist[v := Fin(d)]
    ensures RelaxedAll(g, dist', settled, u, rest - {v})
  {
    forall x | x in settled ensures RelaxedOutside(g, dist', x, if x == u then rest - {v} else {}) {
      RelaxedMonotone(g, dist, dist', x, if x == u then rest else {});
    }
  }

  /** The entry pushed for an improved neighbour v of the popped node is sound, and v is not settled. */
  lemma NewEntry<N(!new)>(g: Graph<N>, start: N, e: Entry<N>, v: N, dist: map<N, Ext>, settled: set<N>)
    requires NonNegative(g) && SettledFinal(g, start, dist, settled) && start in dist && dist[start] == Fin(0)
    requires EntryOk(g, start, e) && e.node in g && v in g[e.node] && v in dist
    requires Less(Fin(e.d + g[e.node][v]), dist[v])
    ensures Improves(g, start, dist, settled, Entry(e.d + g[e.node][v], v, e.prefix + [e.node]))
  {
    var path := e.prefix + [e.node];
    PathAppend(g, path, v);
    assert e.prefix + [e.node] + [v] == path + [v];
    assert PathFrom(g, path + [v], start, v);
    PathWeightNonNegative(g, path);
  }

  /** A sound entry for an unsettled node other than start, lower than its current distance. */
  ghost predicate Improves<N>(g: Graph<N>, start: N, dist: map<N, Ext>, settled: set<N>, e: Entry<N>)
  {
    EntryOk(g, start, e) && e.node in dist && e.node !in settled && e.node != start && e.d >= 0 && Less(Fin(e.d), dist[e.node])
  }

  /** Pushing a sound entry whose distance becomes its node's new label keeps the invariant. */
  lemma PushKeeps<N(!new)>(g: Graph<N>, start: N, dist: map<N, Ext>, pq: seq<Entry<N>>, settled: set<N>, e: Entry<N>,
                           dist': map<N, Ext>, pq': seq<Entry<N>>)
    requires Expanded(g, start, dist, pq, settled) && Improves(g, start, dist, settled, e)
    requires dist' == dist[e.node := Fin(e.d)] && pq' == pq + [e]
    ensures Expanded(g, start, dist', pq', settled)
  {
    forall y | y in dist' && dist'[y].Fin? && y !in settled ensures Pending(pq', y, dist'[y].v) {
      if y == e.node {
        assert pq'[|pq|] == e;
      } else {
        var i :| 0 <= i < |pq| && pq[i].node == y && pq[i].d == dist[y].v;
        assert pq'[i] == pq[i];
      }
    }
  }

  /** A stale entry is dropped without breaking the invariant: it is not the pending entry of its node. */
  lemma StaleDropped<N(!new)>(g: Graph<N>, start: N, dist: map<N, Ext>, pq: seq<Entry<N>>, settled: set<N>, k: nat)
    requires k < |pq| && Expanded(g, start, dist, pq, settled)
    requires Less(dist[pq[k].node], Fin(pq[k].d))
    ensures Expanded(g, start, dist, RemoveAt(pq, k), settled)
  {
    var pq' := RemoveAt(pq, k);
    forall y | y in dist && dist[y].Fin? && y !in settled ensures Pending(pq', y, dist[y].v) {
      var i :| 0 <= i < |pq| && pq[i].node == y && pq[i].d == dist[y].v;
      if i < k {
        assert pq'[i] == pq[i];
      } else {
        assert i != k;
        assert pq'[i - 1] == pq[i];
      }
    }
    forall e | e in pq' ensures EntryOk(g, start, e) && e.node in dist && Le(dist[e.node], Fin(e.d)) {
      assert e in multiset(pq');
    }
  }

  /** Popping the node with its current distance and settling it keeps the invariant. */
  lemma Popped<N(!new)>(g: Graph<N>, start: N, dist: map<N, Ext>, pq: seq<Entry<N>>, settled: set<N>, k: nat)
    requires k < |pq| && Expanded(g, start, dist, pq, settled)
    requires dist[pq[k].node] == Fin(pq[k].d) && pq[k].node in g
    requires NoShorterPath(g, start, pq[k].node, pq[k].d)
    ensures Expanded(g, start, dist, RemoveAt(pq, k), settled + {pq[k].node})
  {
    var pq' := RemoveAt(pq, k);
    forall y | y in dist && dist[y].Fin? && y !in settled + {pq[k].node} ensures Pending(pq', y, dist[y].v) {
      var i :| 0 <= i < |pq| && pq[i].node == y && pq[i].d == dist[y].v;
      if i < k {
        assert pq'[i] == pq[i];
      } else {
        assert pq'[i - 1] == pq[i];
      }
    }
    forall e | e in pq' ensures EntryOk(g, start, e) && e.node in dist && Le(dist[e.node], Fin(e.d)) {
      assert e in multiset(pq');
    }
  }

  /**
   * The heart of Dijkstra's algorithm: an entry of least distance that is not stale
   * carries the shortest distance to its node. Any path to it leaves the settled
   * nodes somewhere, and the first node outside has a heap entry no longer than
   * the path's prefix up to it.
   */
  lemma SettleOptimal<N(!new)>(g: Graph<N>, start: N, dist: map<N, Ext>, pq: seq<Entry<N>>, settled: set<N>, k: nat)
    requires Closed(g) && NonNegative(g) && Inv(g, start, dist, pq, settled)
    requires k < |pq| && forall j :: 0 <= j < |pq| ==> pq[k].d <= pq[j].d
    requires !Less(dist[pq[k].node], Fin(pq[k].d))
    ensures dist[pq[k].node] == Fin(pq[k].d)
    ensures NoShorterPath(g, start, pq[k].node, pq[k].d)
  {
    assert pq[k] in pq;
    forall p | PathFrom(g, p, start, pq[k].node) ensures pq[k].d <= PathWeight(g, p) {
      PathNotShorter(g, start, dist, pq, settled, k, p);
    }
  }

  /** One path to the popped node weighs at least the popped distance. */
  lemma PathNotShorter<N(!new)>(g: Graph<N>, start: N, dist: map<N, Ext>, pq: seq<Entry<N>>, settled: set<N>, k: nat, p: seq<N>)
    requires Closed(g) && NonNegative(g) && Inv(g, start, dist, pq, settled)
    requires k < |pq| && forall j :: 0 <= j < |pq| ==> pq[k].d <= pq[j].d
    requires dist[pq[k].node] == Fin(pq[k].d)
    requires PathFrom(g, p, start, pq[k].node)
    ensures pq[k].d <= PathWeight(g, p)
  {
    var u := pq[k].node;
    if u in settled {
      assert SettledFinal(g, start, dist, settled);
    } else {
      var y := Frontier(g, start, dist, settled, p);
      assert Pending(pq, y, dist[y].v);
      var i :| 0 <= i < |pq| && pq[i].node == y && pq[i].d == dist[y].v;
    }
  }

  /**
   * A path that ends outside the settled nodes leaves them at some node y, whose
   * distance is finite, unsettled, and no more than the path's weight.
   */
  lemma Frontier<N(!new)>(g: Graph<N>, start: N, dist: map<N, Ext>, settled: set<N>, p: seq<N>) returns (y: N)
    requires NonNegative(g) && SettledFinal(g, start, dist, settled)
    requires start in dist && dist[start] == Fin(0)
    requires forall x :: x in settled ==> RelaxedOutside(g, dist, x, {})
    requires |p| > 0 && p[0] == start && IsPath(g, p) && p[|p| - 1] !in settled
    ensures y !in settled && y in dist && dist[y].Fin? && dist[y].v <= PathWeight(g, p)
  {
    var t := FirstOutside(p, settled);
    y := p[t];
    PathPrefix(g, p, t + 1);
    if t == 0 {
      PathWeightNonNegative(g, p);
    } else {
      var x := p[t - 1];
      assert IsEdge(g, x, y);
      PathPrefix(g, p, t);
      assert p[..t + 1] == p[..t] + [y];
      PathAppend(g, p[..t], y);
      assert PathFrom(g, p[..t], start, x);
      assert RelaxedOutside(g, dist, x, {});
      assert dist[x].v <= PathWeight(g, p[..t]);
    }
  }

  /** The first position of `p` outside `s`, when its last node is outside. */
  lemma FirstOutside<N>(p: seq<N>, s: set<N>) returns (t: nat)
    requires |p| > 0 && p[|p| - 1] !in s
    ensures t < |p| && p[t] !in s
    ensures forall i :: 0 <= i < t ==> p[i] in s
  {
    t := 0;
    while p[t] in s
      invariant t < |p|
      invariant forall i :: 0 <= i < t ==> p[i] in s
      decreases |p| - t
    {
      t := t + 1;
    }
  }

  /** With the heap empty, every node reachable from start has been settled. */
  lemma Exhausted<N(!new)>(g: Graph<N>, start: N, dist: map<N, Ext>, settled: set<N>)
    requires Closed(g) && Inv(g, start, dist, [], settled)
    ensures forall x, p :: PathFrom(g, p, start, x) ==> x in settled
  {
    forall x, p | PathFrom(g, p, start, x) ensures x in settled {
      var i := 0;
      while i < |p| - 1
        invariant 0 <= i < |p| && p[i] in settled
      {
        assert IsEdge(g, p[i], p[i + 1]);
        i := i + 1;
      }
    }
  }

  lemma LabelsNonNegative<N>(dist: map<N, Ext>)
    requires forall x :: x in dist && dist[x].Fin? ==> dist[x].v >= 0
    ensures Total(Labels(dist)) >= 0
  {
    SumNonNegative(Labels(dist), Labels(dist).Keys);
  }

  /** Lowering one distance lowers (unlabelled nodes, sum of finite distances) lexicographically. */
  lemma LabelDrop<N>(dist: map<N, Ext>, x: N, v: int)
    requires x in dist && Less(Fin(v), dist[x])
    ensures LexLess(|Unlabelled(dist[x := Fin(v)])|, Total(Labels(dist[x := Fin(v)])), |Unlabelled(dist)|, Total(Labels(dist)))
  {
    var dist' := dist[x := Fin(v)];
    if dist[x].Inf? {
      assert Unlabelled(dist') == Unlabelled(dist) - {x};
    } else {
      assert Unlabelled(dist') == Unlabelled(dist);
      assert Labels(dist') == Labels(dist)[x := v];
      TotalUpdate(Labels(dist), x, v);
    }
  }
}
