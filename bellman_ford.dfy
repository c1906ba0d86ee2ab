/**
 * `bellman_ford` from path_finding.py: `len(graph) - 1` passes that relax every
 * edge, one more pass that raises `ValueError` when an edge can still be
 * relaxed, and a walk back along `predecessor` from the goal that adds up the
 * weights of the edges it crosses.
 *
 * Distances are extended integers (`Inf` for `float('inf')`). A predecessor
 * edge never makes its node's distance look too small: the parent's distance
 * plus the weight is at most the child's, and when they are equal the parent's
 * distance was set earlier (`stamp`, ghost). Once the final pass finds nothing
 * to relax every predecessor edge is tight, so the walk back ends, at start,
 * along a path no heavier than any other.
 *
 * The final check is also sound: every finite distance is backed by a path
 * from start that weighs no more, and after k passes no path from start with
 * at most k edges weighs less than its end's distance. Without a reachable
 * negative cycle every path from start can be cut down to one without
 * repeated nodes, which has at most `len(graph) - 1` edges, so then no edge
 * can still be relaxed.
 */
module BellmanFord {
  import opened Graphs

  /** The function's three ways out: the result dictionary, `ValueError`, or the `KeyError` of a failed walk. */
  datatype Outcome<N> = Path(found: Found<N>) | NegativeCycle | Missing

  /** `distance[u] + weight < distance[v]` for the edge u -> v. */
  ghost predicate Relaxable<N>(g: Graph<N>, dist: map<N, Ext>, u: N, v: N)
  {
    IsEdge(g, u, v) && u in dist && v in dist && Less(Add(dist[u], Fin(g[u][v])), dist[v])
  }

  /** No edge can be relaxed: what a pass of the final check that raises nothing establishes. */
  ghost predicate Settled<N>(g: Graph<N>, dist: map<N, Ext>)
  {
    forall u, v {:trigger Relaxable(g, dist, u, v)} :: u in g && v in g[u] ==> !Relaxable(g, dist, u, v)
  }

  /** A cycle through a node reachable from start whose weights add up to less than zero. */
  ghost predicate NegativeCycleFrom<N(!new)>(g: Graph<N>, start: N)
  {
    exists x, c :: Reachable(g, start, x) && PathFrom(g, c, x, x) && PathWeight(g, c) < 0
  }

  /** Node x's predecessor is an edge into x that does not make x's distance look too small. */
  ghost predicate PredOk<N>(g: Graph<N>, dist: map<N, Ext>, pred: map<N, Option<N>>, stamp: map<N, nat>, x: N)
  {
    && x in pred && pred[x].Some? && x in dist && x in stamp
    && var p := pred[x].value;
    && p in dist && p in stamp && IsEdge(g, p, x)
    && dist[p].Fin? && dist[x].Fin?
    && dist[p].v + g[p][x] <= dist[x].v
    && (dist[p].v + g[p][x] == dist[x].v ==> stamp[p] < stamp[x])
  }

  /**
   * The shape of `distance` and `predecessor` between relaxations: a distance for
   * every node and for start, a predecessor slot for every node, a finite distance
   * for start, a predecessor as above wherever one is set, and one set for every
   * other node with a finite distance.
   */
  ghost predicate Preds<N>(g: Graph<N>, start: N, dist: map<N, Ext>, pred: map<N, Option<N>>, stamp: map<N, nat>, clock: nat)
  {
    && dist.Keys == g.Keys + {start} && pred.Keys == g.Keys && stamp.Keys == dist.Keys
    && dist[start].Fin?
    && AllPredOk(g, dist, pred, stamp)
    && (forall x {:trigger dist[x]} :: x in dist && x != start && dist[x].Fin? ==> x in pred && pred[x].Some?)
    && (forall x {:trigger stamp[x]} :: x in stamp ==> stamp[x] < clock)
  }

  ghost predicate AllPredOk<N>(g: Graph<N>, dist: map<N, Ext>, pred: map<N, Option<N>>, stamp: map<N, nat>)
  {
    forall x {:trigger PredOk(g, dist, pred, stamp, x)} :: x in pred && pred[x].Some? ==> PredOk(g, dist, pred, stamp, x)
  }

  /** No distance has gone up. */
  ghost predicate Lowered<N>(dist0: map<N, Ext>, dist: map<N, Ext>)
  {
    dist0.Keys == dist.Keys && forall x {:trigger dist[x]} :: x in dist0 ==> Le(dist[x], dist0[x])
  }

  /** The maps as the passes start: every node at infinity, start at 0, no predecessors. */
  lemma PredsStart<N>(g: Graph<N>, start: N, dist: map<N, Ext>, pred: map<N, Option<N>>)
    requires dist == (map x | x in g :: Inf)[start := Fin(0)] && pred == map x | x in g :: None
    ensures Preds(g, start, dist, pred, map x | x in dist :: 0, 1)
  {
  }

  /** Relaxing the edge u -> v keeps the shape and lowers only v's distance. */
  lemma RelaxStep<N>(g: Graph<N>, start: N, dist: map<N, Ext>, pred: map<N, Option<N>>, stamp: map<N, nat>, clock: nat,
                     u: N, v: N, dist': map<N, Ext>, pred': map<N, Option<N>>)
    requires Closed(g) && Preds(g, start, dist, pred, stamp, clock) && Relaxable(g, dist, u, v)
    requires dist' == dist[v := Add(dist[u], Fin(g[u][v]))] && pred' == pred[v := Some(u)]
    ensures Preds(g, start, dist', pred', stamp[v := clock], clock + 1)
    ensures Lowered(dist, dist')
  {
    assert v in g;
    PredOkKept(g, dist, pred, stamp, clock, u, v, dist', pred');
  }

  /**
   * The predecessor edges after relaxing u -> v: v's new one is tight and stamped
   * last, and the ones out of v become strict as v's distance drops.
   */
  lemma PredOkKept<N>(g: Graph<N>, dist: map<N, Ext>, pred: map<N, Option<N>>, stamp: map<N, nat>, clock: nat,
                      u: N, v: N, dist': map<N, Ext>, pred': map<N, Option<N>>)
    requires AllPredOk(g, dist, pred, stamp) && (forall x {:trigger stamp[x]} :: x in stamp ==> stamp[x] < clock)
    requires Relaxable(g, dist, u, v) && v in pred && v in stamp && u in stamp
    requires dist' == dist[v := Add(dist[u], Fin(g[u][v]))] && pred' == pred[v := Some(u)]
    ensures AllPredOk(g, dist', pred', stamp[v := clock])
  {
    var stamp' := stamp[v := clock];
    forall x | x in pred' && pred'[x].Some? ensures PredOk(g, dist', pred', stamp', x) {
      if x != v {
        assert PredOk(g, dist, pred, stamp, x);
      }
    }
  }

  /** The number of passes: `range(len(graph) - 1)` runs `len(graph) - 1` times, or not at all. */
  function Rounds<N>(g: Graph<N>): nat
  {
    if |g| >= 1 then |g| - 1 else 0
  }

  /** Some path from start to x weighs at most w. */
  ghost predicate HasPath<N(!new)>(g: Graph<N>, start: N, x: N, w: int)
  {
    exists p :: PathFrom(g, p, start, x) && PathWeight(g, p) <= w
  }

  /** Every finite distance is backed by a path from start that weighs no more. */
  ghost predicate Witnessed<N(!new)>(g: Graph<N>, start: N, dist: map<N, Ext>)
  {
    forall x {:trigger dist[x]} :: x in dist && dist[x].Fin? ==> HasPath(g, start, x, dist[x].v)
  }

  /** No path from start with at most k edges weighs less than its end's distance. */
  ghost predicate Bound<N(!new)>(g: Graph<N>, start: N, dist: map<N, Ext>, k: nat)
  {
    forall x, p {:trigger PathFrom(g, p, start, x)} :: PathFrom(g, p, start, x) && |p| <= k + 1 ==>
      x in dist && Le(dist[x], Fin(PathWeight(g, p)))
  }

  /** The edges from u to the nodes of vs end no higher than u's distance in `dist0` plus the weight. */
  ghost predicate EdgesBelow<N>(g: Graph<N>, dist0: map<N, Ext>, dist: map<N, Ext>, u: N, vs: set<N>)
  {
    u in g && u in dist0 && forall v {:trigger v in vs} :: v in vs && v in g[u] ==> v in dist && Le(dist[v], Add(dist0[u], Fin(g[u][v])))
  }

  /** The state after a pass over the nodes of us, measured against the distances the pass started from. */
  ghost predicate Passed<N>(g: Graph<N>, dist0: map<N, Ext>, dist: map<N, Ext>, us: set<N>)
  {
    forall u {:trigger EdgesBelow(g, dist0, dist, u, g[u].Keys)} :: u in us && u in g ==> EdgesBelow(g, dist0, dist, u, g[u].Keys)
  }

  /** The distances the passes start from: a path of no edges leads to start only, weighing 0. */
  lemma BoundStart<N(!new)>(g: Graph<N>, start: N, dist: map<N, Ext>)
    requires dist == (map x | x in g :: Inf)[start := Fin(0)]
    ensures Witnessed(g, start, dist) && Bound(g, start, dist, 0)
  {
    assert PathFrom(g, [start], start, start);
  }

  /** Relaxing u -> v backs v's new distance with the path to u extended by the edge. */
  lemma WitnessStep<N(!new)>(g: Graph<N>, start: N, dist: map<N, Ext>, u: N, v: N, dist': map<N, Ext>)
    requires Witnessed(g, start, dist) && IsEdge(g, u, v) && u in dist && dist[u].Fin?
    requires dist' == dist[v := Add(dist[u], Fin(g[u][v]))]
    ensures Witnessed(g, start, dist')
  {
    var p :| PathFrom(g, p, start, u) && PathWeight(g, p) <= dist[u].v;
    PathAppend(g, p, v);
    assert PathFrom(g, p + [v], start, v);
  }

  /**
   * A pass over every node after k passes: a path with k + 1 edges is a path
   * with k edges and one more, so its end is no higher than its weight.
   */
  lemma BoundStep<N(!new)>(g: Graph<N>, start: N, dist0: map<N, Ext>, dist: map<N, Ext>, k: nat)
    requires Closed(g) && dist0.Keys == g.Keys + {start}
    requires Bound(g, start, dist0, k) && Lowered(dist0, dist) && Passed(g, dist0, dist, g.Keys)
    ensures Bound(g, start, dist, k + 1)
  {
    forall x, p | PathFrom(g, p, start, x) && |p| <= k + 2 ensures x in dist && Le(dist[x], Fin(PathWeight(g, p))) {
      if |p| <= k + 1 {
        assert x in dist0 && Le(dist0[x], Fin(PathWeight(g, p)));
      } else {
        var q := p[..|p| - 1];
        var u := p[|p| - 2];
        PathPrefix(g, p, |p| - 1);
        assert PathFrom(g, q, start, u);
        assert IsEdge(g, u, x);
        assert EdgesBelow(g, dist0, dist, u, g[u].Keys);
        assert x in g[u].Keys;
      }
    }
  }

  /**
   * A path from start that visits a node twice loses the cycle between the two
   * visits; with no negative cycle reachable from start the rest weighs no more.
   */
  lemma CutCycle<N(!new)>(g: Graph<N>, start: N, p: seq<N>, x: N, i: nat, j: nat) returns (r: seq<N>)
    requires !NegativeCycleFrom(g, start) && PathFrom(g, p, start, x) && i < j < |p| && p[i] == p[j]
    ensures PathFrom(g, r, start, x) && |r| < |p| && PathWeight(g, r) <= PathWeight(g, p)
  {
    PathSplit3(g, p, i, j);
    CycleNonNegative(g, start, p[..i + 1], p[i..j + 1]);
    PathConcat(g, p[..i + 1], p[j..]);
    r := p[..i + 1] + p[j..][1..];
    CutPieces(p, i, j);
  }

  /** A cycle through a node that a path from start reaches weighs nothing negative when no negative cycle is reachable. */
  lemma CycleNonNegative<N(!new)>(g: Graph<N>, start: N, a: seq<N>, c: seq<N>)
    requires !NegativeCycleFrom(g, start) && |a| > 0 && a[0] == start && IsPath(g, a)
    requires |c| > 0 && c[0] == a[|a| - 1] && c[|c| - 1] == c[0] && IsPath(g, c)
    ensures PathWeight(g, c) >= 0
  {
    assert PathFrom(g, a, start, c[0]);
    assert PathFrom(g, c, c[0], c[0]);
  }

  lemma CutPieces<T>(p: seq<T>, i: nat, j: nat)
    requires i < j < |p| && p[i] == p[j]
    ensures |p[..i + 1] + p[j..][1..]| < |p|
    ensures (p[..i + 1] + p[j..][1..])[0] == p[0]
    ensures (p[..i + 1] + p[j..][1..])[|p[..i + 1] + p[j..][1..]| - 1] == p[|p| - 1]
  {
  }

  /** With no negative cycle reachable from start, every path from start has a repetition-free one that weighs no more. */
  lemma {:induction false} Shortcut<N(!new)>(g: Graph<N>, start: N, p: seq<N>, x: N) returns (q: seq<N>)
    requires !NegativeCycleFrom(g, start) && PathFrom(g, p, start, x)
    ensures PathFrom(g, q, start, x) && Distinct(q) && PathWeight(g, q) <= PathWeight(g, p)
    decreases |p|
  {
    if Distinct(p) {
      return p;
    }
    var i, j :| 0 <= i < j < |p| && p[i] == p[j];
    var r := CutCycle(g, start, p, x, i, j);
    q := Shortcut(g, start, r, x);
  }

  /** A path from start without repetitions has at most `Rounds(g)` edges. */
  lemma ShortEnough<N>(g: Graph<N>, start: N, q: seq<N>, x: N)
    requires Closed(g) && PathFrom(g, q, start, x) && Distinct(q)
    ensures |q| <= Rounds(g) + 1
  {
    if |q| > 1 {
      assert IsEdge(g, q[0], q[1]);
      forall i | 0 <= i < |q| ensures q[i] in g.Keys {
        if i > 0 {
          assert IsEdge(g, q[i - 1], q[i]);
        }
      }
      DistinctBound(q, g.Keys);
    }
  }

  /**
   * After `Rounds(g)` passes, either a negative cycle is reachable from start or
   * no edge can be relaxed: the path behind u's distance, one edge longer and
   * without its cycles, bounds the distance of the edge's end.
   */
  lemma CycleOrSettled<N(!new)>(g: Graph<N>, start: N, dist: map<N, Ext>)
    requires Closed(g) && dist.Keys == g.Keys + {start}
    requires Witnessed(g, start, dist) && Bound(g, start, dist, Rounds(g))
    ensures NegativeCycleFrom(g, start) || Settled(g, dist)
  {
    if !NegativeCycleFrom(g, start) {
      forall u, v | u in g && v in g[u] ensures !Relaxable(g, dist, u, v) {
        if dist[u].Fin? {
          var p :| PathFrom(g, p, start, u) && PathWeight(g, p) <= dist[u].v;
          PathAppend(g, p, v);
          assert PathFrom(g, p + [v], start, v);
          var q := Shortcut(g, start, p + [v], v);
          ShortEnough(g, start, q, v);
        }
      }
    }
  }

  /**
   * The `len(graph) - 1` passes, each over every node u and every edge u -> v,
   * relaxing the edges that allow it. The maps keep their shape and no distance
   * ends above its starting value (infinity, or 0 for start).
   */
  method Passes<N(!new)>(g: Graph<N>, start: N) returns (dist: map<N, Ext>, pred: map<N, Option<N>>, ghost stamp: map<N, nat>, ghost clock: nat)
    requires Closed(g)
    ensures Preds(g, start, dist, pred, stamp, clock)
    ensures Lowered((map x | x in g :: Inf)[start := Fin(0)], dist)
    ensures Witnessed(g, start, dist) && Bound(g, start, dist, Rounds(g))
  {
    dist := (map x | x in g :: Inf)[start := Fin(0)];
    pred := map x | x in g :: None;
    stamp, clock := map x | x in dist :: 0, 1;
    PredsStart(g, start, dist, pred);
    BoundStart(g, start, dist);
    ghost var dist0 := dist;
    var passes := Rounds(g);
    for i := 0 to passes
      invariant Preds(g, start, dist, pred, stamp, clock) && Lowered(dist0, dist)
      invariant Witnessed(g, start, dist) && Bound(g, start, dist, i)
    {
      ghost var before := dist;
      dist, pred, stamp, clock := Pass(g, start, dist, pred, stamp, clock);
      LoweredTrans(dist0, before, dist);
      BoundStep(g, start, before, dist, i);
    }
  }

  lemma LoweredTrans<N>(d0: map<N, Ext>, d1: map<N, Ext>, d2: map<N, Ext>)
    requires Lowered(d0, d1) && Lowered(d1, d2)
    ensures Lowered(d0, d2)
  {
    forall x | x in d0 ensures Le(d2[x], d0[x]) {
      assert Le(d1[x], d0[x]) && Le(d2[x], d1[x]);
    }
  }

  /** One pass: `for u in graph: for v, weight in graph[u].items()`. */
  method Pass<N(!new)>(g: Graph<N>, start: N, dist: map<N, Ext>, pred: map<N, Option<N>>, ghost stamp: map<N, nat>, ghost clock: nat)
    returns (dist': map<N, Ext>, pred': map<N, Option<N>>, ghost stamp': map<N, nat>, ghost clock': nat)
    requires Closed(g) && Preds(g, start, dist, pred, stamp, clock) && Witnessed(g, start, dist)
    ensures Preds(g, start, dist', pred', stamp', clock') && Lowered(dist, dist')
    ensures Witnessed(g, start, dist') && Passed(g, dist, dist', g.Keys)
  {
    dist', pred', stamp', clock' := dist, pred, stamp, clock;
    var us := g.Keys;
    while us != {}
      invariant us <= g.Keys
      invariant Preds(g, start, dist', pred', stamp', clock') && Lowered(dist, dist')
      invariant Witnessed(g, start, dist') && Passed(g, dist, dist', g.Keys - us)
      decreases us
    {
      var u :| u in us;
      ghost var before := dist';
      dist', pred', stamp', clock' := RelaxFrom(g, start, u, dist', pred', stamp', clock');
      PassedKept(g, dist, before, dist', g.Keys - us, u);
      LoweredTrans(dist, before, dist');
      us := us - {u};
    }
  }

  /** A pass that has also gone over u, measured against the distances it started from. */
  lemma PassedKept<N>(g: Graph<N>, dist0: map<N, Ext>, dist1: map<N, Ext>, dist2: map<N, Ext>, done: set<N>, u: N)
    requires Passed(g, dist0, dist1, done) && Lowered(dist0, dist1) && Lowered(dist1, dist2)
    requires u in g && EdgesBelow(g, dist1, dist2, u, g[u].Keys)
    ensures Passed(g, dist0, dist2, done + {u})
  {
    forall w | w in done + {u} && w in g ensures EdgesBelow(g, dist0, dist2, w, g[w].Keys) {
      if w == u {
        assert u in dist0;
      } else {
        assert EdgesBelow(g, dist0, dist1, w, g[w].Keys);
      }
    }
  }

  /** The edges out of one node u, each relaxed when `distance[u] + weight < distance[v]`. */
  method RelaxFrom<N(!new)>(g: Graph<N>, start: N, u: N, dist: map<N, Ext>, pred: map<N, Option<N>>, ghost stamp: map<N, nat>, ghost clock: nat)
    returns (dist': map<N, Ext>, pred': map<N, Option<N>>, ghost stamp': map<N, nat>, ghost clock': nat)
    requires Closed(g) && u in g && Preds(g, start, dist, pred, stamp, clock) && Witnessed(g, start, dist)
    ensures Preds(g, start, dist', pred', stamp', clock') && Lowered(dist, dist')
    ensures Witnessed(g, start, dist') && EdgesBelow(g, dist, dist', u, g[u].Keys)
  {
    dist', pred', stamp', clock' := dist, pred, stamp, clock;
    var vs := g[u].Keys;
    RelaxingStart(g, start, u, dist, pred, stamp, clock);
    while vs != {}
      invariant Relaxing(g, start, u, dist, vs, dist', pred', stamp', clock')
      decreases vs
    {
      var v :| v in vs;
      assert v in g;
      var weight := g[u][v];
      if Less(Add(dist'[u], Fin(weight)), dist'[v]) {
        var nextDist, nextPred := dist'[v := Add(dist'[u], Fin(weight))], pred'[v := Some(u)];
        RelaxingStep(g, start, u, dist, vs, dist', pred', stamp', clock', v, nextDist, nextPred);
        dist', pred' := nextDist, nextPred;
        stamp', clock' := stamp'[v := clock'], clock' + 1;
      } else {
        RelaxingSkip(g, start, u, dist, vs, dist', pred', stamp', clock', v);
      }
      vs := vs - {v};
    }
    assert g[u].Keys - {} == g[u].Keys;
  }

  /** The state of the loop over u's edges, with vs still to go, against the distances `dist0` it started from. */
  ghost predicate Relaxing<N(!new)>(g: Graph<N>, start: N, u: N, dist0: map<N, Ext>, vs: set<N>,
                                   dist: map<N, Ext>, pred: map<N, Option<N>>, stamp: map<N, nat>, clock: nat)
  {
    && Closed(g) && u in g && vs <= g[u].Keys
    && Preds(g, start, dist, pred, stamp, clock) && Lowered(dist0, dist)
    && Witnessed(g, start, dist) && EdgesBelow(g, dist0, dist, u, g[u].Keys - vs)
  }

  lemma RelaxingStart<N(!new)>(g: Graph<N>, start: N, u: N, dist: map<N, Ext>, pred: map<N, Option<N>>, stamp: map<N, nat>, clock: nat)
    requires Closed(g) && u in g && Preds(g, start, dist, pred, stamp, clock) && Witnessed(g, start, dist)
    ensures Relaxing(g, start, u, dist, g[u].Keys, dist, pred, stamp, clock)
  {
  }

  /** Relaxing u -> v keeps the loop's state. */
  lemma RelaxingStep<N(!new)>(g: Graph<N>, start: N, u: N, dist0: map<N, Ext>, vs: set<N>,
                             dist: map<N, Ext>, pred: map<N, Option<N>>, stamp: map<N, nat>, clock: nat,
                             v: N, dist': map<N, Ext>, pred': map<N, Option<N>>)
    requires Relaxing(g, start, u, dist0, vs, dist, pred, stamp, clock) && v in vs
    requires Relaxable(g, dist, u, v)
    requires dist' == dist[v := Add(dist[u], Fin(g[u][v]))] && pred' == pred[v := Some(u)]
    ensures Relaxing(g, start, u, dist0, vs - {v}, dist', pred', stamp[v := clock], clock + 1)
  {
    RelaxStep(g, start, dist, pred, stamp, clock, u, v, dist', pred');
    WitnessStep(g, start, dist, u, v, dist');
    EdgeRelaxed(g, dist0, dist, u, g[u].Keys - vs, v, dist');
    LoweredTrans(dist0, dist, dist');
    assert g[u].Keys - vs + {v} == g[u].Keys - (vs - {v});
  }

  /** Leaving an edge that cannot be relaxed keeps the loop's state. */
  lemma RelaxingSkip<N(!new)>(g: Graph<N>, start: N, u: N, dist0: map<N, Ext>, vs: set<N>,
                             dist: map<N, Ext>, pred: map<N, Option<N>>, stamp: map<N, nat>, clock: nat, v: N)
    requires Relaxing(g, start, u, dist0, vs, dist, pred, stamp, clock) && v in vs
    requires !Less(Add(dist[u], Fin(g[u][v])), dist[v])
    ensures Relaxing(g, start, u, dist0, vs - {v}, dist, pred, stamp, clock)
  {
    EdgeKept(g, dist0, dist, u, g[u].Keys - vs, v);
    assert g[u].Keys - vs + {v} == g[u].Keys - (vs - {v});
  }

  /** Relaxing u -> v brings v to at most u's distance before the pass plus the weight, and lowers nothing else. */
  lemma EdgeRelaxed<N>(g: Graph<N>, dist0: map<N, Ext>, dist: map<N, Ext>, u: N, done: set<N>, v: N, dist': map<N, Ext>)
    requires EdgesBelow(g, dist0, dist, u, done) && Lowered(dist0, dist) && v in g[u] && v in dist
    requires dist' == dist[v := Add(dist[u], Fin(g[u][v]))]
    ensures EdgesBelow(g, dist0, dist', u, done + {v})
  {
    assert Le(dist[u], dist0[u]);
  }

  /** An edge u -> v that cannot be relaxed already ends no higher than u's distance before the pass plus the weight. */
  lemma EdgeKept<N>(g: Graph<N>, dist0: map<N, Ext>, dist: map<N, Ext>, u: N, done: set<N>, v: N)
    requires EdgesBelow(g, dist0, dist, u, done) && Lowered(dist0, dist) && v in g[u] && v in dist
    requires !Less(Add(dist[u], Fin(g[u][v])), dist[v])
    ensures EdgesBelow(g, dist0, dist, u, done + {v})
  {
    assert Le(dist[u], dist0[u]);
  }

  /**
   * The final check: whether some edge u -> v still has `distance[u] + weight <
   * distance[v]`, which is when the source raises `ValueError`.
   */
  method StillRelaxable<N>(g: Graph<N>, dist: map<N, Ext>) returns (found: bool)
    requires Closed(g) && g.Keys <= dist.Keys
    ensures found <==> !Settled(g, dist)
  {
    var us := g.Keys;
    while us != {}
      invariant us <= g.Keys
      invariant forall u, v :: u in g.Keys - us ==> !Relaxable(g, dist, u, v)
      decreases us
    {
      var u :| u in us;
      var vs := g[u].Keys;
      while vs != {}
        invariant vs <= g[u].Keys
        invariant forall v :: v in g[u].Keys - vs ==> !Relaxable(g, dist, u, v)
        decreases vs
      {
        var v :| v in vs;
        assert v in g;
        if Less(Add(dist[u], Fin(g[u][v])), dist[v]) {
          assert Relaxable(g, dist, u, v);
          return true;
        }
        vs := vs - {v};
      }
      us := us - {u};
    }
    forall u, v | u in g && v in g[u] ensures !Relaxable(g, dist, u, v) {
      assert u in g.Keys - us;
    }
    return false;
  }

  /**
   * When no edge can be relaxed, every node a path from s reaches has a finite
   * distance, at most s's distance plus the weight of the path.
   */
  lemma {:induction false} PathBound<N>(g: Graph<N>, dist: map<N, Ext>, p: seq<N>, s: N, t: N)
    requires Closed(g) && g.Keys <= dist.Keys && Settled(g, dist)
    requires PathFrom(g, p, s, t) && s in dist && dist[s].Fin?
    ensures t in dist && dist[t].Fin? && dist[t].v <= dist[s].v + PathWeight(g, p)
    decreases |p|
  {
    if |p| > 1 {
      var q := p[..|p| - 1];
      var u := p[|p| - 2];
      PathPrefix(g, p, |p| - 1);
      PathBound(g, dist, q, s, u);
      assert IsEdge(g, u, t);
      assert !Relaxable(g, dist, u, t);
    }
  }

  /** When no edge can be relaxed, no cycle through a node reachable from start has negative weight. */
  lemma NoNegativeCycle<N(!new)>(g: Graph<N>, start: N, dist: map<N, Ext>)
    requires Closed(g) && g.Keys <= dist.Keys && Settled(g, dist) && start in dist && dist[start].Fin?
    ensures !NegativeCycleFrom(g, start)
  {
    if NegativeCycleFrom(g, start) {
      var x, c :| Reachable(g, start, x) && PathFrom(g, c, x, x) && PathWeight(g, c) < 0;
      var p :| PathFrom(g, p, start, x);
      PathBound(g, dist, p, start, x);
      PathBound(g, dist, c, x, x);
    }
  }

  /** Once nothing can be relaxed, a predecessor edge is tight and its parent was stamped earlier. */
  lemma TightPred<N>(g: Graph<N>, start: N, dist: map<N, Ext>, pred: map<N, Option<N>>, stamp: map<N, nat>, clock: nat, x: N)
    requires Preds(g, start, dist, pred, stamp, clock) && Settled(g, dist) && x in pred && pred[x].Some?
    ensures var p := pred[x].value;
      && IsEdge(g, p, x) && p in dist && x in dist && dist[p].Fin? && dist[x].Fin?
      && dist[x].v == dist[p].v + g[p][x] && p in stamp && x in stamp && stamp[p] < stamp[x]
  {
    assert PredOk(g, dist, pred, stamp, x);
    assert !Relaxable(g, dist, pred[x].value, x);
  }

  /**
   * The state of the walk back: `walked` holds the nodes appended so far, and the
   * nodes from `current` to the goal form a path weighing `cost`, which is the
   * difference of the two ends' distances once a step has been taken.
   */
  ghost predicate Walking<N>(g: Graph<N>, goal: N, dist: map<N, Ext>, current: N, walked: seq<N>, cost: int)
  {
    && (walked == [] ==> current == goal && cost == 0)
    && (walked != [] ==> current in dist && dist[current].Fin? && goal in dist && dist[goal].Fin?
                         && dist[goal].v == dist[current].v + cost)
    && PathFrom(g, [current] + Reverse(walked), current, goal)
    && cost == PathWeight(g, [current] + Reverse(walked))
  }

  /** One step back along a predecessor edge keeps the walk's state, and the stamp falls. */
  lemma WalkStep<N>(g: Graph<N>, start: N, goal: N, dist: map<N, Ext>, pred: map<N, Option<N>>, stamp: map<N, nat>, clock: nat,
                    current: N, walked: seq<N>, cost: int)
    requires Preds(g, start, dist, pred, stamp, clock) && Settled(g, dist)
    requires Walking(g, goal, dist, current, walked, cost) && current in pred && pred[current].Some?
    ensures var p := pred[current].value;
      && IsEdge(g, p, current)
      && Walking(g, goal, dist, p, walked + [current], cost + g[p][current])
      && current in stamp && p in stamp && stamp[p] < stamp[current]
  {
    TightPred(g, start, dist, pred, stamp, clock, current);
    var p := pred[current].value;
    PathPrepend(g, p, [current] + Reverse(walked));
    ReverseSnoc(walked, current);
  }

  /** The walk can only get stuck on the goal itself, and only when its distance is not finite. */
  lemma WalkStuck<N>(g: Graph<N>, start: N, goal: N, dist: map<N, Ext>, pred: map<N, Option<N>>, stamp: map<N, nat>, clock: nat,
                     current: N, walked: seq<N>, cost: int)
    requires Preds(g, start, dist, pred, stamp, clock) && Walking(g, goal, dist, current, walked, cost)
    requires current != start && (current !in pred || pred[current].None?)
    ensures goal !in dist || dist[goal].Inf?
  {
  }

  /**
   * The walk back: from the goal, repeatedly append the node, step to its
   * predecessor and add the weight of the edge crossed, then append start and
   * reverse. A missing or empty predecessor entry is the source's `KeyError`,
   * `None` here; it happens only when the goal has no finite distance.
   * Otherwise the path leads from start to the goal, its cost is its weight,
   * and that weight is the difference of the two distances.
   */
  method WalkBack<N>(g: Graph<N>, start: N, goal: N, dist: map<N, Ext>, pred: map<N, Option<N>>,
                     ghost stamp: map<N, nat>, ghost clock: nat)
    returns (r: Option<Found<N>>)
    requires Closed(g) && Preds(g, start, dist, pred, stamp, clock) && Settled(g, dist)
    ensures r.None? ==> goal !in dist || dist[goal].Inf?
    ensures r.Some? ==> PathFrom(g, r.value.path, start, goal) && r.value.cost == PathWeight(g, r.value.path)
    ensures r.Some? ==> goal in dist && dist[goal].Fin? && dist[goal].v == dist[start].v + r.value.cost
  {
    var current := goal;
    var walked: seq<N> := [];
    var cost := 0;
    while current != start
      invariant Walking(g, goal, dist, current, walked, cost)
      decreases if current in stamp then stamp[current] else 0
    {
      if current !in pred || pred[current].None? {
        WalkStuck(g, start, goal, dist, pred, stamp, clock, current, walked, cost);
        return None;
      }
      WalkStep(g, start, goal, dist, pred, stamp, clock, current, walked, cost);
      var temp := current;
      current := pred[temp].value;
      walked := walked + [temp];
      cost := cost + g[current][temp];
    }
    ReverseSnoc(walked, start);
    r := Some(Found(Reverse(walked + [start]), cost));
  }

  /**
   * The whole function. `ValueError` is raised exactly when a cycle of negative
   * weight is reachable from start. Otherwise the walk back fails exactly when the goal cannot be
   * reached, and a result is a path from start to the goal whose cost is its
   * weight and is no more than the weight of any path from start to the goal.
   */
  method BellmanFord<N(!new)>(g: Graph<N>, start: N, goal: N) returns (r: Outcome<N>)
    requires Closed(g)
    ensures r.NegativeCycle? <==> NegativeCycleFrom(g, start)
    ensures r.Missing? <==> !r.NegativeCycle? && !Reachable(g, start, goal)
    ensures r.Path? ==> PathFrom(g, r.found.path, start, goal) && r.found.cost == PathWeight(g, r.found.path)
    ensures r.Path? ==> NoShorterPath(g, start, goal, r.found.cost)
  {
    var dist, pred;
    ghost var stamp, clock;
    dist, pred, stamp, clock := Passes(g, start);
    var negative := StillRelaxable(g, dist);
    if negative {
      CycleOrSettled(g, start, dist);
      return NegativeCycle;
    }
    NoNegativeCycle(g, start, dist);
    var walked := WalkBack(g, start, goal, dist, pred, stamp, clock);
    if walked.None? {
      if Reachable(g, start, goal) {
        var p :| PathFrom(g, p, start, goal);
        PathBound(g, dist, p, start, goal);
      }
      return Missing;
    }
    r := Path(walked.value);
    forall p | PathFrom(g, p, start, goal) ensures r.found.cost <= PathWeight(g, p) {
      PathBound(g, dist, p, start, goal);
    }
  }
}
