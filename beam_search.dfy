/**
 * `beam_search` from path_finding.py: a list of `(cost, path)` candidates that
 * starts with the one-node path at start, a set of expanded nodes, a stop when
 * the path taken first ends at the goal, and after every expansion the list
 * sorted by cost (a stable sort) and cut down to its first `beam_width`
 * entries with Python's slice `[:int(beam_width)]`.
 *
 * A candidate's cost is always the weight of its path. Cutting the list can
 * drop every path to the goal, so an empty result only means "unreachable"
 * when the beam is wide enough never to cut anything: wider than the number
 * of edges of the graph.
 */
module BeamSearch {
  import opened Graphs
  import opened Frontier

  /** The default beam width of the source's signature. */
  const DefaultBeamWidth := 500

  /** One queue entry `(cost, path)`. */
  datatype Candidate<N> = Candidate(cost: int, path: seq<N>)

  /** The node a candidate ends at, `path[-1]`. */
  function Tip<N>(c: Candidate<N>): N
    requires |c.path| > 0
  {
    c.path[|c.path| - 1]
  }

  // ---------------------------------------------------------------------
  // `sorted(queue, key=lambda x: x[0])[:int(beam_width)]`

  predicate SortedByCost<N>(q: seq<Candidate<N>>)
  {
    forall i, j :: 0 <= i < j < |q| ==> q[i].cost <= q[j].cost
  }

  /**
   * Put c into the sorted q after every candidate that costs no more than c,
   * so that candidates of equal cost keep their order.
   */
  function Insert<N>(q: seq<Candidate<N>>, c: Candidate<N>): (r: seq<Candidate<N>>)
    requires SortedByCost(q)
    ensures multiset(r) == multiset(q) + multiset{c}
    ensures SortedByCost(r)
    decreases |q|
  {
    if q == [] || q[|q| - 1].cost <= c.cost then
      SortedSnocAll(q, c);
      q + [c]
    else
      var front, last := q[..|q| - 1], q[|q| - 1];
      assert q == front + [last];
      InsertBelow(front, c, last);
      var r := Insert(front, c);
      SortedSnoc(r, last);
      r + [last]
  }

  /** A candidate no cheaper than the last of a sorted list is no cheaper than any of it. */
  lemma SortedSnocAll<N>(q: seq<Candidate<N>>, c: Candidate<N>)
    requires SortedByCost(q) && (q == [] || q[|q| - 1].cost <= c.cost)
    ensures SortedByCost(q + [c])
  {
    forall d | d in q ensures d.cost <= c.cost {
      var i :| 0 <= i < |q| && q[i] == d;
      assert q[i].cost <= q[|q| - 1].cost || i == |q| - 1;
    }
    SortedSnoc(q, c);
  }

  /** Inserting c into a sorted prefix that costs no more than `last`, with c cheaper, leaves it sorted below `last`. */
  lemma InsertBelow<N>(front: seq<Candidate<N>>, c: Candidate<N>, last: Candidate<N>)
    requires SortedByCost(front + [last]) && c.cost < last.cost
    ensures SortedByCost(front)
    ensures forall d :: d in multiset(front) + multiset{c} ==> d.cost <= last.cost
  {
    var q := front + [last];
    forall i, j | 0 <= i < j < |front| ensures front[i].cost <= front[j].cost {
      assert q[i] == front[i] && q[j] == front[j];
    }
    forall d | d in multiset(front) + multiset{c} ensures d.cost <= last.cost {
      if d != c {
        var i :| 0 <= i < |front| && front[i] == d;
        assert q[i] == d && q[|front|] == last;
      }
    }
  }

  /** Appending a candidate that costs at least as much as every other keeps a list sorted. */
  lemma SortedSnoc<N>(q: seq<Candidate<N>>, c: Candidate<N>)
    requires SortedByCost(q) && forall d :: d in q ==> d.cost <= c.cost
    ensures SortedByCost(q + [c])
  {
    var r := q + [c];
    forall i, j | 0 <= i < j < |r| ensures r[i].cost <= r[j].cost {
      assert r[i] == q[i];
      if j < |q| {
        assert r[j] == q[j];
      }
    }
  }

  /** Python's `sorted` by cost, as an insertion sort: the same candidates, in order of cost. */
  function SortByCost<N>(q: seq<Candidate<N>>): (r: seq<Candidate<N>>)
    ensures multiset(r) == multiset(q) && SortedByCost(r)
    decreases |q|
  {
    if q == [] then []
    else
      assert q == q[..|q| - 1] + [q[|q| - 1]];
      Insert(SortByCost(q[..|q| - 1]), q[|q| - 1])
  }

  /**
   * Where the slice `[:width]` of a list of length n ends: at `width` when that
   * is in range, at the end when `width` is larger, and `-width` entries before
   * the end (or at the start) when `width` is negative.
   */
  function SliceEnd(n: nat, width: int): (k: nat)
    ensures k <= n
    ensures width >= n ==> k == n
    ensures 0 <= width <= n ==> k == width
    ensures width < 0 ==> k == if n + width > 0 then n + width else 0
  {
    if width >= n then n
    else if width >= 0 then width
    else if n + width > 0 then n + width
    else 0
  }

  /**
   * The beam: the queue sorted by cost and cut to `width`. What is kept is
   * sorted, taken from the queue, never dearer than anything dropped, and
   * everything when the beam is at least as wide as the queue.
   */
  function Prune<N>(q: seq<Candidate<N>>, width: int): (r: seq<Candidate<N>>)
    ensures SortedByCost(r) && |r| == SliceEnd(|q|, width)
    ensures multiset(r) <= multiset(q)
    ensures forall c, d :: c in r && d in multiset(q) - multiset(r) ==> c.cost <= d.cost
    ensures width >= |q| ==> multiset(r) == multiset(q)
  {
    var s := SortByCost(q);
    assert |s| == |multiset(s)| == |multiset(q)| == |q|;
    var k := SliceEnd(|q|, width);
    PrefixKept(s, k);
    s[..k]
  }

  /** A prefix of a sorted list: sorted, its candidates come from the list, and none costs more than the rest. */
  lemma PrefixKept<N>(s: seq<Candidate<N>>, k: nat)
    requires SortedByCost(s) && k <= |s|
    ensures SortedByCost(s[..k])
    ensures multiset(s) == multiset(s[..k]) + multiset(s[k..])
    ensures forall c, d :: c in s[..k] && d in multiset(s) - multiset(s[..k]) ==> c.cost <= d.cost
  {
    assert s == s[..k] + s[k..];
    forall i, j | 0 <= i < j < k ensures s[..k][i].cost <= s[..k][j].cost {
      assert s[..k][i] == s[i] && s[..k][j] == s[j];
    }
    forall c, d | c in s[..k] && d in multiset(s) - multiset(s[..k]) ensures c.cost <= d.cost {
      var i :| 0 <= i < k && s[..k][i] == c;
      assert d in multiset(s[k..]);
      var j :| 0 <= j < |s| - k && s[k..][j] == d;
      assert s[i] == c && s[k + j] == d;
    }
  }

  // ---------------------------------------------------------------------
  // The search

  /** A candidate is a path from start, and its cost is the path's weight. */
  ghost predicate Valid<N>(g: Graph<N>, start: N, c: Candidate<N>)
  {
    |c.path| > 0 && PathFrom(g, c.path, start, Tip(c)) && c.cost == PathWeight(g, c.path)
  }

  /** c extends the candidate `(cost, path)` by one edge from its tip `node` to a neighbour not expanded. */
  ghost predicate Extends<N>(g: Graph<N>, node: N, cost: int, path: seq<N>, visited: set<N>, c: Candidate<N>)
  {
    && node in g && |c.path| == |path| + 1 && c.path[..|path|] == path
    && c.path[|path|] in g[node] && c.path[|path|] !in visited
    && c.cost == cost + g[node][c.path[|path|]]
  }

  /** The candidate for the neighbour v of `node`. */
  function NextCandidate<N>(g: Graph<N>, node: N, cost: int, path: seq<N>, v: N): (c: Candidate<N>)
    requires node in g && v in g[node]
    ensures |c.path| == |path| + 1 && c.path[..|path|] == path && c.path[|path|] == v
  {
    var p := path + [v];
    assert p[..|path|] == path;
    Candidate(cost + g[node][v], p)
  }

  /**
   * The invariant of the neighbour loop; `rest` holds the neighbours not yet
   * looked at, `queue0` the queue before the loop.
   */
  ghost predicate ExpandLoop<N>(g: Graph<N>, node: N, cost: int, path: seq<N>, visited: set<N>,
                                queue0: seq<Candidate<N>>, rest: set<N>, queue: seq<Candidate<N>>)
  {
    && node in g && rest <= g[node].Keys
    && |queue0| <= |queue| && queue[..|queue0|] == queue0
    && |queue| == |queue0| + |(g[node].Keys - rest) - visited|
    && (forall i :: |queue0| <= i < |queue| ==> Extends(g, node, cost, path, visited, queue[i]))
    && (forall v {:trigger v in g[node]} :: v in g[node] && v !in rest && v !in visited ==>
          NextCandidate(g, node, cost, path, v) in queue)
  }

  /** Queueing the candidate for a neighbour not yet expanded keeps the loop invariant. */
  lemma ExpandAdd<N>(g: Graph<N>, node: N, cost: int, path: seq<N>, visited: set<N>,
                     queue0: seq<Candidate<N>>, rest: set<N>, queue: seq<Candidate<N>>, v: N)
    requires ExpandLoop(g, node, cost, path, visited, queue0, rest, queue) && v in rest && v !in visited
    ensures ExpandLoop(g, node, cost, path, visited, queue0, rest - {v}, queue + [NextCandidate(g, node, cost, path, v)])
  {
    var c := NextCandidate(g, node, cost, path, v);
    var queue' := queue + [c];
    assert (g[node].Keys - (rest - {v})) - visited == ((g[node].Keys - rest) - visited) + {v};
    assert queue'[..|queue0|] == queue[..|queue0|];
    forall i | |queue0| <= i < |queue'| ensures Extends(g, node, cost, path, visited, queue'[i]) {
      if i < |queue| {
        assert queue'[i] == queue[i];
      }
    }
    assert queue'[|queue|] == c;
  }

  /** Passing over an expanded neighbour keeps the loop invariant. */
  lemma ExpandSkip<N>(g: Graph<N>, node: N, cost: int, path: seq<N>, visited: set<N>,
                      queue0: seq<Candidate<N>>, rest: set<N>, queue: seq<Candidate<N>>, v: N)
    requires ExpandLoop(g, node, cost, path, visited, queue0, rest, queue) && v in rest && v in visited
    ensures ExpandLoop(g, node, cost, path, visited, queue0, rest - {v}, queue)
  {
    assert (g[node].Keys - (rest - {v})) - visited == (g[node].Keys - rest) - visited;
  }

  /**
   * The `for neighbor, neighbor_cost in neighbors.items()` loop: every neighbour
   * not yet expanded gets one new candidate at the back of the queue, the
   * path extended by it at the cost plus the edge's weight.
   */
  method Expand<N>(g: Graph<N>, node: N, cost: int, path: seq<N>, visited: set<N>, queue: seq<Candidate<N>>)
    returns (queue': seq<Candidate<N>>)
    requires node in g
    ensures ExpandLoop(g, node, cost, path, visited, queue, {}, queue')
  {
    queue' := queue;
    var rest := g[node].Keys;
    while rest != {}
      invariant ExpandLoop(g, node, cost, path, visited, queue, rest, queue')
      decreases rest
    {
      var neighbor :| neighbor in rest;
      if neighbor !in visited {
        var newCost := cost + g[node][neighbor];
        var newPath := path + [neighbor];
        ExpandAdd(g, node, cost, path, visited, queue, rest, queue', neighbor);
        queue' := queue' + [Candidate(newCost, newPath)];
      } else {
        ExpandSkip(g, node, cost, path, visited, queue, rest, queue', neighbor);
      }
      rest := rest - {neighbor};
    }
  }

  /** Out-degree of every node. */
  ghost function Degrees<N>(g: Graph<N>): map<N, int>
  {
    map u | u in g :: |g[u].Keys|
  }

  /** The number of edges of the graph. */
  ghost function EdgeCount<N>(g: Graph<N>): int
  {
    Sum(Degrees(g), g.Keys)
  }

  /** A beam wider than the graph has edges, which never cuts a candidate. */
  ghost predicate Wide<N>(g: Graph<N>, width: int)
  {
    width > EdgeCount(g)
  }

  /** Some queued candidate ends at x. */
  ghost predicate Holds<N>(queue: seq<Candidate<N>>, x: N)
  {
    exists c :: c in queue && |c.path| > 0 && Tip(c) == x
  }

  /**
   * What keeps the search complete while nothing is cut: `seen` holds start and
   * every node ever queued; each is expanded or still queued, each expanded
   * node has all its neighbours seen, and the queue is no longer than one plus
   * the out-degrees of the expanded nodes.
   */
  ghost predicate Complete<N>(g: Graph<N>, start: N, queue: seq<Candidate<N>>, visited: set<N>, seen: set<N>)
  {
    && start in seen && visited <= seen && visited <= g.Keys
    && |queue| <= 1 + Sum(Degrees(g), visited)
    && (forall c :: c in queue ==> |c.path| > 0 && Tip(c) in seen)
    && (forall x :: x in seen ==> x in visited || Holds(queue, x))
    && (forall x :: x in visited ==> Finished(g, seen, x))
  }

  /** The invariant of the search loop. */
  ghost predicate Searching<N>(g: Graph<N>, start: N, goal: N, width: int,
                               queue: seq<Candidate<N>>, visited: set<N>, seen: set<N>)
  {
    && Closed(g) && (start in g || start == goal)
    && (forall c :: c in queue ==> Valid(g, start, c))
    && visited <= g.Keys && goal !in visited
    && (Wide(g, width) ==> Complete(g, start, queue, visited, seen))
  }

  /** The first candidate: the one-node path at start, at cost 0. */
  lemma SearchStart<N>(g: Graph<N>, start: N, goal: N, width: int)
    requires Closed(g) && (start in g || start == goal)
    ensures Searching(g, start, goal, width, [Candidate(0, [start])], {}, {start})
  {
    var c := Candidate(0, [start]);
    assert Tip(c) == start;
    assert Holds([c], start);
    assert Sum(Degrees(g), {}) == 0;
  }

  /** A candidate that does not end at the goal ends at a node of the graph. */
  lemma TipInGraph<N>(g: Graph<N>, start: N, goal: N, c: Candidate<N>)
    requires Closed(g) && (start in g || start == goal) && Valid(g, start, c) && Tip(c) != goal
    ensures Tip(c) in g
  {
    var p := c.path;
    if |p| > 1 {
      assert IsEdge(g, p[|p| - 2], p[|p| - 1]);
    }
  }

  /** Dropping a candidate whose tip is already expanded keeps the invariant. */
  lemma PopStep<N>(g: Graph<N>, start: N, goal: N, width: int, queue: seq<Candidate<N>>, visited: set<N>, seen: set<N>)
    requires Searching(g, start, goal, width, queue, visited, seen) && queue != []
    requires |queue[0].path| > 0 && Tip(queue[0]) in visited
    ensures Searching(g, start, goal, width, queue[1..], visited, seen)
  {
    assert queue == [queue[0]] + queue[1..];
    if Wide(g, width) {
      forall x | x in seen ensures x in visited || Holds(queue[1..], x) {
        if x !in visited {
          var c :| c in queue && |c.path| > 0 && Tip(c) == x;
          assert c in queue[1..];
        }
      }
    }
  }

  /** Every candidate after an expansion is valid: the old ones, and the new ones one edge longer. */
  lemma GrownValid<N>(g: Graph<N>, start: N, node: N, c0: Candidate<N>, visited: set<N>,
                      rest: seq<Candidate<N>>, grown: seq<Candidate<N>>)
    requires Valid(g, start, c0) && Tip(c0) == node && (forall c :: c in rest ==> Valid(g, start, c))
    requires ExpandLoop(g, node, c0.cost, c0.path, visited, rest, {}, grown)
    ensures forall c :: c in grown ==> Valid(g, start, c)
  {
    forall c | c in grown ensures Valid(g, start, c) {
      var i :| 0 <= i < |grown| && grown[i] == c;
      if i < |rest| {
        assert grown[..|rest|][i] == c;
      } else {
        assert Extends(g, node, c0.cost, c0.path, visited, c);
        var v := c.path[|c0.path|];
        assert c.path == c0.path + [v];
        PathAppend(g, c0.path, v);
      }
    }
  }

  /** Summing non-negative values over a larger set gives no less. */
  lemma {:induction false} SumSubset<N>(m: map<N, int>, ks: set<N>, ks2: set<N>)
    requires ks <= ks2 <= m.Keys && forall k :: k in ks2 ==> m[k] >= 0
    ensures Sum(m, ks) <= Sum(m, ks2)
    decreases ks2
  {
    if ks != ks2 {
      var x :| x in ks2 && x !in ks;
      SumPick(m, ks2, x);
      SumSubset(m, ks, ks2 - {x});
    }
  }

  /** The queue after an expansion: the old queue without its first entry, then the new candidates. */
  ghost predicate AfterExpand<N>(g: Graph<N>, queue: seq<Candidate<N>>, visited: set<N>, grown: seq<Candidate<N>>)
  {
    && queue != [] && |queue[0].path| > 0 && Tip(queue[0]) in g
    && ExpandLoop(g, Tip(queue[0]), queue[0].cost, queue[0].path, visited + {Tip(queue[0])}, queue[1..], {}, grown)
  }

  /** The queue grows by at most the expanded node's out-degree. */
  lemma GrownBound<N>(g: Graph<N>, queue: seq<Candidate<N>>, visited: set<N>, grown: seq<Candidate<N>>)
    requires AfterExpand(g, queue, visited, grown) && Tip(queue[0]) !in visited && visited <= g.Keys
    requires |queue| <= 1 + Sum(Degrees(g), visited)
    ensures |grown| <= Sum(Degrees(g), visited + {Tip(queue[0])})
  {
    var node := Tip(queue[0]);
    var visited' := visited + {node};
    assert ExpandLoop(g, node, queue[0].cost, queue[0].path, visited', queue[1..], {}, grown);
    assert g[node].Keys - {} == g[node].Keys;
    assert |grown| == |queue| - 1 + |g[node].Keys - visited'|;
    DiffCard(g[node].Keys, visited');
    SumPick(Degrees(g), visited', node);
    assert visited' - {node} == visited;
    assert Degrees(g)[node] == |g[node].Keys|;
  }

  /** Taking elements away leaves no more. */
  lemma DiffCard<T>(a: set<T>, b: set<T>)
    ensures |a - b| <= |a|
  {
    assert a == (a - b) + (a * b);
    assert (a - b) * (a * b) == {};
  }

  /** Every candidate after an expansion ends at a seen node. */
  lemma GrownTips<N>(g: Graph<N>, queue: seq<Candidate<N>>, visited: set<N>, seen: set<N>, grown: seq<Candidate<N>>)
    requires AfterExpand(g, queue, visited, grown)
    requires forall c :: c in queue ==> |c.path| > 0 && Tip(c) in seen
    ensures forall c :: c in grown ==> |c.path| > 0 && Tip(c) in seen + (g[Tip(queue[0])].Keys - (visited + {Tip(queue[0])}))
  {
    var c0, node, rest := queue[0], Tip(queue[0]), queue[1..];
    forall c | c in grown ensures |c.path| > 0 && Tip(c) in seen + (g[node].Keys - (visited + {node})) {
      var i :| 0 <= i < |grown| && grown[i] == c;
      if i < |rest| {
        assert grown[..|rest|][i] == c;
        assert c in queue;
      } else {
        assert Extends(g, node, c0.cost, c0.path, visited + {node}, c);
      }
    }
  }

  /** Every seen node is expanded or ends a queued candidate after an expansion too. */
  lemma GrownHolds<N>(g: Graph<N>, queue: seq<Candidate<N>>, visited: set<N>, seen: set<N>, grown: seq<Candidate<N>>)
    requires AfterExpand(g, queue, visited, grown)
    requires forall x :: x in seen ==> x in visited || Holds(queue, x)
    ensures forall x :: x in seen + (g[Tip(queue[0])].Keys - (visited + {Tip(queue[0])})) ==>
              x in visited + {Tip(queue[0])} || Holds(grown, x)
  {
    var c0, node, rest := queue[0], Tip(queue[0]), queue[1..];
    var visited' := visited + {node};
    assert queue == [c0] + rest;
    forall x | x in seen + (g[node].Keys - visited') ensures x in visited' || Holds(grown, x) {
      if x in seen && x !in visited' {
        var c :| c in queue && |c.path| > 0 && Tip(c) == x;
        assert c in rest;
        var i :| 0 <= i < |rest| && rest[i] == c;
        assert grown[..|rest|][i] == c;
        assert grown[i] == c;
      } else if x !in seen {
        var c := NextCandidate(g, node, c0.cost, c0.path, x);
        assert c in grown && Tip(c) == x;
      }
    }
  }

  /** The expanded nodes, the new one included, have all their neighbours seen. */
  lemma GrownFinished<N>(g: Graph<N>, node: N, visited: set<N>, seen: set<N>)
    requires node in g && visited + {node} <= seen && forall x :: x in visited ==> Finished(g, seen, x)
    ensures forall x :: x in visited + {node} ==> Finished(g, seen + (g[node].Keys - (visited + {node})), x)
  {
    var seen' := seen + (g[node].Keys - (visited + {node}));
    forall x | x in visited + {node} ensures Finished(g, seen', x) {
      if x != node {
        assert Finished(g, seen, x);
      } else {
        forall y | y in g[node] ensures y in seen' {
        }
      }
    }
  }

  /**
   * After an expansion with nothing cut yet, the search is still complete: the
   * expanded node's neighbours are seen, the new ones queued, and the queue
   * grew by no more than the node's out-degree.
   */
  lemma GrownComplete<N>(g: Graph<N>, start: N, queue: seq<Candidate<N>>, visited: set<N>, seen: set<N>,
                         grown: seq<Candidate<N>>)
    requires Complete(g, start, queue, visited, seen) && AfterExpand(g, queue, visited, grown) && Tip(queue[0]) !in visited
    ensures Complete(g, start, grown, visited + {Tip(queue[0])}, seen + (g[Tip(queue[0])].Keys - (visited + {Tip(queue[0])})))
    ensures |grown| <= Sum(Degrees(g), visited + {Tip(queue[0])})
  {
    assert queue[0] in queue;
    GrownBound(g, queue, visited, grown);
    GrownTips(g, queue, visited, seen, grown);
    GrownHolds(g, queue, visited, seen, grown);
    GrownFinished(g, Tip(queue[0]), visited, seen);
  }

  /** A complete search stays complete when the beam keeps every candidate. */
  lemma PrunedComplete<N>(g: Graph<N>, start: N, grown: seq<Candidate<N>>, visited: set<N>, seen: set<N>,
                          pruned: seq<Candidate<N>>)
    requires Complete(g, start, grown, visited, seen) && multiset(pruned) == multiset(grown)
    ensures Complete(g, start, pruned, visited, seen)
  {
    assert |pruned| == |multiset(pruned)| == |grown|;
    forall c | c in pruned ensures c in grown {
      assert c in multiset(pruned);
    }
    forall x | x in seen && x !in visited ensures Holds(pruned, x) {
      var c :| c in grown && |c.path| > 0 && Tip(c) == x;
      assert c in multiset(grown);
    }
  }

  /**
   * Expanding the first candidate's tip, queueing its neighbours and pruning
   * keeps the invariant, with the tip expanded and its new neighbours seen.
   */
  lemma ExpandStep<N>(g: Graph<N>, start: N, goal: N, width: int, queue: seq<Candidate<N>>, visited: set<N>, seen: set<N>,
                      grown: seq<Candidate<N>>)
    requires Searching(g, start, goal, width, queue, visited, seen) && queue != []
    requires |queue[0].path| > 0 && Tip(queue[0]) in g && Tip(queue[0]) !in visited && Tip(queue[0]) != goal
    requires ExpandLoop(g, Tip(queue[0]), queue[0].cost, queue[0].path, visited + {Tip(queue[0])}, queue[1..], {}, grown)
    ensures Searching(g, start, goal, width, Prune(grown, width), visited + {Tip(queue[0])},
                      seen + (g[Tip(queue[0])].Keys - (visited + {Tip(queue[0])})))
  {
    var node := Tip(queue[0]);
    assert queue[0] in queue;
    forall c | c in queue[1..] ensures Valid(g, start, c) {
      assert c in queue;
    }
    GrownValid(g, start, node, queue[0], visited + {node}, queue[1..], grown);
    var pruned := Prune(grown, width);
    forall c | c in pruned ensures Valid(g, start, c) {
      assert c in multiset(pruned);
    }
    if Wide(g, width) {
      GrownComplete(g, start, queue, visited, seen, grown);
      SumSubset(Degrees(g), visited + {node}, g.Keys);
      PrunedComplete(g, start, grown, visited + {node}, seen + (g[node].Keys - (visited + {node})), pruned);
    }
  }

  /** With nothing cut and the queue empty, every node reachable from start was expanded, and the goal never was. */
  lemma NoneLeft<N(!new)>(g: Graph<N>, start: N, goal: N, width: int, visited: set<N>, seen: set<N>)
    requires Searching(g, start, goal, width, [], visited, seen) && Wide(g, width)
    ensures !Reachable(g, start, goal)
  {
    forall x, y | x in seen && x in g && y in g[x] ensures y in seen {
      assert !Holds([], x);
      assert Finished(g, seen, x);
    }
    if Reachable(g, start, goal) {
      var p :| PathFrom(g, p, start, goal);
      ReachableKnown(g, seen, start, p, goal);
    }
  }

  /** The first queued candidate is valid. */
  lemma FirstValid<N>(g: Graph<N>, start: N, goal: N, width: int, queue: seq<Candidate<N>>, visited: set<N>, seen: set<N>)
    requires Searching(g, start, goal, width, queue, visited, seen) && queue != []
    ensures Valid(g, start, queue[0])
  {
    assert queue[0] in queue;
  }

  /** A valid candidate that ends at the goal is a path to it, which is then reachable. */
  lemma Arrived<N(!new)>(g: Graph<N>, start: N, goal: N, c: Candidate<N>)
    requires Valid(g, start, c) && Tip(c) == goal
    ensures PathFrom(g, c.path, start, goal) && c.cost == PathWeight(g, c.path)
    ensures Reachable(g, start, goal)
  {
  }

  /** `expanded` lists the nodes of `visited`, each once, in the order they were expanded. */
  ghost predicate Record<N(!new)>(expanded: seq<N>, visited: set<N>)
  {
    Distinct(expanded) && forall x :: x in expanded <==> x in visited
  }

  /** Expanding a node not yet visited appends it to the record without repeating a node. */
  lemma RecordStep<N(!new)>(expanded: seq<N>, visited: set<N>, node: N)
    requires Record(expanded, visited) && node !in visited
    ensures Record(expanded + [node], visited + {node})
  {
    var e := expanded + [node];
    forall i, j | 0 <= i < j < |e| ensures e[i] != e[j] {
      if j < |expanded| {
        assert e[i] == expanded[i] && e[j] == expanded[j];
      } else {
        assert e[i] == expanded[i];
      }
    }
  }

  /** A record of visited nodes of the graph is no longer than the graph has nodes. */
  lemma RecordBound<N(!new)>(g: Graph<N>, expanded: seq<N>, visited: set<N>)
    requires Record(expanded, visited) && visited <= g.Keys
    ensures |expanded| <= |g|
  {
    forall i | 0 <= i < |expanded| ensures expanded[i] in g.Keys {
      assert expanded[i] in expanded;
    }
    DistinctBound(expanded, g.Keys);
  }

  /**
   * The whole search. A result is a path from start to the goal whose cost is
   * its weight. With a beam wider than the graph has edges nothing is ever cut,
   * and then `None` comes back exactly when the goal cannot be reached.
   * `expanded` lists the nodes whose neighbours were queued: each once at most,
   * none of them the goal, so no more than the graph has nodes.
   */
  method BeamSearch<N(!new)>(g: Graph<N>, start: N, goal: N, width: int) returns (r: Option<Found<N>>, ghost expanded: seq<N>)
    requires Closed(g) && (start in g || start == goal)
    ensures r.Some? ==> PathFrom(g, r.value.path, start, goal) && r.value.cost == PathWeight(g, r.value.path)
    ensures width > EdgeCount(g) ==> (r.None? <==> !Reachable(g, start, goal))
    ensures Distinct(expanded) && |expanded| <= |g|
    ensures forall i :: 0 <= i < |expanded| ==> expanded[i] in g && expanded[i] != goal
  {
    var visited: set<N> := {};
    var queue := [Candidate(0, [start])];
    ghost var seen := {start};
    expanded := [];
    SearchStart(g, start, goal, width);
    while queue != []
      invariant Searching(g, start, goal, width, queue, visited, seen)
      invariant Record(expanded, visited)
      decreases |(g.Keys + {start}) - visited|, |queue|
    {
      FirstValid(g, start, goal, width, queue, visited, seen);
      var cost, path := queue[0].cost, queue[0].path;
      var node := path[|path| - 1];
      if node == goal {
        Arrived(g, start, goal, queue[0]);
        RecordBound(g, expanded, visited);
        return Some(Found(path, cost)), expanded;
      }
      if node !in visited {
        TipInGraph(g, start, goal, queue[0]);
        var grown := Expand(g, node, cost, path, visited + {node}, queue[1..]);
        ExpandStep(g, start, goal, width, queue, visited, seen, grown);
        FewerLeft(g.Keys + {start}, visited, visited + {node});
        RecordStep(expanded, visited, node);
        expanded := expanded + [node];
        visited := visited + {node};
        seen := seen + (g[node].Keys - visited);
        queue := Prune(grown, width);
      } else {
        PopStep(g, start, goal, width, queue, visited, seen);
        queue := queue[1..];
      }
    }
    if Wide(g, width) {
      NoneLeft(g, start, goal, width, visited, seen);
    }
    RecordBound(g, expanded, visited);
    return None, expanded;
  }
}
