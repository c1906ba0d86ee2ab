/**
 * `bidirectional_search` from path_finding.py on an undirected graph: a forward
 * queue and `came_from` map grown from start, a backward pair grown from the
 * goal, one node taken from each queue in turn, a stop at the first neighbour
 * the other side has already seen, and `get_path`, which stitches the two parent
 * chains together at that node.
 *
 * The intersection is an `Option`, so every meeting node ends the search. The
 * source tests the node's truth value instead, and so passes over a meeting node
 * such as 0 or the empty string; the model does not follow it there.
 * Until an intersection is found the two sides have seen disjoint sets of nodes
 * (when start and goal differ), and an emptied queue means its side has seen
 * everything it can reach; so `None` comes back exactly when the goal cannot be
 * reached. When start and goal coincide the sides share start from the outset,
 * and the source returns `None` for an isolated start and a round trip through a
 * neighbour otherwise.
 */
module Bidirectional {
  import opened Graphs
  import opened Frontier

  /** v's parent is a node of the same side, joined to v by an edge, and seen earlier. */
  ghost predicate SideOk<N>(g: Graph<N>, cameFrom: map<N, Option<N>>, stamp: map<N, nat>, v: N)
  {
    && v in cameFrom && v in stamp && cameFrom[v].Some?
    && var u := cameFrom[v].value;
    && u in cameFrom && u in stamp && IsEdge(g, u, v) && stamp[u] < stamp[v]
  }

  /**
   * One side's `came_from`: its root with no parent, every other node with a
   * parent as above; `stamp` (ghost) records when each node was first seen.
   */
  ghost predicate Side<N>(g: Graph<N>, root: N, cameFrom: map<N, Option<N>>, stamp: map<N, nat>, clock: nat)
  {
    && cameFrom.Keys == stamp.Keys && cameFrom.Keys <= g.Keys
    && root in cameFrom && cameFrom[root] == None
    && (forall v {:trigger SideOk(g, cameFrom, stamp, v)} :: v in cameFrom && v != root ==> SideOk(g, cameFrom, stamp, v))
    && (forall v {:trigger stamp[v]} :: v in stamp ==> stamp[v] < clock)
  }

  /**
   * Every queued node has been seen, and every seen node outside `skip` is still
   * queued or has had all its neighbours seen.
   */
  ghost predicate QueueCovered<N>(g: Graph<N>, queue: seq<N>, known: set<N>, skip: set<N>)
  {
    && (forall i :: 0 <= i < |queue| ==> queue[i] in known)
    && (forall x {:trigger Finished(g, known, x)} :: x in known && x !in skip ==> x in queue || Finished(g, known, x))
  }

  /** `queue.pop(0)`: the node taken has been seen, and the rest stay covered. */
  lemma QueuePop<N>(g: Graph<N>, queue: seq<N>, known: set<N>)
    requires |queue| > 0 && QueueCovered(g, queue, known, {})
    ensures queue[0] in known && QueueCovered(g, queue[1..], known, {queue[0]})
  {
    forall x | x in known && x != queue[0] && x in queue ensures x in queue[1..] {
      var i :| 0 <= i < |queue| && queue[i] == x;
      assert queue[1..][i - 1] == x;
    }
  }

  /** Once the queue is empty, the nodes seen are closed under the edges. */
  lemma QueueEmpty<N>(g: Graph<N>, known: set<N>)
    requires QueueCovered(g, [], known, {})
    ensures ClosedUnder(g, known)
  {
    forall x, y | x in known && x in g && y in g[x] ensures y in known {
      assert Finished(g, known, x);
    }
  }

  /**
   * The invariant of the neighbour loop of `Visit`; `rest` holds the neighbours
   * not yet looked at, `known0` the nodes seen before the loop.
   */
  ghost predicate VisitLoop<N>(g: Graph<N>, root: N, current: N, rest: set<N>, known0: set<N>,
                               queue0: seq<N>, queue: seq<N>, cameFrom: map<N, Option<N>>, stamp: map<N, nat>, clock: nat)
  {
    && Symmetric(g) && current in g && current in cameFrom && rest <= g[current].Keys
    && Side(g, root, cameFrom, stamp, clock)
    && known0 <= cameFrom.Keys
    && |g.Keys - cameFrom.Keys| + |queue| == |g.Keys - known0| + |queue0|
    && QueueCovered(g, queue, cameFrom.Keys, {current})
    && (forall y :: y in g[current] && y !in rest ==> y in cameFrom)
    && (forall y :: y in cameFrom && y !in known0 ==> y in g[current] && y !in rest)
  }

  /** None of the nodes seen since `known0` belongs to the other side. */
  ghost predicate NewApart<N>(known0: set<N>, known: set<N>, other: set<N>)
  {
    forall y :: y in known && y !in known0 ==> y !in other
  }

  /** Seeing v for the first time keeps the side's shape. */
  lemma SideNew<N>(g: Graph<N>, root: N, cameFrom: map<N, Option<N>>, stamp: map<N, nat>, clock: nat, u: N, v: N)
    requires Side(g, root, cameFrom, stamp, clock) && u in cameFrom && IsEdge(g, u, v) && v in g && v !in cameFrom
    ensures Side(g, root, cameFrom[v := Some(u)], stamp[v := clock], clock + 1)
  {
    var cameFrom', stamp' := cameFrom[v := Some(u)], stamp[v := clock];
    forall x | x in cameFrom' && x != root ensures SideOk(g, cameFrom', stamp', x) {
      if x != v {
        assert SideOk(g, cameFrom, stamp, x);
      }
    }
  }

  /** Queueing a node seen for the first time keeps every other node covered. */
  lemma QueueNew<N>(g: Graph<N>, queue: seq<N>, known: set<N>, skip: set<N>, v: N)
    requires QueueCovered(g, queue, known, skip)
    ensures QueueCovered(g, queue + [v], known + {v}, skip)
  {
    var queue', known' := queue + [v], known + {v};
    forall x | x in known' && x !in skip ensures x in queue' || Finished(g, known', x) {
      if x != v && x !in queue {
        assert Finished(g, known, x);
      }
    }
    forall i | 0 <= i < |queue'| ensures queue'[i] in known' {
      if i < |queue| {
        assert queue'[i] == queue[i];
      }
    }
  }

  /** A node of U seen for the first time and queued leaves the count of unseen plus queued unchanged. */
  lemma CountNew<N>(U: set<N>, known: set<N>, queue: seq<N>, v: N)
    requires v in U && v !in known
    ensures |U - (known + {v})| + |queue + [v]| == |U - known| + |queue|
  {
    assert U - known == (U - (known + {v})) + {v};
  }

  /** Seeing v for the first time: it gets `current` as its parent and joins the queue. */
  lemma VisitAdd<N>(g: Graph<N>, root: N, current: N, rest: set<N>, known0: set<N>,
                    queue0: seq<N>, queue: seq<N>, cameFrom: map<N, Option<N>>, stamp: map<N, nat>, clock: nat,
                    v: N, queue': seq<N>, cameFrom': map<N, Option<N>>)
    requires VisitLoop(g, root, current, rest, known0, queue0, queue, cameFrom, stamp, clock)
    requires v in rest && v !in cameFrom && queue' == queue + [v] && cameFrom' == cameFrom[v := Some(current)]
    ensures VisitLoop(g, root, current, rest - {v}, known0, queue0, queue', cameFrom', stamp[v := clock], clock + 1)
  {
    assert v in g[current] && v in g;
    SideNew(g, root, cameFrom, stamp, clock, current, v);
    assert cameFrom'.Keys == cameFrom.Keys + {v};
    QueueNew(g, queue, cameFrom.Keys, {current}, v);
    CountNew(g.Keys, cameFrom.Keys, queue, v);
  }

  /** A neighbour seen before is passed over. */
  lemma VisitSkip<N>(g: Graph<N>, root: N, current: N, rest: set<N>, known0: set<N>,
                     queue0: seq<N>, queue: seq<N>, cameFrom: map<N, Option<N>>, stamp: map<N, nat>, clock: nat, v: N)
    requires VisitLoop(g, root, current, rest, known0, queue0, queue, cameFrom, stamp, clock) && v in rest && v in cameFrom
    ensures VisitLoop(g, root, current, rest - {v}, known0, queue0, queue, cameFrom, stamp, clock)
  {
  }

  /** A neighbour that is not the other side's keeps the new nodes apart from it. */
  lemma ApartKept<N>(known0: set<N>, seen: set<N>, known: set<N>, other: set<N>, v: N)
    requires NewApart(known0, seen, other) && known <= seen + {v} && v !in other
    ensures NewApart(known0, known, other)
  {
  }

  /**
   * The `for neighbor in graph[current]` loop of one side: a neighbour not seen
   * yet gets `current` as its parent and joins the queue; the first neighbour the
   * other side has seen becomes the intersection and ends the loop. The map and
   * queue keep their shape, a node seen is a node fewer unseen and one more
   * queued, and without an intersection every neighbour has been seen and none
   * of the new nodes belongs to the other side.
   */
  method Visit<N>(g: Graph<N>, root: N, current: N, queue: seq<N>, cameFrom: map<N, Option<N>>, other: map<N, Option<N>>,
                  ghost stamp: map<N, nat>, ghost clock: nat)
    returns (queue': seq<N>, cameFrom': map<N, Option<N>>, ghost stamp': map<N, nat>, ghost clock': nat, intersection: Option<N>)
    requires Symmetric(g) && current in g && current in cameFrom
    requires Side(g, root, cameFrom, stamp, clock) && QueueCovered(g, queue, cameFrom.Keys, {current})
    ensures Side(g, root, cameFrom', stamp', clock') && cameFrom.Keys <= cameFrom'.Keys
    ensures |g.Keys - cameFrom'.Keys| + |queue'| == |g.Keys - cameFrom.Keys| + |queue|
    ensures intersection.None? ==> QueueCovered(g, queue', cameFrom'.Keys, {})
    ensures intersection.None? ==> NewApart(cameFrom.Keys, cameFrom'.Keys, other.Keys)
    ensures intersection.Some? ==> var x := intersection.value;
      && x in cameFrom' && x in other && IsEdge(g, current, x) && (x !in cameFrom ==> x in queue')
  {
    queue', cameFrom', stamp', clock' := queue, cameFrom, stamp, clock;
    intersection := None;
    var rest := g[current].Keys;
    while rest != {}
      invariant VisitLoop(g, root, current, rest, cameFrom.Keys, queue, queue', cameFrom', stamp', clock')
      invariant NewApart(cameFrom.Keys, cameFrom'.Keys, other.Keys)
      decreases rest
    {
      var neighbor :| neighbor in rest;
      ghost var seen := cameFrom'.Keys;
      if neighbor !in cameFrom' {
        var nextQueue, nextCameFrom := queue' + [neighbor], cameFrom'[neighbor := Some(current)];
        VisitAdd(g, root, current, rest, cameFrom.Keys, queue, queue', cameFrom', stamp', clock', neighbor, nextQueue, nextCameFrom);
        queue', cameFrom' := nextQueue, nextCameFrom;
        stamp', clock' := stamp'[neighbor := clock'], clock' + 1;
      } else {
        VisitSkip(g, root, current, rest, cameFrom.Keys, queue, queue', cameFrom', stamp', clock', neighbor);
      }
      if neighbor in other {
        intersection := Some(neighbor);
        return;
      }
      ApartKept(cameFrom.Keys, seen, cameFrom'.Keys, other.Keys, neighbor);
      rest := rest - {neighbor};
    }
    assert Finished(g, cameFrom'.Keys, current);
  }

  /**
   * The first walk of `get_path` so far: `walked` lists x and its ancestors on one
   * side, newest last, and `node` is the parent of the newest one (x itself
   * before the first step).
   */
  ghost predicate Climbing<N>(g: Graph<N>, side: map<N, Option<N>>, x: N, walked: seq<N>, node: Option<N>)
  {
    && (walked == [] ==> node == Some(x))
    && (walked != [] ==> walked[0] == x && walked[|walked| - 1] in side && node == side[walked[|walked| - 1]]
                         && PathFrom(g, Reverse(walked), walked[|walked| - 1], x))
    && (node.Some? ==> node.value in side)
  }

  /** One step of the first walk: the parent joins `walked`, and its own parent was seen earlier still. */
  lemma ClimbStep<N>(g: Graph<N>, root: N, side: map<N, Option<N>>, stamp: map<N, nat>, clock: nat, x: N, walked: seq<N>, v: N)
    requires Side(g, root, side, stamp, clock) && Climbing(g, side, x, walked, Some(v))
    ensures Climbing(g, side, x, walked + [v], side[v])
    ensures side[v].Some? ==> v in stamp && side[v].value in stamp && stamp[side[v].value] < stamp[v]
  {
    if walked != [] {
      assert SideOk(g, side, stamp, walked[|walked| - 1]);
      PathPrepend(g, v, Reverse(walked));
    }
    ReverseSnoc(walked, v);
    assert v == root || SideOk(g, side, stamp, v);
  }

  /** The first walk ends at the root: reversed, it is a path from the root to x. */
  lemma ClimbEnd<N>(g: Graph<N>, root: N, side: map<N, Option<N>>, stamp: map<N, nat>, clock: nat, x: N, walked: seq<N>)
    requires Side(g, root, side, stamp, clock) && Climbing(g, side, x, walked, None)
    ensures PathFrom(g, Reverse(walked), root, x) && x in Reverse(walked)
  {
    assert walked[|walked| - 1] == root || SideOk(g, side, stamp, walked[|walked| - 1]);
    ReverseSnoc(walked[..|walked| - 1], walked[|walked| - 1]);
    assert walked == walked[..|walked| - 1] + [walked[|walked| - 1]];
    assert Reverse(walked)[|walked| - 1] == x;
  }

  /**
   * The second walk of `get_path` so far: a path from start through x whose
   * newest node lies on the backward side, and `node` is that node's parent there.
   */
  ghost predicate Descending<N>(g: Graph<N>, start: N, side: map<N, Option<N>>, x: N, path: seq<N>, node: Option<N>)
  {
    && |path| > 0 && PathFrom(g, path, start, path[|path| - 1]) && x in path
    && path[|path| - 1] in side && node == side[path[|path| - 1]]
    && (node.Some? ==> node.value in side)
  }

  /** One step of the second walk: the parent is appended along the edge back to it. */
  lemma DescendStep<N>(g: Graph<N>, start: N, root: N, side: map<N, Option<N>>, stamp: map<N, nat>, clock: nat,
                       x: N, path: seq<N>, v: N)
    requires Symmetric(g) && Side(g, root, side, stamp, clock) && Descending(g, start, side, x, path, Some(v))
    ensures Descending(g, start, side, x, path + [v], side[v])
    ensures side[v].Some? ==> v in stamp && side[v].value in stamp && stamp[side[v].value] < stamp[v]
  {
    var last := path[|path| - 1];
    assert SideOk(g, side, stamp, last);
    assert IsEdge(g, last, v);
    PathAppend(g, path, v);
    assert v == root || SideOk(g, side, stamp, v);
  }

  /** The second walk ends at the root of the backward side. */
  lemma DescendEnd<N>(g: Graph<N>, start: N, root: N, side: map<N, Option<N>>, stamp: map<N, nat>, clock: nat,
                      x: N, path: seq<N>)
    requires Side(g, root, side, stamp, clock) && Descending(g, start, side, x, path, None)
    ensures PathFrom(g, path, start, root)
  {
    assert path[|path| - 1] == root || SideOk(g, side, stamp, path[|path| - 1]);
  }

  /**
   * `get_path`: walk the forward chain from the intersection back to start,
   * reverse it, then follow the backward chain from the intersection's parent on
   * to the goal. The result is a path from start to the goal through the
   * intersection.
   */
  method GetPath<N>(g: Graph<N>, start: N, goal: N, forward: map<N, Option<N>>, backward: map<N, Option<N>>, x: N,
                    ghost fstamp: map<N, nat>, ghost fclock: nat, ghost bstamp: map<N, nat>, ghost bclock: nat)
    returns (path: seq<N>)
    requires Symmetric(g) && Side(g, start, forward, fstamp, fclock) && Side(g, goal, backward, bstamp, bclock)
    requires x in forward && x in backward
    ensures PathFrom(g, path, start, goal) && x in path
  {
    var walked: seq<N> := [];
    var node := Some(x);
    while node.Some?
      invariant Climbing(g, forward, x, walked, node)
      decreases if node.Some? && node.value in fstamp then fstamp[node.value] + 1 else 0
    {
      ClimbStep(g, start, forward, fstamp, fclock, x, walked, node.value);
      walked := walked + [node.value];
      node := forward[walked[|walked| - 1]];
    }
    ClimbEnd(g, start, forward, fstamp, fclock, x, walked);
    path := Reverse(walked);
    assert x == goal || SideOk(g, backward, bstamp, x);
    node := backward[x];
    while node.Some?
      invariant Descending(g, start, backward, x, path, node)
      decreases if node.Some? && node.value in bstamp then bstamp[node.value] + 1 else 0
    {
      DescendStep(g, start, goal, backward, bstamp, bclock, x, path, node.value);
      path := path + [node.value];
      node := backward[path[|path| - 1]];
    }
    DescendEnd(g, start, goal, backward, bstamp, bclock, x, path);
  }

  /** The invariant of the main loop, as it stands at the top of each round. */
  ghost predicate Searching<N>(g: Graph<N>, start: N, goal: N,
                               fq: seq<N>, forward: map<N, Option<N>>, fstamp: map<N, nat>, fclock: nat,
                               bq: seq<N>, backward: map<N, Option<N>>, bstamp: map<N, nat>, bclock: nat,
                               intersection: Option<N>)
  {
    && Symmetric(g)
    && Side(g, start, forward, fstamp, fclock) && Side(g, goal, backward, bstamp, bclock)
    && (intersection.None? ==>
          && QueueCovered(g, fq, forward.Keys, {}) && QueueCovered(g, bq, backward.Keys, {})
          && (start != goal ==> forall y :: y in forward ==> y !in backward))
    && (intersection.Some? ==>
          && intersection.value in forward && intersection.value in backward
          && (start != goal ==> fq != [] && bq != []))
  }

  /**
   * When the backward side meets a node the forward side has seen, both queues
   * are still non-empty: the meeting node is new to the backward side, so it was
   * queued, and the forward queue cannot have run dry, since the forward side
   * would then have seen the backward node the meeting node is joined to.
   */
  lemma BackwardMeet<N>(g: Graph<N>, fq: seq<N>, forward: set<N>, backward: set<N>, b: N, n: N, bq': seq<N>)
    requires Symmetric(g) && QueueCovered(g, fq, forward, {})
    requires forall y :: y in forward ==> y !in backward
    requires b in backward && IsEdge(g, b, n) && n in forward && (n !in backward ==> n in bq')
    ensures fq != [] && bq' != []
  {
    assert n !in backward;
    if fq == [] {
      QueueEmpty(g, forward);
    }
  }

  /** When a queue has run dry with the sides still apart, the goal cannot be reached. */
  lemma Apart<N(!new)>(g: Graph<N>, start: N, goal: N, fq: seq<N>, forward: set<N>, bq: seq<N>, backward: set<N>)
    requires Symmetric(g) && start in forward && goal in backward
    requires QueueCovered(g, fq, forward, {}) && QueueCovered(g, bq, backward, {})
    requires forall y :: y in forward ==> y !in backward
    requires fq == [] || bq == []
    ensures !Reachable(g, start, goal)
  {
    if Reachable(g, start, goal) {
      var p :| PathFrom(g, p, start, goal);
      if fq == [] {
        QueueEmpty(g, forward);
        ReachableKnown(g, forward, start, p, goal);
      } else {
        QueueEmpty(g, backward);
        PathReverse(g, p, start, goal);
        ReachableKnown(g, backward, goal, Reverse(p), start);
      }
    }
  }

  /**
   * The forward half of a round keeps the invariant: the forward side has grown
   * by its visit of the node taken, and a meeting node is one both sides have seen.
   */
  lemma ForwardKept<N>(g: Graph<N>, start: N, goal: N,
                       fq: seq<N>, forward: map<N, Option<N>>, fstamp: map<N, nat>, fclock: nat,
                       bq: seq<N>, backward: map<N, Option<N>>, bstamp: map<N, nat>, bclock: nat,
                       fq': seq<N>, forward': map<N, Option<N>>, fstamp': map<N, nat>, fclock': nat, x: Option<N>)
    requires Searching(g, start, goal, fq, forward, fstamp, fclock, bq, backward, bstamp, bclock, None) && bq != []
    requires Side(g, start, forward', fstamp', fclock') && forward.Keys <= forward'.Keys
    requires x.None? ==> QueueCovered(g, fq', forward'.Keys, {}) && NewApart(forward.Keys, forward'.Keys, backward.Keys)
    requires x.Some? ==> x.value in forward' && x.value in backward && (x.value !in forward ==> x.value in fq')
    ensures Searching(g, start, goal, fq', forward', fstamp', fclock', bq, backward, bstamp, bclock, x)
  {
  }

  /**
   * The backward half of a round keeps the invariant; a meeting node leaves both
   * queues non-empty, so the next round reaches `get_path`.
   */
  lemma BackwardKept<N>(g: Graph<N>, start: N, goal: N,
                        fq: seq<N>, forward: map<N, Option<N>>, fstamp: map<N, nat>, fclock: nat,
                        bq: seq<N>, backward: map<N, Option<N>>, bstamp: map<N, nat>, bclock: nat,
                        current: N, bq': seq<N>, backward': map<N, Option<N>>, bstamp': map<N, nat>, bclock': nat, x: Option<N>)
    requires Searching(g, start, goal, fq, forward, fstamp, fclock, bq, backward, bstamp, bclock, None) && current in backward
    requires Side(g, goal, backward', bstamp', bclock') && backward.Keys <= backward'.Keys
    requires x.None? ==> QueueCovered(g, bq', backward'.Keys, {}) && NewApart(backward.Keys, backward'.Keys, forward.Keys)
    requires x.Some? ==> var n := x.value;
      && n in backward' && n in forward && IsEdge(g, current, n) && (n !in backward ==> n in bq')
    ensures Searching(g, start, goal, fq, forward, fstamp, fclock, bq', backward', bstamp', bclock', x)
  {
    if x.Some? && start != goal {
      BackwardMeet(g, fq, forward.Keys, backward.Keys, current, x.value, bq');
    }
  }

  /**
   * The forward half of a round: `forward_queue.pop(0)` and the visit of that
   * node. The invariant is kept and one node fewer is left to see or to take.
   */
  method ForwardStep<N>(g: Graph<N>, start: N, goal: N,
                        fq: seq<N>, forward: map<N, Option<N>>, ghost fstamp: map<N, nat>, ghost fclock: nat,
                        bq: seq<N>, backward: map<N, Option<N>>, ghost bstamp: map<N, nat>, ghost bclock: nat)
    returns (fq': seq<N>, forward': map<N, Option<N>>, ghost fstamp': map<N, nat>, ghost fclock': nat, intersection: Option<N>)
    requires Searching(g, start, goal, fq, forward, fstamp, fclock, bq, backward, bstamp, bclock, None) && fq != [] && bq != []
    ensures Searching(g, start, goal, fq', forward', fstamp', fclock', bq, backward, bstamp, bclock, intersection)
    ensures |g.Keys - forward'.Keys| + |fq'| < |g.Keys - forward.Keys| + |fq|
  {
    var current := fq[0];
    QueuePop(g, fq, forward.Keys);
    assert current in g;
    fq', forward', fstamp', fclock', intersection := Visit(g, start, current, fq[1..], forward, backward, fstamp, fclock);
    ForwardKept(g, start, goal, fq, forward, fstamp, fclock, bq, backward, bstamp, bclock, fq', forward', fstamp', fclock', intersection);
  }

  /** The backward half of a round, the mirror image of `ForwardStep`. */
  method BackwardStep<N>(g: Graph<N>, start: N, goal: N,
                         fq: seq<N>, forward: map<N, Option<N>>, ghost fstamp: map<N, nat>, ghost fclock: nat,
                         bq: seq<N>, backward: map<N, Option<N>>, ghost bstamp: map<N, nat>, ghost bclock: nat)
    returns (bq': seq<N>, backward': map<N, Option<N>>, ghost bstamp': map<N, nat>, ghost bclock': nat, intersection: Option<N>)
    requires Searching(g, start, goal, fq, forward, fstamp, fclock, bq, backward, bstamp, bclock, None) && bq != []
    ensures Searching(g, start, goal, fq, forward, fstamp, fclock, bq', backward', bstamp', bclock', intersection)
    ensures |g.Keys - backward'.Keys| + |bq'| < |g.Keys - backward.Keys| + |bq|
  {
    var current := bq[0];
    QueuePop(g, bq, backward.Keys);
    assert current in g;
    bq', backward', bstamp', bclock', intersection := Visit(g, goal, current, bq[1..], backward, forward, bstamp, bclock);
    BackwardKept(g, start, goal, fq, forward, fstamp, fclock, bq, backward, bstamp, bclock, current, bq', backward', bstamp', bclock', intersection);
  }

  /** The state before the first round: each side has seen and queued its own root. */
  lemma SearchStart<N>(g: Graph<N>, start: N, goal: N)
    requires Symmetric(g) && start in g && goal in g
    ensures Searching(g, start, goal, [start], map[start := None], map[start := 0], 1,
                      [goal], map[goal := None], map[goal := 0], 1, None)
  {
    assert [start][0] == start && [goal][0] == goal;
  }

  /**
   * The block the source repeats after each half round once an intersection is
   * known: `get_path`, then the sum of the weights of consecutive pairs. The path
   * leads from start to the goal, and the cost is its weight.
   */
  method Meet<N(!new)>(g: Graph<N>, start: N, goal: N, forward: map<N, Option<N>>, backward: map<N, Option<N>>, x: N,
                 ghost fstamp: map<N, nat>, ghost fclock: nat, ghost bstamp: map<N, nat>, ghost bclock: nat)
    returns (r: Found<N>)
    requires Symmetric(g) && Side(g, start, forward, fstamp, fclock) && Side(g, goal, backward, bstamp, bclock)
    requires x in forward && x in backward
    ensures PathFrom(g, r.path, start, goal) && r.cost == PathWeight(g, r.path)
    ensures Reachable(g, start, goal)
  {
    var path := GetPath(g, start, goal, forward, backward, x, fstamp, fclock, bstamp, bclock);
    var cost := PathCost(g, path);
    r := Found(path, cost);
  }

  /**
   * The whole search. A result is a path from start to the goal whose cost is
   * the sum of its edge weights; when start and goal differ, `None` comes back
   * exactly when the goal cannot be reached.
   */
  method BidirectionalSearch<N(!new)>(g: Graph<N>, start: N, goal: N) returns (r: Option<Found<N>>)
    requires Symmetric(g) && start in g && goal in g
    ensures r.Some? ==> PathFrom(g, r.value.path, start, goal) && r.value.cost == PathWeight(g, r.value.path)
    ensures start != goal ==> (r.None? <==> !Reachable(g, start, goal))
  {
    var fq, forward := [start], map[start := None];
    var bq, backward := [goal], map[goal := None];
    ghost var fstamp, fclock, bstamp, bclock := map[start := 0], 1, map[goal := 0], 1;
    var intersection: Option<N> := None;
    SearchStart(g, start, goal);
    while fq != [] && bq != []
      invariant Searching(g, start, goal, fq, forward, fstamp, fclock, bq, backward, bstamp, bclock, intersection)
      decreases |g.Keys - forward.Keys| + |fq| + |g.Keys - backward.Keys| + |bq|
    {
      if intersection.Some? {
        var found := Meet(g, start, goal, forward, backward, intersection.value, fstamp, fclock, bstamp, bclock);
        return Some(found);
      }
      fq, forward, fstamp, fclock, intersection := ForwardStep(g, start, goal, fq, forward, fstamp, fclock, bq, backward, bstamp, bclock);
      if intersection.Some? {
        var found := Meet(g, start, goal, forward, backward, intersection.value, fstamp, fclock, bstamp, bclock);
        return Some(found);
      }
      bq, backward, bstamp, bclock, intersection := BackwardStep(g, start, goal, fq, forward, fstamp, fclock, bq, backward, bstamp, bclock);
    }
    if start != goal {
      Apart(g, start, goal, fq, forward.Keys, bq, backward.Keys);
    }
    return None;
  }
}
