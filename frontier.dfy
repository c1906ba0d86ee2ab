/**
 * The frontiers of `a_star` (a `PriorityQueue` of `(priority, node)`), `bfs`
 * (a deque of `(node, cost)`) and `dfs` (a stack of `(node, cost)`), all as a
 * sequence of node/number items, and the coverage fact that makes an emptied
 * frontier mean "every reachable node has been seen".
 */
module Frontier {
  import opened Graphs

  /** One frontier item: a node and the number stored with it (a priority or a cost). */
  datatype Item<N> = Item(node: N, key: int)

  ghost predicate Queued<N>(frontier: seq<Item<N>>, x: N)
  {
    exists i :: 0 <= i < |frontier| && frontier[i].node == x
  }

  /** A known node whose out-neighbours are all known. */
  ghost predicate Finished<N>(g: Graph<N>, known: set<N>, x: N)
  {
    x in g ==> forall y :: y in g[x] ==> y in known
  }

  /**
   * Every queued node is known, and every known node outside `skip` is still
   * queued or finished.
   */
  ghost predicate Covered<N>(g: Graph<N>, frontier: seq<Item<N>>, known: set<N>, skip: set<N>)
  {
    && (forall i :: 0 <= i < |frontier| ==> frontier[i].node in known)
    && (forall x {:trigger Finished(g, known, x)} :: x in known && x !in skip ==> Queued(frontier, x) || Finished(g, known, x))
  }

  /** Taking the item at index k out leaves every node covered except, possibly, the taken one. */
  lemma PopCovered<N>(g: Graph<N>, frontier: seq<Item<N>>, known: set<N>, k: nat)
    requires k < |frontier| && Covered(g, frontier, known, {})
    ensures frontier[k].node in known
    ensures Covered(g, RemoveAt(frontier, k), known, {frontier[k].node})
  {
    var rest := RemoveAt(frontier, k);
    forall x | x in known && x != frontier[k].node && Queued(frontier, x) ensures Queued(rest, x) {
      var i :| 0 <= i < |frontier| && frontier[i].node == x;
      if i < k {
        assert rest[i] == frontier[i];
      } else {
        assert rest[i - 1] == frontier[i];
      }
    }
  }

  /** Popping the newest item of a stack, as `list.pop()` does. */
  lemma PopLastCovered<N>(g: Graph<N>, stack: seq<Item<N>>, known: set<N>)
    requires |stack| > 0 && Covered(g, stack, known, {})
    ensures stack[|stack| - 1].node in known
    ensures Covered(g, stack[..|stack| - 1], known, {stack[|stack| - 1].node})
  {
    PopCovered(g, stack, known, |stack| - 1);
    assert RemoveAt(stack, |stack| - 1) == stack[..|stack| - 1];
  }

  /** Taking the oldest item of a queue, as `deque.popleft()` does. */
  lemma PopFirstCovered<N>(g: Graph<N>, queue: seq<Item<N>>, known: set<N>)
    requires |queue| > 0 && Covered(g, queue, known, {})
    ensures queue[0].node in known
    ensures Covered(g, queue[1..], known, {queue[0].node})
  {
    PopCovered(g, queue, known, 0);
    assert RemoveAt(queue, 0) == queue[1..];
  }

  /** Labelling a node and queueing it keeps everything else covered. */
  lemma PushCovered<N>(g: Graph<N>, frontier: seq<Item<N>>, known: set<N>, skip: set<N>, item: Item<N>)
    requires Covered(g, frontier, known, skip)
    ensures Covered(g, frontier + [item], known + {item.node}, skip)
  {
    var frontier', known' := frontier + [item], known + {item.node};
    forall x | x in known' && x !in skip ensures Queued(frontier', x) || Finished(g, known', x) {
      if x == item.node {
        assert frontier'[|frontier|] == item;
      } else if Queued(frontier, x) {
        var i :| 0 <= i < |frontier| && frontier[i].node == x;
        assert frontier'[i] == frontier[i];
      } else {
        assert Finished(g, known, x);
      }
    }
  }

  /** A node all of whose out-neighbours are known no longer needs to be skipped. */
  lemma FinishCovered<N>(g: Graph<N>, frontier: seq<Item<N>>, known: set<N>, u: N)
    requires Covered(g, frontier, known, {u}) && u in known
    requires u in g ==> forall y :: y in g[u] ==> y in known
    ensures Covered(g, frontier, known, {})
  {
  }

  /** Once the frontier is empty, the known nodes are closed under the edges. */
  lemma EmptyCovered<N>(g: Graph<N>, known: set<N>)
    requires Covered(g, [], known, {})
    ensures ClosedUnder(g, known)
  {
    forall x, y | x in known && x in g && y in g[x] ensures y in known {
      assert !Queued([], x);
      assert Finished(g, known, x);
    }
  }
}
