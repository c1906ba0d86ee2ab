/**
 * `floyd_warshall` from path_finding.py: all-pairs shortest distances over a
 * dense weight matrix, relaxed in place by the triple `k, i, j` loop, and the
 * two dictionary views of the result built by the nested `floyd_warshall_to_dict`.
 *
 * A matrix entry is an extended integer: `Inf` is the source's `math.inf`.
 * The matrix the algorithm starts from (`Initial`) has 0 on the diagonal and
 * reads an off-diagonal 0 as "no edge".
 */
module FloydWarshall {
  import opened Graphs

  type Matrix = seq<seq<Ext>>

  /** Every row has at least as many entries as there are rows, so `graph[i][j]` exists for all i, j < n. */
  ghost predicate WellFormed(graph: Matrix)
  {
    forall i :: 0 <= i < |graph| ==> |graph[i]| >= |graph|
  }

  ghost predicate Square(m: Matrix, n: nat)
  {
    |m| == n && forall i :: 0 <= i < n ==> |m[i]| == n
  }

  /** The distance the algorithm starts from for the pair (i, j). */
  function Initial(graph: Matrix, i: nat, j: nat): Ext
    requires WellFormed(graph) && i < |graph| && j < |graph|
  {
    if i == j then Fin(0) else if graph[i][j] != Fin(0) then graph[i][j] else Inf
  }

  // ---------------------------------------------------------------------
  // Walks in the matrix graph and their weights.

  ghost predicate InRange(n: nat, p: seq<nat>)
  {
    forall t :: 0 <= t < |p| ==> p[t] < n
  }

  /** A walk from i to j: a non-empty sequence of node indices below n. */
  ghost predicate Walk(n: nat, p: seq<nat>, i: nat, j: nat)
  {
    |p| > 0 && p[0] == i && p[|p| - 1] == j && InRange(n, p)
  }

  /** Every intermediate node of `p` (all but the two ends) is below k. */
  ghost predicate Via(p: seq<nat>, k: nat)
  {
    forall t :: 0 < t < |p| - 1 ==> p[t] < k
  }

  /**
   * Sum of the initial distances between consecutive nodes; `Inf` when one step has
   * no edge (a step off the matrix, which no walk takes, also counts as `Inf`).
   */
  ghost function WalkWeight(graph: Matrix, p: seq<nat>): Ext
    requires WellFormed(graph)
    decreases |p|
  {
    if |p| <= 1 then Fin(0)
    else
      var a, b := p[|p| - 2], p[|p| - 1];
      Add(WalkWeight(graph, p[..|p| - 1]), if a < |graph| && b < |graph| then Initial(graph, a, b) else Inf)
  }

  /** A closed walk: it ends where it starts. */
  ghost predicate Cycle(n: nat, p: seq<nat>)
  {
    |p| > 0 && InRange(n, p) && p[0] == p[|p| - 1]
  }

  /** Some walk from i to j weighs exactly `e`. */
  ghost predicate HasWitness(graph: Matrix, e: Ext, i: nat, j: nat)
    requires WellFormed(graph)
  {
    exists p {:trigger Walk(|graph|, p, i, j)} :: Walk(|graph|, p, i, j) && WalkWeight(graph, p) == e
  }

  /** Every closed walk weighs at least 0. */
  ghost predicate NoNegativeCycle(graph: Matrix)
    requires WellFormed(graph)
  {
    forall p {:trigger Cycle(|graph|, p)} :: Cycle(|graph|, p) ==> Le(Fin(0), WalkWeight(graph, p))
  }

  /** `e` is at most the weight of every walk from i to j whose intermediate nodes are below k. */
  ghost predicate Below(graph: Matrix, e: Ext, i: nat, j: nat, k: nat)
    requires WellFormed(graph)
  {
    forall p {:trigger Walk(|graph|, p, i, j)} :: Walk(|graph|, p, i, j) && Via(p, k) ==> Le(e, WalkWeight(graph, p))
  }

  /** `e` is finite as soon as some walk from i to j whose intermediate nodes are below k has a finite weight. */
  ghost predicate Reached(graph: Matrix, e: Ext, i: nat, j: nat, k: nat)
    requires WellFormed(graph)
  {
    forall p {:trigger Walk(|graph|, p, i, j)} :: Walk(|graph|, p, i, j) && Via(p, k) && WalkWeight(graph, p).Fin? ==> e.Fin?
  }

  /** Cutting a walk at position m splits its weight into the weights of the two pieces. */
  lemma {:induction false} WalkSplit(graph: Matrix, p: seq<nat>, m: nat)
    requires WellFormed(graph) && m < |p|
    ensures WalkWeight(graph, p) == Add(WalkWeight(graph, p[..m + 1]), WalkWeight(graph, p[m..]))
    decreases |p|
  {
    if m == |p| - 1 {
      assert p[..m + 1] == p;
    } else {
      var q, back := p[..|p| - 1], p[m..];
      WalkSplit(graph, q, m);
      assert q[..m + 1] == p[..m + 1];
      assert back[..|back| - 1] == q[m..];
      assert back[|back| - 2] == p[|p| - 2] && back[|back| - 1] == p[|p| - 1];
      var a, b := p[|p| - 2], p[|p| - 1];
      AddAssoc(WalkWeight(graph, p[..m + 1]), WalkWeight(graph, q[m..]),
        if a < |graph| && b < |graph| then Initial(graph, a, b) else Inf);
    }
  }

  lemma AddAssoc(x: Ext, y: Ext, z: Ext)
    ensures Add(Add(x, y), z) == Add(x, Add(y, z))
  {
  }

  /** The first position of `x` in `p`. */
  lemma FirstOcc(p: seq<nat>, x: nat) returns (f: nat)
    requires x in p
    ensures f < |p| && p[f] == x
    ensures forall t :: 0 <= t < f ==> p[t] != x
  {
    f := 0;
    while p[f] != x
      invariant f < |p| && x in p[f..]
      invariant forall t :: 0 <= t < f ==> p[t] != x
      decreases |p| - f
    {
      assert p[f..] == [p[f]] + p[f + 1..];
      f := f + 1;
    }
  }

  /** The last position of `x` in `p`. */
  lemma LastOcc(p: seq<nat>, x: nat) returns (l: nat)
    requires x in p
    ensures l < |p| && p[l] == x
    ensures forall t :: l < t < |p| ==> p[t] != x
  {
    l := |p| - 1;
    while p[l] != x
      invariant l < |p| && x in p[..l + 1]
      invariant forall t :: l < t < |p| ==> p[t] != x
      decreases l
    {
      assert p[..l + 1] == p[..l] + [p[l]];
      l := l - 1;
    }
  }

  /** A piece of a walk through intermediates below k + 1 whose inside avoids k runs through intermediates below k. */
  lemma SegmentVia(p: seq<nat>, k: nat, lo: nat, hi: nat)
    requires lo <= hi < |p| && Via(p, k + 1)
    requires forall t :: lo < t < hi ==> p[t] != k
    ensures Via(p[lo..hi + 1], k)
  {
    var q := p[lo..hi + 1];
    forall t | 0 < t < |q| - 1 ensures q[t] < k {
      assert q[t] == p[lo + t];
    }
  }

  /**
   * The heart of the algorithm: if the three entries involved bound every walk
   * through intermediates below k, the relaxed entry bounds every walk through
   * intermediates below k + 1. A walk that visits k is cut at the first and the
   * last visit; the closed piece in between weighs at least 0.
   */
  lemma RelaxStep(graph: Matrix, dij: Ext, dik: Ext, dkj: Ext, i: nat, j: nat, k: nat)
    requires WellFormed(graph) && NoNegativeCycle(graph)
    requires i < |graph| && j < |graph| && k < |graph|
    requires Below(graph, dij, i, j, k) && Below(graph, dik, i, k, k) && Below(graph, dkj, k, j, k)
    ensures Below(graph, Min(dij, Add(dik, dkj)), i, j, k + 1)
  {
    forall p | Walk(|graph|, p, i, j) && Via(p, k + 1)
      ensures Le(Min(dij, Add(dik, dkj)), WalkWeight(graph, p))
    {
      RelaxWalk(graph, dij, dik, dkj, i, j, k, p);
    }
  }

  /** Cutting a walk at positions f <= l splits its weight over the three pieces. */
  lemma WalkSplit3(graph: Matrix, p: seq<nat>, f: nat, l: nat)
    requires WellFormed(graph) && f <= l < |p|
    ensures WalkWeight(graph, p) ==
      Add(Add(WalkWeight(graph, p[..f + 1]), WalkWeight(graph, p[f..l + 1])), WalkWeight(graph, p[l..]))
  {
    PrefixPieces(p, f, l);
    WalkSplit(graph, p, l);
    WalkSplit(graph, p[..l + 1], f);
  }

  /** The two pieces of a prefix cut at f are a shorter prefix and an inner slice. */
  lemma PrefixPieces(p: seq<nat>, f: nat, l: nat)
    requires f <= l < |p|
    ensures p[..l + 1][..f + 1] == p[..f + 1] && p[..l + 1][f..] == p[f..l + 1]
  {
  }

  /**
   * A walk through k, with intermediates below k + 1, cut at the first and the last
   * visit of k: a head from i to k and a tail from k to j, both through intermediates
   * below k, and a closed walk between them.
   */
  lemma CutAt(graph: Matrix, i: nat, j: nat, k: nat, p: seq<nat>) returns (head: seq<nat>, middle: seq<nat>, tail: seq<nat>)
    requires WellFormed(graph) && k < |graph|
    requires Walk(|graph|, p, i, j) && Via(p, k + 1) && k in p
    ensures Walk(|graph|, head, i, k) && Via(head, k)
    ensures Walk(|graph|, tail, k, j) && Via(tail, k)
    ensures Cycle(|graph|, middle)
    ensures WalkWeight(graph, p) == Add(Add(WalkWeight(graph, head), WalkWeight(graph, middle)), WalkWeight(graph, tail))
  {
    var f := FirstOcc(p, k);
    var l := LastOcc(p, k);
    WalkSplit3(graph, p, f, l);
    head, middle, tail := p[..f + 1], p[f..l + 1], p[l..];
    assert head == p[0..f + 1];
    assert tail == p[l..|p| - 1 + 1];
    Piece(|graph|, p, 0, f);
    Piece(|graph|, p, f, l);
    Piece(|graph|, p, l, |p| - 1);
    SegmentVia(p, k, 0, f);
    SegmentVia(p, k, l, |p| - 1);
  }

  /** A slice of a walk is a walk between the two nodes at its ends. */
  lemma Piece(n: nat, p: seq<nat>, lo: nat, hi: nat)
    requires lo <= hi < |p| && InRange(n, p)
    ensures Walk(n, p[lo..hi + 1], p[lo], p[hi])
  {
    var q := p[lo..hi + 1];
    forall t | 0 <= t < |q| ensures q[t] < n {
      assert q[t] == p[lo + t];
    }
  }

  /** RelaxStep for one walk. */
  lemma RelaxWalk(graph: Matrix, dij: Ext, dik: Ext, dkj: Ext, i: nat, j: nat, k: nat, p: seq<nat>)
    requires WellFormed(graph) && NoNegativeCycle(graph)
    requires i < |graph| && j < |graph| && k < |graph|
    requires Below(graph, dij, i, j, k) && Below(graph, dik, i, k, k) && Below(graph, dkj, k, j, k)
    requires Walk(|graph|, p, i, j) && Via(p, k + 1)
    ensures Le(Min(dij, Add(dik, dkj)), WalkWeight(graph, p))
  {
    if k in p {
      var head, middle, tail := CutAt(graph, i, j, k, p);
      assert Le(dik, WalkWeight(graph, head));
      assert Le(dkj, WalkWeight(graph, tail));
      assert Le(Fin(0), WalkWeight(graph, middle));
    } else {
      assert Via(p, k);
    }
  }

  /** Before any relaxation, the initial matrix bounds every walk with no intermediate node. */
  lemma InitialBelow(graph: Matrix, i: nat, j: nat)
    requires WellFormed(graph) && i < |graph| && j < |graph|
    ensures Below(graph, Initial(graph, i, j), i, j, 0)
  {
    forall p | Walk(|graph|, p, i, j) && Via(p, 0)
      ensures Le(Initial(graph, i, j), WalkWeight(graph, p))
    {
      DirectWalk(graph, i, j, p);
    }
  }

  /** A walk with no intermediate node is a single node or a single step. */
  lemma DirectWalk(graph: Matrix, i: nat, j: nat, p: seq<nat>)
    requires WellFormed(graph) && i < |graph| && j < |graph|
    requires Walk(|graph|, p, i, j) && Via(p, 0)
    ensures Le(Initial(graph, i, j), WalkWeight(graph, p))
  {
    ViaZero(p);
    if |p| == 2 {
      assert p[..1] == [i];
    }
  }

  /** No intermediate node is below 0, so a walk through none has at most two nodes. */
  lemma ViaZero(p: seq<nat>)
    ensures Via(p, 0) ==> |p| <= 2
  {
    if |p| > 2 {
      assert !(p[1] < 0);
    }
  }

  /** The two-node walk (one step) weighs what the initial matrix says. */
  lemma StepWeight(graph: Matrix, i: nat, j: nat)
    requires WellFormed(graph) && i < |graph| && j < |graph|
    ensures WalkWeight(graph, [i, j]) == Initial(graph, i, j)
  {
    assert [i, j][..1] == [i];
  }

  // ---------------------------------------------------------------------
  // Invariants of the relaxation, as predicates over the whole matrix.

  /** No entry is above where it started. */
  ghost predicate NotAboveInitial(graph: Matrix, dist: Matrix)
    requires WellFormed(graph) && Square(dist, |graph|)
  {
    forall a, b :: 0 <= a < |graph| && 0 <= b < |graph| ==> Le(dist[a][b], Initial(graph, a, b))
  }

  /** `paths[a][b]` is a walk from a to b that weighs exactly `dist[a][b]`. */
  ghost predicate Witnessed(graph: Matrix, dist: Matrix, paths: seq<seq<seq<nat>>>)
    requires WellFormed(graph) && Square(dist, |graph|)
  {
    && |paths| == |graph|
    && (forall a :: 0 <= a < |graph| ==> |paths[a]| == |graph|)
    && forall a, b :: 0 <= a < |graph| && 0 <= b < |graph| ==>
         Walk(|graph|, paths[a][b], a, b) && WalkWeight(graph, paths[a][b]) == dist[a][b]
  }

  ghost predicate BelowAll(graph: Matrix, dist: Matrix, k: nat)
    requires WellFormed(graph) && Square(dist, |graph|)
  {
    forall a, b :: 0 <= a < |graph| && 0 <= b < |graph| ==> Below(graph, dist[a][b], a, b, k)
  }

  ghost predicate ReachedAll(graph: Matrix, dist: Matrix, k: nat)
    requires WellFormed(graph) && Square(dist, |graph|)
  {
    forall a, b :: 0 <= a < |graph| && 0 <= b < |graph| ==> Reached(graph, dist[a][b], a, b, k)
  }

  /**
   * What the triple loop guarantees about its result: an n by n matrix, no entry
   * above its initial value, every entry the weight of some walk between its two
   * nodes, `Inf` only where every such walk weighs `Inf`, and, when no closed
   * walk weighs below 0, no entry above any walk between its two nodes.
   */
  ghost predicate Computed(graph: Matrix, dist: Matrix)
    requires WellFormed(graph)
  {
    && Square(dist, |graph|)
    && NotAboveInitial(graph, dist)
    && (forall i, j :: 0 <= i < |graph| && 0 <= j < |graph| ==> HasWitness(graph, dist[i][j], i, j))
    && (forall i, j, p {:trigger Walk(|graph|, p, i, j)} :: 0 <= i < |graph| && 0 <= j < |graph| && Walk(|graph|, p, i, j) && dist[i][j] == Inf ==>
         WalkWeight(graph, p) == Inf)
    && (NoNegativeCycle(graph) ==>
         forall i, j, p {:trigger Walk(|graph|, p, i, j)} :: 0 <= i < |graph| && 0 <= j < |graph| && Walk(|graph|, p, i, j) ==>
           Le(dist[i][j], WalkWeight(graph, p)))
  }

  /** The source's first double loop: 0 on the diagonal, the edge weight elsewhere, an off-diagonal 0 read as no edge. */
  method InitialDistances(graph: Matrix) returns (dist: Matrix)
    requires WellFormed(graph)
    ensures Square(dist, |graph|)
    ensures forall i, j :: 0 <= i < |graph| && 0 <= j < |graph| ==> dist[i][j] == Initial(graph, i, j)
    ensures forall i :: 0 <= i < |graph| ==> dist[i][i] == Fin(0)
    ensures forall i, j :: 0 <= i < |graph| && 0 <= j < |graph| && i != j && graph[i][j] == Fin(0) ==> dist[i][j] == Inf
  {
    var n := |graph|;
    dist := seq(n, _ => seq(n, _ => Inf));
    for i := 0 to n
      invariant Square(dist, n)
      invariant forall a, b :: 0 <= a < i && 0 <= b < n ==> dist[a][b] == Initial(graph, a, b)
    {
      for j := 0 to n
        invariant Square(dist, n)
        invariant forall a, b :: 0 <= a < i && 0 <= b < n ==> dist[a][b] == Initial(graph, a, b)
        invariant forall b :: 0 <= b < j ==> dist[i][b] == Initial(graph, i, b)
      {
        if i == j {
          dist := dist[i := dist[i][j := Fin(0)]];
        } else if graph[i][j] != Fin(0) {
          dist := dist[i := dist[i][j := graph[i][j]]];
        } else {
          dist := dist[i := dist[i][j := Inf]];
        }
      }
    }
  }

  /**
   * The whole matrix computation. Every entry ends at most its initial value and
   * exactly the weight of some walk, and it is `Inf` only when no walk between its
   * two nodes has a finite weight; when no closed walk weighs below 0, every
   * entry is the shortest walk weight and the triangle inequality holds.
   */
  method FloydWarshallMatrix(graph: Matrix) returns (dist: Matrix)
    requires WellFormed(graph)
    ensures Square(dist, |graph|)
    ensures NotAboveInitial(graph, dist)
    ensures forall i, j :: 0 <= i < |graph| && 0 <= j < |graph| ==>
      HasWitness(graph, dist[i][j], i, j)
    ensures forall i, j, p {:trigger Walk(|graph|, p, i, j)} :: 0 <= i < |graph| && 0 <= j < |graph| && Walk(|graph|, p, i, j) && dist[i][j] == Inf ==>
      WalkWeight(graph, p) == Inf
    ensures NoNegativeCycle(graph) ==> forall i, j, p {:trigger Walk(|graph|, p, i, j)} :: 0 <= i < |graph| && 0 <= j < |graph| && Walk(|graph|, p, i, j) ==>
      Le(dist[i][j], WalkWeight(graph, p))
    ensures NoNegativeCycle(graph) ==> forall i, j, k :: 0 <= i < |graph| && 0 <= j < |graph| && 0 <= k < |graph| ==>
      Le(dist[i][j], Add(dist[i][k], dist[k][j]))
  {
    var n := |graph|;
    dist := InitialDistances(graph);
    ghost var paths := StartWitnesses(graph, dist);
    for k := 0 to n
      invariant Square(dist, n)
      invariant NotAboveInitial(graph, dist)
      invariant Witnessed(graph, dist, paths)
      invariant ReachedAll(graph, dist, k)
      invariant NoNegativeCycle(graph) ==> BelowAll(graph, dist, k)
    {
      for i := 0 to n
        invariant Square(dist, n)
        invariant NotAboveInitial(graph, dist)
        invariant Witnessed(graph, dist, paths)
        invariant ReachedAll(graph, dist, k) && ReachedDone(graph, dist, i, 0, k)
        invariant NoNegativeCycle(graph) ==> BelowAll(graph, dist, k) && Done(graph, dist, i, 0, k)
      {
        for j := 0 to n
          invariant Square(dist, n)
          invariant NotAboveInitial(graph, dist)
          invariant Witnessed(graph, dist, paths)
          invariant ReachedAll(graph, dist, k) && ReachedDone(graph, dist, i, j, k)
          invariant NoNegativeCycle(graph) ==> BelowAll(graph, dist, k) && Done(graph, dist, i, j, k)
        {
          paths := RelaxKeeps(graph, dist, paths, i, j, k);
          RelaxReaches(graph, dist, i, j, k);
          dist := dist[i := dist[i][j := Min(dist[i][j], Add(dist[i][k], dist[k][j]))]];
        }
        ReachedRow(graph, dist, i, k);
        DoneRow(graph, dist, i, k);
      }
      ReachedEnd(graph, dist, k);
      DoneAll(graph, dist, k);
    }
    Finish(graph, dist, paths);
    FinishReached(graph, dist);
  }

  /**
   * Before the triple loop: single steps witness every entry, each entry bounds
   * the direct walks, and it is finite when one of them weighs something finite.
   */
  lemma StartWitnesses(graph: Matrix, dist: Matrix) returns (paths: seq<seq<seq<nat>>>)
    requires WellFormed(graph) && Square(dist, |graph|)
    requires forall i, j :: 0 <= i < |graph| && 0 <= j < |graph| ==> dist[i][j] == Initial(graph, i, j)
    ensures NotAboveInitial(graph, dist) && Witnessed(graph, dist, paths) && BelowAll(graph, dist, 0)
    ensures ReachedAll(graph, dist, 0)
  {
    var n := |graph|;
    paths := seq(n, a => seq(n, b => if a == b then [a] else [a, b]));
    forall a, b | 0 <= a < n && 0 <= b < n
      ensures Walk(n, paths[a][b], a, b) && WalkWeight(graph, paths[a][b]) == dist[a][b]
    {
      if a != b {
        StepWeight(graph, a, b);
      }
    }
    forall a, b | 0 <= a < n && 0 <= b < n ensures Below(graph, dist[a][b], a, b, 0) && Reached(graph, dist[a][b], a, b, 0) {
      InitialBelow(graph, a, b);
    }
  }

  /** After the triple loop: the witnesses give the first postcondition, the bounds the other two. */
  lemma Finish(graph: Matrix, dist: Matrix, paths: seq<seq<seq<nat>>>)
    requires WellFormed(graph) && Square(dist, |graph|) && Witnessed(graph, dist, paths)
    requires NoNegativeCycle(graph) ==> BelowAll(graph, dist, |graph|)
    ensures forall i, j :: 0 <= i < |graph| && 0 <= j < |graph| ==>
      HasWitness(graph, dist[i][j], i, j)
    ensures NoNegativeCycle(graph) ==> forall i, j, p {:trigger Walk(|graph|, p, i, j)} :: 0 <= i < |graph| && 0 <= j < |graph| && Walk(|graph|, p, i, j) ==>
      Le(dist[i][j], WalkWeight(graph, p))
    ensures NoNegativeCycle(graph) ==> forall i, j, k :: 0 <= i < |graph| && 0 <= j < |graph| && 0 <= k < |graph| ==>
      Le(dist[i][j], Add(dist[i][k], dist[k][j]))
  {
    FinishWitnessed(graph, dist, paths);
    if NoNegativeCycle(graph) {
      FinishShortest(graph, dist);
      FinishTriangle(graph, dist, paths);
    }
  }

  lemma FinishWitnessed(graph: Matrix, dist: Matrix, paths: seq<seq<seq<nat>>>)
    requires WellFormed(graph) && Square(dist, |graph|) && Witnessed(graph, dist, paths)
    ensures forall i, j :: 0 <= i < |graph| && 0 <= j < |graph| ==>
      HasWitness(graph, dist[i][j], i, j)
  {
    forall i, j | 0 <= i < |graph| && 0 <= j < |graph|
      ensures HasWitness(graph, dist[i][j], i, j)
    {
      assert Walk(|graph|, paths[i][j], i, j) && WalkWeight(graph, paths[i][j]) == dist[i][j];
    }
  }

  lemma FinishShortest(graph: Matrix, dist: Matrix)
    requires WellFormed(graph) && Square(dist, |graph|) && BelowAll(graph, dist, |graph|)
    ensures forall i, j, p {:trigger Walk(|graph|, p, i, j)} :: 0 <= i < |graph| && 0 <= j < |graph| && Walk(|graph|, p, i, j) ==>
      Le(dist[i][j], WalkWeight(graph, p))
  {
    forall i, j, p | 0 <= i < |graph| && 0 <= j < |graph| && Walk(|graph|, p, i, j)
      ensures Le(dist[i][j], WalkWeight(graph, p))
    {
      assert Below(graph, dist[i][j], i, j, |graph|);
      assert Via(p, |graph|);
    }
  }

  lemma FinishTriangle(graph: Matrix, dist: Matrix, paths: seq<seq<seq<nat>>>)
    requires WellFormed(graph) && Square(dist, |graph|) && Witnessed(graph, dist, paths) && BelowAll(graph, dist, |graph|)
    ensures forall i, j, k :: 0 <= i < |graph| && 0 <= j < |graph| && 0 <= k < |graph| ==>
      Le(dist[i][j], Add(dist[i][k], dist[k][j]))
  {
    forall i, j, k | 0 <= i < |graph| && 0 <= j < |graph| && 0 <= k < |graph|
      ensures Le(dist[i][j], Add(dist[i][k], dist[k][j]))
    {
      Triangle(graph, dist, paths, i, j, k);
    }
  }

  /** The matrix after `dist[i][j] = min(dist[i][j], dist[i][k] + dist[k][j])`. */
  function Relaxed(dist: Matrix, i: nat, j: nat, k: nat): (r: Matrix)
    requires Square(dist, |dist|) && i < |dist| && j < |dist| && k < |dist|
    ensures Square(r, |dist|)
    ensures r[i][j] == Min(dist[i][j], Add(dist[i][k], dist[k][j]))
    ensures forall a, b :: 0 <= a < |dist| && 0 <= b < |dist| && (a != i || b != j) ==> r[a][b] == dist[a][b]
  {
    dist[i := dist[i][j := Min(dist[i][j], Add(dist[i][k], dist[k][j]))]]
  }

  /**
   * One relaxation keeps every invariant of the triple loop; the witness walk of
   * (i, j) becomes the join of those of (i, k) and (k, j) when `min` picks the sum.
   */
  lemma RelaxKeeps(graph: Matrix, dist: Matrix, paths: seq<seq<seq<nat>>>, i: nat, j: nat, k: nat)
    returns (paths': seq<seq<seq<nat>>>)
    requires WellFormed(graph) && Square(dist, |graph|) && i < |graph| && j < |graph| && k < |graph|
    requires NotAboveInitial(graph, dist) && Witnessed(graph, dist, paths)
    requires NoNegativeCycle(graph) ==> BelowAll(graph, dist, k) && Done(graph, dist, i, j, k)
    ensures NotAboveInitial(graph, Relaxed(dist, i, j, k))
    ensures Witnessed(graph, Relaxed(dist, i, j, k), paths')
    ensures NoNegativeCycle(graph) ==>
      BelowAll(graph, Relaxed(dist, i, j, k), k) && Done(graph, Relaxed(dist, i, j, k), i, j + 1, k)
  {
    RelaxCell(graph, dist, paths, i, j, k);
    var r := Relaxed(dist, i, j, k);
    var w := if r[i][j] == dist[i][j] then paths[i][j] else paths[i][k] + paths[k][j][1..];
    assert Walk(|graph|, w, i, j) && WalkWeight(graph, w) == r[i][j];
    paths' := paths[i := paths[i][j := w]];
    KeepNotAbove(graph, dist, r, i, j);
    KeepWitnessed(graph, dist, r, paths, w, i, j);
    if NoNegativeCycle(graph) {
      KeepBelow(graph, dist, r, i, j, k);
    }
  }

  lemma KeepNotAbove(graph: Matrix, dist: Matrix, r: Matrix, i: nat, j: nat)
    requires WellFormed(graph) && Square(dist, |graph|) && Square(r, |graph|) && i < |graph| && j < |graph|
    requires NotAboveInitial(graph, dist) && Le(r[i][j], Initial(graph, i, j))
    requires forall a, b :: 0 <= a < |graph| && 0 <= b < |graph| && (a != i || b != j) ==> r[a][b] == dist[a][b]
    ensures NotAboveInitial(graph, r)
  {
    forall a, b | 0 <= a < |graph| && 0 <= b < |graph| ensures Le(r[a][b], Initial(graph, a, b)) {
      if a != i || b != j {
        assert r[a][b] == dist[a][b];
      }
    }
  }

  lemma KeepWitnessed(graph: Matrix, dist: Matrix, r: Matrix, paths: seq<seq<seq<nat>>>, w: seq<nat>, i: nat, j: nat)
    requires WellFormed(graph) && Square(dist, |graph|) && Square(r, |graph|) && i < |graph| && j < |graph|
    requires Witnessed(graph, dist, paths)
    requires forall a, b :: 0 <= a < |graph| && 0 <= b < |graph| && (a != i || b != j) ==> r[a][b] == dist[a][b]
    requires Walk(|graph|, w, i, j) && WalkWeight(graph, w) == r[i][j]
    ensures Witnessed(graph, r, paths[i := paths[i][j := w]])
  {
    var paths' := paths[i := paths[i][j := w]];
    forall a, b | 0 <= a < |graph| && 0 <= b < |graph|
      ensures Walk(|graph|, paths'[a][b], a, b) && WalkWeight(graph, paths'[a][b]) == r[a][b]
    {
      if a != i || b != j {
        assert paths'[a][b] == paths[a][b] && r[a][b] == dist[a][b];
      }
    }
  }

  lemma KeepBelow(graph: Matrix, dist: Matrix, r: Matrix, i: nat, j: nat, k: nat)
    requires WellFormed(graph) && Square(dist, |graph|) && Square(r, |graph|) && i < |graph| && j < |graph|
    requires BelowAll(graph, dist, k) && Done(graph, dist, i, j, k)
    requires Below(graph, r[i][j], i, j, k) && Below(graph, r[i][j], i, j, k + 1)
    requires forall a, b :: 0 <= a < |graph| && 0 <= b < |graph| && (a != i || b != j) ==> r[a][b] == dist[a][b]
    ensures BelowAll(graph, r, k) && Done(graph, r, i, j + 1, k)
  {
    forall a, b | 0 <= a < |graph| && 0 <= b < |graph| ensures Below(graph, r[a][b], a, b, k) {
      if a != i || b != j {
        assert r[a][b] == dist[a][b];
      }
    }
    forall a, b | 0 <= a < |graph| && 0 <= b < |graph| && (a < i || (a == i && b < j + 1))
      ensures Below(graph, r[a][b], a, b, k + 1)
    {
      if a != i || b != j {
        assert r[a][b] == dist[a][b];
      }
    }
  }

  /** The cells before (i, j) in row-major order already hold their values for intermediates below k + 1. */
  ghost predicate Done(graph: Matrix, dist: Matrix, i: nat, j: nat, k: nat)
    requires WellFormed(graph) && Square(dist, |graph|)
  {
    forall a, b :: 0 <= a < |graph| && 0 <= b < |graph| && (a < i || (a == i && b < j)) ==>
      Below(graph, dist[a][b], a, b, k + 1)
  }

  lemma DoneRow(graph: Matrix, dist: Matrix, i: nat, k: nat)
    requires WellFormed(graph) && Square(dist, |graph|)
    ensures Done(graph, dist, i, |graph|, k) ==> Done(graph, dist, i + 1, 0, k)
  {
  }

  lemma DoneAll(graph: Matrix, dist: Matrix, k: nat)
    requires WellFormed(graph) && Square(dist, |graph|)
    ensures Done(graph, dist, |graph|, 0, k) ==> BelowAll(graph, dist, k + 1)
  {
  }

  /** What one relaxation of cell (i, j) through k preserves, stated on the matrix before the update. */
  lemma RelaxCell(graph: Matrix, dist: Matrix, paths: seq<seq<seq<nat>>>, i: nat, j: nat, k: nat)
    requires WellFormed(graph) && Square(dist, |graph|) && i < |graph| && j < |graph| && k < |graph|
    requires NotAboveInitial(graph, dist) && Witnessed(graph, dist, paths)
    requires NoNegativeCycle(graph) ==> BelowAll(graph, dist, k)
    ensures Le(Min(dist[i][j], Add(dist[i][k], dist[k][j])), Initial(graph, i, j))
    ensures Walk(|graph|, paths[i][k] + paths[k][j][1..], i, j)
    ensures WalkWeight(graph, paths[i][k] + paths[k][j][1..]) == Add(dist[i][k], dist[k][j])
    ensures NoNegativeCycle(graph) ==> Below(graph, Min(dist[i][j], Add(dist[i][k], dist[k][j])), i, j, k + 1)
    ensures NoNegativeCycle(graph) ==> Below(graph, Min(dist[i][j], Add(dist[i][k], dist[k][j])), i, j, k)
  {
    var n := |graph|;
    assert Walk(n, paths[i][k], i, k) && WalkWeight(graph, paths[i][k]) == dist[i][k];
    assert Walk(n, paths[k][j], k, j) && WalkWeight(graph, paths[k][j]) == dist[k][j];
    var w := JoinWalks(graph, paths[i][k], paths[k][j], i, k, j);
    if NoNegativeCycle(graph) {
      var m := Min(dist[i][j], Add(dist[i][k], dist[k][j]));
      RelaxStep(graph, dist[i][j], dist[i][k], dist[k][j], i, j, k);
      forall p | Walk(n, p, i, j) && Via(p, k) ensures Le(m, WalkWeight(graph, p)) {
        assert Via(p, k + 1);
      }
    }
  }

  /** Two walks that meet at k join into one walk whose weight is the sum of theirs. */
  lemma JoinWalks(graph: Matrix, p1: seq<nat>, p2: seq<nat>, i: nat, k: nat, j: nat) returns (w: seq<nat>)
    requires WellFormed(graph) && Walk(|graph|, p1, i, k) && Walk(|graph|, p2, k, j)
    ensures w == p1 + p2[1..]
    ensures Walk(|graph|, w, i, j)
    ensures WalkWeight(graph, w) == Add(WalkWeight(graph, p1), WalkWeight(graph, p2))
  {
    var n := |graph|;
    w := p1 + p2[1..];
    assert InRange(n, w) by {
      forall t | 0 <= t < |w| ensures w[t] < n {
        if t >= |p1| {
          assert w[t] == p2[t - |p1| + 1];
        }
      }
    }
    WalkSplit(graph, w, |p1| - 1);
    assert w[..|p1|] == p1;
    assert w[|p1| - 1..] == p2;
  }

  /** The final matrix satisfies the triangle inequality: join the two witness walks. */
  lemma Triangle(graph: Matrix, dist: Matrix, paths: seq<seq<seq<nat>>>, i: nat, j: nat, k: nat)
    requires WellFormed(graph) && Square(dist, |graph|) && i < |graph| && j < |graph| && k < |graph|
    requires Witnessed(graph, dist, paths) && BelowAll(graph, dist, |graph|)
    ensures Le(dist[i][j], Add(dist[i][k], dist[k][j]))
  {
    var n := |graph|;
    assert Walk(n, paths[i][k], i, k) && WalkWeight(graph, paths[i][k]) == dist[i][k];
    assert Walk(n, paths[k][j], k, j) && WalkWeight(graph, paths[k][j]) == dist[k][j];
    var w := JoinWalks(graph, paths[i][k], paths[k][j], i, k, j);
    assert Below(graph, dist[i][j], i, j, n);
    assert Via(w, n);
    assert Le(dist[i][j], WalkWeight(graph, w));
  }

  // ---------------------------------------------------------------------
  // Finiteness: an entry stays `Inf` only while no walk considered so far has a finite weight.

  /** The cells before (i, j) in row-major order are finite whenever a walk through intermediates below k + 1 is. */
  ghost predicate ReachedDone(graph: Matrix, dist: Matrix, i: nat, j: nat, k: nat)
    requires WellFormed(graph) && Square(dist, |graph|)
  {
    forall a, b :: 0 <= a < |graph| && 0 <= b < |graph| && (a < i || (a == i && b < j)) ==>
      Reached(graph, dist[a][b], a, b, k + 1)
  }

  lemma ReachedRow(graph: Matrix, dist: Matrix, i: nat, k: nat)
    requires WellFormed(graph) && Square(dist, |graph|)
    ensures ReachedDone(graph, dist, i, |graph|, k) ==> ReachedDone(graph, dist, i + 1, 0, k)
  {
  }

  lemma ReachedEnd(graph: Matrix, dist: Matrix, k: nat)
    requires WellFormed(graph) && Square(dist, |graph|)
    ensures ReachedDone(graph, dist, |graph|, 0, k) ==> ReachedAll(graph, dist, k + 1)
  {
  }

  /**
   * `min(dist[i][j], dist[i][k] + dist[k][j])` is finite once some walk through
   * intermediates below k + 1 is: a walk that avoids k makes `dist[i][j]` finite,
   * and one through k has finite pieces before its first and after its last visit
   * of k, which make `dist[i][k]` and `dist[k][j]` finite.
   */
  lemma ReachedStep(graph: Matrix, dij: Ext, dik: Ext, dkj: Ext, i: nat, j: nat, k: nat)
    requires WellFormed(graph) && i < |graph| && j < |graph| && k < |graph|
    requires Reached(graph, dij, i, j, k) && Reached(graph, dik, i, k, k) && Reached(graph, dkj, k, j, k)
    ensures Reached(graph, Min(dij, Add(dik, dkj)), i, j, k + 1)
    ensures Reached(graph, Min(dij, Add(dik, dkj)), i, j, k)
  {
    forall p | Walk(|graph|, p, i, j) && Via(p, k + 1) && WalkWeight(graph, p).Fin?
      ensures Min(dij, Add(dik, dkj)).Fin?
    {
      if k in p {
        var head, middle, tail := CutAt(graph, i, j, k, p);
        assert WalkWeight(graph, head).Fin? && WalkWeight(graph, tail).Fin?;
      } else {
        assert Via(p, k);
      }
    }
    forall p | Walk(|graph|, p, i, j) && Via(p, k) && WalkWeight(graph, p).Fin?
      ensures Min(dij, Add(dik, dkj)).Fin?
    {
      assert Via(p, k + 1);
    }
  }

  /** Relaxing cell (i, j) through k keeps the finiteness invariant and extends it past (i, j). */
  lemma RelaxReaches(graph: Matrix, dist: Matrix, i: nat, j: nat, k: nat)
    requires WellFormed(graph) && Square(dist, |graph|) && i < |graph| && j < |graph| && k < |graph|
    requires ReachedAll(graph, dist, k) && ReachedDone(graph, dist, i, j, k)
    ensures ReachedAll(graph, Relaxed(dist, i, j, k), k) && ReachedDone(graph, Relaxed(dist, i, j, k), i, j + 1, k)
  {
    var r := Relaxed(dist, i, j, k);
    ReachedStep(graph, dist[i][j], dist[i][k], dist[k][j], i, j, k);
    forall a, b | 0 <= a < |graph| && 0 <= b < |graph| ensures Reached(graph, r[a][b], a, b, k) {
      if a != i || b != j {
        assert r[a][b] == dist[a][b];
      }
    }
    forall a, b | 0 <= a < |graph| && 0 <= b < |graph| && (a < i || (a == i && b < j + 1))
      ensures Reached(graph, r[a][b], a, b, k + 1)
    {
      if a != i || b != j {
        assert r[a][b] == dist[a][b];
      }
    }
  }

  /** After the triple loop an `Inf` entry means every walk between its two nodes weighs `Inf`. */
  lemma FinishReached(graph: Matrix, dist: Matrix)
    requires WellFormed(graph) && Square(dist, |graph|) && ReachedAll(graph, dist, |graph|)
    ensures forall i, j, p {:trigger Walk(|graph|, p, i, j)} :: 0 <= i < |graph| && 0 <= j < |graph| && Walk(|graph|, p, i, j) && dist[i][j] == Inf ==>
      WalkWeight(graph, p) == Inf
  {
    forall i, j, p | 0 <= i < |graph| && 0 <= j < |graph| && Walk(|graph|, p, i, j) && dist[i][j] == Inf
      ensures WalkWeight(graph, p) == Inf
    {
      assert Reached(graph, dist[i][j], i, j, |graph|);
      assert Via(p, |graph|);
    }
  }
}
