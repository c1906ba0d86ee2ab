/**
 * The shapes shared by every search in path_finding.py: an adjacency map from a
 * node to a map from neighbour to edge weight, paths over it and their weights,
 * plus the extended integers (a finite value or infinity) that stand for the
 * source's `float('inf')`.
 */
module Graphs {

  datatype Option<T> = None | Some(value: T)

  /** A weighted graph: node -> (neighbour -> weight). */
  type Graph<N> = map<N, map<N, int>>

  /** Every neighbour named in an adjacency map is itself a node of the graph. */
  ghost predicate Closed<N>(g: Graph<N>)
  {
    forall u, v :: u in g && v in g[u] ==> v in g
  }

  ghost predicate NonNegative<N>(g: Graph<N>)
  {
    forall u, v :: u in g && v in g[u] ==> g[u][v] >= 0
  }

  /** Undirected adjacency: every edge can be walked both ways. */
  ghost predicate Symmetric<N>(g: Graph<N>)
  {
    forall u, v :: u in g && v in g[u] ==> v in g && u in g[v]
  }

  ghost predicate IsEdge<N>(g: Graph<N>, u: N, v: N)
  {
    u in g && v in g[u]
  }

  /** Consecutive nodes of `p` are joined by edges of `g`. */
  ghost predicate IsPath<N>(g: Graph<N>, p: seq<N>)
  {
    forall i :: 0 <= i < |p| - 1 ==> IsEdge(g, p[i], p[i + 1])
  }

  ghost predicate PathFrom<N>(g: Graph<N>, p: seq<N>, s: N, t: N)
  {
    |p| > 0 && p[0] == s && p[|p| - 1] == t && IsPath(g, p)
  }

  ghost predicate Reachable<N(!new)>(g: Graph<N>, s: N, t: N)
  {
    exists p :: PathFrom(g, p, s, t)
  }

  /** No path from s to t weighs less than `v`. */
  ghost predicate NoShorterPath<N(!new)>(g: Graph<N>, s: N, t: N, v: int)
  {
    forall p :: PathFrom(g, p, s, t) ==> v <= PathWeight(g, p)
  }

  /** The `{'path': ..., 'cost': ...}` dictionary a search returns on success. */
  datatype Found<N> = Found(path: seq<N>, cost: int)

  /** Sum of the edge weights between consecutive nodes of `p`. */
  function PathWeight<N>(g: Graph<N>, p: seq<N>): int
    requires IsPath(g, p)
    decreases |p|
  {
    if |p| <= 1 then 0
    else
      assert IsEdge(g, p[|p| - 2], p[|p| - 1]);
      var q := p[..|p| - 1];
      assert IsPath(g, q) by {
        forall i | 0 <= i < |q| - 1 ensures IsEdge(g, q[i], q[i + 1]) {
          assert IsEdge(g, p[i], p[i + 1]);
        }
      }
      PathWeight(g, q) + g[p[|p| - 2]][p[|p| - 1]]
  }

  /** Extending a path by one edge adds that edge's weight. */
  lemma PathAppend<N>(g: Graph<N>, p: seq<N>, x: N)
    requires IsPath(g, p) && |p| > 0 && IsEdge(g, p[|p| - 1], x)
    ensures IsPath(g, p + [x])
    ensures PathWeight(g, p + [x]) == PathWeight(g, p) + g[p[|p| - 1]][x]
  {
    var q := p + [x];
    forall i | 0 <= i < |q| - 1 ensures IsEdge(g, q[i], q[i + 1]) {
      if i < |p| - 1 {
        assert IsEdge(g, p[i], p[i + 1]);
      }
    }
    assert q[..|q| - 1] == p;
  }

  /** Joining two paths that meet at a node adds their weights. */
  lemma {:induction false} PathConcat<N>(g: Graph<N>, a: seq<N>, b: seq<N>)
    requires IsPath(g, a) && IsPath(g, b) && |a| > 0 && |b| > 0 && a[|a| - 1] == b[0]
    ensures IsPath(g, a + b[1..])
    ensures PathWeight(g, a + b[1..]) == PathWeight(g, a) + PathWeight(g, b)
    decreases |b|
  {
    if |b| == 1 {
      assert a + b[1..] == a;
    } else {
      var b' := b[..|b| - 1];
      assert IsPath(g, b') by {
        forall i | 0 <= i < |b'| - 1 ensures IsEdge(g, b'[i], b'[i + 1]) {
          assert IsEdge(g, b[i], b[i + 1]);
        }
      }
      PathConcat(g, a, b');
      assert IsEdge(g, b[|b| - 2], b[|b| - 1]);
      assert (a + b'[1..])[|a + b'[1..]| - 1] == b[|b| - 2];
      PathAppend(g, a + b'[1..], b[|b| - 1]);
      assert a + b'[1..] + [b[|b| - 1]] == a + b[1..];
    }
  }

  /** A prefix of a path is a path, and with non-negative weights it weighs no more. */
  lemma {:induction false} PathPrefix<N>(g: Graph<N>, p: seq<N>, k: nat)
    requires IsPath(g, p) && 0 < k <= |p|
    ensures IsPath(g, p[..k])
    ensures NonNegative(g) ==> PathWeight(g, p[..k]) <= PathWeight(g, p)
    decreases |p| - k
  {
    assert IsPath(g, p[..k]) by {
      forall i | 0 <= i < k - 1 ensures IsEdge(g, p[..k][i], p[..k][i + 1]) {
        assert IsEdge(g, p[i], p[i + 1]);
      }
    }
    if k < |p| {
      PathPrefix(g, p, k + 1);
      assert p[..k + 1][..k] == p[..k];
      assert IsEdge(g, p[k - 1], p[k]);
      assert p[..k + 1] == p[..k] + [p[k]];
      PathAppend(g, p[..k], p[k]);
      if NonNegative(g) {
        assert g[p[k - 1]][p[k]] >= 0;
      }
    } else {
      assert p[..k] == p;
    }
  }

  lemma {:induction false} PathWeightNonNegative<N>(g: Graph<N>, p: seq<N>)
    requires IsPath(g, p) && NonNegative(g)
    ensures PathWeight(g, p) >= 0
    decreases |p|
  {
    if |p| > 1 {
      PathPrefix(g, p, |p| - 1);
      PathWeightNonNegative(g, p[..|p| - 1]);
      assert IsEdge(g, p[|p| - 2], p[|p| - 1]);
    }
  }

  /** Putting one edge in front of a path adds that edge's weight. */
  lemma PathPrepend<N>(g: Graph<N>, x: N, p: seq<N>)
    requires IsPath(g, p) && |p| > 0 && IsEdge(g, x, p[0])
    ensures IsPath(g, [x] + p)
    ensures PathWeight(g, [x] + p) == g[x][p[0]] + PathWeight(g, p)
  {
    var e := [x, p[0]];
    assert e[..1] == [x];
    assert IsPath(g, e) by {
      assert IsEdge(g, e[0], e[1]);
    }
    assert PathWeight(g, e) == g[x][p[0]];
    PathConcat(g, e, p);
    assert e + p[1..] == [x] + p;
  }

  /**
   * The sum of the edge weights between consecutive nodes of a path, added up
   * from the front: `a_star`'s `for i in range(len(path)-1)` loop and
   * `bidirectional_search`'s `sum(...)` over `zip(path[:-1], path[1:])`.
   */
  method PathCost<N>(g: Graph<N>, path: seq<N>) returns (total: int)
    requires |path| > 0 && IsPath(g, path)
    ensures total == PathWeight(g, path)
  {
    total := 0;
    for i := 0 to |path| - 1
      invariant total == PathWeight(g, path[..i + 1])
    {
      assert IsEdge(g, path[i], path[i + 1]);
      PathPrefix(g, path, i + 1);
      assert path[..i + 2] == path[..i + 1] + [path[i + 1]];
      PathAppend(g, path[..i + 1], path[i + 1]);
      total := total + g[path[i]][path[i + 1]];
    }
    assert path[..|path|] == path;
  }

  /** A suffix of a path is a path. */
  lemma PathSuffix<N>(g: Graph<N>, p: seq<N>, m: nat)
    requires IsPath(g, p) && m <= |p|
    ensures IsPath(g, p[m..])
  {
    forall i | 0 <= i < |p| - m - 1 ensures IsEdge(g, p[m..][i], p[m..][i + 1]) {
      assert IsEdge(g, p[m + i], p[m + i + 1]);
    }
  }

  /** A path weighs as much as its part up to position m plus its part from position m on. */
  lemma PathSplit<N>(g: Graph<N>, p: seq<N>, m: nat)
    requires IsPath(g, p) && m < |p|
    ensures IsPath(g, p[..m + 1]) && IsPath(g, p[m..])
    ensures PathWeight(g, p) == PathWeight(g, p[..m + 1]) + PathWeight(g, p[m..])
  {
    PathPrefix(g, p, m + 1);
    PathSuffix(g, p, m);
    SplitPieces(p, m);
    PathConcat(g, p[..m + 1], p[m..]);
  }

  /** A path weighs as much as its three parts cut at positions i and j. */
  lemma PathSplit3<N>(g: Graph<N>, p: seq<N>, i: nat, j: nat)
    requires IsPath(g, p) && i <= j < |p|
    ensures IsPath(g, p[..i + 1]) && IsPath(g, p[i..j + 1]) && IsPath(g, p[j..])
    ensures PathWeight(g, p) == PathWeight(g, p[..i + 1]) + PathWeight(g, p[i..j + 1]) + PathWeight(g, p[j..])
  {
    PrefixPieces(p, i, j);
    PathSplit(g, p, j);
    PathSplit(g, p[..j + 1], i);
  }

  lemma PrefixPieces<T>(p: seq<T>, i: nat, j: nat)
    requires i <= j < |p|
    ensures p[..j + 1][..i + 1] == p[..i + 1] && p[..j + 1][i..] == p[i..j + 1]
  {
  }

  lemma SplitPieces<T>(p: seq<T>, m: nat)
    requires m < |p|
    ensures p[..m + 1] + p[m..][1..] == p
  {
  }

  /** No node occurs twice. */
  ghost predicate Distinct<T>(p: seq<T>)
  {
    forall i, j :: 0 <= i < j < |p| ==> p[i] != p[j]
  }

  /** A sequence without repetitions drawn from s is no longer than s is large. */
  lemma {:induction false} DistinctBound<T>(p: seq<T>, s: set<T>)
    requires Distinct(p) && forall i :: 0 <= i < |p| ==> p[i] in s
    ensures |p| <= |s|
    decreases |p|
  {
    if |p| > 0 {
      var rest := p[1..];
      forall i | 0 <= i < |rest| ensures rest[i] in s - {p[0]} {
        assert rest[i] == p[i + 1];
      }
      DistinctBound(rest, s - {p[0]});
    }
  }

  /** The reversal of a sequence, as the source's `list.reverse()` leaves it. */
  function Reverse<T>(s: seq<T>): (r: seq<T>)
    ensures |r| == |s|
    ensures forall i :: 0 <= i < |s| ==> r[i] == s[|s| - 1 - i]
  {
    if s == [] then [] else Reverse(s[1..]) + [s[0]]
  }

  /** Reversing a sequence with one more element at the end puts it first. */
  lemma ReverseSnoc<T>(s: seq<T>, x: T)
    ensures Reverse(s + [x]) == [x] + Reverse(s)
  {
    assert forall i :: 0 <= i < |s| + 1 ==> Reverse(s + [x])[i] == ([x] + Reverse(s))[i];
  }

  /** In an undirected graph a path read backwards is a path from its end to its start. */
  lemma PathReverse<N>(g: Graph<N>, p: seq<N>, s: N, t: N)
    requires Symmetric(g) && PathFrom(g, p, s, t)
    ensures PathFrom(g, Reverse(p), t, s)
  {
    var r := Reverse(p);
    forall i | 0 <= i < |r| - 1 ensures IsEdge(g, r[i], r[i + 1]) {
      var j := |p| - 2 - i;
      assert r[i] == p[j + 1] && r[i + 1] == p[j];
      assert IsEdge(g, p[j], p[j + 1]);
    }
  }

  /** No node of `known` has an out-neighbour outside it. */
  ghost predicate ClosedUnder<N>(g: Graph<N>, known: set<N>)
  {
    forall x, y :: x in known && x in g && y in g[x] ==> y in known
  }

  /** A set closed under the edges that holds start holds every node reachable from start. */
  lemma ReachableKnown<N>(g: Graph<N>, known: set<N>, start: N, p: seq<N>, t: N)
    requires ClosedUnder(g, known) && start in known && PathFrom(g, p, start, t)
    ensures t in known
  {
    var i := 0;
    while i < |p| - 1
      invariant 0 <= i < |p| && p[i] in known
    {
      assert IsEdge(g, p[i], p[i + 1]);
      i := i + 1;
    }
  }

  // ---------------------------------------------------------------------
  // Extended integers: a finite value or infinity (`float('inf')`).

  datatype Ext = Fin(v: int) | Inf

  /** Addition where infinity absorbs every finite value. */
  function Add(a: Ext, b: Ext): (r: Ext)
    ensures r.Fin? <==> a.Fin? && b.Fin?
    ensures r.Fin? ==> r.v == a.v + b.v
  {
    if a.Fin? && b.Fin? then Fin(a.v + b.v) else Inf
  }

  /** `a < b`, where every finite value is below infinity and infinity is below nothing. */
  predicate Less(a: Ext, b: Ext)
  {
    (a.Fin? && b.Inf?) || (a.Fin? && b.Fin? && a.v < b.v)
  }

  predicate Le(a: Ext, b: Ext)
  {
    b.Inf? || (a.Fin? && b.Fin? && a.v <= b.v)
  }

  /** The smaller of two values; on a tie, the first, as Python's `min`. */
  function Min(a: Ext, b: Ext): (r: Ext)
    ensures Le(r, a) && Le(r, b)
    ensures r == a || r == b
  {
    if Less(b, a) then b else a
  }

  // ---------------------------------------------------------------------
  // Termination measures for the searches that relabel nodes.

  /** Sum of `m[k]` over the keys `ks`. */
  ghost function Sum<N>(m: map<N, int>, ks: set<N>): int
    requires ks <= m.Keys
    decreases ks
  {
    if ks == {} then 0 else var x :| x in ks; m[x] + Sum(m, ks - {x})
  }

  lemma {:induction false} SumPick<N>(m: map<N, int>, ks: set<N>, y: N)
    requires ks <= m.Keys && y in ks
    ensures Sum(m, ks) == m[y] + Sum(m, ks - {y})
    decreases ks
  {
    var x :| x in ks && Sum(m, ks) == m[x] + Sum(m, ks - {x});
    if x != y {
      SumPick(m, ks - {x}, y);
      SumPick(m, ks - {y}, x);
      assert ks - {x} - {y} == ks - {y} - {x};
    }
  }

  lemma {:induction false} SumAgree<N>(m1: map<N, int>, m2: map<N, int>, ks: set<N>)
    requires ks <= m1.Keys && ks <= m2.Keys
    requires forall k :: k in ks ==> m1[k] == m2[k]
    ensures Sum(m1, ks) == Sum(m2, ks)
    decreases ks
  {
    if ks != {} {
      var x :| x in ks;
      SumPick(m1, ks, x);
      SumPick(m2, ks, x);
      SumAgree(m1, m2, ks - {x});
    }
  }

  lemma {:induction false} SumNonNegative<N>(m: map<N, int>, ks: set<N>)
    requires ks <= m.Keys
    requires forall k :: k in ks ==> m[k] >= 0
    ensures Sum(m, ks) >= 0
    decreases ks
  {
    if ks != {} {
      var x :| x in ks;
      SumPick(m, ks, x);
      SumNonNegative(m, ks - {x});
    }
  }

  /** Sum of all values of a map. */
  ghost function Total<N>(m: map<N, int>): int
  {
    Sum(m, m.Keys)
  }

  /** Relabelling one key moves the total by the difference; adding a key adds its value. */
  lemma TotalUpdate<N>(m: map<N, int>, x: N, v: int)
    ensures x in m ==> Total(m[x := v]) == Total(m) - m[x] + v
    ensures x !in m ==> Total(m[x := v]) == Total(m) + v
  {
    var m' := m[x := v];
    SumPick(m', m'.Keys, x);
    if x in m {
      SumAgree(m, m', m.Keys - {x});
      SumPick(m, m.Keys, x);
      assert m'.Keys - {x} == m.Keys - {x};
    } else {
      SumAgree(m, m', m.Keys);
      assert m'.Keys - {x} == m.Keys;
    }
  }

  /** Pointwise no larger on `ks` means no larger in sum. */
  lemma {:induction false} SumLe<N>(m: map<N, int>, m0: map<N, int>, ks: set<N>)
    requires ks <= m.Keys && ks <= m0.Keys
    requires forall k :: k in ks ==> m[k] <= m0[k]
    ensures Sum(m, ks) <= Sum(m0, ks)
    decreases ks
  {
    if ks != {} {
      var x :| x in ks;
      SumPick(m, ks, x);
      SumPick(m0, ks, x);
      SumLe(m, m0, ks - {x});
    }
  }

  /** No label raised: every key of `m0` is kept with a label no larger. */
  ghost predicate NoneRaised<N>(m0: map<N, int>, m: map<N, int>)
  {
    m0.Keys <= m.Keys && forall x :: x in m0 ==> m[x] <= m0[x]
  }

  /** Some key is new in `m` or has a smaller label there. */
  ghost predicate Improved<N>(m0: map<N, int>, m: map<N, int>)
  {
    exists x :: x in m && (x !in m0 || m[x] < m0[x])
  }

  /** Labelling more nodes of U leaves fewer of U unlabelled. */
  lemma FewerLeft<T>(U: set<T>, known0: set<T>, known: set<T>)
    requires known <= U && known0 <= known && known0 != known
    ensures |U - known| < |U - known0|
  {
    var x :| x in known && x !in known0;
    CardLess(U - known, U - known0, x);
  }

  /** A proper subset is strictly smaller. */
  lemma CardLess<T>(a: set<T>, b: set<T>, x: T)
    requires a <= b && x in b && x !in a
    ensures |a| < |b|
  {
    assert b == a + (b - a);
    assert x in b - a;
  }

  /**
   * Labels that were only added or lowered, at least one of them, lower
   * (keys of U still unlabelled, sum of labels) lexicographically.
   */
  lemma MeasureFalls<N>(U: set<N>, m0: map<N, int>, m: map<N, int>)
    requires m.Keys <= U && NoneRaised(m0, m) && Improved(m0, m)
    ensures LexLess(|U - m.Keys|, Total(m), |U - m0.Keys|, Total(m0))
  {
    if m.Keys != m0.Keys {
      var y :| y in m.Keys && y !in m0.Keys;
      CardLess(U - m.Keys, U - m0.Keys, y);
    } else {
      var x :| x in m && (x !in m0 || m[x] < m0[x]);
      SumDrop(m, m0, m.Keys, x);
    }
  }

  /** Pointwise no larger on `ks`, and smaller at x, means smaller in sum. */
  lemma SumDrop<N>(m: map<N, int>, m0: map<N, int>, ks: set<N>, x: N)
    requires ks <= m.Keys && ks <= m0.Keys && x in ks
    requires forall k :: k in ks ==> m[k] <= m0[k]
    requires m[x] < m0[x]
    ensures Sum(m, ks) < Sum(m0, ks)
  {
    SumPick(m, ks, x);
    SumPick(m0, ks, x);
    SumLe(m, m0, ks - {x});
  }

  /**
   * The lexicographic order on (number of unlabelled nodes, sum of labels)
   * that strictly falls whenever a search gives a node a new, smaller label.
   */
  ghost predicate LexLess(a1: int, a2: int, b1: int, b2: int)
  {
    a1 < b1 || (a1 == b1 && a2 < b2)
  }

  // ---------------------------------------------------------------------
  // Priority frontiers: "pop some minimum", leaving tie-breaks unspecified.

  /** Index of an element whose key is minimal. */
  method ArgMin<T>(s: seq<T>, key: T -> int) returns (k: nat)
    requires |s| > 0
    ensures k < |s|
    ensures forall j :: 0 <= j < |s| ==> key(s[k]) <= key(s[j])
  {
    k := 0;
    var i := 1;
    while i < |s|
      invariant k < i <= |s|
      invariant forall j :: 0 <= j < i ==> key(s[k]) <= key(s[j])
    {
      if key(s[i]) < key(s[k]) {
        k := i;
      }
      i := i + 1;
    }
  }

  /** `s` without its element at index `k`, as `list.pop(k)` leaves it. */
  function RemoveAt<T>(s: seq<T>, k: nat): (r: seq<T>)
    requires k < |s|
    ensures |r| == |s| - 1
    ensures forall j :: 0 <= j < k ==> r[j] == s[j]
    ensures forall j :: k < j < |s| ==> r[j - 1] == s[j]
    ensures multiset(r) + multiset{s[k]} == multiset(s)
  {
    assert s == s[..k] + [s[k]] + s[k + 1..];
    s[..k] + s[k + 1..]
  }
}
