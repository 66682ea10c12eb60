/**
 * Density-based clustering (DBSCAN, Ester, Kriegel, Sander and Xu, KDD 1996) over
 * planar points, as the hotspot detector runs it: the neighbourhoods are computed once
 * (every point, itself included, whose planar distance is at most `eps`), a core point
 * has at least `minSamples` points in its neighbourhood, and then, for each point in
 * index order that is an unlabelled core point, a new cluster is grown from it by
 * expanding a stack of seeds.
 *
 * This module states what the run achieves: `IsGraphClustering` on the neighbourhood graph
 * `adj` (adj[p][q]: q is a neighbour of p) and the core flags `core`, `IsClustering` in
 * terms of the points; it proves the consequences of that contract, and the book-keeping
 * lemmas the labelling in module `DbscanAlgorithm` is proved with.
 */
module Dbscan {
  import opened Geo

  /** Label of a point that belongs to no cluster. */
  const Noise: int := -1

  // ---------------------------------------------------------------------------
  // Neighbourhood graph of a set of points

  /** The neighbourhood matrix: row p, column q says whether q lies within `eps` of p. */
  function NearMatrix(pts: seq<Coord>, eps: real): seq<seq<bool>>
  {
    seq(|pts|, p requires 0 <= p < |pts| => seq(|pts|, q requires 0 <= q < |pts| => Within(pts[p], pts[q], eps)))
  }

  /** Number of `true` entries of a row: the size of a neighbourhood. */
  function CountTrue(row: seq<bool>): nat
  {
    if row == [] then 0 else CountTrue(row[..|row| - 1]) + (if row[|row| - 1] then 1 else 0)
  }

  /** Core flags: a point is core when its neighbourhood holds at least `minSamples` points. */
  function CoreFlags(adj: seq<seq<bool>>, minSamples: int): seq<bool>
  {
    seq(|adj|, p requires 0 <= p < |adj| => CountTrue(adj[p]) >= minSamples)
  }

  /** Indices of the points within `eps` of point `p`: its neighbourhood, itself included. */
  ghost function Neighbourhood(pts: seq<Coord>, eps: real, p: int): set<int>
    requires 0 <= p < |pts|
  {
    set q | 0 <= q < |pts| && Within(pts[p], pts[q], eps)
  }

  /** `p` is a core point of `pts`: its neighbourhood holds at least `minSamples` points. */
  ghost predicate IsCore(pts: seq<Coord>, eps: real, minSamples: int, p: int)
  {
    0 <= p < |pts| && |Neighbourhood(pts, eps, p)| >= minSamples
  }

  /** Points `p` and `q` of `pts` lie within `eps` of each other. */
  predicate Near(pts: seq<Coord>, eps: real, p: int, q: int)
  {
    0 <= p < |pts| && 0 <= q < |pts| && Within(pts[p], pts[q], eps)
  }

  // ---------------------------------------------------------------------------
  // Clusterings of a neighbourhood graph

  predicate Adjacent(adj: seq<seq<bool>>, p: int, q: int)
  {
    0 <= p < |adj| && 0 <= q < |adj| && q < |adj[p]| && adj[p][q]
  }

  predicate IsCoreAt(core: seq<bool>, p: int)
  {
    0 <= p < |core| && core[p]
  }

  /** A path in which every point but the last is a core point adjacent to its successor. */
  ghost predicate IsPath(adj: seq<seq<bool>>, core: seq<bool>, path: seq<int>)
    decreases |path|
  {
    |path| > 0 && 0 <= path[|path| - 1] < |adj|
    && (|path| > 1 ==>
          IsPath(adj, core, path[..|path| - 1])
          && IsCoreAt(core, path[|path| - 2]) && Adjacent(adj, path[|path| - 2], path[|path| - 1]))
  }

  /** `p` is density-reachable from `s`. */
  ghost predicate Reachable(adj: seq<seq<bool>>, core: seq<bool>, s: int, p: int)
  {
    exists path :: IsPath(adj, core, path) && path[0] == s && path[|path| - 1] == p
  }

  /** Cluster `k` has a core point from which every point labelled `k` is density-reachable. */
  ghost predicate HasRoot(adj: seq<seq<bool>>, core: seq<bool>, labels: seq<int>, k: int)
    requires |labels| == |adj|
  {
    exists s :: IsCoreAt(core, s) && 0 <= s < |adj| && labels[s] == k
      && forall p :: 0 <= p < |adj| && labels[p] == k ==> Reachable(adj, core, s, p)
  }

  /**
   * No clustered point carries a larger id than a clustered core point it neighbours: a
   * border point within reach of several clusters belongs to the one started first.
   */
  ghost predicate LeastIds(adj: seq<seq<bool>>, core: seq<bool>, labels: seq<int>)
    requires |labels| == |adj|
  {
    forall q, p :: IsCoreAt(core, q) && Adjacent(adj, q, p) && labels[q] != Noise && labels[p] != Noise ==>
      labels[p] <= labels[q]
  }

  /**
   * `firsts[k]` is the first core point, in index order, labelled `k`, and these first core
   * points come in increasing order of id.
   */
  ghost predicate FirstCores(core: seq<bool>, labels: seq<int>, firsts: seq<int>)
  {
    (forall k :: 0 <= k < |firsts| ==> IsCoreAt(core, firsts[k]) && firsts[k] < |labels| && labels[firsts[k]] == k)
    && (forall k, p :: 0 <= k < |firsts| && IsCoreAt(core, p) && p < |labels| && labels[p] == k ==> firsts[k] <= p)
    && (forall a, b :: 0 <= a < b < |firsts| ==> firsts[a] < firsts[b])
  }

  /**
   * Cluster ids are numbered in index order of each cluster's first core point: cluster 0 is
   * the one whose first core point comes first, and so on.
   */
  ghost predicate OrderedIds(core: seq<bool>, labels: seq<int>, clusters: nat)
  {
    exists firsts :: |firsts| == clusters && FirstCores(core, labels, firsts)
  }

  /**
   * `labels` is a DBSCAN labelling of the graph with cluster ids 0 .. clusters-1: every
   * neighbour of a core point is clustered, core points that are neighbours share their
   * cluster, a border point takes the least id among its core neighbours' clusters, ids
   * follow index order, and each cluster is density-reachable from one of its core points.
   */
  ghost predicate IsGraphClustering(adj: seq<seq<bool>>, core: seq<bool>, labels: seq<int>, clusters: nat)
  {
    |labels| == |adj| && |core| == |adj|
    && (forall p :: 0 <= p < |adj| ==> Noise <= labels[p] < clusters)
    && (forall p, q :: IsCoreAt(core, p) && Adjacent(adj, p, q) ==>
          labels[q] != Noise && (IsCoreAt(core, q) ==> labels[q] == labels[p]))
    && LeastIds(adj, core, labels)
    && OrderedIds(core, labels, clusters)
    && (forall k :: 0 <= k < clusters ==> HasRoot(adj, core, labels, k))
  }

  /**
   * `labels` is a DBSCAN labelling of `pts` for radius `eps` and core threshold `minSamples`,
   * with cluster ids 0 .. clusters-1 and `Noise` for unclustered points.
   */
  ghost predicate IsClustering(pts: seq<Coord>, eps: real, minSamples: int, labels: seq<int>, clusters: nat)
  {
    var adj := NearMatrix(pts, eps);
    IsGraphClustering(adj, CoreFlags(adj, minSamples), labels, clusters)
  }

  // ---------------------------------------------------------------------------
  // The matrix and the flags mean what the point-level definitions say

  lemma {:induction false} CountTrueIsSetSize(row: seq<bool>)
    ensures CountTrue(row) == |set q | 0 <= q < |row| && row[q]|
  {
    if row != [] {
      var n := |row| - 1;
      CountTrueIsSetSize(row[..n]);
      var before := set q | 0 <= q < n && row[..n][q];
      assert before == set q | 0 <= q < n && row[q];
      if row[n] {
        assert (set q | 0 <= q < |row| && row[q]) == before + {n};
      } else {
        assert (set q | 0 <= q < |row| && row[q]) == before;
      }
    }
  }

  /** The graph the labelling runs on is the `eps`-neighbourhood relation of the points. */
  lemma NearMatrixMeaning(pts: seq<Coord>, eps: real, minSamples: int, p: int, q: int)
    requires 0 <= p < |pts| && 0 <= q < |pts|
    ensures Adjacent(NearMatrix(pts, eps), p, q) <==> Near(pts, eps, p, q)
    ensures IsCoreAt(CoreFlags(NearMatrix(pts, eps), minSamples), p) <==> IsCore(pts, eps, minSamples, p)
  {
    var row := NearMatrix(pts, eps)[p];
    CountTrueIsSetSize(row);
    assert (set k | 0 <= k < |row| && row[k]) == Neighbourhood(pts, eps, p);
  }

  // ---------------------------------------------------------------------------
  // Consequences of the clustering contract

  /** A core point is never noise. */
  lemma CoreNeverNoise(pts: seq<Coord>, eps: real, minSamples: int, labels: seq<int>, clusters: nat, p: int)
    requires IsClustering(pts, eps, minSamples, labels, clusters)
    requires IsCore(pts, eps, minSamples, p)
    ensures labels[p] != Noise
  {
    WithinSelf(pts[p], eps);
    NearMatrixMeaning(pts, eps, minSamples, p, p);
  }

  /** Two core points within `eps` of each other are in the same cluster. */
  lemma NearCoresShareCluster(pts: seq<Coord>, eps: real, minSamples: int, labels: seq<int>, clusters: nat, p: int, q: int)
    requires IsClustering(pts, eps, minSamples, labels, clusters)
    requires IsCore(pts, eps, minSamples, p) && IsCore(pts, eps, minSamples, q) && Near(pts, eps, p, q)
    ensures labels[p] == labels[q] != Noise
  {
    NearMatrixMeaning(pts, eps, minSamples, p, q);
    NearMatrixMeaning(pts, eps, minSamples, q, p);
  }

  /** A point is noise exactly when no core point (itself included) lies within `eps` of it. */
  lemma NoiseIffNoCoreNeighbour(pts: seq<Coord>, eps: real, minSamples: int, labels: seq<int>, clusters: nat, p: int)
    requires IsClustering(pts, eps, minSamples, labels, clusters)
    requires 0 <= p < |pts|
    ensures labels[p] == Noise <==> forall q :: IsCore(pts, eps, minSamples, q) ==> !Near(pts, eps, q, p)
  {
    var adj := NearMatrix(pts, eps);
    var core := CoreFlags(adj, minSamples);
    if labels[p] == Noise {
      forall q | IsCore(pts, eps, minSamples, q)
        ensures !Near(pts, eps, q, p)
      {
        NearMatrixMeaning(pts, eps, minSamples, q, p);
      }
    } else {
      var k := labels[p];
      assert HasRoot(adj, core, labels, k);
      var s :| IsCoreAt(core, s) && 0 <= s < |adj| && labels[s] == k
        && forall p :: 0 <= p < |adj| && labels[p] == k ==> Reachable(adj, core, s, p);
      assert Reachable(adj, core, s, p);
      var path :| IsPath(adj, core, path) && path[0] == s && path[|path| - 1] == p;
      var q := if |path| == 1 then p else path[|path| - 2];
      if |path| == 1 {
        WithinSelf(pts[p], eps);
      }
      NearMatrixMeaning(pts, eps, minSamples, q, p);
      assert IsCore(pts, eps, minSamples, q) && Near(pts, eps, q, p);
    }
  }

  /** Along a path from a core point, every core point keeps the start's cluster id. */
  lemma {:induction false} PathInCluster(adj: seq<seq<bool>>, core: seq<bool>, labels: seq<int>, clusters: nat, path: seq<int>)
    requires IsGraphClustering(adj, core, labels, clusters)
    requires IsPath(adj, core, path) && |path| > 1 && 0 <= path[0] < |adj|
    ensures labels[path[|path| - 2]] == labels[path[0]]
  {
    var n := |path|;
    if n > 2 {
      var prefix := path[..n - 1];
      PathInCluster(adj, core, labels, clusters, prefix);
      assert prefix[n - 3] == path[n - 3] && prefix[n - 2] == path[n - 2];
      assert IsCoreAt(core, path[n - 3]) && Adjacent(adj, path[n - 3], path[n - 2]);
    }
  }

  /** A clustered point is a core point or adjacent to a core point of its own cluster. */
  lemma ClusteredHasCore(adj: seq<seq<bool>>, core: seq<bool>, labels: seq<int>, clusters: nat, p: int)
    requires IsGraphClustering(adj, core, labels, clusters)
    requires 0 <= p < |adj| && labels[p] != Noise
    ensures exists q :: IsCoreAt(core, q) && (q == p || Adjacent(adj, q, p)) && labels[q] == labels[p]
  {
    var k := labels[p];
    assert HasRoot(adj, core, labels, k);
    var s :| IsCoreAt(core, s) && 0 <= s < |adj| && labels[s] == k
      && forall p :: 0 <= p < |adj| && labels[p] == k ==> Reachable(adj, core, s, p);
    var path :| IsPath(adj, core, path) && path[0] == s && path[|path| - 1] == p;
    if |path| > 1 {
      PathInCluster(adj, core, labels, clusters, path);
      assert IsCoreAt(core, path[|path| - 2]) && Adjacent(adj, path[|path| - 2], p);
    }
  }

  /**
   * A clustered point takes the least id among the core points within `eps` of it: one of
   * them carries its id, and none carries a smaller one.
   */
  lemma BorderTakesLeastId(pts: seq<Coord>, eps: real, minSamples: int, labels: seq<int>, clusters: nat, p: int)
    requires IsClustering(pts, eps, minSamples, labels, clusters)
    requires 0 <= p < |pts| && labels[p] != Noise
    ensures exists q :: IsCore(pts, eps, minSamples, q) && Near(pts, eps, q, p) && labels[q] == labels[p]
    ensures forall q :: IsCore(pts, eps, minSamples, q) && Near(pts, eps, q, p) ==> labels[p] <= labels[q]
  {
    var adj := NearMatrix(pts, eps);
    var core := CoreFlags(adj, minSamples);
    ClusteredHasCore(adj, core, labels, clusters, p);
    var q :| IsCoreAt(core, q) && (q == p || Adjacent(adj, q, p)) && labels[q] == labels[p];
    WithinSelf(pts[p], eps);
    NearMatrixMeaning(pts, eps, minSamples, q, p);
    forall q' | IsCore(pts, eps, minSamples, q') && Near(pts, eps, q', p)
      ensures labels[p] <= labels[q']
    {
      NearMatrixMeaning(pts, eps, minSamples, q', p);
    }
  }

  /**
   * Cluster ids are numbered in index order: if core point `p` has a smaller id than core
   * point `q`, some core point of `p`'s cluster comes before `q`.
   */
  lemma ClusterIdsFollowIndexOrder(pts: seq<Coord>, eps: real, minSamples: int, labels: seq<int>, clusters: nat,
                                   p: int, q: int)
    requires IsClustering(pts, eps, minSamples, labels, clusters)
    requires IsCore(pts, eps, minSamples, p) && IsCore(pts, eps, minSamples, q) && labels[p] < labels[q]
    ensures exists r :: IsCore(pts, eps, minSamples, r) && r < q && labels[r] == labels[p]
  {
    var adj := NearMatrix(pts, eps);
    var core := CoreFlags(adj, minSamples);
    CoreNeverNoise(pts, eps, minSamples, labels, clusters, p);
    NearMatrixMeaning(pts, eps, minSamples, p, p);
    NearMatrixMeaning(pts, eps, minSamples, q, q);
    var firsts :| |firsts| == clusters && FirstCores(core, labels, firsts);
    var r := firsts[labels[p]];
    assert firsts[labels[q]] <= q;
    NearMatrixMeaning(pts, eps, minSamples, r, r);
  }

  // ---------------------------------------------------------------------------
  // The clustering contract fixes a single labelling

  /** Every point of the graph is adjacent to itself, as every point lies within `eps` of itself. */
  ghost predicate Reflexive(adj: seq<seq<bool>>)
  {
    forall p :: 0 <= p < |adj| ==> Adjacent(adj, p, p)
  }

  /** A core point reached from a core point along a path carries the start's id. */
  lemma CorePathSameId(adj: seq<seq<bool>>, core: seq<bool>, labels: seq<int>, clusters: nat, path: seq<int>)
    requires IsGraphClustering(adj, core, labels, clusters)
    requires IsPath(adj, core, path) && 0 <= path[0] < |adj| && IsCoreAt(core, path[|path| - 1])
    ensures labels[path[|path| - 1]] == labels[path[0]]
  {
    if |path| > 1 {
      PathInCluster(adj, core, labels, clusters, path);
      assert IsCoreAt(core, path[|path| - 2]) && Adjacent(adj, path[|path| - 2], path[|path| - 1]);
    }
  }

  /** Two core points sharing an id in one clustering share one in any other clustering of the graph. */
  lemma SameCoreGrouping(adj: seq<seq<bool>>, core: seq<bool>, l1: seq<int>, c1: nat, l2: seq<int>, c2: nat,
                         p: int, q: int)
    requires Reflexive(adj)
    requires IsGraphClustering(adj, core, l1, c1) && IsGraphClustering(adj, core, l2, c2)
    requires IsCoreAt(core, p) && IsCoreAt(core, q) && l1[p] == l1[q]
    ensures l2[p] == l2[q]
  {
    assert Adjacent(adj, p, p);
    var k := l1[p];
    assert HasRoot(adj, core, l1, k);
    var s :| IsCoreAt(core, s) && 0 <= s < |adj| && l1[s] == k
      && forall p :: 0 <= p < |adj| && l1[p] == k ==> Reachable(adj, core, s, p);
    assert Reachable(adj, core, s, p) && Reachable(adj, core, s, q);
    var toP :| IsPath(adj, core, toP) && toP[0] == s && toP[|toP| - 1] == p;
    var toQ :| IsPath(adj, core, toQ) && toQ[0] == s && toQ[|toQ| - 1] == q;
    CorePathSameId(adj, core, l2, c2, toP);
    CorePathSameId(adj, core, l2, c2, toQ);
  }

  /** The first core point of a cluster of one clustering is the first core point of a cluster of the other. */
  lemma FirstCoreShared(adj: seq<seq<bool>>, core: seq<bool>, l1: seq<int>, c1: nat, f1: seq<int>,
                        l2: seq<int>, c2: nat, f2: seq<int>, k: int)
    requires Reflexive(adj)
    requires IsGraphClustering(adj, core, l1, c1) && IsGraphClustering(adj, core, l2, c2)
    requires |f1| == c1 && FirstCores(core, l1, f1) && |f2| == c2 && FirstCores(core, l2, f2)
    requires 0 <= k < c1
    ensures f1[k] in f2
  {
    var m := f1[k];
    assert Adjacent(adj, m, m);
    var j := l2[m];
    SameCoreGrouping(adj, core, l2, c2, l1, c1, f2[j], m);
    assert f2[j] == m;
  }

  /** The head of a strictly increasing sequence is its least element, and the rest lie above it. */
  lemma HeadIsLeast(f: seq<int>, x: int)
    requires forall a, b :: 0 <= a < b < |f| ==> f[a] < f[b]
    requires x in f
    ensures f[0] <= x
    ensures x != f[0] ==> x in f[1..]
  {
    var i :| 0 <= i < |f| && f[i] == x;
    if i > 0 {
      assert f[0] < f[i];
      assert f[1..][i - 1] == x;
    }
  }

  /** Two non-empty strictly increasing sequences with the same elements share their head, and their tails are again such a pair. */
  lemma SameHeadSameTails(f: seq<int>, g: seq<int>)
    requires f != [] && g != []
    requires forall a, b :: 0 <= a < b < |f| ==> f[a] < f[b]
    requires forall a, b :: 0 <= a < b < |g| ==> g[a] < g[b]
    requires forall x :: x in f ==> x in g
    requires forall x :: x in g ==> x in f
    ensures f[0] == g[0]
    ensures forall a, b :: 0 <= a < b < |f[1..]| ==> f[1..][a] < f[1..][b]
    ensures forall a, b :: 0 <= a < b < |g[1..]| ==> g[1..][a] < g[1..][b]
    ensures forall x :: x in f[1..] ==> x in g[1..]
    ensures forall x :: x in g[1..] ==> x in f[1..]
  {
    HeadIsLeast(g, f[0]);
    HeadIsLeast(f, g[0]);
    forall x | x in f[1..]
      ensures x in g[1..]
    {
      HeadIsLeast(f, x);
      HeadIsLeast(g, x);
    }
    forall x | x in g[1..]
      ensures x in f[1..]
    {
      HeadIsLeast(g, x);
      HeadIsLeast(f, x);
    }
  }

  /** If one of two sequences with the same elements is empty, so is the other. */
  lemma EmptySameElements(f: seq<int>, g: seq<int>)
    requires f == [] || g == []
    requires forall x :: x in f ==> x in g
    requires forall x :: x in g ==> x in f
    ensures f == [] && g == []
  {
    forall x
      ensures multiset(f)[x] == 0 && multiset(g)[x] == 0
    {
      assert x !in f && x !in g;
    }
    assert multiset(f) == multiset{} && multiset(g) == multiset{};
    assert |f| == |multiset(f)| == 0 && |g| == |multiset(g)| == 0;
  }

  /** Two strictly increasing sequences with the same elements are equal. */
  lemma {:induction false} IncreasingSameElements(f: seq<int>, g: seq<int>)
    requires forall a, b :: 0 <= a < b < |f| ==> f[a] < f[b]
    requires forall a, b :: 0 <= a < b < |g| ==> g[a] < g[b]
    requires forall x :: x in f ==> x in g
    requires forall x :: x in g ==> x in f
    ensures f == g
  {
    if f == [] || g == [] {
      EmptySameElements(f, g);
    } else {
      SameHeadSameTails(f, g);
      IncreasingSameElements(f[1..], g[1..]);
      assert f == [f[0]] + f[1..];
      assert g == [g[0]] + g[1..];
    }
  }

  /** With the same first core points, two clusterings give every core point the same id. */
  lemma CoreIdAgrees(adj: seq<seq<bool>>, core: seq<bool>, l1: seq<int>, c1: nat, l2: seq<int>, c2: nat,
                     f: seq<int>, p: int)
    requires Reflexive(adj)
    requires IsGraphClustering(adj, core, l1, c1) && IsGraphClustering(adj, core, l2, c2)
    requires |f| == c1 == c2 && FirstCores(core, l1, f) && FirstCores(core, l2, f)
    requires IsCoreAt(core, p)
    ensures l1[p] == l2[p]
  {
    assert Adjacent(adj, p, p);
    var k := l1[p];
    SameCoreGrouping(adj, core, l1, c1, l2, c2, p, f[k]);
  }

  /** With the same first core points, two clusterings give every point the same label. */
  lemma PointIdAgrees(adj: seq<seq<bool>>, core: seq<bool>, l1: seq<int>, c1: nat, l2: seq<int>, c2: nat,
                      f: seq<int>, p: int)
    requires Reflexive(adj)
    requires IsGraphClustering(adj, core, l1, c1) && IsGraphClustering(adj, core, l2, c2)
    requires |f| == c1 == c2 && FirstCores(core, l1, f) && FirstCores(core, l2, f)
    requires 0 <= p < |adj|
    ensures l1[p] == l2[p]
  {
    if IsCoreAt(core, p) {
      CoreIdAgrees(adj, core, l1, c1, l2, c2, f, p);
    } else if l1[p] != Noise {
      // a border point: both clusterings give it the least id among its core neighbours
      ClusteredHasCore(adj, core, l1, c1, p);
      var q1 :| IsCoreAt(core, q1) && (q1 == p || Adjacent(adj, q1, p)) && l1[q1] == l1[p];
      ClusteredAgrees(adj, core, l1, c1, l2, c2, p);
      ClusteredHasCore(adj, core, l2, c2, p);
      var q2 :| IsCoreAt(core, q2) && (q2 == p || Adjacent(adj, q2, p)) && l2[q2] == l2[p];
      CoreIdAgrees(adj, core, l1, c1, l2, c2, f, q1);
      CoreIdAgrees(adj, core, l1, c1, l2, c2, f, q2);
      assert Adjacent(adj, q1, q1) && Adjacent(adj, q2, q2);
      assert l2[p] <= l2[q1] && l1[p] <= l1[q2];
    } else {
      ClusteredAgrees(adj, core, l2, c2, l1, c1, p);
    }
  }

  /** A point clustered by one clustering is clustered by any other clustering of the graph. */
  lemma ClusteredAgrees(adj: seq<seq<bool>>, core: seq<bool>, l1: seq<int>, c1: nat, l2: seq<int>, c2: nat, p: int)
    requires Reflexive(adj)
    requires IsGraphClustering(adj, core, l1, c1) && IsGraphClustering(adj, core, l2, c2)
    requires 0 <= p < |adj|
    ensures l1[p] != Noise ==> l2[p] != Noise
  {
    if l1[p] != Noise {
      ClusteredHasCore(adj, core, l1, c1, p);
      var q :| IsCoreAt(core, q) && (q == p || Adjacent(adj, q, p)) && l1[q] == l1[p];
      assert Adjacent(adj, q, q);
    }
  }

  /** A graph with every point adjacent to itself has exactly one clustering. */
  lemma GraphClusteringUnique(adj: seq<seq<bool>>, core: seq<bool>, l1: seq<int>, c1: nat, l2: seq<int>, c2: nat)
    requires Reflexive(adj)
    requires IsGraphClustering(adj, core, l1, c1) && IsGraphClustering(adj, core, l2, c2)
    ensures c1 == c2 && l1 == l2
  {
    var f1 :| |f1| == c1 && FirstCores(core, l1, f1);
    var f2 :| |f2| == c2 && FirstCores(core, l2, f2);
    forall x | x in f1
      ensures x in f2
    {
      var k :| 0 <= k < |f1| && f1[k] == x;
      FirstCoreShared(adj, core, l1, c1, f1, l2, c2, f2, k);
    }
    forall x | x in f2
      ensures x in f1
    {
      var k :| 0 <= k < |f2| && f2[k] == x;
      FirstCoreShared(adj, core, l2, c2, f2, l1, c1, f1, k);
    }
    IncreasingSameElements(f1, f2);
    forall p | 0 <= p < |adj|
      ensures l1[p] == l2[p]
    {
      PointIdAgrees(adj, core, l1, c1, l2, c2, f1, p);
    }
  }

  /** The DBSCAN clustering of a list of points is unique: labels and cluster count are determined. */
  lemma ClusteringUnique(pts: seq<Coord>, eps: real, minSamples: int, l1: seq<int>, c1: nat, l2: seq<int>, c2: nat)
    requires IsClustering(pts, eps, minSamples, l1, c1) && IsClustering(pts, eps, minSamples, l2, c2)
    ensures c1 == c2 && l1 == l2
  {
    var adj := NearMatrix(pts, eps);
    forall p | 0 <= p < |adj|
      ensures Adjacent(adj, p, p)
    {
      WithinSelf(pts[p], eps);
    }
    GraphClusteringUnique(adj, CoreFlags(adj, minSamples), l1, c1, l2, c2);
  }

  /** When every point is noise there is no cluster at all. */
  lemma AllNoiseNoClusters(pts: seq<Coord>, eps: real, minSamples: int, labels: seq<int>, clusters: nat)
    requires IsClustering(pts, eps, minSamples, labels, clusters)
    requires forall p :: 0 <= p < |labels| ==> labels[p] == Noise
    ensures clusters == 0
  {
    if clusters > 0 {
      ClusterIdsInUse(pts, eps, minSamples, labels, clusters, 0);
      assert false;
    }
  }

  /** Every id below `clusters` is carried by a core point, so the ids in use are exactly 0 .. clusters-1. */
  lemma ClusterIdsInUse(pts: seq<Coord>, eps: real, minSamples: int, labels: seq<int>, clusters: nat, k: int)
    requires IsClustering(pts, eps, minSamples, labels, clusters)
    requires 0 <= k < clusters
    ensures exists p :: IsCore(pts, eps, minSamples, p) && labels[p] == k
  {
    var adj := NearMatrix(pts, eps);
    var core := CoreFlags(adj, minSamples);
    assert HasRoot(adj, core, labels, k);
    var s :| IsCoreAt(core, s) && 0 <= s < |adj| && labels[s] == k
      && forall p :: 0 <= p < |adj| && labels[p] == k ==> Reachable(adj, core, s, p);
    NearMatrixMeaning(pts, eps, minSamples, s, s);
  }

  /** With `minSamples` at most 1 every point is a core point (it counts itself), so nothing is noise. */
  lemma NoNoiseWhenMinSamplesOne(pts: seq<Coord>, eps: real, minSamples: int, labels: seq<int>, clusters: nat, p: int)
    requires IsClustering(pts, eps, minSamples, labels, clusters)
    requires minSamples <= 1 && 0 <= p < |pts|
    ensures labels[p] != Noise
  {
    WithinSelf(pts[p], eps);
    assert p in Neighbourhood(pts, eps, p);
    CoreNeverNoise(pts, eps, minSamples, labels, clusters, p);
  }

  // ---------------------------------------------------------------------------
  // Book-keeping of the labelling

  ghost predicate Symmetric(adj: seq<seq<bool>>)
  {
    forall p, q :: Adjacent(adj, p, q) ==> Adjacent(adj, q, p)
  }

  /** Indices still labelled noise; shrinks as clusters grow. */
  ghost function Unlabelled(labels: seq<int>): set<int>
  {
    set p | 0 <= p < |labels| && labels[p] == Noise
  }

  lemma PathExtend(adj: seq<seq<bool>>, core: seq<bool>, path: seq<int>, j: int)
    requires IsPath(adj, core, path)
    requires IsCoreAt(core, path[|path| - 1]) && Adjacent(adj, path[|path| - 1], j)
    ensures IsPath(adj, core, path + [j]) && (path + [j])[0] == path[0]
  {
    assert (path + [j])[..|path|] == path;
  }

  /**
   * Book-keeping the labelling keeps: labels stay below the number of clusters started,
   * `seeds[k]` is the core point cluster `k` started from, and `paths[p]` is a path from the
   * seed of `p`'s cluster to `p`.
   */
  ghost predicate Labelled(adj: seq<seq<bool>>, core: seq<bool>, labels: seq<int>, seeds: seq<int>, paths: seq<seq<int>>)
  {
    |core| == |adj| && |labels| == |adj| && |paths| == |adj|
    && (forall p :: 0 <= p < |adj| ==> Noise <= labels[p] < |seeds|)
    && (forall k :: 0 <= k < |seeds| ==> IsCoreAt(core, seeds[k]) && labels[seeds[k]] == k)
    && (forall p {:trigger paths[p]} :: 0 <= p < |adj| && labels[p] != Noise ==>
          IsPath(adj, core, paths[p]) && paths[p][0] == seeds[labels[p]] && paths[p][|paths[p]| - 1] == p)
  }

  /** Every labelled core point not waiting in `pending` has all its neighbours labelled, core ones with its own label. */
  ghost predicate ClosedExcept(adj: seq<seq<bool>>, core: seq<bool>, labels: seq<int>, pending: seq<int>)
    requires |labels| == |adj|
  {
    forall p, q :: IsCoreAt(core, p) && Adjacent(adj, p, q) && labels[p] != Noise && p !in pending ==>
      labels[q] != Noise && (IsCoreAt(core, q) ==> labels[q] == labels[p])
  }

  /** Labelling the unlabelled neighbour `j` of the core point `cur` keeps the book-keeping. */
  lemma PushNeighbour(adj: seq<seq<bool>>, core: seq<bool>, labels: seq<int>, c: int, cur: int, j: int,
                      stack: seq<int>, seeds: seq<int>, paths: seq<seq<int>>)
    requires Labelled(adj, core, labels, seeds, paths) && 0 <= c == |seeds| - 1
    requires 0 <= cur < |adj| && IsCoreAt(core, cur) && labels[cur] == c
    requires Adjacent(adj, cur, j) && labels[j] == Noise
    requires OnStack(labels, stack, c) && ClosedExcept(adj, core, labels, stack + [cur])
    requires LeastIds(adj, core, labels)
    ensures Labelled(adj, core, labels[j := c], seeds, paths[j := paths[cur] + [j]])
    ensures ClosedExcept(adj, core, labels[j := c], stack + [j] + [cur])
    ensures LeastIds(adj, core, labels[j := c])
  {
    var labels', paths' := labels[j := c], paths[j := paths[cur] + [j]];
    PathExtend(adj, core, paths[cur], j);
    forall k | 0 <= k < |seeds|
      ensures IsCoreAt(core, seeds[k]) && labels'[seeds[k]] == k
    {
      assert labels[seeds[k]] == k;
    }
    forall p | 0 <= p < |adj| && labels'[p] != Noise
      ensures IsPath(adj, core, paths'[p]) && paths'[p][0] == seeds[labels'[p]] && paths'[p][|paths'[p]| - 1] == p
    {
      if p != j {
        assert labels'[p] == labels[p] && paths'[p] == paths[p];
      }
    }
    forall p, q | IsCoreAt(core, p) && Adjacent(adj, p, q) && labels'[p] != Noise && p !in stack + [j] + [cur]
      ensures labels'[q] != Noise && (IsCoreAt(core, q) ==> labels'[q] == labels'[p])
    {
      assert p !in stack + [cur];
    }
    forall q, p | IsCoreAt(core, q) && Adjacent(adj, q, p) && labels'[q] != Noise && labels'[p] != Noise
      ensures labels'[p] <= labels'[q]
    {
      if p == j && q != j {
        // a clustered core neighbour of the unlabelled `j` is still pending, so it is in cluster `c`
        assert q in stack + [cur];
      }
    }
  }

  /** A labelled core neighbour of `cur` is already in `cur`'s cluster: neighbouring core points are never split. */
  lemma LabelledCoreNeighbour(adj: seq<seq<bool>>, core: seq<bool>, labels: seq<int>, c: int, cur: int, j: int,
                              stack: seq<int>)
    requires |labels| == |adj| && Symmetric(adj)
    requires 0 <= cur < |adj| && IsCoreAt(core, cur) && labels[cur] == c
    requires Adjacent(adj, cur, j) && labels[j] != Noise && IsCoreAt(core, j)
    requires OnStack(labels, stack, c)
    requires ClosedExcept(adj, core, labels, stack + [cur])
    ensures labels[j] == c
  {
    assert Adjacent(adj, j, cur);
    assert j in stack + [cur] || labels[cur] == labels[j];
  }

  /** Every point waiting on the stack is labelled `c`. */
  ghost predicate OnStack(labels: seq<int>, stack: seq<int>, c: int)
  {
    forall i :: 0 <= i < |stack| ==> 0 <= stack[i] < |labels| && labels[stack[i]] == c
  }

  /** Popping a point that is not core: it has no neighbours to visit. */
  lemma ClosedWithout(adj: seq<seq<bool>>, core: seq<bool>, labels: seq<int>, seeds: seq<int>, paths: seq<seq<int>>,
                      rest: seq<int>, cur: int, c: int)
    requires Growing(adj, core, labels, seeds, paths, rest + [cur], c) && !IsCoreAt(core, cur)
    ensures Growing(adj, core, labels, seeds, paths, rest, c)
  {
    PopStack(adj, core, labels, seeds, paths, rest, cur, c);
    forall p, q | IsCoreAt(core, p) && Adjacent(adj, p, q) && labels[p] != Noise && p !in rest
      ensures labels[q] != Noise && (IsCoreAt(core, q) ==> labels[q] == labels[p])
    {
      assert p !in rest + [cur];
    }
  }

  /** Every neighbour of `cur` below index `j` is labelled, core ones with cluster `c`. */
  ghost predicate NeighboursDone(adj: seq<seq<bool>>, core: seq<bool>, labels: seq<int>, cur: int, c: int, j: int)
  {
    |labels| == |adj|
    && forall q :: 0 <= q < j && Adjacent(adj, cur, q) ==> labels[q] != Noise && (IsCoreAt(core, q) ==> labels[q] == c)
  }

  lemma NeighboursDoneStep(adj: seq<seq<bool>>, core: seq<bool>, labels: seq<int>, labels': seq<int>, cur: int, c: int, j: int)
    requires NeighboursDone(adj, core, labels, cur, c, j) && |labels'| == |labels|
    requires forall q :: 0 <= q < |labels| && labels[q] != Noise ==> labels'[q] == labels[q]
    requires Adjacent(adj, cur, j) ==> labels'[j] != Noise && (IsCoreAt(core, j) ==> labels'[j] == c)
    ensures NeighboursDone(adj, core, labels', cur, c, j + 1)
  {
  }

  /**
   * The state of the visit of the core point `cur` before neighbour `j`: the book-keeping,
   * the stack, and the neighbours below `j` done.
   */
  ghost predicate Visiting(adj: seq<seq<bool>>, core: seq<bool>, labels: seq<int>, seeds: seq<int>, paths: seq<seq<int>>,
                           stack: seq<int>, c: int, cur: int, j: int)
  {
    Labelled(adj, core, labels, seeds, paths) && 0 <= cur < |adj| && labels[cur] == c
    && OnStack(labels, stack, c) && ClosedExcept(adj, core, labels, stack + [cur])
    && LeastIds(adj, core, labels) && NeighboursDone(adj, core, labels, cur, c, j)
  }

  /** Labelling and pushing the unlabelled neighbour `j`. */
  lemma VisitPush(adj: seq<seq<bool>>, core: seq<bool>, labels: seq<int>, seeds: seq<int>, paths: seq<seq<int>>,
                  stack: seq<int>, c: int, cur: int, j: int)
    requires Visiting(adj, core, labels, seeds, paths, stack, c, cur, j) && 0 <= c == |seeds| - 1
    requires IsCoreAt(core, cur) && Adjacent(adj, cur, j) && labels[j] == Noise
    ensures Visiting(adj, core, labels[j := c], seeds, paths[j := paths[cur] + [j]], stack + [j], c, cur, j + 1)
  {
    PushNeighbour(adj, core, labels, c, cur, j, stack, seeds, paths);
    NeighboursDoneStep(adj, core, labels, labels[j := c], cur, c, j);
  }

  /** Passing neighbour `j` when it is not adjacent or already labelled. */
  lemma VisitSkip(adj: seq<seq<bool>>, core: seq<bool>, labels: seq<int>, seeds: seq<int>, paths: seq<seq<int>>,
                  stack: seq<int>, c: int, cur: int, j: int)
    requires Visiting(adj, core, labels, seeds, paths, stack, c, cur, j) && Symmetric(adj) && IsCoreAt(core, cur)
    requires !Adjacent(adj, cur, j) || labels[j] != Noise
    ensures Visiting(adj, core, labels, seeds, paths, stack, c, cur, j + 1)
  {
    if Adjacent(adj, cur, j) && IsCoreAt(core, j) {
      LabelledCoreNeighbour(adj, core, labels, c, cur, j, stack);
    }
    NeighboursDoneStep(adj, core, labels, labels, cur, c, j);
  }

  /** The neighbours of `cur` below index `n` that `labels` leaves unlabelled, in index order. */
  function FreshNeighbours(adj: seq<seq<bool>>, labels: seq<int>, cur: int, n: nat): seq<int>
    requires n <= |labels|
  {
    if n == 0 then []
    else FreshNeighbours(adj, labels, cur, n - 1) + (if Adjacent(adj, cur, n - 1) && labels[n - 1] == Noise then [n - 1] else [])
  }

  /** A point is among the fresh neighbours exactly when it is an unlabelled neighbour of `cur` below `n`. */
  lemma {:induction false} FreshNeighboursMembers(adj: seq<seq<bool>>, labels: seq<int>, cur: int, n: nat)
    requires n <= |labels|
    ensures forall p :: p in FreshNeighbours(adj, labels, cur, n) <==> 0 <= p < n && Adjacent(adj, cur, p) && labels[p] == Noise
  {
    if n > 0 {
      FreshNeighboursMembers(adj, labels, cur, n - 1);
    }
  }

  /** `labels` after the unlabelled neighbours of `cur` below index `j` are given cluster `c`, one point at a time. */
  function VisitLabels(adj: seq<seq<bool>>, labels: seq<int>, cur: int, c: int, j: nat): (r: seq<int>)
    requires j <= |labels|
    ensures |r| == |labels|
  {
    if j == 0 then labels
    else
      var prev := VisitLabels(adj, labels, cur, c, j - 1);
      if Adjacent(adj, cur, j - 1) && labels[j - 1] == Noise then prev[j - 1 := c] else prev
  }

  /** After the points below `j`, point `p` carries `c` exactly when it is an unlabelled neighbour of `cur` below `j`. */
  lemma {:induction false} VisitLabelsAt(adj: seq<seq<bool>>, labels: seq<int>, cur: int, c: int, j: nat, p: int)
    requires j <= |labels| && 0 <= p < |labels|
    ensures |VisitLabels(adj, labels, cur, c, j)| == |labels|
    ensures VisitLabels(adj, labels, cur, c, j)[p] == if p < j && labels[p] == Noise && Adjacent(adj, cur, p) then c else labels[p]
  {
    if j > 0 {
      VisitLabelsAt(adj, labels, cur, c, j - 1, p);
      VisitLabelsAt(adj, labels, cur, c, j - 1, j - 1);
    }
  }

  /** One step of the visit: how the labels and the stack after point `j` follow from those before it. */
  lemma VisitNext(adj: seq<seq<bool>>, labels0: seq<int>, stack0: seq<int>, cur: int, c: int, j: int,
                  labels: seq<int>, stack: seq<int>)
    requires |labels0| == |adj| && 0 <= j < |adj|
    requires labels == VisitLabels(adj, labels0, cur, c, j) && stack == stack0 + FreshNeighbours(adj, labels0, cur, j)
    ensures labels[j] == labels0[j]
    ensures Adjacent(adj, cur, j) && labels[j] == Noise ==>
              labels[j := c] == VisitLabels(adj, labels0, cur, c, j + 1)
              && stack + [j] == stack0 + FreshNeighbours(adj, labels0, cur, j + 1)
    ensures !(Adjacent(adj, cur, j) && labels[j] == Noise) ==>
              labels == VisitLabels(adj, labels0, cur, c, j + 1) && stack == stack0 + FreshNeighbours(adj, labels0, cur, j + 1)
  {
    VisitLabelsAt(adj, labels0, cur, c, j, j);
  }

  /** The visit gives `c` to exactly the unlabelled neighbours of `cur` and changes no other label. */
  lemma VisitLabelsMeaning(adj: seq<seq<bool>>, labels: seq<int>, cur: int, c: int)
    requires |labels| == |adj|
    ensures |VisitLabels(adj, labels, cur, c, |adj|)| == |labels|
    ensures forall p :: 0 <= p < |adj| ==>
              VisitLabels(adj, labels, cur, c, |adj|)[p] == if labels[p] == Noise && Adjacent(adj, cur, p) then c else labels[p]
  {
    if |adj| > 0 {
      VisitLabelsAt(adj, labels, cur, c, |adj|, 0);
    }
    forall p | 0 <= p < |adj|
      ensures VisitLabels(adj, labels, cur, c, |adj|)[p] == if labels[p] == Noise && Adjacent(adj, cur, p) then c else labels[p]
    {
      VisitLabelsAt(adj, labels, cur, c, |adj|, p);
    }
  }

  /** After the visit either fewer points are unlabelled or neither the labels nor the stack changed. */
  lemma VisitedDone(adj: seq<seq<bool>>, labels0: seq<int>, stack0: seq<int>, cur: int, c: int)
    requires |labels0| == |adj| && c != Noise
    ensures var labels, stack := VisitLabels(adj, labels0, cur, c, |adj|), stack0 + FreshNeighbours(adj, labels0, cur, |adj|);
      Unlabelled(labels) < Unlabelled(labels0) || (labels == labels0 && stack == stack0)
  {
    var labels, pushed := VisitLabels(adj, labels0, cur, c, |adj|), FreshNeighbours(adj, labels0, cur, |adj|);
    FreshNeighboursMembers(adj, labels0, cur, |adj|);
    VisitLabelsMeaning(adj, labels0, cur, c);
    if pushed == [] {
      assert stack0 + pushed == stack0;
      assert labels == labels0;
    } else {
      var p := pushed[0];
      assert p in pushed;
      assert p in Unlabelled(labels0) && p !in Unlabelled(labels);
    }
  }

  /** Before any neighbour is visited, the labels and the stack are those the visit starts from. */
  lemma VisitNone(adj: seq<seq<bool>>, labels0: seq<int>, stack0: seq<int>, cur: int, c: int)
    ensures VisitLabels(adj, labels0, cur, c, 0) == labels0 && stack0 + FreshNeighbours(adj, labels0, cur, 0) == stack0
  {
    assert stack0 + [] == stack0;
  }

  /** Popping the core point `cur` starts its visit: no neighbour is done yet. */
  lemma VisitStart(adj: seq<seq<bool>>, core: seq<bool>, labels0: seq<int>, seeds: seq<int>,
                   paths0: seq<seq<int>>, stack0: seq<int>, c: int, cur: int)
    requires Growing(adj, core, labels0, seeds, paths0, stack0 + [cur], c)
    ensures Visiting(adj, core, labels0, seeds, paths0, stack0, c, cur, 0)
  {
    PopStack(adj, core, labels0, seeds, paths0, stack0, cur, c);
  }

  /** Once all neighbours of `cur` are done, `cur` no longer needs to wait. */
  lemma ClosedAfterVisit(adj: seq<seq<bool>>, core: seq<bool>, labels: seq<int>, c: int, cur: int, stack: seq<int>)
    requires |labels| == |adj| && 0 <= cur < |adj| && labels[cur] == c
    requires ClosedExcept(adj, core, labels, stack + [cur])
    requires NeighboursDone(adj, core, labels, cur, c, |adj|)
    ensures ClosedExcept(adj, core, labels, stack)
  {
    forall p, q | IsCoreAt(core, p) && Adjacent(adj, p, q) && labels[p] != Noise && p !in stack
      ensures labels[q] != Noise && (IsCoreAt(core, q) ==> labels[q] == labels[p])
    {
      if p != cur {
        assert p !in stack + [cur];
      }
    }
  }

  /** The book-keeping while cluster `c` grows from the points waiting on `stack`. */
  ghost predicate Growing(adj: seq<seq<bool>>, core: seq<bool>, labels: seq<int>, seeds: seq<int>, paths: seq<seq<int>>,
                          stack: seq<int>, c: int)
  {
    Labelled(adj, core, labels, seeds, paths) && OnStack(labels, stack, c)
    && ClosedExcept(adj, core, labels, stack) && LeastIds(adj, core, labels)
  }

  /** Popping `cur` off the stack: it and the rest are still labelled `c`. */
  lemma PopStack(adj: seq<seq<bool>>, core: seq<bool>, labels: seq<int>, seeds: seq<int>, paths: seq<seq<int>>,
                 stack: seq<int>, cur: int, c: int)
    requires Growing(adj, core, labels, seeds, paths, stack + [cur], c)
    ensures 0 <= cur < |adj| && labels[cur] == c && OnStack(labels, stack, c)
  {
    assert (stack + [cur])[|stack|] == cur;
    forall i | 0 <= i < |stack|
      ensures 0 <= stack[i] < |labels| && labels[stack[i]] == c
    {
      assert (stack + [cur])[i] == stack[i];
    }
  }

  /** A new cluster id, above every id in use, keeps the least-id property when it labels an unlabelled point. */
  lemma StartCluster(adj: seq<seq<bool>>, core: seq<bool>, labels: seq<int>, seeds: seq<int>, paths: seq<seq<int>>, i: int)
    requires Labelled(adj, core, labels, seeds, paths)
    requires 0 <= i < |adj| && labels[i] == Noise && IsCoreAt(core, i)
    requires ClosedExcept(adj, core, labels, []) && LeastIds(adj, core, labels)
    requires Scanned(core, labels, seeds, i)
    ensures var labels', seeds' := labels[i := |seeds|], seeds + [i];
      Labelled(adj, core, labels', seeds', paths[i := [i]])
      && ClosedExcept(adj, core, labels', [i])
      && LeastIds(adj, core, labels')
      && Scanned(core, labels', seeds', i + 1)
  {
    var labels', seeds', paths' := labels[i := |seeds|], seeds + [i], paths[i := [i]];
    forall q, p | IsCoreAt(core, q) && Adjacent(adj, q, p) && labels'[q] != Noise && labels'[p] != Noise
      ensures labels'[p] <= labels'[q]
    {
      // a clustered core point is closed, so its neighbours were clustered before `i`
      assert p != i || q == i;
    }
    forall k | 0 <= k < |seeds'|
      ensures IsCoreAt(core, seeds'[k]) && labels'[seeds'[k]] == k
    {
      if k < |seeds| {
        assert seeds'[k] == seeds[k] && labels[seeds[k]] == k;
      }
    }
    forall p | 0 <= p < |adj| && labels'[p] != Noise
      ensures IsPath(adj, core, paths'[p]) && paths'[p][0] == seeds'[labels'[p]] && paths'[p][|paths'[p]| - 1] == p
    {
      if p != i {
        assert labels'[p] == labels[p] && paths'[p] == paths[p];
      }
    }
    forall p, q | IsCoreAt(core, p) && Adjacent(adj, p, q) && labels'[p] != Noise && p !in [i]
      ensures labels'[q] != Noise && (IsCoreAt(core, q) ==> labels'[q] == labels'[p])
    {
      assert labels'[p] == labels[p];
    }
    ScannedStart(core, labels, seeds, i);
  }

  /** Every core point before the seed of cluster `k` was clustered earlier, with a smaller id. */
  ghost predicate SeedsFirst(core: seq<bool>, labels: seq<int>, seeds: seq<int>)
  {
    forall k, p :: 0 <= k < |seeds| && IsCoreAt(core, p) && p < seeds[k] && p < |labels| ==>
      labels[p] != Noise && labels[p] < k
  }

  /**
   * The scan has passed index `i`: every core point before it is clustered, the seeds were
   * taken before it in increasing order, and each seed came after every core point of an
   * earlier cluster.
   */
  ghost predicate Scanned(core: seq<bool>, labels: seq<int>, seeds: seq<int>, i: int)
  {
    (forall p :: 0 <= p < i && IsCoreAt(core, p) && p < |labels| ==> labels[p] != Noise)
    && (forall a :: 0 <= a < |seeds| ==> seeds[a] < i)
    && (forall a, b :: 0 <= a < b < |seeds| ==> seeds[a] < seeds[b])
    && SeedsFirst(core, labels, seeds)
  }

  /** Starting cluster `|seeds|` at the unlabelled core point `i`. */
  lemma ScannedStart(core: seq<bool>, labels: seq<int>, seeds: seq<int>, i: int)
    requires Scanned(core, labels, seeds, i) && 0 <= i < |labels| && labels[i] == Noise
    requires forall p :: 0 <= p < |labels| ==> labels[p] < |seeds|
    ensures Scanned(core, labels[i := |seeds|], seeds + [i], i + 1)
  {
    var labels', seeds' := labels[i := |seeds|], seeds + [i];
    forall k, p | 0 <= k < |seeds'| && IsCoreAt(core, p) && p < seeds'[k] && p < |labels'|
      ensures labels'[p] != Noise && labels'[p] < k
    {
      if k < |seeds| {
        assert seeds'[k] == seeds[k];
      }
    }
  }

  /** Growing a cluster only labels unlabelled points, which keeps the scan's facts. */
  lemma ScannedKept(core: seq<bool>, labels: seq<int>, labels': seq<int>, seeds: seq<int>, i: int)
    requires Scanned(core, labels, seeds, i) && |labels'| == |labels|
    requires forall p :: 0 <= p < |labels| && labels[p] != Noise ==> labels'[p] == labels[p]
    ensures Scanned(core, labels', seeds, i)
  {
  }

  /** Passing a point that is clustered or not core. */
  lemma ScannedNext(core: seq<bool>, labels: seq<int>, seeds: seq<int>, i: int)
    requires Scanned(core, labels, seeds, i) && 0 <= i < |labels|
    requires labels[i] != Noise || !IsCoreAt(core, i)
    ensures Scanned(core, labels, seeds, i + 1)
  {
  }

  /** The seeds, taken in index order, give the ordered numbering of the cluster ids. */
  lemma OrderedFromSeeds(adj: seq<seq<bool>>, core: seq<bool>, labels: seq<int>, seeds: seq<int>)
    requires |labels| == |adj| && |core| == |adj|
    requires forall p :: 0 <= p < |adj| ==> labels[p] < |seeds|
    requires forall k :: 0 <= k < |seeds| ==> IsCoreAt(core, seeds[k]) && labels[seeds[k]] == k
    requires Scanned(core, labels, seeds, |adj|)
    ensures OrderedIds(core, labels, |seeds|)
  {
    assert FirstCores(core, labels, seeds);
  }

  /** Each cluster's seed is a root: the recorded paths reach every member from it. */
  lemma RootsFromSeeds(adj: seq<seq<bool>>, core: seq<bool>, labels: seq<int>, seeds: seq<int>, paths: seq<seq<int>>)
    requires Labelled(adj, core, labels, seeds, paths)
    ensures forall k :: 0 <= k < |seeds| ==> HasRoot(adj, core, labels, k)
  {
    forall k | 0 <= k < |seeds|
      ensures HasRoot(adj, core, labels, k)
    {
      var s := seeds[k];
      forall p | 0 <= p < |adj| && labels[p] == k
        ensures Reachable(adj, core, s, p)
      {
        assert IsPath(adj, core, paths[p]) && paths[p][0] == s && paths[p][|paths[p]| - 1] == p;
      }
    }
  }

  /**
   * The labelling loop's state before point `i`: the book-keeping of the clusters started so
   * far, every started cluster complete, and the scan's facts up to `i`.
   */
  ghost predicate Scanning(adj: seq<seq<bool>>, core: seq<bool>, labels: seq<int>, seeds: seq<int>,
                           paths: seq<seq<int>>, i: int)
  {
    Labelled(adj, core, labels, seeds, paths) && ClosedExcept(adj, core, labels, [])
    && LeastIds(adj, core, labels) && Scanned(core, labels, seeds, i)
  }

  /** Before the scan no point is labelled and no cluster is started. */
  lemma ScanStart(adj: seq<seq<bool>>, core: seq<bool>)
    requires |core| == |adj|
    ensures Scanning(adj, core, seq(|adj|, _ => Noise), [], seq(|adj|, _ => []), 0)
  {
  }

  /** Passing point `i`, which is clustered or not core, keeps the loop's state. */
  lemma ScanNext(adj: seq<seq<bool>>, core: seq<bool>, labels: seq<int>, seeds: seq<int>, paths: seq<seq<int>>, i: int)
    requires Scanning(adj, core, labels, seeds, paths, i) && 0 <= i < |labels|
    requires labels[i] != Noise || !IsCoreAt(core, i)
    ensures Scanning(adj, core, labels, seeds, paths, i + 1)
  {
    ScannedNext(core, labels, seeds, i);
  }

  /** After the scan the labels are a clustering of the graph, one cluster per seed. */
  lemma ScanDone(adj: seq<seq<bool>>, core: seq<bool>, labels: seq<int>, seeds: seq<int>, paths: seq<seq<int>>)
    requires Scanning(adj, core, labels, seeds, paths, |adj|)
    ensures IsGraphClustering(adj, core, labels, |seeds|)
  {
    OrderedFromSeeds(adj, core, labels, seeds);
    RootsFromSeeds(adj, core, labels, seeds, paths);
  }

  /** With every labelled core point closed, the end of a path from a labelled point is labelled. */
  lemma {:induction false} ReachedLabelled(adj: seq<seq<bool>>, core: seq<bool>, labels: seq<int>, path: seq<int>)
    requires |labels| == |adj| && ClosedExcept(adj, core, labels, [])
    requires IsPath(adj, core, path) && 0 <= path[0] < |adj| && labels[path[0]] != Noise
    ensures labels[path[|path| - 1]] != Noise
  {
    var n := |path|;
    if n > 1 {
      var prefix := path[..n - 1];
      ReachedLabelled(adj, core, labels, prefix);
      assert prefix[n - 2] == path[n - 2];
      assert IsCoreAt(core, path[n - 2]) && Adjacent(adj, path[n - 2], path[n - 1]);
    }
  }

  /**
   * Growing cluster `c` from `i` to completion gives `c` to exactly the points that were
   * unlabelled and are density-reachable from `i`.
   */
  lemma GrownCluster(adj: seq<seq<bool>>, core: seq<bool>, before: seq<int>, after: seq<int>, seeds: seq<int>,
                     paths: seq<seq<int>>, c: nat, i: int)
    requires |before| == |adj| && c == |seeds| - 1 && seeds[c] == i
    requires Labelled(adj, core, after, seeds, paths) && ClosedExcept(adj, core, after, [])
    requires forall p :: 0 <= p < |adj| ==> before[p] < c
    requires forall p :: 0 <= p < |adj| && before[p] != Noise ==> after[p] == before[p]
    requires forall p :: 0 <= p < |adj| ==> after[p] == before[p] || after[p] == c
    ensures forall p :: 0 <= p < |adj| ==> (after[p] == c <==> before[p] == Noise && Reachable(adj, core, i, p))
  {
    forall p | 0 <= p < |adj|
      ensures after[p] == c ==> before[p] == Noise && Reachable(adj, core, i, p)
    {
      if after[p] == c {
        assert IsPath(adj, core, paths[p]) && paths[p][0] == i && paths[p][|paths[p]| - 1] == p;
      }
    }
    forall p | 0 <= p < |adj| && before[p] == Noise && Reachable(adj, core, i, p)
      ensures after[p] == c
    {
      var path :| IsPath(adj, core, path) && path[0] == i && path[|path| - 1] == p;
      ReachedLabelled(adj, core, after, path);
    }
  }
}
