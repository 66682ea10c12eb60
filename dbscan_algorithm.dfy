/**
 * The DBSCAN run itself: the neighbourhood matrix and the core flags are computed once,
 * then the points are scanned in index order and a cluster is grown from each unlabelled
 * core point by expanding a stack of seeds, the labels being written in place into an array.
 * Each method is proved against the clustering contract and the book-keeping predicates
 * of module `Dbscan`.
 */
module DbscanAlgorithm {
  import opened Geo
  import opened Dbscan

  // ---------------------------------------------------------------------------
  // Computing the graph

  /** Builds the neighbourhood matrix row by row, comparing squared distances with eps*eps. */
  method NeighbourMatrix(pts: seq<Coord>, eps: real) returns (adj: seq<seq<bool>>)
    ensures adj == NearMatrix(pts, eps)
  {
    adj := [];
    for p := 0 to |pts|
      invariant |adj| == p
      invariant forall i, j :: 0 <= i < p && 0 <= j < |pts| ==> |adj[i]| == |pts| && adj[i][j] == Within(pts[i], pts[j], eps)
    {
      var row := [];
      for q := 0 to |pts|
        invariant |row| == q
        invariant forall j :: 0 <= j < q ==> row[j] == Within(pts[p], pts[j], eps)
      {
        row := row + [Within(pts[p], pts[q], eps)];
      }
      adj := adj + [row];
    }
    assert forall i :: 0 <= i < |pts| ==> adj[i] == NearMatrix(pts, eps)[i];
  }

  /** Size of one neighbourhood: the number of `true` entries of its row. */
  method NeighbourCount(row: seq<bool>) returns (count: nat)
    ensures count == CountTrue(row)
  {
    count := 0;
    for j := 0 to |row|
      invariant count == CountTrue(row[..j])
    {
      assert row[..j + 1][..j] == row[..j];
      if row[j] {
        count := count + 1;
      }
    }
    assert row[..|row|] == row;
  }

  // ---------------------------------------------------------------------------
  // The labelling algorithm

  /** Visiting point `j - 1` takes the book-keeping of the visit up to `j - 1` to the one up to `j`. */
  lemma VisitStep(adj: seq<seq<bool>>, core: seq<bool>, labels0: seq<int>, seeds: seq<int>, stack0: seq<int>,
                  c: int, cur: int, j: int, l: seq<int>, st: seq<int>, ps: seq<seq<int>>)
    returns (labels: seq<int>, stack: seq<int>, paths: seq<seq<int>>)
    requires 0 <= c == |seeds| - 1 && Symmetric(adj) && IsCoreAt(core, cur)
    requires |labels0| == |adj| && 0 < j <= |adj|
    requires l == VisitLabels(adj, labels0, cur, c, j - 1) && st == stack0 + FreshNeighbours(adj, labels0, cur, j - 1)
    requires Visiting(adj, core, l, seeds, ps, st, c, cur, j - 1)
    ensures labels == VisitLabels(adj, labels0, cur, c, j) && stack == stack0 + FreshNeighbours(adj, labels0, cur, j)
    ensures Visiting(adj, core, labels, seeds, paths, stack, c, cur, j)
  {
    VisitNext(adj, labels0, stack0, cur, c, j - 1, l, st);
    if Adjacent(adj, cur, j - 1) && l[j - 1] == Noise {
      VisitPush(adj, core, l, seeds, ps, st, c, cur, j - 1);
      labels, stack, paths := l[j - 1 := c], st + [j - 1], ps[j - 1 := ps[cur] + [j - 1]];
    } else {
      VisitSkip(adj, core, l, seeds, ps, st, c, cur, j - 1);
      labels, stack, paths := l, st, ps;
    }
  }

  /**
   * Labels every unlabelled neighbour of the core point `cur` with cluster `c` and pushes it
   * on the stack, in index order; no other label changes.
   */
  method VisitNeighbours(adj: seq<seq<bool>>, core: seq<bool>, labels: array<int>, c: int, cur: int,
                         stack0: seq<int>, ghost seeds: seq<int>, ghost paths0: seq<seq<int>>)
    returns (stack: seq<int>, ghost paths: seq<seq<int>>)
    requires labels.Length == |adj| && 0 <= c == |seeds| - 1 && Symmetric(adj)
    requires Growing(adj, core, labels[..], seeds, paths0, stack0 + [cur], c)
    requires 0 <= cur < |adj| && core[cur]
    modifies labels
    ensures Growing(adj, core, labels[..], seeds, paths, stack, c)
    ensures forall p :: 0 <= p < |adj| ==>
              labels[p] == if old(labels[p]) == Noise && Adjacent(adj, cur, p) then c else old(labels[p])
    ensures forall p :: p in stack <==> p in stack0 || (0 <= p < |adj| && Adjacent(adj, cur, p) && old(labels[p]) == Noise)
    ensures Unlabelled(labels[..]) < Unlabelled(old(labels[..])) || (labels[..] == old(labels[..]) && stack == stack0)
    ensures labels[..] == VisitLabels(adj, old(labels[..]), cur, c, |adj|)
    ensures stack == stack0 + FreshNeighbours(adj, old(labels[..]), cur, |adj|)
  {
    ghost var labels0 := labels[..];
    VisitStart(adj, core, labels0, seeds, paths0, stack0, c, cur);
    VisitNone(adj, labels0, stack0, cur, c);
    stack, paths := stack0, paths0;
    for j := 0 to |adj|
      invariant labels[..] == VisitLabels(adj, labels0, cur, c, j)
      invariant stack == stack0 + FreshNeighbours(adj, labels0, cur, j)
      invariant Visiting(adj, core, labels[..], seeds, paths, stack, c, cur, j)
    {
      VisitNext(adj, labels0, stack0, cur, c, j, labels[..], stack);
      ghost var next, pushed;
      next, pushed, paths := VisitStep(adj, core, labels0, seeds, stack0, c, cur, j + 1, labels[..], stack, paths);
      if Adjacent(adj, cur, j) && labels[j] == Noise {
        labels[j] := c;
        stack := stack + [j];
      }
    }
    ClosedAfterVisit(adj, core, labels[..], c, cur, stack);
    VisitedDone(adj, labels0, stack0, cur, c);
    VisitLabelsMeaning(adj, labels0, cur, c);
    FreshNeighboursMembers(adj, labels0, cur, |adj|);
  }

  /** Grows cluster `c` from the core point `seed` until its stack of seeds is empty. */
  method ExpandCluster(adj: seq<seq<bool>>, core: seq<bool>, labels: array<int>, c: int, seed: int,
                       ghost seeds: seq<int>, ghost paths0: seq<seq<int>>)
    returns (ghost paths: seq<seq<int>>)
    requires labels.Length == |adj| && 0 <= c == |seeds| - 1 && Symmetric(adj)
    requires Labelled(adj, core, labels[..], seeds, paths0)
    requires c >= 0 && seeds[c] == seed
    requires ClosedExcept(adj, core, labels[..], [seed])
    requires LeastIds(adj, core, labels[..])
    modifies labels
    ensures Labelled(adj, core, labels[..], seeds, paths)
    ensures LeastIds(adj, core, labels[..])
    ensures ClosedExcept(adj, core, labels[..], [])
    ensures forall p :: 0 <= p < |adj| && old(labels[p]) != Noise ==> labels[p] == old(labels[p])
    ensures forall p :: 0 <= p < |adj| ==> labels[p] == old(labels[p]) || labels[p] == c
  {
    paths := paths0;
    var stack := [seed];
    while stack != []
      invariant Growing(adj, core, labels[..], seeds, paths, stack, c)
      invariant forall p :: 0 <= p < |adj| && old(labels[p]) != Noise ==> labels[p] == old(labels[p])
      invariant forall p :: 0 <= p < |adj| ==> labels[p] == old(labels[p]) || labels[p] == c
      decreases Unlabelled(labels[..]), |stack|
    {
      var cur := stack[|stack| - 1];
      ghost var full := stack;
      stack := stack[..|stack| - 1];
      assert full == stack + [cur];
      if core[cur] {
        stack, paths := VisitNeighbours(adj, core, labels, c, cur, stack, seeds, paths);
      } else {
        ClosedWithout(adj, core, labels[..], seeds, paths, stack, cur, c);
      }
    }
  }

  /** Starts cluster `c`, the next id, at the unlabelled core point `i` and grows it to completion. */
  method GrowCluster(adj: seq<seq<bool>>, core: seq<bool>, lab: array<int>, c: nat, i: int,
                     ghost seeds: seq<int>, ghost paths0: seq<seq<int>>)
    returns (ghost paths: seq<seq<int>>)
    requires lab.Length == |adj| && Symmetric(adj) && 0 <= i < |adj|
    requires Scanning(adj, core, lab[..], seeds, paths0, i)
    requires lab[i] == Noise && core[i] && c == |seeds|
    modifies lab
    ensures Scanning(adj, core, lab[..], seeds + [i], paths, i + 1)
    ensures forall p :: 0 <= p < |adj| && old(lab[p]) != Noise ==> lab[p] == old(lab[p])
    ensures forall p :: 0 <= p < |adj| ==> (lab[p] == c <==> old(lab[p]) == Noise && Reachable(adj, core, i, p))
  {
    ghost var before := lab[..];
    StartCluster(adj, core, lab[..], seeds, paths0, i);
    lab[i] := c;
    paths := paths0[i := [i]];
    ghost var started := lab[..];
    paths := ExpandCluster(adj, core, lab, c, i, seeds + [i], paths);
    ScannedKept(core, started, lab[..], seeds + [i], i + 1);
    GrownCluster(adj, core, before, lab[..], seeds + [i], paths, c, i);
  }

  /** Labels the graph: for each point in index order that is an unlabelled core point, a new cluster. */
  method LabelGraph(adj: seq<seq<bool>>, core: seq<bool>) returns (labels: seq<int>, clusters: nat)
    requires |core| == |adj| && Symmetric(adj)
    ensures IsGraphClustering(adj, core, labels, clusters)
  {
    var n := |adj|;
    var lab := new int[n](_ => Noise);
    ghost var seeds: seq<int> := [];
    ghost var paths: seq<seq<int>> := seq(n, _ => []);
    clusters := 0;
    ScanStart(adj, core);
    assert lab[..] == seq(n, _ => Noise);
    for i := 0 to n
      invariant clusters == |seeds|
      invariant Scanning(adj, core, lab[..], seeds, paths, i)
    {
      if lab[i] == Noise && core[i] {
        paths := GrowCluster(adj, core, lab, clusters, i, seeds, paths);
        seeds := seeds + [i];
        clusters := clusters + 1;
      } else {
        ScanNext(adj, core, lab[..], seeds, paths, i);
      }
    }
    labels := lab[..];
    ScanDone(adj, core, labels, seeds, paths);
  }

  /**
   * DBSCAN over `pts`: the neighbourhoods, the core flags, then the labelling.
   * Returns one label per point and the number of clusters.
   */
  method Cluster(pts: seq<Coord>, eps: real, minSamples: int) returns (labels: seq<int>, clusters: nat)
    requires eps > 0.0 && minSamples >= 1
    ensures IsClustering(pts, eps, minSamples, labels, clusters)
  {
    var adj := NeighbourMatrix(pts, eps);
    var core := [];
    for p := 0 to |adj|
      invariant |core| == p
      invariant forall i :: 0 <= i < p ==> core[i] == (CountTrue(adj[i]) >= minSamples)
    {
      var count := NeighbourCount(adj[p]);
      core := core + [count >= minSamples];
    }
    forall p, q | Adjacent(adj, p, q)
      ensures Adjacent(adj, q, p)
    {
      WithinSymmetric(pts[p], pts[q], eps);
    }
    assert core == CoreFlags(adj, minSamples);
    labels, clusters := LabelGraph(adj, core);
  }
}
