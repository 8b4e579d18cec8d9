/**
 * getClusters as a function of the score table: a list of clusters, each a
 * list of node indices, built by placing the nodes 0, 1, 2, ... in turn.
 */
module Clustering {

  /** The nodes of a cluster, listed in strictly ascending order. */
  predicate Ascending(c: seq<nat>) {
    forall i, j :: 0 <= i < j < |c| ==> c[i] < c[j]
  }

  /** Some cluster holds node x. */
  predicate Covered(cs: seq<seq<nat>>, x: nat) {
    exists a :: 0 <= a < |cs| && x in cs[a]
  }

  /**
   * The clusters partition the nodes 0..n-1: each cluster is non-empty,
   * strictly ascending and holds only nodes below n; clusters are ordered
   * by their first node; no node is in two clusters; every node is in one.
   * So every node appears exactly once.
   */
  predicate IsPartition(cs: seq<seq<nat>>, n: nat) {
    && (forall a :: 0 <= a < |cs| ==> cs[a] != [] && Ascending(cs[a]) && forall x :: x in cs[a] ==> x < n)
    && (forall a, b :: 0 <= a < b < |cs| ==> cs[a][0] < cs[b][0])
    && (forall a, b, x :: 0 <= a < |cs| && 0 <= b < |cs| && a != b && x in cs[a] ==> x !in cs[b])
    && (forall x :: 0 <= x < n ==> Covered(cs, x))
  }

  lemma PlaceNewPartition(cs: seq<seq<nat>>, node: nat)
    requires IsPartition(cs, node)
    ensures IsPartition(cs + [[node]], node + 1)
  {
    var r := cs + [[node]];
    assert forall a :: 0 <= a < |cs| ==> r[a] == cs[a];
    assert forall a :: 0 <= a < |cs| ==> cs[a][0] in cs[a];
    forall x | 0 <= x < node + 1
      ensures Covered(r, x)
    {
      if x < node {
        assert Covered(cs, x);
        var a :| 0 <= a < |cs| && x in cs[a];
        assert x in r[a];
      } else {
        assert x in r[|cs|];
      }
    }
  }

  lemma PlaceJoinPartition(cs: seq<seq<nat>>, node: nat, best: nat)
    requires IsPartition(cs, node) && best < |cs|
    ensures IsPartition(cs[best := cs[best] + [node]], node + 1)
  {
    var r := cs[best := cs[best] + [node]];
    var c := cs[best];
    assert forall x :: x in r[best] ==> x in c || x == node;
    assert Ascending(r[best]) by {
      assert forall i :: 0 <= i < |c| ==> c[i] in c;
    }
    assert forall a :: 0 <= a < |r| ==> r[a][0] == cs[a][0];
    forall x | 0 <= x < node + 1
      ensures Covered(r, x)
    {
      if x < node {
        assert Covered(cs, x);
        var a :| 0 <= a < |cs| && x in cs[a];
        assert x in r[a];
      } else {
        assert r[best][|c|] == node;
      }
    }
  }

  /**
   * Places node in cluster best, or in a new singleton cluster appended at
   * the end when best is -1 (no cluster was good enough).
   */
  function Place(cs: seq<seq<nat>>, node: nat, best: int): (r: seq<seq<nat>>)
    requires -1 <= best < |cs|
    ensures |r| == if best == -1 then |cs| + 1 else |cs|
    ensures node in r[if best == -1 then |cs| else best]
    ensures forall a :: 0 <= a < |cs| && a != best ==> r[a] == cs[a]
    ensures forall a, x :: 0 <= a < |cs| && x in cs[a] ==> x in r[a]
  {
    if best == -1 then cs + [[node]] else cs[best := cs[best] + [node]]
  }

  /** Placing the next node keeps the clusters a partition. */
  lemma PlacePartition(cs: seq<seq<nat>>, node: nat, best: int)
    requires -1 <= best < |cs| && IsPartition(cs, node)
    ensures IsPartition(Place(cs, node, best), node + 1)
  {
    if best == -1 {
      PlaceNewPartition(cs, node);
    } else {
      PlaceJoinPartition(cs, node, best);
    }
  }

  /** A table of scores over |grid| nodes: grid[x][y] is the score of (x, y). */
  predicate Square(grid: seq<seq<real>>) {
    forall x :: 0 <= x < |grid| ==> |grid[x]| == |grid|
  }

  /** Every node of the cluster is below n. */
  predicate InRange(cluster: seq<nat>, n: nat) {
    forall k :: 0 <= k < |cluster| ==> cluster[k] < n
  }

  /** Every cluster is non-empty and holds nodes below n. */
  predicate Clusterable(cs: seq<seq<nat>>, n: nat) {
    forall a :: 0 <= a < |cs| ==> cs[a] != [] && InRange(cs[a], n)
  }

  /** The sum of the scores (m, node) over the members m of the cluster. */
  function Sum(grid: seq<seq<real>>, cluster: seq<nat>, node: nat): real
    requires Square(grid) && node < |grid| && InRange(cluster, |grid|)
  {
    if cluster == [] then 0.0
    else
      var last := cluster[|cluster| - 1];
      Sum(grid, cluster[..|cluster| - 1], node) + grid[last][node]
  }

  /**
   * compareSimilarityWithCluster: 1 when the node is a member, otherwise the
   * mean of the scores between the members and the node.
   */
  function Affinity(grid: seq<seq<real>>, cluster: seq<nat>, node: nat): (r: real)
    requires Square(grid) && cluster != [] && node < |grid| && InRange(cluster, |grid|)
    ensures node in cluster ==> r == 1.0
    ensures node !in cluster ==> r * (|cluster| as real) == Sum(grid, cluster, node)
  {
    if node in cluster then 1.0 else Sum(grid, cluster, node) / (|cluster| as real)
  }

  /** x added to itself k times. */
  function Repeat(x: real, k: nat): real {
    if k == 0 then 0.0 else Repeat(x, k - 1) + x
  }

  lemma {:induction false} RepeatProduct(x: real, k: nat)
    ensures Repeat(x, k) == x * (k as real)
  {
    if k > 0 {
      RepeatProduct(x, k - 1);
      assert x * (k as real) == x * ((k - 1) as real) + x;
    }
  }

  lemma {:induction false} SumRepeatBounds(grid: seq<seq<real>>, cluster: seq<nat>, node: nat, lo: real, hi: real)
    requires Square(grid) && node < |grid| && InRange(cluster, |grid|)
    requires forall x :: x in cluster ==> lo <= grid[x][node] <= hi
    ensures Repeat(lo, |cluster|) <= Sum(grid, cluster, node) <= Repeat(hi, |cluster|)
  {
    if cluster != [] {
      var init := cluster[..|cluster| - 1];
      assert forall x :: x in init ==> x in cluster;
      SumRepeatBounds(grid, init, node, lo, hi);
      assert cluster[|cluster| - 1] in cluster;
    }
  }

  /** The sum over a cluster lies between the least and the greatest score, times the cluster size. */
  lemma SumBounds(grid: seq<seq<real>>, cluster: seq<nat>, node: nat, lo: real, hi: real)
    requires Square(grid) && node < |grid| && InRange(cluster, |grid|)
    requires forall x :: x in cluster ==> lo <= grid[x][node] <= hi
    ensures lo * (|cluster| as real) <= Sum(grid, cluster, node) <= hi * (|cluster| as real)
  {
    SumRepeatBounds(grid, cluster, node, lo, hi);
    RepeatProduct(lo, |cluster|);
    RepeatProduct(hi, |cluster|);
  }

  /** A mean lies between the bounds its sum has, scaled by the count. */
  lemma MeanBounds(sum: real, count: real, lo: real, hi: real)
    requires count > 0.0 && lo * count <= sum <= hi * count
    ensures lo <= sum / count <= hi
  {
    var mean := sum / count;
    assert sum == mean * count;
    assert (mean - lo) * count == sum - lo * count;
    assert (hi - mean) * count == hi * count - sum;
  }

  /** A node's affinity to a cluster it is not in lies between the least and the greatest of its scores with the members. */
  lemma AffinityBounds(grid: seq<seq<real>>, cluster: seq<nat>, node: nat, lo: real, hi: real)
    requires Square(grid) && cluster != [] && node < |grid| && InRange(cluster, |grid|) && node !in cluster
    requires forall x :: x in cluster ==> lo <= grid[x][node] <= hi
    ensures lo <= Affinity(grid, cluster, node) <= hi
  {
    SumBounds(grid, cluster, node, lo, hi);
    MeanBounds(Sum(grid, cluster, node), |cluster| as real, lo, hi);
  }

  /**
   * The cluster getClusters picks for node among cs, with its affinity:
   * the first cluster of greatest affinity among those whose affinity
   * exceeds both the threshold and 0, or (-1, 0) when there is none.
   */
  function BestIn(grid: seq<seq<real>>, cs: seq<seq<nat>>, node: nat, threshold: real): (res: (int, real))
    requires Square(grid) && node < |grid| && Clusterable(cs, |grid|)
    ensures -1 <= res.0 < |cs|
    ensures res.1 == if res.0 == -1 then 0.0 else Affinity(grid, cs[res.0], node)
  {
    if cs == [] then (-1, 0.0)
    else
      var init := cs[..|cs| - 1];
      assert forall a :: 0 <= a < |init| ==> init[a] == cs[a];
      var prev := BestIn(grid, init, node, threshold);
      var value := Affinity(grid, cs[|cs| - 1], node);
      if value > threshold && value > prev.1 then (|cs| - 1, value) else prev
  }

  /** One more cluster for BestIn: it wins when its affinity exceeds the threshold and the best so far. */
  lemma BestInSnoc(grid: seq<seq<real>>, cs: seq<seq<nat>>, c: nat, node: nat, threshold: real)
    requires Square(grid) && node < |grid| && Clusterable(cs, |grid|) && c < |cs|
    ensures var prev := BestIn(grid, cs[..c], node, threshold);
            var value := Affinity(grid, cs[c], node);
            BestIn(grid, cs[..c + 1], node, threshold) == if value > threshold && value > prev.1 then (c, value) else prev
  {
    assert cs[..c + 1][..c] == cs[..c];
  }

  /**
   * The choice BestIn makes: no cluster when none has an affinity above
   * both the threshold and 0; otherwise a cluster whose affinity is above
   * both, strictly above that of every earlier cluster and at least that
   * of every later one.
   */
  lemma {:induction false} BestInChoice(grid: seq<seq<real>>, cs: seq<seq<nat>>, node: nat, threshold: real)
    requires Square(grid) && node < |grid| && Clusterable(cs, |grid|)
    ensures var res := BestIn(grid, cs, node, threshold);
      res.0 == -1 ==> forall a :: 0 <= a < |cs| ==> !(Affinity(grid, cs[a], node) > threshold && Affinity(grid, cs[a], node) > 0.0)
    ensures var res := BestIn(grid, cs, node, threshold);
      res.0 >= 0 ==> res.1 > threshold && res.1 > 0.0
    ensures var res := BestIn(grid, cs, node, threshold);
      res.0 >= 0 ==> forall a :: 0 <= a < res.0 ==> Affinity(grid, cs[a], node) < res.1
    ensures var res := BestIn(grid, cs, node, threshold);
      res.0 >= 0 ==> forall a :: res.0 < a < |cs| ==> Affinity(grid, cs[a], node) <= res.1
  {
    if cs != [] {
      var init := cs[..|cs| - 1];
      assert forall a :: 0 <= a < |init| ==> init[a] == cs[a];
      BestInChoice(grid, init, node, threshold);
    }
  }

  lemma PlaceClusterable(cs: seq<seq<nat>>, node: nat, best: int, n: nat)
    requires Clusterable(cs, n) && node < n && -1 <= best < |cs|
    ensures Clusterable(Place(cs, node, best), n)
  {
    var r := Place(cs, node, best);
    forall a | 0 <= a < |r|
      ensures r[a] != [] && InRange(r[a], n)
    {
      if a == best {
        assert r[a] == cs[a] + [node];
      } else if a < |cs| {
        assert r[a] == cs[a];
      } else {
        assert r[a] == [node];
      }
    }
  }

  /** The nodes k, k + 1, ..., n - 1 in order: the queue getClusters starts from when k is 0. */
  function Range(k: nat, n: nat): (r: seq<nat>)
    requires k <= n
    ensures |r| == n - k
    ensures forall q :: 0 <= q < |r| ==> r[q] == k + q
    decreases n - k
  {
    if k == n then [] else [k] + Range(k + 1, n)
  }

  /** Range(k, n) holds exactly the nodes k..n-1. */
  lemma RangeMembers(k: nat, n: nat)
    requires k <= n
    ensures forall x :: x in Range(k, n) <==> k <= x < n
  {
    var r := Range(k, n);
    forall x | k <= x < n
      ensures x in r
    {
      assert r[x - k] == x;
    }
  }

  /**
   * The clusters getClusters' queue loop ends with, starting from the
   * clusters cs with the nodes of queue still to place: each node in turn
   * joins the cluster BestIn picks or opens a new one.
   */
  function Drain(grid: seq<seq<real>>, cs: seq<seq<nat>>, queue: seq<nat>, threshold: real): (r: seq<seq<nat>>)
    requires Square(grid) && Clusterable(cs, |grid|) && InRange(queue, |grid|)
    ensures Clusterable(r, |grid|)
    ensures |cs| <= |r| <= |cs| + |queue|
    ensures forall a, x :: 0 <= a < |cs| && x in cs[a] ==> x in r[a]
    ensures forall x :: x in queue ==> Covered(r, x)
    decreases |queue|
  {
    if queue == [] then cs
    else
      var best := BestIn(grid, cs, queue[0], threshold).0;
      var next := Place(cs, queue[0], best);
      PlaceClusterable(cs, queue[0], best, |grid|);
      Drain(grid, next, queue[1..], threshold)
  }

  /** getClusters on a table of scores: the nodes 0..n-1 placed in order into no clusters. */
  function Clusters(grid: seq<seq<real>>, threshold: real): (r: seq<seq<nat>>)
    requires Square(grid)
    ensures Clusterable(r, |grid|) && |r| <= |grid|
    ensures forall x :: 0 <= x < |grid| ==> Covered(r, x)
  {
    RangeMembers(0, |grid|);
    Drain(grid, [], Range(0, |grid|), threshold)
  }

  lemma {:induction false} DrainPartition(grid: seq<seq<real>>, cs: seq<seq<nat>>, k: nat, threshold: real)
    requires Square(grid) && k <= |grid| && Clusterable(cs, |grid|) && IsPartition(cs, k)
    ensures IsPartition(Drain(grid, cs, Range(k, |grid|), threshold), |grid|)
    decreases |grid| - k
  {
    if k < |grid| {
      var best := BestIn(grid, cs, k, threshold).0;
      PlacePartition(cs, k, best);
      PlaceClusterable(cs, k, best, |grid|);
      DrainPartition(grid, Place(cs, k, best), k + 1, threshold);
    }
  }

  /** The clusters partition the nodes: every node is in exactly one cluster. */
  lemma ClustersPartition(grid: seq<seq<real>>, threshold: real)
    requires Square(grid)
    ensures IsPartition(Clusters(grid, threshold), |grid|)
  {
    DrainPartition(grid, [], 0, threshold);
  }
}
