/**
 * The graph the shortest-path engine works on: a NumberOfNodes x NumberOfNodes
 * adjacency matrix of natural weights in which 0 means "no edge", distances
 * that are either a finite weight or the "infinity" sentinel the source writes
 * as `Number.MAX_VALUE`, and the independent definition of a shortest
 * distance as the least weight of a path.
 */
module Graph {

  /** The fixed node count of the engine (`numberOfNodes`). */
  const NumberOfNodes: nat := 9

  type Matrix = seq<seq<nat>>

  /** A square matrix with one row and one column per node. */
  predicate IsMatrix(adj: Matrix) {
    |adj| == NumberOfNodes && forall u :: 0 <= u < |adj| ==> |adj[u]| == NumberOfNodes
  }

  /** A tentative or final distance; `Infinite` stands for `Number.MAX_VALUE`. */
  datatype Distance = Finite(value: nat) | Infinite

  /** `a <= b` on distances, with the sentinel above every finite value and equal to itself. */
  predicate Le(a: Distance, b: Distance) {
    b.Infinite? || (a.Finite? && a.value <= b.value)
  }

  /** `a < b` on distances. */
  predicate Lt(a: Distance, b: Distance) {
    a.Finite? && (b.Infinite? || a.value < b.value)
  }

  lemma NotLtIsLe(a: Distance, b: Distance)
    ensures !Lt(a, b) <==> Le(b, a)
  {
  }

  /** `p` is a walk from `source` to `v` along edges of non-zero weight. */
  ghost predicate IsPathFrom(adj: Matrix, source: nat, p: seq<nat>, v: nat)
    requires IsMatrix(adj)
  {
    && |p| >= 1 && p[0] == source && p[|p| - 1] == v
    && (forall k :: 0 <= k < |p| ==> p[k] < NumberOfNodes)
    && (forall k :: 0 <= k < |p| - 1 ==> adj[p[k]][p[k + 1]] > 0)
  }

  /** The sum of the weights of the edges of a walk. */
  ghost function Weight(adj: Matrix, p: seq<nat>): nat
    requires IsMatrix(adj)
    requires forall k :: 0 <= k < |p| ==> p[k] < NumberOfNodes
    decreases |p|
  {
    if |p| <= 1 then 0 else Weight(adj, p[..|p| - 1]) + adj[p[|p| - 2]][p[|p| - 1]]
  }

  /**
   * `d` is the shortest distance from `source` to `v`: no path is lighter,
   * and when `d` is finite some path weighs exactly `d`. With the sentinel,
   * the first half says that no path reaches `v` at all.
   */
  ghost predicate IsShortest(adj: Matrix, source: nat, v: nat, d: Distance)
    requires IsMatrix(adj)
  {
    && (forall p :: IsPathFrom(adj, source, p, v) ==> Le(d, Finite(Weight(adj, p))))
    && (d.Finite? ==> exists p :: IsPathFrom(adj, source, p, v) && Weight(adj, p) == d.value)
  }

  /** The shortest distance is unique, so every correct run reports the same costs. */
  lemma ShortestIsUnique(adj: Matrix, source: nat, v: nat, d1: Distance, d2: Distance)
    requires IsMatrix(adj)
    requires IsShortest(adj, source, v, d1) && IsShortest(adj, source, v, d2)
    ensures d1 == d2
  {
    if d1.Finite? {
      var p1 :| IsPathFrom(adj, source, p1, v) && Weight(adj, p1) == d1.value;
      assert Le(d2, Finite(Weight(adj, p1)));
    }
    if d2.Finite? {
      var p2 :| IsPathFrom(adj, source, p2, v) && Weight(adj, p2) == d2.value;
      assert Le(d1, Finite(Weight(adj, p2)));
    }
  }

  /** Extending a walk by one edge adds that edge's weight. */
  lemma WeightSnoc(adj: Matrix, p: seq<nat>, v: nat)
    requires IsMatrix(adj) && |p| >= 1 && v < NumberOfNodes
    requires forall k :: 0 <= k < |p| ==> p[k] < NumberOfNodes
    ensures forall k :: 0 <= k < |p + [v]| ==> (p + [v])[k] < NumberOfNodes
    ensures Weight(adj, p + [v]) == Weight(adj, p) + adj[p[|p| - 1]][v]
  {
    assert (p + [v])[..|p|] == p;
  }

  /** A path to `u` followed by an edge u -> v is a path to `v`, heavier by that edge. */
  lemma PathSnoc(adj: Matrix, source: nat, p: seq<nat>, u: nat, v: nat)
    requires IsMatrix(adj) && IsPathFrom(adj, source, p, u)
    requires v < NumberOfNodes && adj[u][v] > 0
    ensures IsPathFrom(adj, source, p + [v], v)
    ensures Weight(adj, p + [v]) == Weight(adj, p) + adj[u][v]
  {
    WeightSnoc(adj, p, v);
    var q := p + [v];
    forall k | 0 <= k < |q| - 1
      ensures adj[q[k]][q[k + 1]] > 0
    {
      if k < |p| - 1 {
        assert q[k] == p[k] && q[k + 1] == p[k + 1];
      }
    }
  }
}
