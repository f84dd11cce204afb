/**
 * The reasoning behind the shortest-path engine, on sequence snapshots of its
 * working arrays: what one relaxation pass does, the invariant of the main
 * loop, why it is preserved, and why it gives shortest distances once all
 * but one node is finalised. The parent chain of a node and its acyclicity
 * live here too.
 */
module ShortestPathTheory {
  import opened Graph

  /** Sizes of the three working arrays. */
  predicate Sized(dist: seq<Distance>, visited: seq<bool>, parents: seq<int>) {
    |dist| == NumberOfNodes && |visited| == NumberOfNodes && |parents| == NumberOfNodes
  }

  /**
   * The relaxation test: `v` is not finalised, there is an edge `u -> v`,
   * `u` has been reached, and going through `u` is strictly shorter.
   */
  predicate Improves(adj: Matrix, dist: seq<Distance>, visited: seq<bool>, u: nat, v: nat)
    requires IsMatrix(adj) && |dist| == NumberOfNodes && |visited| == NumberOfNodes
    requires u < NumberOfNodes && v < NumberOfNodes
  {
    && !visited[v]
    && adj[u][v] != 0
    && dist[u].Finite?
    && Lt(Finite(dist[u].value + adj[u][v]), dist[v])
  }

  /**
   * One relaxation pass from `u` turns (`d0`, `p0`) into (`d1`, `p1`): every
   * node that `Improves` gets the distance through `u` and parent `u`, and
   * every other node keeps its distance and parent.
   */
  ghost predicate Relaxation(adj: Matrix, d0: seq<Distance>, visited: seq<bool>, p0: seq<int>,
                             u: nat, d1: seq<Distance>, p1: seq<int>)
    requires IsMatrix(adj) && Sized(d0, visited, p0) && u < NumberOfNodes
  {
    && |d1| == NumberOfNodes && |p1| == NumberOfNodes
    && forall v :: 0 <= v < NumberOfNodes ==>
         if Improves(adj, d0, visited, u, v) then
           d1[v] == Finite(d0[u].value + adj[u][v]) && p1[v] == u
         else
           d1[v] == d0[v] && p1[v] == p0[v]
  }

  /** `v`'s distance is the distance of its parent `p` plus the edge `p -> v`. */
  ghost predicate LinkedBy(adj: Matrix, dist: seq<Distance>, p: nat, v: nat)
    requires IsMatrix(adj) && |dist| == NumberOfNodes && p < NumberOfNodes && v < NumberOfNodes
  {
    adj[p][v] > 0 && dist[p].Finite? && dist[v] == Finite(dist[p].value + adj[p][v])
  }

  /**
   * Parent bookkeeping: only the source and unreached nodes have no parent,
   * and every parent is a finalised node that explains the child's distance.
   */
  ghost predicate ParentLinks(adj: Matrix, source: nat, dist: seq<Distance>, visited: seq<bool>, parents: seq<int>)
    requires IsMatrix(adj) && Sized(dist, visited, parents)
  {
    forall v {:trigger parents[v]} :: 0 <= v < NumberOfNodes ==>
      && (parents[v] == -1 ==> v == source || dist[v] == Infinite)
      && (parents[v] != -1 ==>
            0 <= parents[v] < NumberOfNodes && visited[parents[v]] && LinkedBy(adj, dist, parents[v], v))
  }

  /** A finalised node's distance is at most the weight of every path to it. */
  ghost predicate FinalisedAreLowerBounds(adj: Matrix, source: nat, dist: seq<Distance>, visited: seq<bool>)
    requires IsMatrix(adj) && |dist| == NumberOfNodes && |visited| == NumberOfNodes
  {
    forall u, p :: 0 <= u < NumberOfNodes && visited[u] && IsPathFrom(adj, source, p, u) ==>
      Le(dist[u], Finite(Weight(adj, p)))
  }

  /** Every edge out of a reached, finalised node has been relaxed. */
  ghost predicate EdgesRelaxed(adj: Matrix, dist: seq<Distance>, visited: seq<bool>)
    requires IsMatrix(adj) && |dist| == NumberOfNodes && |visited| == NumberOfNodes
  {
    forall x, v :: 0 <= x < NumberOfNodes && 0 <= v < NumberOfNodes && visited[x] && !visited[v]
                   && adj[x][v] != 0 && dist[x].Finite? ==>
      Le(dist[v], Finite(dist[x].value + adj[x][v]))
  }

  /** The invariant of the engine's main loop. */
  ghost predicate LoopInvariant(adj: Matrix, source: nat, dist: seq<Distance>, visited: seq<bool>, parents: seq<int>)
  {
    && IsMatrix(adj) && source < NumberOfNodes && Sized(dist, visited, parents)
    && dist[source] == Finite(0) && parents[source] == -1
    && ParentLinks(adj, source, dist, visited, parents)
    && FinalisedAreLowerBounds(adj, source, dist, visited)
    && EdgesRelaxed(adj, dist, visited)
  }

  /**
   * Parents point to strictly closer nodes, so the parent chain of any node
   * is finite: the graph of parent links is acyclic.
   */
  ghost predicate ParentsDescend(dist: seq<Distance>, parents: seq<int>) {
    && |parents| == |dist|
    && forall v {:trigger parents[v]} :: 0 <= v < |parents| && parents[v] != -1 ==>
         && 0 <= parents[v] < |parents|
         && dist[v].Finite? && dist[parents[v]].Finite?
         && dist[parents[v]].value < dist[v].value
  }

  /** The measure that decreases along parent links. */
  function Rank(d: Distance): nat {
    if d.Finite? then d.value else 0
  }

  /**
   * The chain of parents that ends with `node`: it starts at the first
   * ancestor whose parent is -1 and each node is the parent of the next.
   */
  function PathNodes(parents: seq<int>, node: nat, ghost dist: seq<Distance>): (p: seq<nat>)
    requires node < |parents| && ParentsDescend(dist, parents)
    ensures |p| >= 1 && p[|p| - 1] == node
    ensures forall k :: 0 <= k < |p| ==> p[k] < |parents|
    ensures parents[p[0]] == -1
    ensures forall k :: 0 <= k < |p| - 1 ==> parents[p[k + 1]] == p[k]
    decreases Rank(dist[node])
  {
    if parents[node] == -1 then [node]
    else PathNodes(parents, parents[node], dist) + [node]
  }

  /**
   * The result of the engine: every distance is the shortest one, the parent
   * links explain every finite distance and never loop, the source is its
   * own root and an unreached node has no parent.
   */
  ghost predicate IsShortestPathTree(adj: Matrix, source: nat, dist: seq<Distance>, parents: seq<int>)
  {
    && IsMatrix(adj) && source < NumberOfNodes
    && |dist| == NumberOfNodes && |parents| == NumberOfNodes
    && dist[source] == Finite(0) && parents[source] == -1
    && ParentsDescend(dist, parents)
    && (forall v {:trigger parents[v]} :: 0 <= v < NumberOfNodes ==>
          && (parents[v] == -1 ==> v == source || dist[v] == Infinite)
          && (parents[v] != -1 ==> LinkedBy(adj, dist, parents[v], v)))
    && (forall v :: 0 <= v < NumberOfNodes ==> IsShortest(adj, source, v, dist[v]))
  }

  /** The number of finalised nodes. */
  function CountVisited(visited: seq<bool>): (n: nat)
    ensures n <= |visited|
    decreases |visited|
  {
    if |visited| == 0 then 0
    else CountVisited(visited[..|visited| - 1]) + (if visited[|visited| - 1] then 1 else 0)
  }

  lemma {:induction false} CountAllVisited(visited: seq<bool>)
    ensures (forall k :: 0 <= k < |visited| ==> visited[k]) ==> CountVisited(visited) == |visited|
    decreases |visited|
  {
    if |visited| > 0 {
      CountAllVisited(visited[..|visited| - 1]);
    }
  }

  lemma {:induction false} CountNoneVisited(visited: seq<bool>)
    ensures (forall k :: 0 <= k < |visited| ==> !visited[k]) ==> CountVisited(visited) == 0
    decreases |visited|
  {
    if |visited| > 0 {
      CountNoneVisited(visited[..|visited| - 1]);
    }
  }

  /** While fewer nodes are finalised than exist, some node is unvisited. */
  lemma SomeUnvisited(visited: seq<bool>)
    requires CountVisited(visited) < |visited|
    ensures exists k :: 0 <= k < |visited| && !visited[k]
  {
    CountAllVisited(visited);
  }

  /** Finalising a node that was not finalised raises the count by one. */
  lemma {:induction false} CountMark(visited: seq<bool>, u: nat)
    requires u < |visited| && !visited[u]
    ensures CountVisited(visited[u := true]) == CountVisited(visited) + 1
    decreases |visited|
  {
    var n := |visited|;
    var w := visited[u := true];
    if u < n - 1 {
      assert w[..n - 1] == visited[..n - 1][u := true];
      CountMark(visited[..n - 1], u);
    } else {
      assert w[..n - 1] == visited[..n - 1];
    }
  }

  lemma {:induction false} CountWithUnvisited(visited: seq<bool>, a: nat)
    requires a < |visited| && !visited[a]
    ensures CountVisited(visited) <= |visited| - 1
    decreases |visited|
  {
    var n := |visited|;
    if a < n - 1 {
      CountWithUnvisited(visited[..n - 1], a);
    }
  }

  /** With all nodes but one finalised, the unvisited node is unique. */
  lemma {:induction false} OneUnvisitedLeft(visited: seq<bool>, a: nat, b: nat)
    requires a < |visited| && b < |visited| && !visited[a] && !visited[b]
    requires CountVisited(visited) == |visited| - 1
    ensures a == b
    decreases |visited|
  {
    var n := |visited|;
    if a != b {
      var prefix := visited[..n - 1];
      if a == n - 1 {
        CountWithUnvisited(prefix, b);
      } else if b == n - 1 {
        CountWithUnvisited(prefix, a);
      } else {
        CountWithUnvisited(prefix, a);
        assert CountVisited(visited) <= n - 1 - 1 + 1;
        OneUnvisitedLeft(prefix, a, b);
      }
    }
  }

  /**
   * The key step of Dijkstra's algorithm: the smallest distance among the
   * unvisited nodes (`u`) is a lower bound on the weight of every path from
   * the source to any unvisited node `v`. Cut the path at its last edge: if
   * that edge leaves a finalised node, the edge has been relaxed; otherwise
   * the shorter path ends at an unvisited node already.
   */
  lemma {:induction false} UnvisitedLowerBound(adj: Matrix, source: nat, dist: seq<Distance>, visited: seq<bool>,
                                             u: nat, p: seq<nat>, v: nat)
    requires IsMatrix(adj) && source < NumberOfNodes && |dist| == NumberOfNodes && |visited| == NumberOfNodes
    requires dist[source] == Finite(0)
    requires FinalisedAreLowerBounds(adj, source, dist, visited) && EdgesRelaxed(adj, dist, visited)
    requires u < NumberOfNodes && !visited[u]
    requires forall w :: 0 <= w < NumberOfNodes && !visited[w] ==> Le(dist[u], dist[w])
    requires IsPathFrom(adj, source, p, v) && !visited[v]
    ensures Le(dist[u], Finite(Weight(adj, p)))
    decreases |p|
  {
    if |p| == 1 {
      assert v == source;
      assert Le(dist[u], dist[source]);
    } else {
      var q := p[..|p| - 1];
      var x := q[|q| - 1];
      assert IsPathFrom(adj, source, q, x) by {
        forall k | 0 <= k < |q| - 1 ensures adj[q[k]][q[k + 1]] > 0 {
          assert q[k] == p[k] && q[k + 1] == p[k + 1];
        }
      }
      assert x == p[|p| - 2];
      assert Weight(adj, p) == Weight(adj, q) + adj[x][v];
      if visited[x] {
        assert Le(dist[x], Finite(Weight(adj, q)));
        assert Le(dist[v], Finite(dist[x].value + adj[x][v]));
        assert Le(dist[u], dist[v]);
      } else {
        UnvisitedLowerBound(adj, source, dist, visited, u, q, x);
      }
    }
  }

  /** Finalised nodes are never touched by a relaxation pass. */
  lemma RelaxationKeepsFinalised(adj: Matrix, d0: seq<Distance>, visited: seq<bool>, p0: seq<int>,
                                 u: nat, d1: seq<Distance>, p1: seq<int>, y: nat)
    requires IsMatrix(adj) && Sized(d0, visited, p0) && u < NumberOfNodes
    requires Relaxation(adj, d0, visited, p0, u, d1, p1)
    requires y < NumberOfNodes && visited[y]
    ensures d1[y] == d0[y] && p1[y] == p0[y]
  {
    assert !Improves(adj, d0, visited, u, y);
  }

  /** A relaxation pass never raises a distance. */
  lemma RelaxationLowers(adj: Matrix, d0: seq<Distance>, visited: seq<bool>, p0: seq<int>,
                         u: nat, d1: seq<Distance>, p1: seq<int>, v: nat)
    requires IsMatrix(adj) && Sized(d0, visited, p0) && u < NumberOfNodes
    requires Relaxation(adj, d0, visited, p0, u, d1, p1)
    requires v < NumberOfNodes
    ensures Le(d1[v], d0[v])
  {
    if Improves(adj, d0, visited, u, v) {
    }
  }

  /**
   * One iteration of the main loop (finalise the minimal unvisited node `u`,
   * then relax its edges) preserves the loop invariant.
   */
  lemma StepPreservesInvariant(adj: Matrix, source: nat, d0: seq<Distance>, vis0: seq<bool>, p0: seq<int>,
                               u: nat, d1: seq<Distance>, p1: seq<int>)
    requires LoopInvariant(adj, source, d0, vis0, p0)
    requires u < NumberOfNodes && !vis0[u]
    requires forall w :: 0 <= w < NumberOfNodes && !vis0[w] ==> Le(d0[u], d0[w])
    requires Relaxation(adj, d0, vis0[u := true], p0, u, d1, p1)
    ensures LoopInvariant(adj, source, d1, vis0[u := true], p1)
  {
    var vis1 := vis0[u := true];
    forall y | 0 <= y < NumberOfNodes && vis1[y]
      ensures d1[y] == d0[y] && p1[y] == p0[y]
    {
      RelaxationKeepsFinalised(adj, d0, vis1, p0, u, d1, p1, y);
    }
    // the source keeps distance 0 and no parent: nothing is strictly below 0
    assert !Improves(adj, d0, vis1, u, source);
    // parent links
    forall v | 0 <= v < NumberOfNodes
      ensures (p1[v] == -1 ==> v == source || d1[v] == Infinite)
      ensures (p1[v] != -1 ==> 0 <= p1[v] < NumberOfNodes && vis1[p1[v]] && LinkedBy(adj, d1, p1[v], v))
    {
      if !Improves(adj, d0, vis1, u, v) && p0[v] != -1 {
        var x := p0[v];
        assert vis0[x] && vis1[x];
        assert d1[x] == d0[x];
      }
    }
    // finalised distances are lower bounds
    forall y, p | 0 <= y < NumberOfNodes && vis1[y] && IsPathFrom(adj, source, p, y)
      ensures Le(d1[y], Finite(Weight(adj, p)))
    {
      if y == u {
        UnvisitedLowerBound(adj, source, d0, vis0, u, p, u);
      }
    }
    // every edge out of a finalised node is relaxed
    forall x, v | 0 <= x < NumberOfNodes && 0 <= v < NumberOfNodes && vis1[x] && !vis1[v]
                  && adj[x][v] != 0 && d1[x].Finite?
      ensures Le(d1[v], Finite(d1[x].value + adj[x][v]))
    {
      RelaxationLowers(adj, d0, vis1, p0, u, d1, p1, v);
      if x != u {
        assert Le(d0[v], Finite(d0[x].value + adj[x][v]));
      } else if !Improves(adj, d0, vis1, u, v) {
        NotLtIsLe(Finite(d0[u].value + adj[u][v]), d0[v]);
      }
    }
  }

  /** The invariant holds before the first iteration. */
  lemma InitialInvariant(adj: Matrix, source: nat, dist: seq<Distance>, visited: seq<bool>, parents: seq<int>)
    requires IsMatrix(adj) && source < NumberOfNodes && Sized(dist, visited, parents)
    requires forall v :: 0 <= v < NumberOfNodes ==>
      && dist[v] == (if v == source then Finite(0) else Infinite)
      && !visited[v] && parents[v] == -1
    ensures LoopInvariant(adj, source, dist, visited, parents)
  {
  }

  /** Parent links of a loop state never loop. */
  lemma LinksDescend(adj: Matrix, dist: seq<Distance>, parents: seq<int>)
    requires IsMatrix(adj) && |dist| == NumberOfNodes && |parents| == NumberOfNodes
    requires forall v {:trigger parents[v]} :: 0 <= v < NumberOfNodes && parents[v] != -1 ==>
      0 <= parents[v] < NumberOfNodes && LinkedBy(adj, dist, parents[v], v)
    ensures ParentsDescend(dist, parents)
  {
  }

  /**
   * The parent chain of a reached node is a path from the source whose
   * weight is the node's distance.
   */
  lemma {:induction false} ParentChainIsPath(adj: Matrix, source: nat, dist: seq<Distance>, parents: seq<int>, v: nat)
    requires IsMatrix(adj) && source < NumberOfNodes && |dist| == NumberOfNodes && |parents| == NumberOfNodes
    requires dist[source] == Finite(0) && ParentsDescend(dist, parents)
    requires forall w {:trigger parents[w]} :: 0 <= w < NumberOfNodes ==>
      && (parents[w] == -1 ==> w == source || dist[w] == Infinite)
      && (parents[w] != -1 ==> LinkedBy(adj, dist, parents[w], w))
    requires v < NumberOfNodes && dist[v].Finite?
    ensures IsPathFrom(adj, source, PathNodes(parents, v, dist), v)
    ensures Weight(adj, PathNodes(parents, v, dist)) == dist[v].value
    decreases Rank(dist[v])
  {
    if parents[v] == -1 {
      assert v == source;
    } else {
      var x: nat := parents[v];
      assert LinkedBy(adj, dist, x, v);
      ParentChainIsPath(adj, source, dist, parents, x);
      var q := PathNodes(parents, x, dist);
      PathSnoc(adj, source, q, x, v);
      assert PathNodes(parents, v, dist) == q + [v];
    }
  }

  /**
   * When all nodes but one are finalised, every distance is a lower bound on
   * the weight of every path to its node: for finalised nodes by the
   * invariant, for the last node because it is the minimal unvisited one.
   */
  lemma FinalLowerBound(adj: Matrix, source: nat, dist: seq<Distance>, visited: seq<bool>, v: nat, p: seq<nat>)
    requires IsMatrix(adj) && source < NumberOfNodes && |dist| == NumberOfNodes && |visited| == NumberOfNodes
    requires dist[source] == Finite(0)
    requires FinalisedAreLowerBounds(adj, source, dist, visited) && EdgesRelaxed(adj, dist, visited)
    requires CountVisited(visited) == NumberOfNodes - 1
    requires v < NumberOfNodes && IsPathFrom(adj, source, p, v)
    ensures Le(dist[v], Finite(Weight(adj, p)))
  {
    if !visited[v] {
      forall w | 0 <= w < NumberOfNodes && !visited[w]
        ensures Le(dist[v], dist[w])
      {
        OneUnvisitedLeft(visited, v, w);
      }
      UnvisitedLowerBound(adj, source, dist, visited, v, p, v);
    }
  }

  /**
   * When all nodes but one are finalised, the loop state is a shortest-path
   * tree, and every finite distance is realised by the parent chain.
   */
  lemma FinalTree(adj: Matrix, source: nat, dist: seq<Distance>, visited: seq<bool>, parents: seq<int>)
    requires LoopInvariant(adj, source, dist, visited, parents)
    requires CountVisited(visited) == NumberOfNodes - 1
    ensures IsShortestPathTree(adj, source, dist, parents)
    ensures forall v :: 0 <= v < NumberOfNodes && dist[v].Finite? ==>
      && IsPathFrom(adj, source, PathNodes(parents, v, dist), v)
      && Weight(adj, PathNodes(parents, v, dist)) == dist[v].value
  {
    LinksDescend(adj, dist, parents);
    forall v | 0 <= v < NumberOfNodes && dist[v].Finite?
      ensures IsPathFrom(adj, source, PathNodes(parents, v, dist), v)
      ensures Weight(adj, PathNodes(parents, v, dist)) == dist[v].value
    {
      ParentChainIsPath(adj, source, dist, parents, v);
    }
    forall v | 0 <= v < NumberOfNodes
      ensures IsShortest(adj, source, v, dist[v])
    {
      forall p | IsPathFrom(adj, source, p, v)
        ensures Le(dist[v], Finite(Weight(adj, p)))
      {
        FinalLowerBound(adj, source, dist, visited, v, p);
      }
      if dist[v].Finite? {
        var p := PathNodes(parents, v, dist);
        assert IsPathFrom(adj, source, p, v) && Weight(adj, p) == dist[v].value;
      }
    }
  }
}
