/**
 * The single-source shortest-path engine: Dijkstra's algorithm over an
 * adjacency matrix with a linear minimum scan, the recursive path-string
 * builder, and the module-level result arrays `paths` and `pathsToShow`
 * that every run appends to.
 */
module Dijkstra {
  import opened Text
  import opened Graph
  import opened ShortestPathTheory

  /**
   * The unvisited node with the smallest distance. The scan compares with
   * `<=` against a running minimum that starts at the sentinel, so among
   * equal distances the highest index wins, an unreached node can still be
   * chosen, and -1 comes back only when every node is visited.
   */
  method GetMinDistanceIndex(distances: array<Distance>, visited: array<bool>) returns (minIndex: int)
    requires distances.Length == NumberOfNodes && visited.Length == NumberOfNodes
    ensures -1 <= minIndex < NumberOfNodes
    ensures minIndex == -1 <==> forall v :: 0 <= v < NumberOfNodes ==> visited[v]
    ensures minIndex != -1 ==> !visited[minIndex]
    ensures minIndex != -1 ==>
      forall v :: 0 <= v < NumberOfNodes && !visited[v] ==> Le(distances[minIndex], distances[v])
    ensures minIndex != -1 ==>
      forall v :: minIndex < v < NumberOfNodes && !visited[v] ==> Lt(distances[minIndex], distances[v])
  {
    var minimum := Infinite;
    minIndex := -1;
    for node := 0 to NumberOfNodes
      invariant -1 <= minIndex < node
      invariant minIndex == -1 <==> forall v :: 0 <= v < node ==> visited[v]
      invariant minIndex == -1 ==> minimum == Infinite
      invariant minIndex != -1 ==> !visited[minIndex] && minimum == distances[minIndex]
      invariant forall v :: 0 <= v < node && !visited[v] ==> Le(minimum, distances[v])
      invariant minIndex != -1 ==> forall v :: minIndex < v < node && !visited[v] ==> Lt(minimum, distances[v])
    {
      if !visited[node] && Le(distances[node], minimum) {
        minimum := distances[node];
        minIndex := node;
      }
    }
  }

  /**
   * The inner loop of the engine: relax every edge out of `u`. A node is
   * updated only when it is unvisited, the edge exists, `u` is reached and
   * the new total is strictly smaller; then it gets that total and parent `u`.
   */
  method Relax(adj: Matrix, distances: array<Distance>, visited: array<bool>, parents: array<int>, u: nat)
    requires IsMatrix(adj) && u < NumberOfNodes
    requires distances.Length == NumberOfNodes && visited.Length == NumberOfNodes && parents.Length == NumberOfNodes
    modifies distances, parents
    ensures Relaxation(adj, old(distances[..]), visited[..], old(parents[..]), u, distances[..], parents[..])
  {
    ghost var d0, p0 := distances[..], parents[..];
    for adjacentNode := 0 to NumberOfNodes
      invariant distances[u] == d0[u]
      invariant forall w :: 0 <= w < adjacentNode ==>
        if Improves(adj, d0, visited[..], u, w) then
          distances[w] == Finite(d0[u].value + adj[u][w]) && parents[w] == u
        else
          distances[w] == d0[w] && parents[w] == p0[w]
      invariant forall w :: adjacentNode <= w < NumberOfNodes ==> distances[w] == d0[w] && parents[w] == p0[w]
    {
      if !visited[adjacentNode] && adj[u][adjacentNode] != 0 && distances[u] != Infinite
         && Lt(Finite(distances[u].value + adj[u][adjacentNode]), distances[adjacentNode])
      {
        distances[adjacentNode] := Finite(distances[u].value + adj[u][adjacentNode]);
        parents[adjacentNode] := u;
      }
    }
  }

  /**
   * The computing part of `dijkstra`: fresh working arrays (every distance
   * the sentinel but the source's 0, nothing visited, every parent -1), then
   * NumberOfNodes - 1 rounds that each finalise one node not finalised
   * before and relax its edges. The result is a shortest-path tree: every
   * distance is the least weight of a path from the source (the sentinel
   * exactly for unreachable nodes) and the parent chains realise them.
   */
  method ShortestPathTree(adj: Matrix, sourceNode: nat) returns (dist: seq<Distance>, parents: seq<int>)
    requires IsMatrix(adj) && sourceNode < NumberOfNodes
    ensures IsShortestPathTree(adj, sourceNode, dist, parents)
    ensures forall v :: 0 <= v < NumberOfNodes && dist[v].Finite? ==>
      && IsPathFrom(adj, sourceNode, PathNodes(parents, v, dist), v)
      && Weight(adj, PathNodes(parents, v, dist)) == dist[v].value
  {
    var distances := new Distance[NumberOfNodes](_ => Infinite);
    var visited := new bool[NumberOfNodes](_ => false);
    var parentArray := new int[NumberOfNodes](_ => -1);
    distances[sourceNode] := Finite(0);
    InitialInvariant(adj, sourceNode, distances[..], visited[..], parentArray[..]);
    CountNoneVisited(visited[..]);
    for i := 0 to NumberOfNodes - 1
      invariant LoopInvariant(adj, sourceNode, distances[..], visited[..], parentArray[..])
      invariant CountVisited(visited[..]) == i
    {
      var closestNode := VisitClosest(adj, sourceNode, distances, visited, parentArray);
    }
    dist, parents := distances[..], parentArray[..];
    FinalTree(adj, sourceNode, dist, visited[..], parents);
  }

  /**
   * One round of the main loop: take the closest unvisited node `u` (the
   * highest index among equal distances), mark it visited, and relax its
   * edges. Only `u` becomes visited, the distances and parents are the
   * relaxation from `u` of the old ones, and nodes finalised in earlier
   * rounds keep their distance and parent. While some node is unvisited a
   * closest one exists, and the round keeps the invariant of the loop.
   */
  method VisitClosest(adj: Matrix, sourceNode: nat, distances: array<Distance>, visited: array<bool>, parentArray: array<int>)
    returns (u: nat)
    requires LoopInvariant(adj, sourceNode, distances[..], visited[..], parentArray[..])
    requires CountVisited(visited[..]) < NumberOfNodes
    modifies distances, visited, parentArray
    ensures u < NumberOfNodes && !old(visited[u])
    ensures visited[..] == old(visited[..])[u := true]
    ensures forall v :: 0 <= v < NumberOfNodes && !old(visited[v]) ==> Le(old(distances[u]), old(distances[v]))
    ensures forall v :: u < v < NumberOfNodes && !old(visited[v]) ==> Lt(old(distances[u]), old(distances[v]))
    ensures Relaxation(adj, old(distances[..]), visited[..], old(parentArray[..]), u, distances[..], parentArray[..])
    ensures forall y :: 0 <= y < NumberOfNodes && old(visited[y]) ==>
      distances[y] == old(distances[y]) && parentArray[y] == old(parentArray[y])
    ensures LoopInvariant(adj, sourceNode, distances[..], visited[..], parentArray[..])
    ensures CountVisited(visited[..]) == old(CountVisited(visited[..])) + 1
  {
    ghost var d0, vis0, p0 := distances[..], visited[..], parentArray[..];
    SomeUnvisited(vis0);
    ghost var unvisited :| 0 <= unvisited < NumberOfNodes && !vis0[unvisited];
    var closestNode := GetMinDistanceIndex(distances, visited);
    assert closestNode != -1 by {
      assert !visited[unvisited];
    }
    u := closestNode;
    visited[u] := true;
    ghost var vis1 := visited[..];
    assert vis1 == vis0[u := true];
    CountMark(vis0, u);
    Relax(adj, distances, visited, parentArray, u);
    assert visited[..] == vis1;
    forall y | 0 <= y < NumberOfNodes && vis0[y]
      ensures distances[y] == d0[y] && parentArray[y] == p0[y]
    {
      RelaxationKeepsFinalised(adj, d0, vis1, p0, u, distances[..], parentArray[..], y);
    }
    StepPreservesInvariant(adj, sourceNode, d0, vis0, p0, u, distances[..], parentArray[..]);
  }

  /**
   * The path string of `node`: the path string of its parent, `"->"`, and
   * the node's index; just the index when the node has no parent.
   */
  function BuildPathString(parents: seq<int>, node: nat, ghost dist: seq<Distance>): string
    requires node < |parents| && ParentsDescend(dist, parents)
    decreases Rank(dist[node])
  {
    if parents[node] == -1 then NatToString(node)
    else BuildPathString(parents, parents[node], dist) + Arrow + NatToString(node)
  }

  /** The path string spells the parent chain of the node, joined by `"->"`. */
  lemma {:induction false} BuildPathStringSpellsChain(parents: seq<int>, node: nat, dist: seq<Distance>)
    requires node < |parents| && ParentsDescend(dist, parents)
    ensures BuildPathString(parents, node, dist) == PathText(PathNodes(parents, node, dist))
    decreases Rank(dist[node])
  {
    if parents[node] != -1 {
      var p := PathNodes(parents, parents[node], dist);
      BuildPathStringSpellsChain(parents, parents[node], dist);
      assert PathNodes(parents, node, dist) == p + [node];
      assert (p + [node])[..|p|] == p;
    }
  }

  /** In a shortest-path tree, a reached node's path starts at the source; an unreached node's is itself. */
  lemma PathOfNode(adj: Matrix, source: nat, dist: seq<Distance>, parents: seq<int>, v: nat)
    requires IsShortestPathTree(adj, source, dist, parents) && v < NumberOfNodes
    ensures dist[v].Finite? ==> PathNodes(parents, v, dist)[0] == source
    ensures dist[v] == Infinite ==> PathNodes(parents, v, dist) == [v] && BuildPathString(parents, v, dist) == NatToString(v)
  {
    var p := PathNodes(parents, v, dist);
    if dist[v].Finite? {
      ParentChainIsPath(adj, source, dist, parents, v);
    }
  }

  /** One record of `pathsToShow`. */
  datatype PathEntry = PathEntry(to: nat, totalCost: Distance, path: string)

  /** The records a run emits for nodes 0 .. m-1, in ascending order, skipping the source. */
  function Emitted(dist: seq<Distance>, parents: seq<int>, source: nat, m: nat): seq<PathEntry>
    requires ParentsDescend(dist, parents) && m <= |parents|
  {
    if m == 0 then []
    else
      Emitted(dist, parents, source, m - 1)
      + (if m - 1 == source then [] else [PathEntry(m - 1, dist[m - 1], BuildPathString(parents, m - 1, dist))])
  }

  /** The rows of `paths`: each one a one-element array holding a path string. */
  function PathRows(entries: seq<PathEntry>): (rows: seq<seq<string>>)
  {
    seq(|entries|, k requires 0 <= k < |entries| => [entries[k].path])
  }

  /** The k-th record emitted belongs to node k below the source and to node k+1 from it on. */
  function EntryNode(source: nat, k: nat): nat {
    if k < source then k else k + 1
  }

  /**
   * A run emits one record per node other than the source, in ascending node
   * order: for node `v` its distance and its path string.
   */
  lemma {:induction false} EmittedEntries(dist: seq<Distance>, parents: seq<int>, source: nat, m: nat)
    requires ParentsDescend(dist, parents) && m <= |parents|
    ensures |Emitted(dist, parents, source, m)| == if source < m then m - 1 else m
    ensures forall k :: 0 <= k < |Emitted(dist, parents, source, m)| ==>
      && EntryNode(source, k) < m && EntryNode(source, k) != source
      && Emitted(dist, parents, source, m)[k]
         == PathEntry(EntryNode(source, k), dist[EntryNode(source, k)],
                      BuildPathString(parents, EntryNode(source, k), dist))
    ensures forall k, l :: 0 <= k < l < |Emitted(dist, parents, source, m)| ==>
      Emitted(dist, parents, source, m)[k].to < Emitted(dist, parents, source, m)[l].to
    decreases m
  {
    if m > 0 {
      EmittedEntries(dist, parents, source, m - 1);
    }
  }

  /**
   * The module-level state of the engine: the exported arrays `paths` and
   * `pathsToShow`. They start empty and are never cleared.
   */
  class SharedResults {
    var paths: seq<seq<string>>
    var pathsToShow: seq<PathEntry>

    constructor ()
      ensures paths == [] && pathsToShow == []
    {
      paths := [];
      pathsToShow := [];
    }

    /**
     * `dijkstra(adjacencyMatrix, sourceNode)`: compute a shortest-path tree,
     * then append its records to both arrays.
     */
    method Dijkstra(adj: Matrix, sourceNode: nat)
      requires IsMatrix(adj) && sourceNode < NumberOfNodes
      modifies this
      ensures exists dist: seq<Distance>, parents: seq<int> ::
        && IsShortestPathTree(adj, sourceNode, dist, parents)
        && pathsToShow == old(pathsToShow) + Emitted(dist, parents, sourceNode, NumberOfNodes)
        && paths == old(paths) + PathRows(Emitted(dist, parents, sourceNode, NumberOfNodes))
    {
      var dist, parents := ShortestPathTree(adj, sourceNode);
      EmitResults(dist, parents, sourceNode);
    }

    /**
     * The reporting loop of `dijkstra`: one record per node other than the
     * source, in ascending node order, appended to both arrays; earlier
     * records stay in front.
     */
    method EmitResults(dist: seq<Distance>, parents: seq<int>, sourceNode: nat)
      requires ParentsDescend(dist, parents) && |parents| == NumberOfNodes
      modifies this
      ensures pathsToShow == old(pathsToShow) + Emitted(dist, parents, sourceNode, NumberOfNodes)
      ensures paths == old(paths) + PathRows(Emitted(dist, parents, sourceNode, NumberOfNodes))
    {
      for node := 0 to NumberOfNodes
        invariant pathsToShow == old(pathsToShow) + Emitted(dist, parents, sourceNode, node)
        invariant paths == old(paths) + PathRows(Emitted(dist, parents, sourceNode, node))
      {
        ghost var before := Emitted(dist, parents, sourceNode, node);
        if node != sourceNode {
          var pathString := BuildPathString(parents, node, dist);
          paths := paths + [[pathString]];
          pathsToShow := pathsToShow + [PathEntry(node, dist[node], pathString)];
          assert PathRows(before + [PathEntry(node, dist[node], pathString)]) == PathRows(before) + [[pathString]];
        }
      }
    }
  }
}
