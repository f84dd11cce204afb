/**
 * The list logic of the page script that consumes the engine's output: the
 * node list and the de-duplicated upper-triangle edge list built from the
 * adjacency matrix, and the highlighting of a route, which reads a path
 * string back into node indices and recolours or appends edges hop by hop.
 */
module Network {
  import opened Text
  import opened Graph
  import opened ShortestPathTheory
  import opened Dijkstra

  /** A node of the network view. */
  datatype NetNode = NetNode(id: nat, caption: string)

  datatype Color = Black | Red

  /** An edge of the network view (`{from, to, label, arrows, color, width}`). */
  datatype Edge = Edge(from: nat, to: nat, caption: string, arrows: string, color: Color, width: nat)

  /** The `"<weight> mins"` caption of an edge. */
  function WeightLabel(w: nat): string {
    NatToString(w) + " mins"
  }

  /** An edge as `buildEdges` creates it: black, width 2. */
  function DefaultEdge(i: nat, j: nat, w: nat): Edge {
    Edge(i, j, WeightLabel(w), "", Black, 2)
  }

  /** An edge as `highlightPath` leaves it: red, width 4. */
  function Recolored(e: Edge): Edge {
    e.(color := Red, width := 4)
  }

  /** `buildNodes`: one node per matrix row, with the row index as id. */
  function BuildNodes(adj: seq<seq<nat>>): (nodes: seq<NetNode>)
    ensures |nodes| == |adj|
    ensures forall i :: 0 <= i < |nodes| ==> nodes[i].id == i && nodes[i].caption == "Node " + NatToString(i)
  {
    seq(|adj|, i requires 0 <= i < |adj| => NetNode(i, "Node " + NatToString(i)))
  }

  // ---------------------------------------------------------------------
  // buildEdges

  function Min(a: nat, b: nat): nat { if a <= b then a else b }
  function Max(a: nat, b: nat): nat { if a <= b then b else a }

  /** The de-duplication key `"<min>-<max>"` of an unordered endpoint pair. */
  function EdgeKey(a: nat, b: nat): string {
    NatToString(Min(a, b)) + "-" + NatToString(Max(a, b))
  }

  /** Different unordered pairs have different keys. */
  lemma EdgeKeyInjective(a: nat, b: nat, c: nat, d: nat)
    requires EdgeKey(a, b) == EdgeKey(c, d)
    ensures Min(a, b) == Min(c, d) && Max(a, b) == Max(c, d)
  {
    var s1, t1 := NatToString(Min(a, b)), NatToString(Max(a, b));
    var s2, t2 := NatToString(Min(c, d)), NatToString(Max(c, d));
    var key := EdgeKey(a, b);
    assert key == s1 + "-" + t1 && key == s2 + "-" + t2;
    assert key[|s1|] == '-' && key[|s2|] == '-';
    assert |s1| == |s2|;
    assert s1 == key[..|s1|] == s2;
    assert t1 == key[|s1| + 1..] == t2;
    NatToStringInjective(Min(a, b), Min(c, d));
    NatToStringInjective(Max(a, b), Max(c, d));
  }

  /** The keys of all edges of a list. */
  function KeysOf(edges: seq<Edge>): set<string>
    decreases |edges|
  {
    if |edges| == 0 then {}
    else KeysOf(edges[..|edges| - 1]) + {EdgeKey(edges[|edges| - 1].from, edges[|edges| - 1].to)}
  }

  lemma {:induction false} KeysOfMember(edges: seq<Edge>, key: string)
    requires key in KeysOf(edges)
    ensures exists k :: 0 <= k < |edges| && EdgeKey(edges[k].from, edges[k].to) == key
    decreases |edges|
  {
    var n := |edges|;
    if key != EdgeKey(edges[n - 1].from, edges[n - 1].to) {
      KeysOfMember(edges[..n - 1], key);
      var k :| 0 <= k < n - 1 && EdgeKey(edges[..n - 1][k].from, edges[..n - 1][k].to) == key;
      assert edges[..n - 1][k] == edges[k];
    }
  }

  lemma KeysOfSnoc(edges: seq<Edge>, e: Edge)
    ensures KeysOf(edges + [e]) == KeysOf(edges) + {EdgeKey(e.from, e.to)}
  {
    assert (edges + [e])[..|edges|] == edges;
  }

  /** Row-major order of endpoint pairs: `e` comes strictly before (i, j). */
  predicate Before(e: Edge, i: nat, j: nat) {
    e.from < i || (e.from == i && e.to < j)
  }

  /** The edges so far are ordered pairs met before (i, j) in the scan. */
  predicate ScannedBefore(edges: seq<Edge>, i: nat, j: nat) {
    forall k :: 0 <= k < |edges| ==> edges[k].from < edges[k].to && Before(edges[k], i, j)
  }

  /** The key of a pair not yet reached in row-major order is not in the set. */
  lemma KeyIsFresh(edges: seq<Edge>, i: nat, j: nat)
    requires i < j
    requires ScannedBefore(edges, i, j)
    ensures EdgeKey(i, j) !in KeysOf(edges)
  {
    if EdgeKey(i, j) in KeysOf(edges) {
      KeysOfMember(edges, EdgeKey(i, j));
      var k :| 0 <= k < |edges| && EdgeKey(edges[k].from, edges[k].to) == EdgeKey(i, j);
      EdgeKeyInjective(edges[k].from, edges[k].to, i, j);
      assert false;
    }
  }

  /** The edges row `i` contributes for columns j, j+1, ... */
  function RowEdges(adj: seq<seq<nat>>, i: nat, j: nat): seq<Edge>
    requires i < |adj|
    decreases if j < |adj[i]| then |adj[i]| - j else 0
  {
    if j >= |adj[i]| then []
    else (if adj[i][j] > 0 then [DefaultEdge(i, j, adj[i][j])] else []) + RowEdges(adj, i, j + 1)
  }

  /** The edges rows i, i+1, ... contribute, each row from the column after its index. */
  function EdgesFrom(adj: seq<seq<nat>>, i: nat): seq<Edge>
    requires i <= |adj|
    decreases |adj| - i
  {
    if i == |adj| then [] else RowEdges(adj, i, i + 1) + EdgesFrom(adj, i + 1)
  }

  /** Pushing the edge met at (i, j): its key is new, and the set and the order stay in step. */
  lemma PushFresh(edges: seq<Edge>, edgeSet: set<string>, i: nat, j: nat, e: Edge)
    requires i < j && e.from == i && e.to == j
    requires edgeSet == KeysOf(edges) && ScannedBefore(edges, i, j)
    ensures EdgeKey(i, j) !in edgeSet
    ensures edgeSet + {EdgeKey(i, j)} == KeysOf(edges + [e])
    ensures ScannedBefore(edges + [e], i, j + 1)
  {
    KeyIsFresh(edges, i, j);
    KeysOfSnoc(edges, e);
  }

  /** One column of the row scan: the edges so far plus what remains are unchanged. */
  lemma RowStep(adj: seq<seq<nat>>, i: nat, j: nat, before: seq<Edge>, after: seq<Edge>)
    requires i < |adj| && j < |adj[i]|
    requires after == before + (if adj[i][j] > 0 then [DefaultEdge(i, j, adj[i][j])] else [])
    ensures before + RowEdges(adj, i, j) == after + RowEdges(adj, i, j + 1)
  {
    var mid := if adj[i][j] > 0 then [DefaultEdge(i, j, adj[i][j])] else [];
    var rest := RowEdges(adj, i, j + 1);
    assert RowEdges(adj, i, j) == mid + rest;
    assert before + (mid + rest) == (before + mid) + rest;
  }

  /** One row of the scan: the edges so far plus what remains are unchanged. */
  lemma EdgesFromStep(adj: seq<seq<nat>>, i: nat, before: seq<Edge>)
    requires i < |adj|
    ensures before + EdgesFrom(adj, i) == (before + RowEdges(adj, i, i + 1)) + EdgesFrom(adj, i + 1)
  {
    var row := RowEdges(adj, i, i + 1);
    var rest := EdgesFrom(adj, i + 1);
    assert EdgesFrom(adj, i) == row + rest;
    assert before + (row + rest) == (before + row) + rest;
  }

  /**
   * `buildEdges`: scan the upper triangle row by row and push a black edge
   * of width 2 for every positive weight whose key is not yet in the set.
   * The key test never fails, since each unordered pair is met once.
   */
  method BuildEdges(adj: seq<seq<nat>>) returns (edges: seq<Edge>)
    ensures edges == EdgesFrom(adj, 0)
  {
    edges := [];
    var edgeSet: set<string> := {};
    for i := 0 to |adj|
      invariant edges + EdgesFrom(adj, i) == EdgesFrom(adj, 0)
      invariant ScannedBefore(edges, i, 0)
      invariant edgeSet == KeysOf(edges)
    {
      EdgesFromStep(adj, i, edges);
      edges, edgeSet := ScanRow(adj, i, edges, edgeSet);
    }
  }

  /** The inner loop of `buildEdges`: the columns of row `i` after the diagonal. */
  method ScanRow(adj: seq<seq<nat>>, i: nat, edges0: seq<Edge>, edgeSet0: set<string>)
    returns (edges: seq<Edge>, edgeSet: set<string>)
    requires i < |adj|
    requires ScannedBefore(edges0, i, 0) && edgeSet0 == KeysOf(edges0)
    ensures edges == edges0 + RowEdges(adj, i, i + 1)
    ensures ScannedBefore(edges, i + 1, 0) && edgeSet == KeysOf(edges)
  {
    edges, edgeSet := edges0, edgeSet0;
    var j := i + 1;
    while j < |adj[i]|
      invariant i + 1 <= j && (j <= |adj[i]| || j == i + 1)
      invariant edges + RowEdges(adj, i, j) == edges0 + RowEdges(adj, i, i + 1)
      invariant ScannedBefore(edges, i, j)
      invariant edgeSet == KeysOf(edges)
      decreases |adj[i]| - j
    {
      ghost var before := edges;
      if adj[i][j] > 0 {
        var edgeKey := EdgeKey(i, j);
        PushFresh(edges, edgeSet, i, j, DefaultEdge(i, j, adj[i][j]));
        if edgeKey !in edgeSet {
          edges := edges + [DefaultEdge(i, j, adj[i][j])];
          edgeSet := edgeSet + {edgeKey};
        }
      }
      RowStep(adj, i, j, before, edges);
      j := j + 1;
    }
    assert RowEdges(adj, i, j) == [];
  }

  /** What a row contributes: black width-2 edges (i, b), b >= j, one per positive weight, by ascending b. */
  lemma {:induction false} RowEdgesSpec(adj: seq<seq<nat>>, i: nat, j: nat)
    requires i < |adj|
    ensures forall k :: 0 <= k < |RowEdges(adj, i, j)| ==>
      var e := RowEdges(adj, i, j)[k];
      && e.from == i && j <= e.to < |adj[i]| && adj[i][e.to] > 0 && e == DefaultEdge(i, e.to, adj[i][e.to])
    ensures forall b :: j <= b < |adj[i]| && adj[i][b] > 0 ==> DefaultEdge(i, b, adj[i][b]) in RowEdges(adj, i, j)
    ensures forall k, l :: 0 <= k < l < |RowEdges(adj, i, j)| ==> RowEdges(adj, i, j)[k].to < RowEdges(adj, i, j)[l].to
    decreases if j < |adj[i]| then |adj[i]| - j else 0
  {
    if j < |adj[i]| {
      RowEdgesSpec(adj, i, j + 1);
    }
  }

  /** Every edge rows i, i+1, ... contribute is a black width-2 edge (a, b), i <= a < b, of positive weight. */
  lemma {:induction false} EdgesFromMembers(adj: seq<seq<nat>>, i: nat)
    requires i <= |adj|
    ensures forall k :: 0 <= k < |EdgesFrom(adj, i)| ==>
      var e := EdgesFrom(adj, i)[k];
      && i <= e.from < |adj| && e.from < e.to < |adj[e.from]| && adj[e.from][e.to] > 0
      && e == DefaultEdge(e.from, e.to, adj[e.from][e.to])
    decreases |adj| - i
  {
    if i < |adj| {
      RowEdgesSpec(adj, i, i + 1);
      EdgesFromMembers(adj, i + 1);
      var row: seq<Edge>, rest: seq<Edge> := RowEdges(adj, i, i + 1), EdgesFrom(adj, i + 1);
      assert EdgesFrom(adj, i) == row + rest;
      forall k | 0 <= k < |row + rest|
        ensures i <= (row + rest)[k].from
      {
        if k < |row| {
          assert (row + rest)[k] == row[k];
        } else {
          assert (row + rest)[k] == rest[k - |row|];
        }
      }
    }
  }

  /** Every positive weight (a, b) with i <= a < b gives an edge of rows i, i+1, ... */
  lemma {:induction false} EdgesFromComplete(adj: seq<seq<nat>>, i: nat)
    requires i <= |adj|
    ensures forall a, b :: i <= a < |adj| && a < b < |adj[a]| && adj[a][b] > 0 ==>
      DefaultEdge(a, b, adj[a][b]) in EdgesFrom(adj, i)
    decreases |adj| - i
  {
    if i < |adj| {
      RowEdgesSpec(adj, i, i + 1);
      EdgesFromComplete(adj, i + 1);
      var row: seq<Edge>, rest: seq<Edge> := RowEdges(adj, i, i + 1), EdgesFrom(adj, i + 1);
      assert EdgesFrom(adj, i) == row + rest;
      forall a, b | i <= a < |adj| && a < b < |adj[a]| && adj[a][b] > 0
        ensures DefaultEdge(a, b, adj[a][b]) in EdgesFrom(adj, i)
      {
        if a == i {
          assert DefaultEdge(a, b, adj[a][b]) in row;
        } else {
          assert DefaultEdge(a, b, adj[a][b]) in rest;
        }
      }
    }
  }

  /** The edges of rows i, i+1, ... come in strict row-major order. */
  lemma {:induction false} EdgesFromOrdered(adj: seq<seq<nat>>, i: nat)
    requires i <= |adj|
    ensures forall k, l :: 0 <= k < l < |EdgesFrom(adj, i)| ==>
      Before(EdgesFrom(adj, i)[k], EdgesFrom(adj, i)[l].from, EdgesFrom(adj, i)[l].to)
    decreases |adj| - i
  {
    if i < |adj| {
      RowEdgesSpec(adj, i, i + 1);
      EdgesFromMembers(adj, i + 1);
      EdgesFromOrdered(adj, i + 1);
      var row: seq<Edge>, rest: seq<Edge> := RowEdges(adj, i, i + 1), EdgesFrom(adj, i + 1);
      var all := row + rest;
      assert EdgesFrom(adj, i) == all;
      forall k, l | 0 <= k < l < |all|
        ensures Before(all[k], all[l].from, all[l].to)
      {
        if l < |row| {
          assert all[k] == row[k] && all[l] == row[l];
        } else if k < |row| {
          assert all[k] == row[k] && all[l] == rest[l - |row|];
        } else {
          assert all[k] == rest[k - |row|] && all[l] == rest[l - |row|];
        }
      }
    }
  }

  /**
   * The edge list of `buildEdges` holds exactly one black width-2 edge (i, j)
   * for each i < j with a positive weight in row i (entries only below the
   * diagonal give none), in row-major order.
   */
  lemma BuildEdgesSpec(adj: seq<seq<nat>>)
    ensures forall k :: 0 <= k < |EdgesFrom(adj, 0)| ==>
      var e := EdgesFrom(adj, 0)[k];
      && e.from < |adj| && e.from < e.to < |adj[e.from]| && adj[e.from][e.to] > 0
      && e.color == Black && e.width == 2 && e == DefaultEdge(e.from, e.to, adj[e.from][e.to])
    ensures forall a, b :: 0 <= a < |adj| && a < b < |adj[a]| && adj[a][b] > 0 ==>
      DefaultEdge(a, b, adj[a][b]) in EdgesFrom(adj, 0)
    ensures forall k, l :: 0 <= k < l < |EdgesFrom(adj, 0)| ==>
      Before(EdgesFrom(adj, 0)[k], EdgesFrom(adj, 0)[l].from, EdgesFrom(adj, 0)[l].to)
  {
    EdgesFromMembers(adj, 0);
    EdgesFromComplete(adj, 0);
    EdgesFromOrdered(adj, 0);
  }

  /** No two edges of `buildEdges` share an unordered pair of endpoints. */
  lemma BuildEdgesNoDuplicatePairs(adj: seq<seq<nat>>)
    ensures forall k, l :: 0 <= k < l < |EdgesFrom(adj, 0)| ==>
      EdgeKey(EdgesFrom(adj, 0)[k].from, EdgesFrom(adj, 0)[k].to)
        != EdgeKey(EdgesFrom(adj, 0)[l].from, EdgesFrom(adj, 0)[l].to)
  {
    var es := EdgesFrom(adj, 0);
    EdgesFromMembers(adj, 0);
    EdgesFromOrdered(adj, 0);
    forall k, l | 0 <= k < l < |es|
      ensures EdgeKey(es[k].from, es[k].to) != EdgeKey(es[l].from, es[l].to)
    {
      if EdgeKey(es[k].from, es[k].to) == EdgeKey(es[l].from, es[l].to) {
        EdgeKeyInjective(es[k].from, es[k].to, es[l].from, es[l].to);
        assert false;
      }
    }
  }

  /** On a square matrix every edge joins two nodes of `buildNodes`. */
  lemma EdgesJoinNodes(adj: seq<seq<nat>>)
    requires forall u :: 0 <= u < |adj| ==> |adj[u]| == |adj|
    ensures forall k :: 0 <= k < |EdgesFrom(adj, 0)| ==>
      && EdgesFrom(adj, 0)[k].from < |BuildNodes(adj)| && BuildNodes(adj)[EdgesFrom(adj, 0)[k].from].id == EdgesFrom(adj, 0)[k].from
      && EdgesFrom(adj, 0)[k].to < |BuildNodes(adj)| && BuildNodes(adj)[EdgesFrom(adj, 0)[k].to].id == EdgesFrom(adj, 0)[k].to
  {
    EdgesFromMembers(adj, 0);
  }

  // ---------------------------------------------------------------------
  // highlightPath

  /** `e` joins `a` and `b`, in either direction. */
  predicate Connects(e: Edge, a: nat, b: nat) {
    (e.from == a && e.to == b) || (e.from == b && e.to == a)
  }

  /** `edges.findIndex(...)`: the first edge joining `a` and `b`, or -1. */
  function FindEdge(edges: seq<Edge>, a: nat, b: nat): (r: int)
    ensures -1 <= r < |edges|
    ensures r == -1 <==> forall k :: 0 <= k < |edges| ==> !Connects(edges[k], a, b)
    ensures r != -1 ==> Connects(edges[r], a, b) && forall k :: 0 <= k < r ==> !Connects(edges[k], a, b)
    decreases |edges|
  {
    if |edges| == 0 then -1
    else if Connects(edges[0], a, b) then 0
    else
      var r := FindEdge(edges[1..], a, b);
      if r == -1 then -1 else r + 1
  }

  /**
   * One pass of the loop in `highlightPath`: `findIndex` the first edge
   * joining the two nodes and recolour it, or push a red one when there is none.
   */
  function MarkHop(edges: seq<Edge>, adj: Matrix, a: nat, b: nat): seq<Edge>
    requires IsMatrix(adj) && a < NumberOfNodes && b < NumberOfNodes
  {
    var k := FindEdge(edges, a, b);
    if k != -1 then edges[k := Recolored(edges[k])]
    else edges + [Edge(a, b, WeightLabel(adj[a][b]), "", Red, 4)]
  }

  /** The node a hop starts from: `prev` for the first hop, the previous hop's end after that. */
  function HopFrom(prev: nat, hops: seq<nat>, i: nat): nat
    requires i < |hops|
  {
    if i == 0 then prev else hops[i - 1]
  }

  predicate AllNodes(hops: seq<nat>) {
    forall k :: 0 <= k < |hops| ==> hops[k] < NumberOfNodes
  }

  /**
   * The edge list after marking the hops prev -> hops[0] -> hops[1] -> ...
   * in turn: the list after all but the last hop, with the last hop marked.
   */
  function Highlighted(edges: seq<Edge>, adj: Matrix, prev: nat, hops: seq<nat>): seq<Edge>
    requires IsMatrix(adj) && prev < NumberOfNodes && AllNodes(hops)
    decreases |hops|
  {
    if |hops| == 0 then edges
    else
      var n := |hops| - 1;
      MarkHop(Highlighted(edges, adj, prev, hops[..n]), adj, HopFrom(prev, hops, n), hops[n])
  }

  /** Highlighting one hop more is marking that hop on the list so far. */
  lemma HighlightedSnoc(edges: seq<Edge>, adj: Matrix, prev: nat, hops: seq<nat>, i: nat)
    requires IsMatrix(adj) && prev < NumberOfNodes && AllNodes(hops) && i < |hops|
    ensures AllNodes(hops[..i]) && AllNodes(hops[..i + 1])
    ensures Highlighted(edges, adj, prev, hops[..i + 1])
         == MarkHop(Highlighted(edges, adj, prev, hops[..i]), adj, HopFrom(prev, hops, i), hops[i])
  {
    assert hops[..i + 1][..i] == hops[..i];
  }

  /**
   * `path.split("->").splice(1).map(Number)`: the tokens after the first,
   * read as node indices.
   */
  function ParseHops(text: string): seq<nat> {
    NumbersOf(Split(text, Arrow)[1..])
  }

  /** `.map(Number)` over decimal tokens. */
  function NumbersOf(tokens: seq<string>): (numbers: seq<nat>)
    ensures |numbers| == |tokens|
    ensures forall k :: 0 <= k < |tokens| ==> numbers[k] == ParseDecimal(tokens[k])
    decreases |tokens|
  {
    if |tokens| == 0 then [] else [ParseDecimal(tokens[0])] + NumbersOf(tokens[1..])
  }

  /**
   * The `edges` array that `buildEdges` returns and `highlightPath` then
   * changes in place: its elements are recoloured and new edges pushed.
   */
  class EdgeList {
    var edges: seq<Edge>

    constructor(initial: seq<Edge>)
      ensures edges == initial
    {
      edges := initial;
    }

    /**
     * `highlightPath(selected, edges)`: parse the selected row of `paths`
     * and, if it has hops, walk them from node 0, recolouring the first edge
     * of each hop or pushing a red one.
     */
    method HighlightPath(selected: nat, paths: seq<seq<string>>, adj: Matrix)
      requires IsMatrix(adj)
      requires 1 <= selected <= |paths| && |paths[selected - 1]| >= 1
      requires AllNodes(ParseHops(paths[selected - 1][0]))
      modifies this
      ensures edges == Highlighted(old(edges), adj, 0, ParseHops(paths[selected - 1][0]))
    {
      var decoupledPaths := ParseHops(paths[selected - 1][0]);
      var list := edges;
      ghost var original := list;
      if |decoupledPaths| > 0 {
        var previousNode: nat := 0;
        for i := 0 to |decoupledPaths|
          invariant previousNode < NumberOfNodes
          invariant previousNode == if i == 0 then 0 else decoupledPaths[i - 1]
          invariant list == Highlighted(original, adj, 0, decoupledPaths[..i])
        {
          var nextNode := decoupledPaths[i];
          list := MarkHop(list, adj, previousNode, nextNode);
          HighlightedSnoc(original, adj, 0, decoupledPaths, i);
          previousNode := nextNode;
        }
        assert decoupledPaths[..|decoupledPaths|] == decoupledPaths;
      }
      edges := list;
    }
  }

  /** `r` keeps every edge of `edges` in place, at most recoloured, and may add edges after them. */
  predicate Extends(edges: seq<Edge>, r: seq<Edge>) {
    |edges| <= |r| && forall k :: 0 <= k < |edges| ==> r[k] == edges[k] || r[k] == Recolored(edges[k])
  }

  /** The first match of a pair survives an extension; a pair with no match can only match an added edge. */
  lemma FindEdgeExtends(edges: seq<Edge>, r: seq<Edge>, a: nat, b: nat)
    requires Extends(edges, r)
    ensures FindEdge(edges, a, b) != -1 ==> FindEdge(r, a, b) == FindEdge(edges, a, b)
    ensures FindEdge(edges, a, b) == -1 ==> FindEdge(r, a, b) == -1 || FindEdge(r, a, b) >= |edges|
  {
    assert forall k :: 0 <= k < |edges| ==> (Connects(r[k], a, b) <==> Connects(edges[k], a, b));
  }

  lemma ExtendsTransitive(e0: seq<Edge>, e1: seq<Edge>, e2: seq<Edge>)
    requires Extends(e0, e1) && Extends(e1, e2)
    ensures Extends(e0, e2)
  {
    forall k | 0 <= k < |e0| ensures e2[k] == e0[k] || e2[k] == Recolored(e0[k]) {
      assert e1[k] == e0[k] || e1[k] == Recolored(e0[k]);
    }
  }

  /**
   * One hop keeps the old edges in place, at most recolouring the first one
   * joining the hop's nodes (and no other), or appends one red edge; either
   * way the first edge joining them is then red with width 4.
   */
  lemma MarkHopSpec(edges: seq<Edge>, adj: Matrix, a: nat, b: nat)
    requires IsMatrix(adj) && a < NumberOfNodes && b < NumberOfNodes
    ensures Extends(edges, MarkHop(edges, adj, a, b))
    ensures FindEdge(edges, a, b) != -1 ==> |MarkHop(edges, adj, a, b)| == |edges|
    ensures FindEdge(edges, a, b) == -1 ==> |MarkHop(edges, adj, a, b)| == |edges| + 1
    ensures forall k :: |edges| <= k < |MarkHop(edges, adj, a, b)| ==>
      MarkHop(edges, adj, a, b)[k].color == Red && MarkHop(edges, adj, a, b)[k].width == 4
    ensures forall k :: 0 <= k < |edges| && MarkHop(edges, adj, a, b)[k] != edges[k] ==> k == FindEdge(edges, a, b)
    ensures HopMarked(MarkHop(edges, adj, a, b), a, b)
  {
    var e1 := MarkHop(edges, adj, a, b);
    var f := FindEdge(edges, a, b);
    FindEdgeExtends(edges, e1, a, b);
    if f == -1 {
      assert Connects(e1[|edges|], a, b);
    }
  }

  /** The hops of a prefix start where the same hops of the whole route start. */
  lemma PrefixHops(prev: nat, hops: seq<nat>, n: nat)
    requires n <= |hops|
    ensures forall i :: 0 <= i < n ==> HopFrom(prev, hops[..n], i) == HopFrom(prev, hops, i) && hops[..n][i] == hops[i]
  {
  }

  /**
   * Highlighting never removes an edge or moves its endpoints: each old edge
   * stays in place, unchanged or turned red with width 4; at most one edge
   * is added per hop, and every added edge is red with width 4.
   */
  lemma {:induction false} HighlightedExtends(edges: seq<Edge>, adj: Matrix, prev: nat, hops: seq<nat>)
    requires IsMatrix(adj) && prev < NumberOfNodes && AllNodes(hops)
    ensures Extends(edges, Highlighted(edges, adj, prev, hops))
    ensures |Highlighted(edges, adj, prev, hops)| <= |edges| + |hops|
    ensures forall k :: |edges| <= k < |Highlighted(edges, adj, prev, hops)| ==>
      Highlighted(edges, adj, prev, hops)[k].color == Red && Highlighted(edges, adj, prev, hops)[k].width == 4
    decreases |hops|
  {
    if |hops| > 0 {
      var n := |hops| - 1;
      var before := Highlighted(edges, adj, prev, hops[..n]);
      var r := Highlighted(edges, adj, prev, hops);
      HighlightedExtends(edges, adj, prev, hops[..n]);
      MarkHopSpec(before, adj, HopFrom(prev, hops, n), hops[n]);
      ExtendsTransitive(edges, before, r);
      forall k | |edges| <= k < |r|
        ensures r[k].color == Red && r[k].width == 4
      {
        if k < |before| {
          assert r[k] == before[k] || r[k] == Recolored(before[k]);
        }
      }
    }
  }

  /** The first edge joining `a` and `b` in `r` exists and is drawn red, width 4. */
  predicate HopMarked(r: seq<Edge>, a: nat, b: nat) {
    var k := FindEdge(r, a, b);
    k != -1 && r[k].color == Red && r[k].width == 4
  }

  /** Marking more hops keeps an already marked hop marked. */
  lemma MarkedStaysMarked(before: seq<Edge>, r: seq<Edge>, a: nat, b: nat)
    requires Extends(before, r) && HopMarked(before, a, b)
    ensures HopMarked(r, a, b)
  {
    var f := FindEdge(before, a, b);
    FindEdgeExtends(before, r, a, b);
    assert r[f] == before[f] || r[f] == Recolored(before[f]);
  }

  /** One more marked hop on top of a list whose earlier hops are all marked. */
  lemma MarksStep(before: seq<Edge>, r: seq<Edge>, prev: nat, front: seq<nat>, hops: seq<nat>)
    requires |hops| > 0 && front == hops[..|hops| - 1] && Extends(before, r)
    requires HopMarked(r, HopFrom(prev, hops, |hops| - 1), hops[|hops| - 1])
    requires forall i :: 0 <= i < |front| ==> HopMarked(before, HopFrom(prev, front, i), front[i])
    ensures forall i :: 0 <= i < |hops| ==> HopMarked(r, HopFrom(prev, hops, i), hops[i])
  {
    var n := |hops| - 1;
    forall i | 0 <= i < |hops|
      ensures HopMarked(r, HopFrom(prev, hops, i), hops[i])
    {
      if i < n {
        assert HopFrom(prev, front, i) == HopFrom(prev, hops, i) && front[i] == hops[i];
        MarkedStaysMarked(before, r, HopFrom(prev, hops, i), hops[i]);
      }
    }
  }

  /** After highlighting, the first edge joining the two nodes of each hop is red with width 4. */
  lemma {:induction false} HighlightedMarksEveryHop(edges: seq<Edge>, adj: Matrix, prev: nat, hops: seq<nat>)
    requires IsMatrix(adj) && prev < NumberOfNodes && AllNodes(hops)
    ensures forall i :: 0 <= i < |hops| ==> HopMarked(Highlighted(edges, adj, prev, hops), HopFrom(prev, hops, i), hops[i])
    decreases |hops|
  {
    if |hops| > 0 {
      var n := |hops| - 1;
      var before := Highlighted(edges, adj, prev, hops[..n]);
      var r := MarkHop(before, adj, HopFrom(prev, hops, n), hops[n]);
      assert r == Highlighted(edges, adj, prev, hops);
      HighlightedMarksEveryHop(edges, adj, prev, hops[..n]);
      MarkHopSpec(before, adj, HopFrom(prev, hops, n), hops[n]);
      MarksStep(before, r, prev, hops[..n], hops);
    }
  }

  /** Highlighting changes an old edge only when it is the first match of some hop in the original list. */
  lemma {:induction false} HighlightedTouchesOnlyFirstMatches(edges: seq<Edge>, adj: Matrix, prev: nat, hops: seq<nat>)
    requires IsMatrix(adj) && prev < NumberOfNodes && AllNodes(hops)
    ensures forall k :: (0 <= k < |edges| && k < |Highlighted(edges, adj, prev, hops)|
                         && Highlighted(edges, adj, prev, hops)[k] != edges[k]) ==>
      exists i :: 0 <= i < |hops| && FindEdge(edges, HopFrom(prev, hops, i), hops[i]) == k
    decreases |hops|
  {
    if |hops| > 0 {
      var n := |hops| - 1;
      var before := Highlighted(edges, adj, prev, hops[..n]);
      var r := Highlighted(edges, adj, prev, hops);
      var a, b := HopFrom(prev, hops, n), hops[n];
      HighlightedExtends(edges, adj, prev, hops[..n]);
      HighlightedTouchesOnlyFirstMatches(edges, adj, prev, hops[..n]);
      MarkHopSpec(before, adj, a, b);
      PrefixHops(prev, hops, n);
      forall k | 0 <= k < |edges| && k < |r| && r[k] != edges[k]
        ensures exists i :: 0 <= i < |hops| && FindEdge(edges, HopFrom(prev, hops, i), hops[i]) == k
      {
        if before[k] != edges[k] {
          var i :| 0 <= i < n && FindEdge(edges, HopFrom(prev, hops[..n], i), hops[..n][i]) == k;
          assert FindEdge(edges, HopFrom(prev, hops, i), hops[i]) == k;
        } else {
          assert r[k] != before[k];
          FindEdgeExtends(edges, before, a, b);
          assert FindEdge(edges, HopFrom(prev, hops, n), hops[n]) == k;
        }
      }
    }
  }

  /** Reading a path text back gives the nodes after the first one. */
  lemma ParseHopsOfPathText(nodes: seq<nat>)
    requires |nodes| >= 1
    ensures ParseHops(PathText(nodes)) == nodes[1..]
  {
    SplitPathText(nodes);
    var tokens := Split(PathText(nodes), Arrow);
    forall k | 0 <= k < |nodes| - 1
      ensures ParseHops(PathText(nodes))[k] == nodes[1..][k]
    {
      ParseDecimalOfNatToString(nodes[k + 1]);
    }
  }

  /** The parsing in `highlightPath` inverts `buildPathString`: it recovers the parent chain after its root. */
  lemma ParseHopsInvertsBuildPathString(parents: seq<int>, node: nat, dist: seq<Distance>)
    requires node < |parents| && ParentsDescend(dist, parents)
    ensures ParseHops(BuildPathString(parents, node, dist)) == PathNodes(parents, node, dist)[1..]
  {
    BuildPathStringSpellsChain(parents, node, dist);
    ParseHopsOfPathText(PathNodes(parents, node, dist));
  }

  /** The path string of an unreachable destination is its own index: no hops, so nothing is highlighted. */
  lemma UnreachableHighlightsNothing(edges: seq<Edge>, adj: Matrix, v: nat)
    requires IsMatrix(adj)
    ensures ParseHops(NatToString(v)) == []
    ensures Highlighted(edges, adj, 0, ParseHops(NatToString(v))) == edges
  {
    DecimalHasNoDash(NatToString(v));
    SplitNoDash(NatToString(v));
  }

  /**
   * The route `highlightPath` walks for the path string of node `v` of a
   * shortest-path tree from node 0: for a reached node, hop i goes from the
   * i-th to the (i+1)-th node of the parent chain along an edge of the
   * matrix; for an unreached node there are no hops.
   */
  lemma HighlightFollowsTreePath(adj: Matrix, dist: seq<Distance>, parents: seq<int>, v: nat)
    requires IsShortestPathTree(adj, 0, dist, parents) && v < NumberOfNodes
    ensures AllNodes(ParseHops(BuildPathString(parents, v, dist)))
    ensures dist[v] == Infinite ==> ParseHops(BuildPathString(parents, v, dist)) == []
    ensures dist[v].Finite? ==>
      var nodes := PathNodes(parents, v, dist);
      var hops := ParseHops(BuildPathString(parents, v, dist));
      && |hops| == |nodes| - 1
      && forall i :: 0 <= i < |hops| ==>
           HopFrom(0, hops, i) == nodes[i] && hops[i] == nodes[i + 1] && adj[nodes[i]][nodes[i + 1]] > 0
  {
    ParseHopsInvertsBuildPathString(parents, v, dist);
    PathOfNode(adj, 0, dist, parents, v);
    if dist[v].Finite? {
      ParentChainIsPath(adj, 0, dist, parents, v);
    }
  }

  /**
   * After one run from node 0 on fresh result arrays, row `selected - 1` of
   * `paths` is the path string of node `selected`, so `highlightPath`
   * walks that node's route.
   */
  lemma SelectedRowIsRoute(adj: Matrix, dist: seq<Distance>, parents: seq<int>, selected: nat)
    requires IsShortestPathTree(adj, 0, dist, parents)
    requires 1 <= selected < NumberOfNodes
    ensures 1 <= selected <= |PathRows(Emitted(dist, parents, 0, NumberOfNodes))|
    ensures PathRows(Emitted(dist, parents, 0, NumberOfNodes))[selected - 1] == [BuildPathString(parents, selected, dist)]
  {
    EmittedEntries(dist, parents, 0, NumberOfNodes);
  }

  /** When every hop already has an edge in the list, highlighting only recolours: the list keeps its length. */
  lemma {:induction false} HighlightedKeepsLength(edges: seq<Edge>, adj: Matrix, prev: nat, hops: seq<nat>)
    requires IsMatrix(adj) && prev < NumberOfNodes && AllNodes(hops)
    requires forall i :: 0 <= i < |hops| ==> FindEdge(edges, HopFrom(prev, hops, i), hops[i]) != -1
    ensures |Highlighted(edges, adj, prev, hops)| == |edges|
    decreases |hops|
  {
    if |hops| > 0 {
      var n := |hops| - 1;
      var before := Highlighted(edges, adj, prev, hops[..n]);
      var a, b := HopFrom(prev, hops, n), hops[n];
      PrefixHops(prev, hops, n);
      HighlightedKeepsLength(edges, adj, prev, hops[..n]);
      HighlightedExtends(edges, adj, prev, hops[..n]);
      FindEdgeExtends(edges, before, a, b);
      MarkHopSpec(before, adj, a, b);
    }
  }

  /** On a symmetric matrix, a parent link of the tree joins two nodes the edge list connects. */
  lemma TreeLinkHasEdge(adj: Matrix, dist: seq<Distance>, parents: seq<int>, a: nat, b: nat)
    requires IsMatrix(adj) && |dist| == NumberOfNodes && ParentsDescend(dist, parents)
    requires forall x, y :: 0 <= x < NumberOfNodes && 0 <= y < NumberOfNodes ==> adj[x][y] == adj[y][x]
    requires a < NumberOfNodes && b < NumberOfNodes && parents[b] == a && adj[a][b] > 0
    ensures FindEdge(EdgesFrom(adj, 0), a, b) != -1
  {
    var edges := EdgesFrom(adj, 0);
    EdgesFromComplete(adj, 0);
    var lo, hi := Min(a, b), Max(a, b);
    assert lo < hi && adj[lo][hi] > 0;
    assert DefaultEdge(lo, hi, adj[lo][hi]) in edges;
    var k :| 0 <= k < |edges| && edges[k] == DefaultEdge(lo, hi, adj[lo][hi]);
    assert Connects(edges[k], a, b);
  }

  /**
   * On a symmetric matrix, highlighting the route of any node of a
   * shortest-path tree from node 0 over the list of `buildEdges` pushes no
   * new edge: every hop already has one.
   */
  lemma SymmetricRouteAddsNoEdge(adj: Matrix, dist: seq<Distance>, parents: seq<int>, v: nat)
    requires IsShortestPathTree(adj, 0, dist, parents) && v < NumberOfNodes
    requires forall a, b :: 0 <= a < NumberOfNodes && 0 <= b < NumberOfNodes ==> adj[a][b] == adj[b][a]
    ensures AllNodes(ParseHops(BuildPathString(parents, v, dist)))
    ensures |Highlighted(EdgesFrom(adj, 0), adj, 0, ParseHops(BuildPathString(parents, v, dist)))| == |EdgesFrom(adj, 0)|
  {
    var hops := ParseHops(BuildPathString(parents, v, dist));
    var edges := EdgesFrom(adj, 0);
    HighlightFollowsTreePath(adj, dist, parents, v);
    if dist[v].Finite? {
      var nodes := PathNodes(parents, v, dist);
      forall i | 0 <= i < |hops|
        ensures FindEdge(edges, HopFrom(0, hops, i), hops[i]) != -1
      {
        assert parents[nodes[i + 1]] == nodes[i];
        TreeLinkHasEdge(adj, dist, parents, nodes[i], nodes[i + 1]);
      }
    }
    HighlightedKeepsLength(edges, adj, 0, hops);
  }
}
