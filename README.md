# Shortest routes from a meeting point: a verified model

The repository is a small browser demo. It holds a fixed 9-node weighted
graph as an adjacency matrix, where a weight is a travel time in minutes
and 0 means "no edge". `dijkstra` computes the shortest route from node 0
to every other node and appends one record per destination to two
module-level arrays, `paths` and `pathsToShow`. The page then draws the
graph with `buildNodes` and `buildEdges`, and `highlightPath` colours the
route of the selected destination red.

This project models that core in Dafny and proves what it computes:

- `text.dfy` (module `Text`): rendering a node index with `toString`,
  reading a decimal token back with `Number`, splitting at `"->"`, and the
  `"a->b->c"` path text.
- `graph.dfy` (module `Graph`): the matrix, distances with the
  `Number.MAX_VALUE` sentinel as `Infinite`, walks, weights, and the
  independent definition of a shortest distance as the least weight of a
  walk.
- `theory.dfy` (module `ShortestPathTheory`): the relaxation step, the loop
  invariant of the main loop, its preservation, and parent chains.
- `dijkstra.dfy` (module `Dijkstra`): `getMinDistanceIndex` and the main
  loop as methods over arrays, `buildPathString`, and the class
  `SharedResults`, which holds `paths` and `pathsToShow`.
- `network.dfy` (module `Network`): `buildNodes`, `buildEdges` as a nested
  loop, and `highlightPath` as a method of the class `EdgeList`, which
  holds the edge array it changes in place.

The main results:

- `ShortestPathTree` returns true shortest distances. Each finite distance
  is the weight of the walk spelled by the node's parent chain.
- Each `paths` row is that chain as text.
- Parsing the row back in `highlightPath` recovers the chain. Every hop's
  first matching edge ends up red with width 4, and no other old edge
  changes.

A note on the tie-break: when several unvisited nodes share the smallest
distance, the scan in `getMinDistanceIndex` compares with `<=` and
overwrites, so the highest index among them wins, not the lowest one
might expect from a left-to-right scan (`GetMinDistanceIndex`, last
ensures).

## Model

| member | source | states |
|---|---|---|
| Text.NatToString | src/dijkstra.js:38 | `node.toString()` of a natural number is a non-empty string of decimal digits with no leading zero (except "0") |
| Text.ParseDecimalOfNatToString | src/main.js:60 | `Number` applied to the decimal text of `n` gives back `n` |
| Text.NatToStringInjective | src/dijkstra.js:41 | two node indices with the same decimal text are equal |
| Text.Split | src/main.js:58 | `split` always returns at least one piece |
| Text.SplitNoDash | src/main.js:58 | a string without a dash (a single decimal token) splits at `"->"` into just itself |
| Text.SplitTokenThenArrow | src/main.js:58 | a dash-free token, `"->"` and a rest split into that token followed by the pieces of the rest |
| Text.PathTextFront | src/dijkstra.js:41 | building the text by appending `"->" + node` at the back gives the same text as the first node, `"->"`, then the text of the others |
| Text.SplitPathText | src/dijkstra.js:41 | splitting a path text at `"->"` gives exactly one token per node: the decimal text of that node, in order |
| Graph.ShortestIsUnique | src/dijkstra.js:53 | a node has at most one shortest distance, so every correct run reports the same costs |
| Graph.PathSnoc | src/dijkstra.js:83-84 | a walk to `u` followed by a positive edge u→v is a walk to `v` that weighs that edge more |
| ShortestPathTheory.PathNodes | src/dijkstra.js:35-42 | the parent chain of a node ends at the node, starts at a node whose parent is -1, and each element is the parent of the next |
| ShortestPathTheory.SomeUnvisited | src/dijkstra.js:67-69 | while fewer than all nodes are visited, an unvisited node exists for the scan to pick |
| ShortestPathTheory.CountMark | src/dijkstra.js:72 | marking an unvisited node raises the number of visited nodes by exactly one |
| ShortestPathTheory.OneUnvisitedLeft | src/dijkstra.js:67 | once all but one node are visited, any two unvisited nodes are the same node |
| ShortestPathTheory.UnvisitedLowerBound | src/dijkstra.js:69 | the unvisited node with the least distance has a distance no larger than the weight of any walk to any unvisited node (the greedy choice is safe) |
| ShortestPathTheory.RelaxationKeepsFinalised | src/dijkstra.js:77 | relaxation changes neither the distance nor the parent of a visited node |
| ShortestPathTheory.RelaxationLowers | src/dijkstra.js:80-84 | relaxation never raises a distance |
| ShortestPathTheory.StepPreservesInvariant | src/dijkstra.js:67-88 | one round (visit the least unvisited node, then relax its edges) keeps the loop invariant: visited distances are lower bounds, their edges are relaxed, parent links are real edges that realise the distance, parents are visited |
| ShortestPathTheory.ParentChainIsPath | src/dijkstra.js:83-85 | for a reached node the parent chain is a walk from the source whose weight equals the node's distance |
| ShortestPathTheory.FinalLowerBound | src/dijkstra.js:67 | after n-1 rounds every distance is at most the weight of every walk to that node, including the one node never visited |
| ShortestPathTheory.FinalTree | src/dijkstra.js:52-88 | the invariant after n-1 rounds yields a shortest-path tree: each distance is the shortest one (the sentinel exactly when no walk exists) and each parent chain realises its distance |
| Dijkstra.GetMinDistanceIndex | src/dijkstra.js:15-26 | returns -1 exactly when every node is visited; otherwise an unvisited node whose distance is at most every unvisited distance and, on a tie, the highest such index |
| Dijkstra.Relax | src/dijkstra.js:75-87 | each node is updated exactly when it is unvisited, the edge exists, the chosen node is reached and the new total is strictly smaller; it then takes that total and the chosen node as parent, and nothing else changes |
| Dijkstra.VisitClosest | src/dijkstra.js:68-87 | one round returns the node it chose: an unvisited node of least distance, the highest such index on a tie; exactly that node becomes visited; distances and parents become the relaxation from it of the old ones; nodes visited earlier keep their distance and parent; the loop invariant holds and the visited count grows by one |
| Dijkstra.ShortestPathTree | src/dijkstra.js:52-88 | starting from all distances infinite, none visited, all parents -1 and the source at 0, the n-1 rounds produce a shortest-path tree whose parent chains are walks of exactly the reported weights |
| Dijkstra.BuildPathStringSpellsChain | src/dijkstra.js:35-42 | the recursion terminates because parents point to strictly closer nodes, and the string spells the parent chain joined by `"->"` |
| Dijkstra.PathOfNode | src/dijkstra.js:37-38 | a reached node's chain starts at the source; an unreached node's string is its own index |
| Dijkstra.EmittedEntries | src/dijkstra.js:91-101 | nodes 0 .. m-1 emit one record per node other than the source (m-1 records when the source is among them), in ascending node order, each with that node's distance and path string |
| Dijkstra.SharedResults.constructor | src/dijkstra.js:3-5 | both result arrays start empty |
| Dijkstra.SharedResults.EmitResults | src/dijkstra.js:91-101 | appends the records after the earlier ones, to `pathsToShow` as records and to `paths` as one-element rows |
| Dijkstra.SharedResults.Dijkstra | src/dijkstra.js:52-102 | for some shortest-path tree of the matrix, both arrays grow by that tree's records, with earlier runs' records kept in front |
| Network.BuildNodes | src/main.js:14-19 | one node per matrix row, whose id is the row index, captioned "Node i" |
| Network.EdgeKeyInjective | src/main.js:31 | two endpoint pairs with the same `"min-max"` key are the same unordered pair |
| Network.KeyIsFresh | src/main.js:33 | at a cell not yet reached in the row-major scan, the key is not yet in the set |
| Network.PushFresh | src/main.js:33-42 | pushing the edge at (i, j) adds a key that was new and keeps the set equal to the keys of the list |
| Network.ScanRow | src/main.js:29-45 | the inner loop appends exactly the row's edges right of the diagonal and keeps the key set equal to the keys of the list |
| Network.BuildEdges | src/main.js:24-49 | the loops produce the row-by-row concatenation of every row's edges from the column after its diagonal |
| Network.RowEdgesSpec | src/main.js:29-44 | a row contributes exactly one black, width-2 edge per positive weight at or right of the start column, in ascending column order |
| Network.EdgesFromMembers | src/main.js:28-46 | every edge is (a, b) with a < b and a positive weight, and is black with width 2 |
| Network.EdgesFromComplete | src/main.js:28-46 | every positive weight above the diagonal yields an edge |
| Network.EdgesFromOrdered | src/main.js:28-46 | the edges come in strict row-major order |
| Network.BuildEdgesSpec | src/main.js:24-49 | the edges are exactly the pairs i < j with a positive weight, black with width 2 and captioned with the weight, in row-major order |
| Network.BuildEdgesNoDuplicatePairs | src/main.js:26-43 | no two edges share an unordered pair of endpoints |
| Network.EdgesJoinNodes | src/main.js:35-36 | on a square matrix every edge joins two nodes of the node list, found at the index equal to their id |
| Network.FindEdge | src/main.js:68-72 | `findIndex`: -1 exactly when no edge joins the two nodes in either direction; otherwise the first index that does |
| Network.NumbersOf | src/main.js:60 | `.map(Number)` keeps the length and reads each token as a decimal |
| Network.EdgeList.constructor | src/main.js:103 | the list starts as the given edges |
| Network.EdgeList.HighlightPath | src/main.js:56-93 | the new list is the old list with the parsed hops of row `selected - 1`, starting from node 0, marked in turn |
| Network.FindEdgeExtends | src/main.js:68-72 | recolouring and appending keep the first match of a pair where it was; a pair with no match can match only an appended edge |
| Network.MarkHopSpec | src/main.js:67-88 | one hop keeps every old edge in place, at most recoloured, and only at the first match; it grows the list exactly when there was no match; after it, the first match is red with width 4 |
| Network.HighlightedExtends | src/main.js:62-92 | highlighting removes no edge and moves no endpoint; it adds at most one edge per hop, each red with width 4 |
| Network.MarkedStaysMarked | src/main.js:74-77 | a hop whose first match is red with width 4 stays so after later hops |
| Network.MarksStep | src/main.js:64-91 | marking a last hop on a list whose earlier hops are marked leaves all hops marked |
| Network.HighlightedMarksEveryHop | src/main.js:62-92 | afterwards every hop has a first matching edge, and that edge is red with width 4 |
| Network.HighlightedTouchesOnlyFirstMatches | src/main.js:68-77 | an old edge changes only if it was the first match, in the original list, of some hop |
| Network.HighlightedKeepsLength | src/main.js:74-77 | when every hop already has an edge, highlighting only recolours, and the list keeps its length |
| Network.ParseHopsOfPathText | src/main.js:57-60 | parsing a path text gives back its nodes after the first |
| Network.ParseHopsInvertsBuildPathString | src/main.js:57-60 | parsing a string from `buildPathString` gives back the parent chain after its root |
| Network.UnreachableHighlightsNothing | src/main.js:62 | an unreached node's string has no hops, so the list is left unchanged |
| Network.HighlightFollowsTreePath | src/main.js:57-65 | for a destination of a tree rooted at node 0, hop i goes from the i-th to the (i+1)-th node of its parent chain along a matrix edge; an unreached destination gives no hops |
| Network.SelectedRowIsRoute | src/main.js:57 | after one run from node 0, row `selected - 1` of `paths` is the path string of node `selected` |
| Network.TreeLinkHasEdge | src/main.js:68-72 | on a symmetric matrix, a parent link of the tree is joined by some edge of the `buildEdges` list |
| Network.SymmetricRouteAddsNoEdge | src/main.js:78-88 | on a symmetric matrix, highlighting any tree route on the `buildEdges` list pushes no new edge |

## Left out

- Floating point: weights and distances are natural numbers, and `Number.MAX_VALUE` is the separate value `Infinite`. No sum ever reaches the sentinel, so the `!== Number.MAX_VALUE` test in relaxation is `Finite?`.
- Number on tokens that are not decimal (`NaN`, signs, spaces) is not modelled. `ParseDecimal` reads a non-digit as 0. Every string the engine produces is decimal (`ParseHopsInvertsBuildPathString`).
- The DOM, Handsontable, vis-network, `updateNetwork`, `onChangeCallback`, the radio buttons and the HTML of the information box are not modelled. They only display the modelled arrays.
- src/input.js and src/graph-map.js are not part of this model. The matrix is a parameter, and `buildNodes`/`buildEdges` take it instead of reading the imported module value.
- The commented-out handler that removes an edge and re-runs the engine is not modelled.
- `selected` reaches `highlightPath` as a radio value string. It is modelled as a natural number, and the coercion of `selected - 1` is left out.
- Dijkstra.SharedResults.Dijkstra: the source's single function is split into `ShortestPathTree` (lines 52-88, with `VisitClosest` for one round and `Relax` for the inner loop) and `EmitResults` (lines 91-101). The ensures names the tree existentially, because ties between equal-cost routes make the parent array depend on the scan order.
- Dijkstra.BuildPathString: requires a node index in range and parents that point to strictly closer nodes. On a cyclic parent array the source would recurse without end. Every array the engine returns meets this requirement (`ShortestPathTree`).
- Network.Edge: the `label` field is named `caption`, because `label` is a reserved word in Dafny.
- Network.EdgeList.HighlightPath: each pass of the loop applies the function `MarkHop` (find, then recolour or push) to the list. Edge objects are values. The source mutates `edges[edgeIndex].color` on a shared object, and the model replaces the list element instead, so aliasing of edge objects outside the array is not modelled. The list is assigned once, after the loop.
- Network.EdgeList.HighlightPath: requires `1 <= selected <= |paths|`, a non-empty row and every parsed hop below 9. Otherwise the source throws on `paths[selected - 1][0]` or on `adjacencyMatrix[previousNode]`, or writes an `"undefined mins"` caption. Those paths are not modelled. Every row the engine emits meets these requirements (`HighlightFollowsTreePath`, `SelectedRowIsRoute`).
- Network.BuildEdges: the `edgeSet.has` test is modelled as written, and it never fails, because each unordered pair is met once (`PushFresh`).
