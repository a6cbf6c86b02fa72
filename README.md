# Directed graphs, walk compression, spanning trees and least-cost paths

A Dafny model of `digraph.py`: the `Digraph` class and the four algorithms
built on it (`spanning_tree`, `compress`, `least_cost_path` and its
unit-cost case `shortest_path`), with proofs of what each promises.

- `GraphSpec` (`graph_spec.dfy`): a graph's two dictionaries `_tosets` /
  `_fromsets` as `map<V, set<V>>`, the representation invariant
  (`w ∈ _tosets[v] ⇔ v ∈ _fromsets[w]`, one shared key set), the values
  `add_vertex` and `add_edge` produce, walks, reachability and walk cost,
  and lemmas about them.
- `Digraphs` (`digraph.dfy`): the `Digraph` class. Its two map fields are
  updated in place by `AddVertex` / `AddEdge`. Each method's `ensures`
  ties the new fields to the `GraphSpec` functions and keeps `Valid()`.
  `NumEdges` and `IsPath` keep the source's loops.
- `WalkCompression` (`compress.dfy`): `compress` as a two-pass method,
  proved equal to a recursive specification `Compressed` whose
  properties are proved as lemmas.
- `LeastCostSearch` (`least_cost_path.dfy`): the uniform-cost search, its
  relaxation loop and the parent-following reconstruction. Ghost maps
  record when and at which cost each vertex was finalised. The result is
  `None` exactly when `dest` is unreachable; otherwise it is a walk with no
  repeated vertex of least cost. `ShortestPath` is the unit-cost case.
- `SpanningTrees` (`spanning_tree.dfy`): the depth-first search with its
  work list of `(vertex, edge)` pairs, building a fresh `Digraph` that is
  an out-tree rooted at `start` over the vertices `start` reaches, or the
  empty graph when `start` reaches no vertex other than itself (no edge is
  then ever added, so `start` is not one of its vertices).
- `Doctests` (`doctests.dfy`): every docstring example of the modelled functions as a
  client method whose `ensures` is the output the docstring shows.
- `Wrappers` (`wrappers.dfy`): `Option`, standing for Python's `None`.

Vertices are values of any type with equality (Python requires immutable,
hashable vertices). Costs are a total function from edges to `nat`. Where
Python picks an element by iteration order (the next member of a set,
the first of several tied minimum costs), the model picks any one with
`:|`, so every proved property holds for every such order.

On an empty list, `is_path` falls off the end of its loop and returns
`None`. The model follows the code and returns `false`. It does not treat
the empty list as a trivial path.

## Model

| member | source | states |
|---|---|---|
| GraphSpec.EdgesOf | digraph.py:87-91 | `(v, w)` is an edge exactly when `w` is in the out-set of `v` |
| GraphSpec.EdgesAmong | digraph.py:105-109 | the edges counted once the loop has passed the vertices `ks`: exactly those with a source in `ks` |
| GraphSpec.WithVertex | digraph.py:59-61 | adding a vertex adds it to the keys, leaves every existing set alone and gives a new vertex the empty set |
| GraphSpec.LinkTo | digraph.py:79-84 | after `add_edge`, both endpoints are keys of `_tosets` |
| GraphSpec.LinkFrom | digraph.py:79-85 | after `add_edge`, both endpoints are keys of `_fromsets` |
| GraphSpec.AddVertexIdempotent | digraph.py:50-61 | adding a vertex twice is the same as adding it once |
| GraphSpec.AddVertexKeepsGraph | digraph.py:50-61 | `add_vertex` keeps the representation invariant and adds no edge |
| GraphSpec.AddEdgeEdges | digraph.py:63-85 | `add_edge(e)` adds exactly `e` to the edge set |
| GraphSpec.LinkToHas | digraph.py:79-84 | after `add_edge(e)`, `w` is an out-neighbour of `v` exactly when it was before or `(v, w)` is `e` |
| GraphSpec.LinkFromHas | digraph.py:79-85 | after `add_edge(e)`, `v` is an in-neighbour of `w` exactly when it was before or `(v, w)` is `e` |
| GraphSpec.AddEdgeConsistent | digraph.py:63-85 | `add_edge` keeps `w ∈ _tosets[v] ⇔ v ∈ _fromsets[w]` with one key set |
| GraphSpec.AddEdgeIdempotent | digraph.py:63-85 | re-adding an edge already present leaves both dictionaries unchanged |
| GraphSpec.FromSetsMirrorEdges | digraph.py:132-144 | under the invariant, the in-sets describe exactly the edge set |
| GraphSpec.OutEdgesCount | digraph.py:105-109 | the edges leaving `v` are as many as its out-neighbours |
| GraphSpec.EdgesAmongStep | digraph.py:105-109 | adding the out-set size of one more vertex counts exactly that vertex's edges |
| GraphSpec.EdgesAmongAll | digraph.py:105-109 | once every vertex is counted, the counted edges are the whole edge set |
| GraphSpec.Listed | digraph.py:39-45 | the edge set of a list of edges holds exactly the listed edges |
| GraphSpec.Endpoints | digraph.py:39-45 | a vertex is an endpoint exactly when some listed edge starts or ends at it |
| GraphSpec.ListedPrefixStep | digraph.py:43-45 | each constructor step adds its edge and the edge's two endpoints |
| GraphSpec.ListedStep | digraph.py:43-45 | listing one more edge adds it and its two endpoints |
| GraphSpec.PathCostSplit | digraph.py:301-320 | the cost of a walk splits at any vertex into the cost up to it and the cost after it |
| GraphSpec.UnitPathCost | digraph.py:251 | with every edge costing 1, a walk costs its number of edges |
| GraphSpec.ConsistentIsClosed | digraph.py:79-85 | every out-neighbour is itself a vertex, since `add_edge` adds both endpoints |
| GraphSpec.ClosedKeepsWalks | digraph.py:322-325 | no walk from a set that no edge leaves ends outside it |
| GraphSpec.ConsWalk | digraph.py:269-273 | an edge into the first vertex of a walk extends the walk at the front |
| GraphSpec.WalkInLargerGraph | digraph.py:220-221 | a walk stays a walk when edges are added |
| GraphSpec.ExtendWalk | digraph.py:220-221 | a walk to `v` followed by an edge `v -> w` is a walk to `w` |
| GraphSpec.VisitShrinks | digraph.py:213-219 | visiting (in `spanning_tree`) or finalising (in `least_cost_path`, digraph.py:301-307) a new vertex leaves fewer unvisited, so both searches terminate |
| Digraphs.Digraph.constructor | digraph.py:39-45 | the new graph is valid, its edges are exactly the listed ones and its vertices their endpoints |
| Digraphs.Digraph.AddVertex | digraph.py:50-61 | both dictionaries gain the vertex with an empty set if it is new, nothing else changes, the edge set is unchanged |
| Digraphs.Digraph.AddEdge | digraph.py:63-85 | the graph stays valid, gains exactly the edge `e` and exactly its two endpoints |
| Digraphs.Digraph.Edges | digraph.py:87-91 | the edges are exactly the pairs `(v, w)` with `w` in the out-set of `v` |
| Digraphs.Digraph.Vertices | digraph.py:93-97 | the vertices are the keys of both dictionaries and include both endpoints of every edge |
| Digraphs.Digraph.NumEdges | digraph.py:105-109 | the loop's sum of out-set sizes equals the number of edges |
| Digraphs.Digraph.NumVertices | digraph.py:111-115 | the count equals the number of vertices |
| Digraphs.Digraph.AdjTo | digraph.py:117-130 | `w` is returned exactly when `(v, w)` is an edge |
| Digraphs.Digraph.AdjFrom | digraph.py:132-144 | `u` is returned exactly when `(u, v)` is an edge |
| Digraphs.Digraph.IsPath | digraph.py:146-173 | true exactly when the list is non-empty and each consecutive pair is an edge (no wrap-around; a single vertex is a path) |
| Digraphs.WrapBelow | digraph.py:164 | below the list's length, `(index + 1) % len(path)` is just `index + 1`, so the loop never wraps to the front |
| WalkCompression.LastIndex | digraph.py:264-267 | the position holds `v` and no later position does |
| WalkCompression.LastPositions | digraph.py:264-267 | the first pass maps exactly the walk's elements, each to the position of its last occurrence |
| WalkCompression.JumpPast | digraph.py:269-273 | the second pass, given each element's last position, yields the compressed walk |
| WalkCompression.Compress | digraph.py:254-275 | the result is the compressed walk: it keeps the first and last element, has no repeats and is a subsequence of the walk |
| WalkCompression.LastIndexUnique | digraph.py:264-267 | a position holding `v` with no `v` after it is the last index of `v` |
| WalkCompression.CompressFromPositions | digraph.py:269-273 | the kept elements come from increasing positions, the first at the starting position |
| WalkCompression.ConsPosition | digraph.py:269-273 | keeping a position in front of later kept positions keeps a subsequence |
| WalkCompression.CompressFromNoRepeats | digraph.py:269-273 | the kept elements never repeat |
| WalkCompression.CompressFromEnds | digraph.py:269-273 | starting inside the walk, the kept elements start there and end with the walk's last element |
| WalkCompression.CompressedProperties | digraph.py:254-275 | `compress` keeps the first and last element, repeats nothing and only drops elements |
| WalkCompression.CompressFromWithoutRepeats | digraph.py:269-273 | from any position, a walk without repeats keeps its whole suffix |
| WalkCompression.CompressedWithoutRepeats | digraph.py:254-261 | a walk without repeats is returned unchanged |
| WalkCompression.CompressFromKeepsWalk | digraph.py:269-273 | consecutive kept elements are consecutive in the walk, so a walk of a graph stays one |
| WalkCompression.CompressedKeepsPath | digraph.py:254-262 | compressing a walk from `s` to `d` gives a walk from `s` to `d`: cycles are removed, the path remains |
| LeastCostSearch.MinimumExists | digraph.py:303 | a non-empty frontier has an entry of least cost |
| LeastCostSearch.MinimumIsCheapest | digraph.py:301-307 | the frontier minimum's cost is no more than that of any walk from `start` to it |
| LeastCostSearch.FinaliseKeepsShape | digraph.py:303-307 | popping the minimum into `visited` keeps the bookkeeping |
| LeastCostSearch.FinaliseKeepsFinalisedLinks | digraph.py:303-307 | the newly finalised vertex hangs off a parent finalised earlier, at that edge's cost |
| LeastCostSearch.LinkedAfterFinalise | digraph.py:303-307 | finalising `cur` keeps each finalised vertex's parent link, and its parent still comes earlier in finalisation order |
| LeastCostSearch.FinaliseKeepsLinks | digraph.py:303-307 | finalising keeps every parent link and frontier cost consistent |
| LeastCostSearch.FinaliseKeepsFrontier | digraph.py:303-310 | after finalising, only the new vertex's out-edges may be missing from the frontier |
| LeastCostSearch.FinaliseKeepsInv | digraph.py:301-310 | one pop of the minimum keeps the search invariant, with the popped vertex's edges pending |
| LeastCostSearch.RelaxSkipKeepsInv | digraph.py:310-317 | skipping a visited neighbour, or one already on the frontier at no more cost, keeps the invariant |
| LeastCostSearch.RelaxUpdateKeepsLinks | digraph.py:317-320 | recording the route through `cur` keeps every parent link consistent |
| LeastCostSearch.RelaxUpdateKeepsFrontier | digraph.py:317-320 | recording the cheaper cost covers the relaxed edge |
| LeastCostSearch.RelaxUpdateKeepsInv | digraph.py:317-320 | a relaxation that updates `todo` and `parent` keeps the invariant |
| LeastCostSearch.ExhaustedMeansUnreachable | digraph.py:322-325 | when the frontier runs out before `dest` is finalised, `dest` is unreachable |
| LeastCostSearch.NoPendingFrontier | digraph.py:310-320 | with no edge pending, the frontier property does not depend on the last vertex finalised |
| LeastCostSearch.RelaxEdge | digraph.py:310-320 | one neighbour `n` handled: if `n` is unfinalised and new to the frontier or strictly cheaper through `cur`, the frontier gets `c + cost((cur, n))` and the parent `cur` for `n` and nothing else changes; otherwise (finalised, or a tie or worse) both maps are unchanged; the invariant holds |
| LeastCostSearch.RelaxedStep | digraph.py:310-320 | relaxing one more neighbour extends the relaxation rule to it |
| LeastCostSearch.RelaxNext | digraph.py:310-320 | one pass of the inner loop moves a neighbour from pending to relaxed and keeps both the search invariant and the relaxation rule |
| LeastCostSearch.RelaxNeighbours | digraph.py:309-320 | after the inner loop, every unfinalised out-neighbour `n` of `cur` that the route through `cur` makes new or strictly cheaper has frontier cost `c + cost((cur, n))` and parent `cur`; every other frontier entry and parent is unchanged; every out-edge of `cur` is covered and the search invariant holds |
| LeastCostSearch.RelaxAll | digraph.py:309-320 | the same loop over the out-set passed in, with the same result |
| LeastCostSearch.Search | digraph.py:294-320 | the search ends with the invariant, and with an empty frontier unless `dest` was finalised |
| LeastCostSearch.StepBack | digraph.py:332-333 | prepending a parent keeps a route of rising finalisation order whose cost adds up to `dest`'s |
| LeastCostSearch.FollowParents | digraph.py:327-336 | the reconstructed list is a walk from `start` to `dest` with no repeats, costing what `dest` was finalised at, and `[start]` when `start == dest` |
| LeastCostSearch.LeastCostPath | digraph.py:278-339 | `None` exactly when `dest` is unreachable; otherwise a repeat-free walk from `start` to `dest` of least cost, `[start]` when `start == dest` |
| LeastCostSearch.Reverse | digraph.py:336 | the reversed list has position `i` holding the element at `n - 1 - i` |
| LeastCostSearch.ShortestPath | digraph.py:230-251 | `None` exactly when `dest` is unreachable; otherwise a repeat-free walk with no more vertices than any walk from `source` to `dest` |
| SpanningTrees.Targets | digraph.py:209-225 | the vertices waiting on the work list |
| SpanningTrees.TargetsAppend | digraph.py:225 | pushing an entry adds its vertex to those waiting |
| SpanningTrees.PopVisitedKeepsInv | digraph.py:214-217 | popping an already visited vertex keeps the work-list invariant |
| SpanningTrees.PopNewKeepsInv | digraph.py:214-219 | visiting a popped new vertex keeps the invariant, with its out-edges pending |
| SpanningTrees.PushKeepsInv | digraph.py:223-225 | pushing an unvisited neighbour, or skipping a visited one, keeps the invariant |
| SpanningTrees.VisitRootKeepsTree | digraph.py:219-221 | visiting the root without an edge keeps the tree property |
| SpanningTrees.LinkKeepsWalks | digraph.py:220-221 | adding a tree edge keeps every vertex reachable that was reachable |
| SpanningTrees.AttachKeepsReachable | digraph.py:220-221 | after attaching `cur` by `(x, cur)`, it and every visited vertex are reachable from `start` in the tree |
| SpanningTrees.AttachKeepsTree | digraph.py:220-221 | attaching a new vertex by the edge that reached it keeps the tree a valid out-tree of graph edges |
| SpanningTrees.AttachKeepsInDegree | digraph.py:220-221 | the new vertex gets exactly one in-neighbour; `start` keeps none |
| SpanningTrees.ExhaustedReachesAll | digraph.py:213 | with the work list empty, every vertex `start` reaches is visited |
| SpanningTrees.PushIfUnvisited | digraph.py:224-225 | pushes `(n, (cur, n))` exactly when `n` is unvisited and keeps the invariant |
| SpanningTrees.PushNeighbours | digraph.py:223-225 | the inner loop only appends: one entry `(n, (cur, n))` for each unvisited out-neighbour `n` of `cur`, in some order, and no other entry |
| SpanningTrees.PushAll | digraph.py:223-225 | the same loop over the out-set passed in, with the same result |
| SpanningTrees.PushNext | digraph.py:224-225 | one pass of the inner loop moves a neighbour from pending to handled and keeps the invariant and what has been appended |
| SpanningTrees.PushedAfterAppend | digraph.py:225 | appending the entry of a neighbour not yet pushed keeps one entry per pushed neighbour |
| SpanningTrees.PushedStep | digraph.py:223-225 | handling one neighbour adds it to those waiting unless it is visited |
| SpanningTrees.NoPendingWork | digraph.py:213-225 | with no edge pending, the invariant does not depend on the last vertex visited |
| SpanningTrees.AttachKeepsEdges | digraph.py:220-221 | adding a graph edge to the tree keeps every tree edge a graph edge |
| SpanningTrees.SpanningTree | digraph.py:204-227 | a fresh valid graph of edges of `G`: each vertex `start` reaches, other than `start`, has exactly one in-neighbour, `start` has none, and all its vertices are reachable from `start` |
| SpanningTrees.Explore | digraph.py:213-225 | on return every vertex `start` reaches is visited and the tree invariant holds over the visited vertices |
| SpanningTrees.TreeSpans | digraph.py:204-227 | once every reachable vertex is visited, the tree is made of graph edges, reaches all its vertices from `start`, gives each reachable vertex but `start` one in-neighbour and `start` none |
| SpanningTrees.Visit | digraph.py:214-225 | visiting a new vertex adds it to `visited`; the tree gains exactly the popped entry's edge (and is unchanged for the root's entry); the popped entry is removed and one entry `(n, (cur, n))` is appended for each unvisited out-neighbour `n`, and nothing else; both the work-list and the tree invariants hold |
| Doctests.EmptyGraph | digraph.py:29 | `Digraph()` has no edges and no vertices |
| Doctests.EmptyGraphExample | digraph.py:29-31 | `(num_vertices(), num_edges())` is `(0, 0)` |
| Doctests.CircularGraph | digraph.py:34 | the circular graph has the three listed edges and vertices 1, 2, 3 |
| Doctests.CircularEdges | digraph.py:34 | the three listed edges have the endpoints 1, 2, 3 |
| Doctests.CircularSizes | digraph.py:34-36 | those sets have three elements each |
| Doctests.CircularGraphExample | digraph.py:34-36 | `(num_vertices(), num_edges())` is `(3, 3)` |
| Doctests.AddVertexExample | digraph.py:54-57 | after `add_vertex(1)`, `vertices() == {1}` |
| Doctests.AddEdgeSizes | digraph.py:67-77 | the docstring's additions leave three edges and four vertices |
| Doctests.AddEdgeExample | digraph.py:67-77 | `num_edges()` is 3 and `num_vertices()` is 4 |
| Doctests.AdjToSets | digraph.py:121-128 | in that graph vertex 3 has no out-neighbours and vertex 1 has 2 and 3 |
| Doctests.AdjToExample | digraph.py:121-128 | `adj_to(3) == set()` and `adj_to(1) == {2, 3}` |
| Doctests.AdjFromSets | digraph.py:136-142 | in that graph vertex 1 has no in-neighbours and vertex 3 has 1 and 2 |
| Doctests.AdjFromExample | digraph.py:136-142 | `adj_from(1) == set()` and `adj_from(3) == {1, 2}` |
| Doctests.IsPathGraph | digraph.py:151 | the graph has exactly the seven listed edges |
| Doctests.IsPathWalks | digraph.py:151-159 | `[1, 5, 2, 4, 5]` follows edges; `[1, 5, 4, 2]` and `[5, 4, 2, 5, 1]` each use a missing edge |
| Doctests.IsPathExample | digraph.py:151-159 | the four `is_path` answers are True, False, True, False |
| Doctests.CompressedDistinct | digraph.py:258-259 | `[1, 2, 3, 4]` compresses to itself |
| Doctests.CompressedCycles | digraph.py:260-261 | `[1, 3, 0, 1, 6, 4, 8, 6, 2]` compresses to `[1, 6, 2]` |
| Doctests.CompressExample | digraph.py:258-261 | `compress` returns `[1, 2, 3, 4]` and `[1, 6, 2]` |
| Doctests.RoadGraph | digraph.py:283 | the graph has exactly the seven listed edges |
| Doctests.OnlyShortRoute | digraph.py:283-286 | `[1, 6, 7]` is a walk, and the only walk from 1 to 7 with at most three vertices |
| Doctests.SplitGraph | digraph.py:289 | the graph has exactly the edges `(1, 2)` and `(5, 4)` |
| Doctests.NoRouteToFive | digraph.py:289-292 | 5 is not reachable from 1 |
| Doctests.ShortestRouteIs | digraph.py:283-286 | any answer meeting the contract of `shortest_path` from 1 to 7 is `[1, 6, 7]` |
| Doctests.LeastCostPathExample | digraph.py:283-288 | the unit-cost path from 1 to 7 is `[1, 6, 7]` and `is_path` accepts it |
| Doctests.NoPathExample | digraph.py:289-292 | there is no path from 1 to 5 |

## Left out

- `server.py` and `readgraph.py` are not part of this model. They hold I/O, sockets, serial ports, logging, threads and floating-point coordinates.
- `Digraph.__repr__` and `Digraph.draw` (digraph.py:47-48, 99-103) format output or call an external drawing module.
- `random_graph` (digraph.py:176-201) depends on random sampling.
- Edge costs are a total function from edges to `nat`. Floating-point and negative costs are not modelled.
- The default `cost` argument of `least_cost_path` is not modelled. `ShortestPath` passes the unit cost explicitly.
- Some functions raise `KeyError` for an absent vertex, and the model makes that vertex's presence a precondition:
  - `adj_to(v)` and `adj_from(v)`: `v`;
  - `is_path(path)`: the first vertex of a list of two or more;
  - `least_cost_path` and `spanning_tree`: `start`, and `shortest_path`: `source`, at the first `adj_to(cur)` call.
- An absent `dest` raises nothing in `least_cost_path` (digraph.py:324-325). The model requires nothing of it and returns `None`, since such a `dest` is unreachable.
- `AdjTo` and `AdjFrom` return the set as a value. In Python they return the graph's own set, so a caller that mutates it changes the graph. That aliasing is not modelled.
- `least_cost_path`'s reconstruction loop tests identity (`is not`). The model tests equality on vertices.
- LeastCostSearch.LeastCostPath: among several least-cost paths it does not determine which one is returned. Python's dictionary order breaks ties; the model takes any minimum.
- SpanningTrees.SpanningTree: it does not state which spanning tree is built. The tree depends on Python's set iteration order, which the model leaves open; the order of edges in the tree is not stated either.
- LeastCostSearch.Reverse: the in-place `path.reverse()` is modelled as a function on sequences.
- `least_cost_path`, `spanning_tree` and `compress` are each one function in Python. The model splits each into methods for its loops and their steps: `Search`, `RelaxNeighbours`, `RelaxAll`, `RelaxNext`, `RelaxEdge` and `FollowParents`; `Explore`, `Visit`, `PushNeighbours`, `PushAll`, `PushNext` and `PushIfUnvisited`; `LastPositions` and `JumpPast`. Together they run the same steps in the same order.
