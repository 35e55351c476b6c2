# Minimum spanning trees over an insertion-ordered graph

This project models the core of a small Python program that reads a weighted
adjacency matrix and computes a minimum spanning tree with Kruskal's or
Prim's algorithm. The core is the `Graph` class of `src/graph.py`, the
`Edge` record of `src/edge.py`, and the checking and building half of
`parse_graph`. The model follows the code's own form:

- A `Graph` is a Dafny `class`. Its fields are:
  - `vertices`, the vertex ids in insertion order (the keys of the Python `vertices` dict);
  - `keys`, the edge ids in insertion order (the keys of the `edges` dict);
  - `edges`, a map from each key to its `Edge`.
  `add_vertex` and `add_edge` are methods that reassign these fields.
- Python dict insertion is `Common.Touch`: a present key keeps its place and a new key goes last.
- `Edge` is a datatype holding its source, its target and its integer `"WEIGHT"`.
- `find` is a recursive function over the parent list.
- The loops of `kruskal`, `prim`, `get_edges`, `get_adjacent_vertices_by_vertex` and `parse_graph` are `while` loops with invariants.
- The Python lists `parent`, `rank`, `distance` and `set` become `seq` locals that the loops reassign.
- `sys.maxsize` is the constant `Selection.MaxSize` = 2^63 - 1. Weights are unbounded integers compared against it, as in Python.

The specifications the algorithms are proved against:

- **kruskal**
  - `WeightSort.SortByWeight` is a stable sort by weight.
  - `Forests.Greedy` is the rule "scan the edges in order and keep an edge exactly when the kept edges do not yet connect its endpoints". Connectivity is by walks.
  - The union-find lists are proved to keep the invariant "two ids share a root exactly when the kept edges connect them" (`KruskalSteps.Tracks`). That is why the `find` test decides the greedy rule.
  - The result is proved to be the greedy forest of the sorted edge list. The lemmas show that this forest is acyclic, uses only input edges, connects the endpoints of every input edge, and has fewer edges than vertices.
- **prim**
  - A run of the rounds loop is recorded as a ghost trace: the state before each round (`Graphs.Snapshot`: `distance`, `parent`, `set` and the vertices added so far) and the vertex each round chooses. `Graph.PrimStep` states one round:
    - the scan selects the vertex `Selection.Selected` names;
    - that vertex is marked and added;
    - the edges from it are relaxed as `Graph.Relaxed` says.
  - `Graph.PrimRun` states a whole run from the start lists. `Rounds` and `Prim` return their run, so the result is pinned to it.
  - Every state of a run is proved to satisfy `Graph.PrimState` and `Graph.PrimWeights`. These relate the lists to the vertices added so far.
  - The result is proved to have these properties:
    - it starts at `start` and contains vertex 0;
    - its edges are exactly `(parent[v], v)` of the final lists, for every `v` other than `start` that has a parent;
    - every edge carries the weight of the edge undirected `get_edge` finds between its endpoints, and goes from an earlier selected vertex to a later one;
    - every edge is no heavier than the edge `get_edge` finds between its target and any vertex selected earlier;
    - no vertex is the target of two edges, so the result is a forest (`Forests.RankedAcyclic`);
    - every selected vertex other than `start` and 0 has an incoming edge;
    - for a selected and an unselected vertex, the edge `get_edge` finds between them, if any, weighs at least `sys.maxsize`;
    - it has fewer edges than the graph has vertices.

Two behaviours of the code are easy to misread; the model follows the code:

- **kruskal's union.** Textbook union by rank increments a rank only on ties. The code (`src/graph.py:205-210`) increments the surviving root's rank on every union. Ranks still rise strictly along parent links, which is all `find` needs to terminate.
- **prim does not stop at start's component.** The vertex scan starts from `min_index = 0` (`src/graph.py:229-235`). So once the component of `start` is exhausted, the next round selects vertex 0.
  - If vertex 0 lies in another component, it is added without a parent and its component grows from it.
  - An edge of weight `sys.maxsize` or more never relaxes a distance (`src/graph.py:243` needs `distance[v] > weight`). The result therefore covers the vertices reachable from `start` or from vertex 0 through edges lighter than `sys.maxsize`, and no other vertex.
  - `Selection.SelectMin` states the fallback. `Graphs.Graph.Prim` states that vertex 0 is always in the result.

## Model

| member | source | states |
|---|---|---|
| Edges.Edge.Id | src/edge.py:11-12 | An edge's id is the ordered pair (source, target) it was built with. |
| Common.Touch | src/graph.py:58-60 | Inserting into an insertion-ordered dict keeps keys distinct, adds the key and loses none. The old keys keep their places. The list grows by one exactly when the key was absent. |
| Graphs.Graph.constructor | src/graph.py:39-56 | A new graph has no vertices and no edges, and satisfies the dict invariants. |
| Graphs.Graph.AddVertex | src/graph.py:58-60 | An absent id is appended to the vertices. A present id changes nothing. Keys and edges are untouched. |
| Graphs.Graph.Put | src/graph.py:76 | Storing an edge under its id replaces any same-key edge in place, or else appends the key. |
| Graphs.Graph.AddEdge | src/graph.py:65-86 | The edge is stored exactly when both endpoints are vertices, an undirected insert finds no reverse key, and a loop is allowed. Otherwise the graph is unchanged. Undirected and loop-free graphs stay so under undirected, loop-free inserts. |
| Graphs.Graph.GetEdges | src/graph.py:88-92 | Returns the edge keys in insertion order. |
| Graphs.FirstMatch | src/graph.py:101-107 | The position of the first key equal to id, or to its reverse when undirected. No earlier key matches. |
| Graphs.FirstMatchSymmetric | src/graph.py:105-107 | An undirected lookup finds the same position for (u, v) and (v, u). |
| Graphs.Graph.GetEdge | src/graph.py:94-108 | Returns None exactly when no key matches. Otherwise returns the stored edge of a matching key. |
| Graphs.Graph.GetEdgeFirst | src/graph.py:101-107 | The edge found sits at the first matching key in insertion order. |
| Graphs.Graph.GetEdgeSymmetric | src/graph.py:105-107 | Undirected get_edge ignores orientation. |
| Graphs.Graph.GetAdjacentVerticesByVertex | src/graph.py:110-133 | The result is the list built key by key for filter None, "+" or "-", in key order. |
| Graphs.NeighboursAny | src/graph.py:121-125 | With no filter, x is listed exactly when some key joins id and x in either orientation. |
| Graphs.NeighboursOut | src/graph.py:126-128 | With "+", x is listed exactly when (id, x) is a key. |
| Graphs.NeighboursIn | src/graph.py:129-131 | With "-", x is listed exactly when (x, id) is a key. |
| Graphs.NeighboursCount | src/graph.py:119-133 | At most one entry per key. Any other filter gives the empty list. |
| Graphs.Graph.AdjacentIffEdge | src/graph.py:242-244 | v is an unfiltered neighbour of u exactly when undirected get_edge((u, v)) finds an edge. |
| Graphs.Graph.AdjacentInRange | src/graph.py:242 | Each neighbour that prim visits is a valid index into its lists. |
| Graphs.Graph.EdgeList | src/graph.py:196 | `edges.items()`: one edge per key, the edge stored under the i-th key at position i. |
| Graphs.Graph.EdgeListInRange | src/graph.py:196 | Every stored edge joins two ids in 0..n-1 when the ids are the indices. |
| Graphs.Graph.StoredJoinsConnected | src/graph.py:65-86 | A stored key's endpoints are connected by the stored edges. |
| Graphs.Graph.ApartNotStored | src/graph.py:80-86 | No key, in either orientation, joins two ids that the stored edges do not connect. |
| UnionFind.Find | src/graph.py:172-180 | find terminates on valid lists and returns a root, an element that is its own parent. |
| UnionFind.FindReachesRoot | src/graph.py:178-180 | The returned root is reached from i by following parent links. |
| UnionFind.FindInitial | src/graph.py:189-193 | In the initial lists every element is its own root. |
| UnionFind.Link | src/graph.py:205-210 | Hanging a root under another, whose rank grows by one, keeps the lists valid and removes exactly one root. Every element that found the child now finds the new parent. |
| UnionFind.FindAfterLink | src/graph.py:205-210 | The same, for one element. |
| Graphs.Graph.MakeSets | src/graph.py:189-193 | One singleton set of rank 0 per vertex id. |
| KruskalSteps.InitialTracks | src/graph.py:189-193 | The singleton sets agree with connectivity by no edges, with one root per vertex. |
| KruskalSteps.TracksPair | src/graph.py:199-201 | Under the invariant, two ids share a root exactly when the kept edges connect them. |
| KruskalSteps.UnionTracks | src/graph.py:205-210 | A union after keeping an edge between two roots re-establishes the invariant for the longer kept list. |
| KruskalSteps.KeptBound | src/graph.py:197-211 | Since one root always survives, a non-empty graph keeps fewer edges than vertices. |
| Graphs.UnionByRank | src/graph.py:205-210 | Attaches the lower-rank root under the other, or the second under the first on equal ranks. The surviving root's rank grows by one. The invariant holds for the kept list plus the edge, with one root fewer. |
| WeightSort.InsertPermutes | src/graph.py:196 | Insertion adds exactly one element. |
| WeightSort.InsertSorted | src/graph.py:196 | Insertion into a weight-sorted list keeps it sorted. |
| WeightSort.InsertFiltered | src/graph.py:196 | Insertion places x before every element of equal weight. |
| WeightSort.SortByWeight | src/graph.py:196 | The sorted list is a permutation of the input. |
| WeightSort.SortByWeightIsStable | src/graph.py:196 | The sorted list is ordered by weight and is a permutation of the input. Equal-weight edges keep their input order (a stable sort). |
| Forests.GreedyPrefix | src/graph.py:197-210 | One more edge of the scan is kept exactly when the kept edges do not yet connect its endpoints. |
| Forests.GreedyAcyclic | src/graph.py:197-210 | The greedy forest has no cycle: no kept edge joins ids already connected by earlier kept edges. |
| Forests.GreedyKeepsInputEdges | src/graph.py:197-210 | The greedy forest uses only scanned edges, each no more often than the input lists it. |
| Forests.GreedySpans | src/graph.py:197-210 | The greedy forest connects the endpoints of every scanned edge, so it spans each component. |
| Forests.ConnectedAppend | src/graph.py:201-210 | Connectivity after appending an edge, in both directions. |
| Forests.EndpointsMembers | src/graph.py:202-203 | The vertices kruskal adds are exactly the endpoints of the kept edges. |
| Graphs.Graph.Grow | src/graph.py:202-204 | Adding both endpoints and then an edge between unconnected ids stores it as the last edge. The graph stays undirected and loop-free. |
| Graphs.Graph.Consider | src/graph.py:197-210 | One iteration of kruskal's loop keeps the edge exactly when the greedy rule does. It keeps the union-find invariant and the roots-plus-edges count. |
| Graphs.Graph.SortedInRange | src/graph.py:196-200 | Every edge of the sorted list indexes the parent list in range. |
| Graphs.Graph.Scan | src/graph.py:196-211 | Kruskal's loop over a list q builds the greedy forest of q, with vertices in order of first appearance. |
| Graphs.Graph.Kruskal | src/graph.py:182-211 | kruskal returns the greedy forest of the stably sorted edge list: acyclic, spanning each component and with fewer edges than vertices. Its vertices are the endpoints of its edges. |
| Selection.SelectMin | src/graph.py:228-235 | Among unvisited vertices of finite distance, the first one of smallest distance. Vertex 0 when there is none. |
| Graphs.Graph.Relax | src/graph.py:241-246 | Every unvisited vertex whose edge from u is lighter than its distance gets that weight and parent u. Every other vertex is unchanged. |
| Graphs.Graph.RelaxVisit | src/graph.py:242-246 | Handling one more neighbour v extends the relaxation to v. This holds also when v was met before. |
| Graphs.Graph.RelaxDone | src/graph.py:242-246 | Once every listed neighbour of u has been met, every improvable vertex has been relaxed. |
| Graphs.Graph.RelaxSkipsVisited | src/graph.py:243 | Relaxing never changes a visited vertex. |
| Graphs.Graph.RelaxAgain | src/graph.py:241-246 | Relaxing again from an already added vertex changes nothing. |
| Graphs.Graph.RoundAgain | src/graph.py:229-239 | A round that selects an added vertex (the fallback 0) keeps the state. |
| Graphs.Graph.RoundLists | src/graph.py:224-239 | The first round adds start; a round that selects a new vertex adds it and marks it visited. |
| Graphs.Graph.RoundParentLinks | src/graph.py:241-246 | A parent is an added vertex joined by an input edge, present exactly when the distance is finite. |
| Graphs.Graph.RoundParentOrder | src/graph.py:238-246 | No added vertex has a later-added vertex as parent. Each added vertex is start, 0 or has a parent. |
| Graphs.Graph.RoundParents | src/graph.py:238-246 | Both of the above together. |
| Graphs.Graph.RoundFrontier | src/graph.py:238-246 | No edge that `get_edge` finds from an added vertex to an outside vertex is lighter than the outside vertex's distance. Rounds add a vertex until only vertices at infinite distance remain. |
| Graphs.Graph.RoundStep | src/graph.py:227-246 | One whole round keeps the Prim state. |
| Graphs.Graph.Round | src/graph.py:228-246 | One pass of the rounds loop extends the run by exactly one PrimStep: the selected vertex is marked, added to the result graph, and its edges relaxed. The earlier rounds are kept. |
| Graphs.Graph.PrimRunSnoc | src/graph.py:227-246 | A run followed by one more round is a run. |
| Graphs.Graph.Rounds | src/graph.py:219-246 | The rounds loop performs a run of n rounds from the start lists. The lists and the result's vertices are the run's last state. |
| Graphs.Graph.PrimLists0 | src/graph.py:220-225 | The start lists: distance 0 and parent -1 for start, sys.maxsize and None elsewhere, nothing marked. |
| Graphs.Graph.StartState | src/graph.py:220-225 | The start lists satisfy the round invariants at round 0. |
| Graphs.Graph.RunState | src/graph.py:227-246 | Every state of a run satisfies PrimState and PrimWeights. |
| Graphs.Graph.RunStep | src/graph.py:227-246 | Each round of a run keeps PrimState and PrimWeights. |
| Graphs.Graph.RoundWeights | src/graph.py:238-246 | A round keeps PrimWeights: a distance with a parent is that edge's weight, and an added vertex's distance is at most the edge `get_edge` finds to it from any earlier added vertex. |
| Graphs.Graph.FrozenWeights | src/graph.py:238-246 | The same, for a round that adds a new vertex. |
| Graphs.Graph.ParentWeights | src/graph.py:243-246 | Relaxing sets a new parent together with that edge's weight as distance. |
| Graphs.Graph.FrozenLightest | src/graph.py:238-246 | The new vertex's distance was already at most the edge `get_edge` finds to it from any added vertex. It stays so, because marked vertices are never relaxed. |
| Graphs.Graph.RoundsDone | src/graph.py:227-251 | After n rounds no vertex left out has a parent, and vertex 0 has been added. |
| Graphs.Graph.PrimOutcome | src/graph.py:227-252 | After a run of n rounds: start first, vertex 0 added, the parent and weight invariants, no parent outside, and no finite edge leaving. |
| Graphs.Graph.ParentsOrdered | src/graph.py:246-252 | Two added vertices are never each other's parent, nor their own. |
| Graphs.Graph.AttachSkip | src/graph.py:248-251 | start, and a vertex without a parent, add no edge. |
| Graphs.Graph.AttachAdd | src/graph.py:251-252 | Adding (parent[i], i) with its input weight keeps the keys in increasing target order. |
| Graphs.Graph.AttachEdge | src/graph.py:251-252 | add_edge accepts every (parent[i], i) in the final loop. |
| Graphs.Graph.Attach | src/graph.py:248-252 | The final loop adds exactly the edges (parent[i], i), weighted as in the input, in increasing i. |
| Graphs.IncreasingFits | src/graph.py:248-252 | Keys with strictly increasing targets in lo..hi-1 number at most hi - lo. |
| Graphs.IncreasingMisses | src/graph.py:248-252 | At most hi - lo - 1 keys when they also avoid one id in that range. |
| Graphs.IncreasingSnoc | src/graph.py:248-252 | Appending a key with a larger target keeps the targets increasing. |
| Forests.RankedLabels | src/graph.py:246-252 | Edges that rise in rank with distinct targets label each id by a root: connected ids share a label. |
| Forests.RankedAcyclic | src/graph.py:246-252 | Such edges form a forest. |
| Graphs.Graph.ForwardForest | src/graph.py:246-252 | Edges from earlier to later vertices, with increasing targets, form a forest. |
| Graphs.Graph.PrimLightest | src/graph.py:243-252 | Each attached edge is no heavier than the edge `get_edge` finds between its target and any vertex selected earlier. |
| Graphs.Graph.AttachedExactly | src/graph.py:248-252 | After the final loop, the edges are exactly (parent[v], v) for every v other than start that has a parent. |
| Graphs.Graph.AttachedIncoming | src/graph.py:248-252 | Every selected vertex other than start and 0 gets an edge in. |
| Graphs.Graph.Prim | src/graph.py:213-254 | prim performs a run of n rounds, returned as its trace, and its edges are exactly (parent[v], v) of the last state. The result starts at start, contains vertex 0 and holds only selected vertices. Each edge carries the weight of the edge `get_edge` finds between its endpoints, and is no heavier than the edge `get_edge` finds between its target and any earlier selected vertex. Each edge runs from an earlier to a later selected vertex and has a distinct target. Each selected vertex other than start and 0 has an edge in. No edge that `get_edge` finds between a selected and an unselected vertex is lighter than sys.maxsize. It has fewer edges than vertices, and it is a forest. |
| Parsing.AddVertices | src/graph.py:24-25 | The vertex loop adds ids 0..n-1 in order. |
| Parsing.OfferAbove | src/graph.py:31-32 | An entry above the diagonal adds its edge, last in lexicographic order. |
| Parsing.OfferBelow | src/graph.py:31-32 | An entry on or below the diagonal adds nothing. Below it the reverse key is already stored. |
| Parsing.Offer | src/graph.py:29-32 | One add_edge of the matrix loop keeps exactly the pairs read so far that lie above the diagonal. |
| Parsing.AddRow | src/graph.py:29-32 | A whole row keeps its entries above the diagonal. |
| Parsing.ParseGraph | src/graph.py:17-32 | Fails with "Input file is broken." exactly when start is outside 0..n-1 or some row does not have n entries. Otherwise returns start and the undirected, loop-free graph on 0..n-1. It holds one edge (a, b) of weight matrix[a][b] for each a < b, in lexicographic order. |

## Left out

- File reading, `int()` parsing and the `print` calls of `parse_graph` are not modelled. `Parsing.ParseGraph` takes the starting vertex and the matrix of integers that the file would yield.
- `create_graphviz`, the graphviz imports and `mst.py` (the command-line driver) are not modelled. They are output only.
- `Vertex` objects and the `attr` dicts are not modelled: a vertex is its integer id, and an edge carries only its `"WEIGHT"`.
  - An edge built with `attr=None` (an empty dict) is not modelled, because the core never builds one.
  - The graph's own `attr` (the `DIRECTED` flag) is not modelled, because no modelled operation reads it.
- The `vertices` and `edges` arguments of the `Graph(vertices, edges, attr)` constructor are not modelled: no call in the core passes them. `parse_graph` calls `Graph()`, and kruskal and prim pass only `attr={DIRECTED: False}`, which the line above covers.
- `get_vertices` returns the vertex dict itself and is modelled as the field `vertices`.
- Graphs.Graph.Kruskal: minimality of the total weight is not proved. The contract states the greedy construction instead, and the lemmas give acyclicity and spanning. The exchange argument that turns these into optimality is not part of this model.
- Graphs.Graph.Prim: minimality of the total weight is not proved. The contract pins the result to its run of rounds, and states the forest, the lightest-edge property, the frontier property and the edge bound.
- Graphs.Graph.Prim: when the graph is connected and all weights are below sys.maxsize, the result spans every vertex with n-1 edges. This is not proved, because the contract does not count the vertices reached.
- Graphs.Graph.Kruskal: on a connected graph the result has exactly n-1 edges. This is not proved: `KeptBound` gives fewer than n, and `GreedySpans` gives that every input edge's endpoints are connected, but the count is not tied to the number of components.
- Graphs.Graph.Kruskal: requires the vertex ids to be 0..n-1 in insertion order, as the code assumes when it indexes its lists by id. Python's negative indexing and the `IndexError` on other ids are not modelled. `parse_graph` always builds such graphs.
- Graphs.Graph.Prim: on a graph that stores both orientations of a pair, which only directed inserts can produce, every weight property of its contract concerns the key `get_edge` finds first, as prim reads it. The other stored orientation is not constrained.
- Graphs.Graph.Prim: requires the same of the ids, and also `0 <= start < n`, for the same reason.
- `sorted` is modelled as a stable insertion sort. Only its result matters, and the model proves that result is ordered by weight, a permutation and stable.
- The Python lists are modelled as sequences. The in-place updates `parent[v1] = v2` and `distance[v] = ...` become sequence updates assigned back to the same local, so aliasing of these lists is not modelled; no other code holds them.
- The loops of `kruskal` and `prim` are split into helper methods (`MakeSets`, `Scan`, `Consider`, `Grow`, `Rounds`, `PrimLists0`, `Round`, `Relax`, `Attach`, `AttachEdge`; `parse_graph` into `AddVertices`, `AddRow`, `Offer`). Together they perform the same steps in the same order.
