# drawUVsFromUSD — the UV topology engine in Dafny

drawUVsFromUSD reads the UV layout of every mesh in a USD stage and draws it
as an image. The image shows polygons filled according to winding, internal
edges, and the outer border of each UV island. This project models the part
of `main.py` that turns a mesh's UV arrays into that picture's parts, and it
proves what that part computes:

- **UDIM tile formula** (`uv.dfy`, module `Uv`): `get_udim_from_uv`, over
  exact reals. It includes the −1 sentinel. Python's truncating `int` is
  written out explicitly.
- **Winding test** (`winding.dfy`, module `Winding`): `is_front_facing`, an
  accumulation loop proved equal to the closed trapezoid sum. That sum is
  proved to be minus twice the usual shoelace signed area. It is invariant
  under rotation, and reversing the vertex order negates it.
- **Edge keys of a face** (`face_edges.dfy`, module `FaceEdges`):
  `get_uv_edges_from_face`, a loop filling a dict keyed by sorted index pairs.
  The dict's key order is kept as an explicit sequence, as Python remembers
  insertion order.
- **Boundary graph** (`boundary_graph.dfy`, module `BoundaryGraph`):
  - `build_graph`, the defaultdict of neighbour lists with its key order;
  - `traverse_graph`, the explicit-stack depth-first traversal. The node set
    it returns is characterised by reachability through unvisited nodes;
  - `get_paths_from_graph`, one traversal per unvisited key in key order. Its
    paths are proved disjoint, to cover the keys, and to be connected
    components.
- **Per-mesh collection** (`mesh.dfy`, module `MeshBoundary`): the loop in
  `main`. It covers:
  - slicing the faces out of the flat index array with a running offset, with
    Python's clamping of slice bounds;
  - the polygon of each face;
  - counting, for each edge key, the faces that use it;
  - the filter keeping the edges used once;
  - building the graph and extracting the loops.
  A mesh without a UV primvar is `None` and yields nothing.
- **Shared facts** (`seqs.dfy`, module `Seqs`): distinctness, element sets,
  first-occurrence de-duplication (how a dict's key order evolves) and sums.

The imperative functions of main.py are Dafny methods with the same loops, proved
against specification functions:
- `EdgesOfFace` returns `FaceEdgeMap(face, positions)`.
- `BuildGraph` returns `GraphOf(edges)`.
- `CountEdges` returns `Bump(counts, keys)`.
- `CollectFaces` returns the polygons, `Incidence(faces)` and `KeyOrder(faces)`.

Lemmas then prove what those functions mean. An example: the count of an edge
is the number of faces whose edge list contains it (`FacesUsing`), which is
an independent definition.

## Model

| member | source | states |
|---|---|---|
| `Uv.TileOf` | main.py:26-28 | Definition, with no contract of its own: the range guard, then 1001 + 10·int(v) + int(u). `TileOfSentinel`, `TileOfCell` and `TileOfExamples` state what it computes. |
| `Uv.TileOfSentinel` | main.py:26-28 | The tile is −1 exactly when u < 0, u > 10 or v < 0; every other result is at least 1001. |
| `Uv.TileOfCell` | main.py:26-28 | A point of unit cell [col, col+1) × [row, row+1) gets 1001 + 10·row + col when in range, and −1 otherwise. |
| `Uv.TileOfExamples` | main.py:26-28 | (0.5,0.5) → 1001, (1.5,0.5) → 1002, (0.5,1.5) → 1011; u = 10 is accepted; u = 10.5 and u = −0.1 give −1. |
| `Uv.TileOfRightEdgeCollides` | main.py:26-28 | As written, (10, 0.5) and (0.5, 1.5) both get tile 1011. |
| `Uv.ClampedTileAgrees` | main.py:26-28 | The clamped formula accepts exactly what the code accepts and differs from it only at u = 10, where it gives column 9 of the same row (one less than the code's tile). |
| `Uv.ClampedTileDecodes` | main.py:26-28 | Over the whole closed range u in [0, 10], a clamped tile decodes back to its cell: (t − 1001) % 10 is the column whose closed interval holds u, and (t − 1001) / 10 = ⌊v⌋. |
| `Uv.ClampedTileInjective` | main.py:26-28 | With the clamped formula, two accepted points share a tile exactly when they share a column and a row. |
| `Uv.HalfOpenTileDecodes` | main.py:26-28 | Alternative fix: with u restricted to [0, 10), a tile decodes back to its cell: (t − 1001) % 10 = ⌊u⌋ and (t − 1001) / 10 = ⌊v⌋. |
| `Uv.HalfOpenTileInjective` | main.py:26-28 | Alternative fix: with u restricted to [0, 10), two points share a tile exactly when they share a unit cell. |
| `Winding.IsFrontFacing` | main.py:50-65 | The loop returns true exactly when the trapezoid sum over consecutive vertex pairs, wrap pair included, is negative. |
| `Winding.TrapezoidAntisymmetric` | main.py:64 | Swapping an edge's end points negates its term. |
| `Winding.ChainSumAppend` | main.py:61-64 | One more vertex adds the term of the new last edge. |
| `Winding.RotateOnce` | main.py:60-64 | Moving the first vertex to the end keeps the sum. |
| `Winding.RotationInvariant` | main.py:60-64 | Every cyclic rotation of the vertex list keeps the sum, so the test does not depend on the starting vertex. |
| `Winding.ChainSumReverse` | main.py:60-64 | An open chain walked backwards has the negated sum. |
| `Winding.ReversalNegates` | main.py:60-64 | Reversing the vertex list negates the sum. |
| `Winding.ReversalFlips` | main.py:60-65 | When the sum is non-zero, reversing the vertex list flips the result. |
| `Winding.TrapezoidIsNegatedShoelace` | main.py:60-65 | The sum is minus twice the signed area, so front-facing means counter-clockwise in UV space. |
| `Winding.DegenerateIsBackFacing` | main.py:60-65 | An empty list, or a list of one or two vertices, has sum 0 and is not front-facing. |
| `Winding.UnitSquareIsFrontFacing` | main.py:60-65 | The counter-clockwise unit square has sum −2, so it is front-facing. |
| `Seqs.AddNew` | main.py:47 | The key order after assigning keys one by one lists each key once, holds exactly the earlier and the assigned keys, and keeps the earlier keys as its prefix. |
| `Seqs.AddNewIsFirstOccurrence` | main.py:47 | The key order equals the earlier keys followed by the new keys in order of first assignment, read front to back, each kept only when neither earlier nor already present. |
| `FaceEdges.Canonical` | main.py:44-46 | The key is sorted, and it is the pair itself or the pair swapped. |
| `FaceEdges.CanonicalIdentifiesPairs` | main.py:44-46 | Two pairs get the same key exactly when they are the same unordered pair. |
| `FaceEdges.NextIsMod` | main.py:44 | The vertex after i is `(i + 1) % len(face)`. |
| `FaceEdges.FaceEdgeList` | main.py:43-46 | Definition, with no contract of its own: the keys the loop assigns, one per vertex, in vertex order. `FaceEdgeKeys`, `DistinctFaceEdges` and `FaceEdgeMapFacts` state its properties. |
| `FaceEdges.EndsByKey` | main.py:47 | The dict holds exactly the assigned keys, each mapped to the positions of its end points. |
| `FaceEdges.EdgesOfFace` | main.py:30-48 | The loop builds exactly the face's edge dict, and its key order is the first-occurrence order of the face's edge keys. |
| `FaceEdges.FaceEdgeMapFacts` | main.py:42-48 | Each key is sorted and comes from consecutive vertices, wrap pair included, and every such pair is a key. Values are the end-point positions. There are at most len(face) keys, and exactly len(face) for ≥ 3 distinct indices. |
| `FaceEdges.FaceEdgeKeys` | main.py:43-46 | The set of edge keys of a face: each key is sorted and comes from a vertex; there are at most len(face) keys, and exactly len(face) for ≥ 3 distinct indices. |
| `FaceEdges.DistinctFaceEdges` | main.py:43-46 | No two edges of a face with ≥ 3 distinct indices share a key. |
| `BoundaryGraph.BuildGraph` | main.py:67-81 | The loop builds `GraphOf(edges)`: both directions of every edge are appended in order, and new keys are recorded in insertion order. |
| `BoundaryGraph.Neighbours` | main.py:103 | Definition, with no contract of its own: reading `graph[node]` gives the node's list, or the empty list for a node that is not a key. `Traverse` is stated in terms of it. |
| `BoundaryGraph.AppendNeighbours` | main.py:79-80 | `graph[k].append(x)` adds exactly x to k's neighbours. |
| `BoundaryGraph.AppendValid` | main.py:79-80 | After an append, the key order still lists every key once, k included. |
| `BoundaryGraph.GraphOfKeys` | main.py:77-81 | The keys are exactly the end points of the edges, each listed once in the key order. |
| `BoundaryGraph.GraphOfNeighbours` | main.py:78-80 | b is a neighbour of a exactly when (a, b) or (b, a) is an input edge. |
| `BoundaryGraph.GraphOfNonEmpty` | main.py:78-80 | Every key has a non-empty neighbour list. |
| `BoundaryGraph.GraphOfClosed` | main.py:78-80 | Every neighbour is a key. |
| `BoundaryGraph.GraphOfSymmetric` | main.py:78-80 | If b is a neighbour of a, then a is a neighbour of b. |
| `BoundaryGraph.GraphOfDegree` | main.py:78-80 | The neighbour lists have total length 2 · len(edges). |
| `BoundaryGraph.Traverse` | main.py:83-104 | For the returned path: no repeats; none of its nodes visited on entry; visited on exit is the entry set plus the path. The path is empty if current was visited, and starts with current otherwise. Its nodes are exactly those reachable from current through unvisited nodes, and every neighbour of a path node is visited on exit. |
| `BoundaryGraph.TraversalComplete` | main.py:98-103 | A node set that holds the start and is closed under stepping to unvisited neighbours holds every node reachable that way. |
| `BoundaryGraph.ReachAroundClosed` | main.py:118-120 | In a symmetric graph, a start outside a closed visited set reaches through unvisited nodes exactly what it reaches unrestricted. |
| `BoundaryGraph.ComponentAppend` | main.py:118-120 | One traversal from an unvisited key keeps the visited set closed. In a symmetric graph its path is a connected component. |
| `BoundaryGraph.GetPaths` | main.py:106-121 | The paths are non-empty, duplicate-free and pairwise disjoint, and together they hold exactly the keys. In a symmetric graph each path is closed under adjacency and is the connected component of its first node. |
| `MeshBoundary.Slice` | main.py:185 | `s[a:b]` has min(b, len) − min(a, len) elements. |
| `MeshBoundary.FaceAt` | main.py:185 | Definition, with no contract of its own: face i is `indices[index:index + count]`, where `index` is the sum of the earlier counts. |
| `MeshBoundary.Faces` | main.py:184-185 | Definition, with no contract of its own: the faces in order, one per count. `FacesPrefix`, `FacesTile` and `CollectFaces` state their properties. |
| `MeshBoundary.Polygon` | main.py:187 | One position per index of the face; the list comprehension maps each index to its position. `CollectFaces` states that polygon i is the polygon of face i. |
| `MeshBoundary.FacesPrefix` | main.py:183-191 | When the counts do not run past the index array, the first k faces laid end to end are the first `Sum(counts[..k])` indices. |
| `MeshBoundary.FacesTile` | main.py:183-191 | When the counts sum to the array's length, face i has exactly counts[i] indices, and the faces laid end to end give back the index array. |
| `MeshBoundary.BumpCounts` | main.py:189-190 | Counting distinct keys adds one to each of their counts, changes no other count, and adds them to the keys. |
| `MeshBoundary.CountEdges` | main.py:189-190 | The inner loop leaves the counts and the key order of counting the face's keys in order. |
| `MeshBoundary.IncidenceCounts` | main.py:184-191 | The count of every edge is the number of faces whose edge list contains it. The counted keys are the order's elements, each listed once. |
| `MeshBoundary.UsedIsCounted` | main.py:184-191 | An edge is a key of the counts exactly when some face uses it. |
| `MeshBoundary.CountedEdges` | main.py:184-191 | Every counted edge has count ≥ 1, and the counted edges are those some face uses. |
| `MeshBoundary.Once` | main.py:193 | Definition, with no contract of its own: the keys, in key order, whose count is 1. `OnceMembers` and `BoundaryExactlyOnce` state what it keeps. |
| `MeshBoundary.OnceMembers` | main.py:193 | The filter keeps exactly the keys whose count is 1, without repeats when the keys have none. |
| `MeshBoundary.BoundaryExactlyOnce` | main.py:184-193 | The boundary list holds, once each, exactly the edges used by exactly one face. |
| `MeshBoundary.CollectFaces` | main.py:183-191 | The final index is the sum of the counts, and there is one polygon per face holding its positions. The counts and key order are those of all the faces' edge dicts. |
| `MeshBoundary.ProcessMesh` | main.py:173-195 | Without UVs there are no polygons and no paths. Otherwise there is one polygon per face. The paths are disjoint, cover exactly the end points of the edges used once, and are the connected components of the boundary graph. |
| `MeshBoundary.NoPathsWithoutNodes` | main.py:116-121 | Disjoint paths cover no nodes exactly when there are none. |
| `MeshBoundary.OneFaceBoundary` | main.py:189-193 | In a mesh of one face, every edge of the face is a boundary edge and no other edge is. |
| `MeshBoundary.PolygonEndpoints` | main.py:43-46 | The end points of a face's edges are exactly its indices. |
| `MeshBoundary.PolygonGraph` | main.py:78-80 | The graph of a face's edges has the face's indices as keys, and each of them reaches the first index. |
| `MeshBoundary.OneComponent` | main.py:116-121 | Components covering a set in which every node reaches one node x are a single path holding all of the set. |
| `MeshBoundary.PolygonLoop` | main.py:116-121 | When the boundary edges are exactly the edges of one non-empty polygon, the paths are a single loop through the polygon's indices. |
| `MeshBoundary.SingleFaceIsOneLoop` | main.py:183-195 | For a mesh of one face of N ≥ 1 vertices, the per-mesh step yields exactly one loop, with the face's indices as nodes. |
| `MeshBoundary.TwoTriangles` | main.py:183-193 | The faces [a,b,c] and [c,b,d] (a < b < c < d) count the shared edge (b,c) twice and the four outer edges once; the boundary is those four. |
| `MeshBoundary.TwoTrianglesBoundaryIsQuad` | main.py:183-193 | The boundary edges of the two triangles are exactly the edges of the quad a → b → d → c. |
| `MeshBoundary.TwoTrianglesIsOneLoop` | main.py:183-195 | For the two triangles, the per-mesh step yields exactly one loop, holding the four nodes a, b, c and d. |

## Left out

- Reading the USD stage (`Usd.Stage.Open`, `Traverse`, `GetPrimvar`, `GetIndices`, `GetFaceVertexCountsAttr`, main.py:164-181): these are calls into a foreign library. The three arrays they yield are inputs, and a missing UV primvar is `None`.
- MeshBoundary.ProcessMesh: requires every UV index to be a valid non-negative position index. Python would read a negative index from the end of the list and raise on one too large; USD data does not have either.
- Drawing with Skia, surface creation and saving the image (`draw_polygon`, `draw_border_edges`, main.py:123-157, 167-169, 196-204): these are rasterizer calls and file output.
- `settings.py` and `test.py`: they only parse command-line settings and define paint styles.
- Per-UDIM tile bucketing of polygons and loops: the code does not do it. It draws everything to one canvas and never calls `get_udim_from_uv`; only that tile formula is modelled.
- IEEE floating point: coordinates and the trapezoid sum are exact reals, so rounding is not modelled.
- The geometric order of a loop: the model computes the same visit order as the depth-first traversal, but its contracts only speak of node sets. For nodes of degree above 2 the visit order need not be a drawable cycle.
- BoundaryGraph.Traverse: reading `graph[node]` for a node that is not a key returns the empty list. The key that the Python defaultdict inserts as a side effect is not modelled. The caller's `visited` set, which main.py:95-104 mutates in place, is passed in and returned instead.
- BoundaryGraph.GetPaths: requires every neighbour to be a key. Otherwise the traversal's defaultdict insertion would change the dict during the iteration over its keys, which Python rejects. Every graph `build_graph` returns meets this (`GraphOfClosed`). The component property is stated for symmetric graphs, which are again all that `build_graph` returns (`GraphOfSymmetric`).
- The edge dict's values (the end-point positions) are built by `EdgesOfFace` but unused by the count, as in main.py:186-190. `uv_edges` is created with a `dict` default factory, but every read is either `.get(edge, 0)` (main.py:190) or a subscript of a key that is present (main.py:193), so the default factory never runs and it is a plain map from edge to count.

## Findings

| source | as written | input that shows it | evidently intended | confidence | as-written member | corrected member |
|---|---|---|---|---|---|---|
| main.py:26-28 | The guard `u > 10` accepts u = 10. `int(10.0)` is column 10, which the formula folds into column 0 of the next row. | (10.0, 0.5) and (0.5, 1.5) both give tile 1011 | A tile number should name one unit cell, and the closed range u in [0, 10] leaves column 10 without a tile of its own. Two fixes keep one tile per cell: clamp the column to 9, `1001 + 10·int(v) + min(int(u), 9)`, which keeps u = 10 accepted; or reject u = 10 (`u >= 10`). The clamped one is the correction modelled here | medium, not executed | `Uv.TileOfRightEdgeCollides` | `Uv.ClampedTileInjective` |
