/**
 * The per-mesh collection loop: the faces are sliced out of the flat UV
 * index array, each face gives its polygon and its edge dict, the faces
 * using each edge are counted, the edges used by exactly one face form the
 * boundary, and the boundary graph is split into loops.
 */
module MeshBoundary {
  import opened Seqs
  import opened Uv
  import opened FaceEdges
  import opened BoundaryGraph

  datatype Option<T> = None | Some(value: T)

  /** The UV data of one mesh: the vertex count of each face, the flat per-face-vertex UV index array and the UV positions. */
  datatype MeshUVs = MeshUVs(faceVertexCounts: seq<nat>, uvIndices: seq<int>, uvPositions: seq<UV>)

  /** Every UV index names a UV position. */
  predicate IndicesInRange(indices: seq<int>, positions: seq<UV>) {
    forall x :: x in indices ==> 0 <= x < |positions|
  }

  function Min(a: int, b: int): int {
    if a <= b then a else b
  }

  /** Python's `s[a:b]` for 0 <= a <= b: both bounds are clamped to the length of s. */
  function Slice<T>(s: seq<T>, a: nat, b: nat): (r: seq<T>)
    requires a <= b
    ensures |r| == Min(b, |s|) - Min(a, |s|)
  {
    s[Min(a, |s|)..Min(b, |s|)]
  }

  /** A slice holds only elements of the sequence it is cut from. */
  lemma SliceElems<T>(s: seq<T>, a: nat, b: nat)
    requires a <= b
    ensures forall x :: x in Slice(s, a, b) ==> x in s
  {
  }

  /** Face i: the slice of `counts[i]` indices that starts at the sum of the earlier counts. */
  function FaceAt(counts: seq<nat>, indices: seq<int>, i: nat): seq<int>
    requires i < |counts|
  {
    Slice(indices, Sum(counts[..i]), Sum(counts[..i]) + counts[i])
  }

  /** The faces of the mesh, in order. */
  function Faces(counts: seq<nat>, indices: seq<int>): seq<seq<int>> {
    seq(|counts|, i requires 0 <= i < |counts| => FaceAt(counts, indices, i))
  }

  /** The UV positions of a face's vertices, in order. */
  function Polygon(face: seq<int>, positions: seq<UV>): (p: seq<UV>)
    requires IndicesInRange(face, positions)
    ensures |p| == |face|
  {
    seq(|face|, k requires 0 <= k < |face| => assert face[k] in face; positions[face[k]])
  }

  /** The keys of a face's edge dict, in its key order. */
  function FaceKeys(face: seq<int>): seq<Edge> {
    Dedup(FaceEdgeList(face))
  }

  /** `counts.get(e, 0)`. */
  function Get(counts: map<Edge, int>, e: Edge): int {
    if e in counts then counts[e] else 0
  }

  /** The counts after `counts[e] = counts.get(e, 0) + 1` for each key e of `keys` in turn. */
  function Bump(counts: map<Edge, int>, keys: seq<Edge>): map<Edge, int> {
    if keys == [] then counts
    else
      var prev := Bump(counts, keys[..|keys| - 1]);
      prev[keys[|keys| - 1] := Get(prev, keys[|keys| - 1]) + 1]
  }

  /** The edge counts the collection loop has built after the faces `faces`. */
  function Incidence(faces: seq<seq<int>>): map<Edge, int> {
    if faces == [] then map[] else Bump(Incidence(faces[..|faces| - 1]), FaceKeys(faces[|faces| - 1]))
  }

  /** The key order of the count dict after the faces `faces`: each edge where it was first counted. */
  function KeyOrder(faces: seq<seq<int>>): seq<Edge> {
    if faces == [] then [] else AddNew(KeyOrder(faces[..|faces| - 1]), FaceKeys(faces[|faces| - 1]))
  }

  /** The number of faces among `faces` that have e as one of their edges. */
  function FacesUsing(faces: seq<seq<int>>, e: Edge): nat {
    if faces == [] then 0
    else FacesUsing(faces[..|faces| - 1], e) + if e in FaceEdgeList(faces[|faces| - 1]) then 1 else 0
  }

  /** The keys of `order`, in order, whose count is 1. */
  function Once(order: seq<Edge>, counts: map<Edge, int>): seq<Edge> {
    if order == [] then []
    else Once(order[..|order| - 1], counts) + if Get(counts, order[|order| - 1]) == 1 then [order[|order| - 1]] else []
  }

  /** The boundary edge list: the counted edges, in key order, that exactly one face uses. */
  function BoundaryEdges(faces: seq<seq<int>>): seq<Edge> {
    Once(KeyOrder(faces), Incidence(faces))
  }

  /** The boundary edge list of an optional mesh; a mesh without UVs has none. */
  function MeshBoundaryEdges(mesh: Option<MeshUVs>): seq<Edge> {
    match mesh
    case None => []
    case Some(m) => BoundaryEdges(Faces(m.faceVertexCounts, m.uvIndices))
  }

  /** Bumping the distinct keys adds one to the count of each of them and leaves the other counts alone. */
  lemma {:induction false} BumpCounts(counts: map<Edge, int>, keys: seq<Edge>)
    requires NoDuplicates(keys)
    ensures forall e :: Get(Bump(counts, keys), e) == Get(counts, e) + if e in keys then 1 else 0
    ensures Bump(counts, keys).Keys == counts.Keys + Elems(keys)
  {
    if keys != [] {
      var init, last := keys[..|keys| - 1], keys[|keys| - 1];
      assert keys == init + [last];
      assert NoDuplicates(init);
      assert last !in init;
      AppendOne(init, last);
      BumpCounts(counts, init);
    }
  }

  /**
   * The count of an edge is the number of faces that use it, the counted
   * edges are the edges of the faces, and the key order lists each of them
   * once.
   */
  lemma {:induction false} IncidenceCounts(faces: seq<seq<int>>)
    ensures forall e :: Get(Incidence(faces), e) == FacesUsing(faces, e)
    ensures Incidence(faces).Keys == Elems(KeyOrder(faces))
    ensures NoDuplicates(KeyOrder(faces))
  {
    if faces != [] {
      var init, last := faces[..|faces| - 1], faces[|faces| - 1];
      IncidenceCounts(init);
      var keys := FaceKeys(last);
      BumpCounts(Incidence(init), keys);
      assert forall e :: e in keys <==> e in FaceEdgeList(last) by {
        assert Elems(keys) == Elems(FaceEdgeList(last));
      }
    }
  }

  /** An edge is counted exactly when some face uses it, and then its count is at least 1. */
  lemma CountedEdges(faces: seq<seq<int>>)
    ensures forall e :: e in Incidence(faces) <==> FacesUsing(faces, e) >= 1
    ensures forall e :: e in Incidence(faces) ==> Incidence(faces)[e] >= 1
  {
    IncidenceCounts(faces);
    forall e | e in Incidence(faces)
      ensures Incidence(faces)[e] >= 1
    {
      assert Get(Incidence(faces), e) == FacesUsing(faces, e);
      UsedIsCounted(faces, e);
    }
  }

  /** A counted edge is used by some face. */
  lemma {:induction false} UsedIsCounted(faces: seq<seq<int>>, e: Edge)
    ensures e in Incidence(faces) <==> FacesUsing(faces, e) >= 1
  {
    IncidenceCounts(faces);
    if faces != [] {
      var init, last := faces[..|faces| - 1], faces[|faces| - 1];
      UsedIsCounted(init, e);
      IncidenceCounts(init);
      BumpCounts(Incidence(init), FaceKeys(last));
      assert Elems(FaceKeys(last)) == Elems(FaceEdgeList(last));
      assert e in FaceKeys(last) <==> e in FaceEdgeList(last);
    }
  }

  /** Once keeps exactly the keys of `order` whose count is 1, each once when `order` has no repeats. */
  lemma {:induction false} OnceMembers(order: seq<Edge>, counts: map<Edge, int>)
    ensures forall e :: e in Once(order, counts) <==> e in order && Get(counts, e) == 1
    ensures NoDuplicates(order) ==> NoDuplicates(Once(order, counts))
  {
    if order != [] {
      var init, last := order[..|order| - 1], order[|order| - 1];
      assert order == init + [last];
      OnceMembers(init, counts);
      AppendOne(init, last);
      if NoDuplicates(order) {
        assert NoDuplicates(init);
        assert last !in init;
        AppendOne(Once(init, counts), last);
      }
    }
  }

  /** The boundary list holds, once each, exactly the edges that exactly one face uses. */
  lemma BoundaryExactlyOnce(faces: seq<seq<int>>)
    ensures forall e :: e in BoundaryEdges(faces) <==> FacesUsing(faces, e) == 1
    ensures NoDuplicates(BoundaryEdges(faces))
  {
    IncidenceCounts(faces);
    OnceMembers(KeyOrder(faces), Incidence(faces));
    forall e | FacesUsing(faces, e) == 1
      ensures e in KeyOrder(faces)
    {
      UsedIsCounted(faces, e);
      assert e in Elems(KeyOrder(faces));
    }
  }

  /**
   * The inner loop of the collection: for each key of a face's edge dict, in
   * its key order, `uv_edges[edge] = uv_edges.get(edge, 0) + 1`. The count
   * dict is `counts` with key order `order`.
   */
  method CountEdges(counts: map<Edge, int>, order: seq<Edge>, keys: seq<Edge>) returns (counts': map<Edge, int>, order': seq<Edge>)
    requires Elems(order) == counts.Keys
    ensures counts' == Bump(counts, keys)
    ensures order' == AddNew(order, keys)
  {
    counts', order' := counts, order;
    for j := 0 to |keys|
      invariant CountInv(counts, order, keys, j, counts', order')
    {
      var edge := keys[j];
      var c, o := counts', order';
      if edge !in counts' {
        order' := order' + [edge];
      }
      counts' := counts'[edge := Get(counts', edge) + 1];
      CountStep(counts, order, keys, j, c, o, counts', order');
    }
    CountDone(counts, order, keys, counts', order');
  }

  /** The inner loop's invariant after j keys: the counts and key order are those of keys[..j], and the order lists the keys. */
  ghost predicate CountInv(counts0: map<Edge, int>, order0: seq<Edge>, keys: seq<Edge>, j: nat, counts: map<Edge, int>, order: seq<Edge>) {
    j <= |keys| && counts == Bump(counts0, keys[..j]) && order == AddNew(order0, keys[..j]) && Elems(order) == counts.Keys
  }

  /** Counting key keys[j] keeps the inner loop's invariant. */
  lemma CountStep(counts0: map<Edge, int>, order0: seq<Edge>, keys: seq<Edge>, j: nat,
                  counts: map<Edge, int>, order: seq<Edge>, counts': map<Edge, int>, order': seq<Edge>)
    requires j < |keys| && CountInv(counts0, order0, keys, j, counts, order)
    requires counts' == counts[keys[j] := Get(counts, keys[j]) + 1]
    requires order' == if keys[j] in counts then order else order + [keys[j]]
    ensures CountInv(counts0, order0, keys, j + 1, counts', order')
  {
    BumpPrefix(counts0, keys, j);
    AddNewPrefix(order0, keys, j);
    assert (keys[j] in order) == (keys[j] in counts) by {
      assert keys[j] in order <==> keys[j] in Elems(order);
    }
    AppendOne(order, keys[j]);
  }

  /** Bumping one more key of a list is one more update. */
  lemma BumpPrefix(counts: map<Edge, int>, keys: seq<Edge>, j: nat)
    requires j < |keys|
    ensures Bump(counts, keys[..j + 1]) == Bump(counts, keys[..j])[keys[j] := Get(Bump(counts, keys[..j]), keys[j]) + 1]
  {
    assert keys[..j + 1][..j] == keys[..j];
  }

  /** After the last key the invariant is the postcondition of the inner loop. */
  lemma CountDone(counts0: map<Edge, int>, order0: seq<Edge>, keys: seq<Edge>, counts: map<Edge, int>, order: seq<Edge>)
    requires CountInv(counts0, order0, keys, |keys|, counts, order)
    ensures counts == Bump(counts0, keys) && order == AddNew(order0, keys)
  {
    assert keys[..|keys|] == keys;
  }

  /**
   * The collection loop of one mesh: face i is the slice of `counts[i]`
   * indices at the running index; its polygon is the list of its positions,
   * and each key of its edge dict is counted once. The result is the
   * polygons, the count dict with its key order, and the final index.
   */
  method CollectFaces(counts: seq<nat>, indices: seq<int>, positions: seq<UV>)
    returns (polygons: seq<seq<UV>>, uvEdges: map<Edge, int>, edgeOrder: seq<Edge>, index: nat)
    requires IndicesInRange(indices, positions)
    ensures index == Sum(counts)
    ensures |polygons| == |counts|
    ensures forall i :: 0 <= i < |counts| ==> IndicesInRange(Faces(counts, indices)[i], positions)
    ensures forall i :: 0 <= i < |counts| ==> polygons[i] == Polygon(Faces(counts, indices)[i], positions)
    ensures uvEdges == Incidence(Faces(counts, indices))
    ensures edgeOrder == KeyOrder(Faces(counts, indices))
  {
    FacesInRange(counts, indices, positions);
    polygons, uvEdges, edgeOrder, index := [], map[], [], 0;
    for i := 0 to |counts|
      invariant CollectInv(counts, indices, positions, i, polygons, uvEdges, edgeOrder, index)
    {
      var count := counts[i];
      var faceUvs := Slice(indices, index, index + count);
      ghost var face := Faces(counts, indices)[i];
      assert faceUvs == face;
      InRangeAt(faceUvs, positions);
      var edges, order := EdgesOfFace(faceUvs, positions);
      var polygon := Polygon(faceUvs, positions);
      IncidenceCounts(Faces(counts, indices)[..i]);
      var uvEdges', edgeOrder' := CountEdges(uvEdges, edgeOrder, order);
      CollectStep(counts, indices, positions, i, polygons, uvEdges, edgeOrder, index, polygon, uvEdges', edgeOrder');
      polygons := polygons + [polygon];
      uvEdges, edgeOrder := uvEdges', edgeOrder';
      index := index + count;
    }
    CollectDone(counts, Faces(counts, indices), uvEdges, edgeOrder, index);
  }

  /** Every face of a mesh whose indices are in range has its indices in range. */
  lemma FacesInRange(counts: seq<nat>, indices: seq<int>, positions: seq<UV>)
    requires IndicesInRange(indices, positions)
    ensures forall i :: 0 <= i < |counts| ==> IndicesInRange(Faces(counts, indices)[i], positions)
  {
    forall i | 0 <= i < |counts|
      ensures IndicesInRange(Faces(counts, indices)[i], positions)
    {
      SliceElems(indices, Sum(counts[..i]), Sum(counts[..i]) + counts[i]);
    }
  }

  /** The range fact in the index form the edge collection of a face asks for. */
  lemma InRangeAt(face: seq<int>, positions: seq<UV>)
    requires IndicesInRange(face, positions)
    ensures forall k :: 0 <= k < |face| ==> 0 <= face[k] < |positions|
  {
    assert forall k :: 0 <= k < |face| ==> face[k] in face;
  }

  /**
   * The loop invariant of the collection after i faces: the running index is
   * the sum of their counts, there is one polygon per face, and the count
   * dict and its key order are those of the first i faces.
   */
  ghost predicate CollectInv(counts: seq<nat>, indices: seq<int>, positions: seq<UV>, i: nat,
                             polygons: seq<seq<UV>>, uvEdges: map<Edge, int>, edgeOrder: seq<Edge>, index: nat)
  {
    var faces := Faces(counts, indices);
    i <= |counts|
    && index == Sum(counts[..i])
    && |polygons| == i
    && (forall k :: 0 <= k < i ==> IndicesInRange(faces[k], positions) && polygons[k] == Polygon(faces[k], positions))
    && uvEdges == Incidence(faces[..i])
    && edgeOrder == KeyOrder(faces[..i])
  }

  /** Collecting face i keeps the invariant. */
  lemma CollectStep(counts: seq<nat>, indices: seq<int>, positions: seq<UV>, i: nat,
                    polygons: seq<seq<UV>>, uvEdges: map<Edge, int>, edgeOrder: seq<Edge>, index: nat,
                    polygon: seq<UV>, uvEdges': map<Edge, int>, edgeOrder': seq<Edge>)
    requires CollectInv(counts, indices, positions, i, polygons, uvEdges, edgeOrder, index) && i < |counts|
    requires IndicesInRange(Faces(counts, indices)[i], positions)
    requires polygon == Polygon(Faces(counts, indices)[i], positions)
    requires uvEdges' == Bump(uvEdges, FaceKeys(Faces(counts, indices)[i]))
    requires edgeOrder' == AddNew(edgeOrder, FaceKeys(Faces(counts, indices)[i]))
    ensures CollectInv(counts, indices, positions, i + 1, polygons + [polygon], uvEdges', edgeOrder', index + counts[i])
  {
    var faces := Faces(counts, indices);
    var prefix := faces[..i + 1];
    assert prefix[..i] == faces[..i] && prefix[i] == faces[i];
    SumPrefix(counts, i);
  }

  /** After the last face the running index and the counts are those of all the faces. */
  lemma CollectDone(counts: seq<nat>, faces: seq<seq<int>>, uvEdges: map<Edge, int>, edgeOrder: seq<Edge>, index: nat)
    requires |faces| == |counts|
    requires index == Sum(counts[..|counts|])
    requires uvEdges == Incidence(faces[..|counts|]) && edgeOrder == KeyOrder(faces[..|counts|])
    ensures index == Sum(counts)
    ensures uvEdges == Incidence(faces) && edgeOrder == KeyOrder(faces)
  {
    assert counts[..|counts|] == counts;
    assert faces[..|counts|] == faces;
  }

  /**
   * The whole per-mesh step: without UV data the mesh has no polygons and no
   * paths; otherwise its faces are collected, the edges used by exactly one
   * face become the boundary edge list, the boundary graph is built from
   * them and split into paths. The paths are disjoint, cover exactly the end
   * points of the boundary edges, and each is a connected component of the
   * boundary graph.
   */
  method ProcessMesh(mesh: Option<MeshUVs>) returns (polygons: seq<seq<UV>>, paths: seq<seq<int>>)
    requires mesh.Some? ==> IndicesInRange(mesh.value.uvIndices, mesh.value.uvPositions)
    ensures mesh.None? ==> polygons == [] && paths == []
    ensures mesh.Some? ==> |polygons| == |mesh.value.faceVertexCounts|
    ensures mesh.Some? ==> forall i :: 0 <= i < |polygons| ==>
      var m := mesh.value; var face := Faces(m.faceVertexCounts, m.uvIndices)[i];
      IndicesInRange(face, m.uvPositions) && polygons[i] == Polygon(face, m.uvPositions)
    ensures DisjointPaths(paths)
    ensures Union(paths) == Endpoints(MeshBoundaryEdges(mesh))
    ensures Components(GraphOf(MeshBoundaryEdges(mesh)).adj, paths)
  {
    polygons := [];
    var uvEdges: map<Edge, int> := map[];
    var edgeOrder: seq<Edge> := [];
    if mesh.Some? {
      var m := mesh.value;
      var index;
      polygons, uvEdges, edgeOrder, index := CollectFaces(m.faceVertexCounts, m.uvIndices, m.uvPositions);
    }
    var boundary := Once(edgeOrder, uvEdges);
    assert boundary == MeshBoundaryEdges(mesh);
    var graph := BuildGraph(boundary);
    GraphOfKeys(boundary);
    GraphOfClosed(boundary);
    GraphOfSymmetric(boundary);
    paths := GetPaths(graph);
    NoPathsWithoutNodes(paths);
  }

  /** Disjoint paths cover no nodes exactly when there are none, since every path is non-empty. */
  lemma NoPathsWithoutNodes(paths: seq<seq<int>>)
    requires DisjointPaths(paths)
    ensures Union(paths) == {} <==> paths == []
  {
    UnionAppend(paths, []);
    assert forall j :: 0 <= j < |paths| ==> paths[j][0] in Elems(paths[j]);
  }

  /** The index arrays of the faces, one after the other. */
  function Concat(faces: seq<seq<int>>): seq<int> {
    if faces == [] then [] else Concat(faces[..|faces| - 1]) + faces[|faces| - 1]
  }

  /** When the counts do not run past the index array, the first k faces are exactly the first Sum(counts[..k]) indices. */
  lemma {:induction false} FacesPrefix(counts: seq<nat>, indices: seq<int>, k: nat)
    requires k <= |counts| && Sum(counts) <= |indices|
    ensures Sum(counts[..k]) <= |indices|
    ensures Concat(Faces(counts, indices)[..k]) == indices[..Sum(counts[..k])]
  {
    if k > 0 {
      FacesPrefix(counts, indices, k - 1);
      var faces := Faces(counts, indices);
      var a, b := Sum(counts[..k - 1]), Sum(counts[..k]);
      FaceSlice(counts, indices, k - 1);
      assert faces[..k][..k - 1] == faces[..k - 1];
      assert Concat(faces[..k]) == Concat(faces[..k - 1]) + faces[k - 1];
      assert indices[..a] + indices[a..b] == indices[..b];
    } else {
      assert counts[..0] == [];
    }
  }

  /** Face k is the unclamped slice between the running offsets before and after it, when the counts do not run past the index array. */
  lemma FaceSlice(counts: seq<nat>, indices: seq<int>, k: nat)
    requires k < |counts| && Sum(counts) <= |indices|
    ensures Sum(counts[..k]) <= Sum(counts[..k + 1]) <= |indices|
    ensures Faces(counts, indices)[k] == indices[Sum(counts[..k])..Sum(counts[..k + 1])]
  {
    SumPrefix(counts, k);
  }

  /**
   * When the counts add up to the length of the index array, no slice is
   * clamped: face i has exactly counts[i] indices and the faces, one after
   * the other, give back the index array.
   */
  lemma FacesTile(counts: seq<nat>, indices: seq<int>)
    requires Sum(counts) == |indices|
    ensures forall i :: 0 <= i < |counts| ==> |Faces(counts, indices)[i]| == counts[i]
    ensures Concat(Faces(counts, indices)) == indices
  {
    forall i | 0 <= i < |counts|
      ensures |Faces(counts, indices)[i]| == counts[i]
    {
      SumPrefix(counts, i);
    }
    FacesPrefix(counts, indices, |counts|);
    assert counts[..|counts|] == counts;
    assert Faces(counts, indices)[..|counts|] == Faces(counts, indices);
  }

  /** A mesh of one face holding all the indices has that face as its only face. */
  lemma OneFace(face: seq<int>)
    ensures Faces([|face|], face) == [face]
  {
    var counts: seq<nat> := [|face|];
    assert counts[..0] == [];
    assert Sum(counts[..0]) == 0;
    assert Slice(face, 0, |face|) == face;
    var faces := Faces(counts, face);
    assert |faces| == 1 && faces[0] == face;
  }

  /** With a single face every edge of it is used once, so its boundary edges are all its edges. */
  lemma OneFaceBoundary(face: seq<int>)
    ensures forall e :: e in BoundaryEdges([face]) <==> e in FaceEdgeList(face)
  {
    BoundaryExactlyOnce([face]);
    var faces := [face];
    assert faces[..0] == [] && faces[0] == face;
    forall e
      ensures FacesUsing(faces, e) == if e in FaceEdgeList(face) then 1 else 0
    {
      assert FacesUsing(faces, e) == FacesUsing(faces[..0], e) + if e in FaceEdgeList(faces[0]) then 1 else 0;
    }
  }

  /** Walking a face backwards: when each vertex is a neighbour of the next, vertex k reaches the first vertex. */
  lemma BackWalk(adj: map<int, seq<int>>, face: seq<int>, k: nat)
    requires k < |face|
    requires forall j :: 0 <= j < |face| - 1 ==> face[j] in Neighbours(adj, face[j + 1])
    ensures Reachable(adj, {}, face[k], face[0])
  {
    var w := seq(k + 1, j requires 0 <= j <= k => face[k - j]);
    forall j | 0 <= j < |w| - 1
      ensures w[j + 1] in Neighbours(adj, w[j])
    {
      assert w[j + 1] == face[k - j - 1] && w[j] == face[(k - j - 1) + 1];
    }
    assert IsWalk(adj, {}, w);
  }

  /** In the graph of the edges of a face each vertex is a neighbour of the next. */
  lemma PolygonNeighbours(face: seq<int>, edges: seq<Edge>)
    requires forall e :: e in edges <==> e in FaceEdgeList(face)
    ensures forall j :: 0 <= j < |face| - 1 ==> face[j] in Neighbours(GraphOf(edges).adj, face[j + 1])
  {
    GraphOfNeighbours(edges);
    FaceEdgeListAt(face);
    forall j | 0 <= j < |face| - 1
      ensures face[j] in Neighbours(GraphOf(edges).adj, face[j + 1])
    {
      assert EdgeAt(face, j) == Canonical(face[j], face[j + 1]);
      assert EdgeAt(face, j) in FaceEdgeList(face);
    }
  }

  /**
   * The graph of a list holding exactly the edges of a non-empty face: its
   * nodes are the indices of the face, and each of them reaches the first,
   * walking the face backwards.
   */
  lemma PolygonGraph(face: seq<int>, edges: seq<Edge>)
    requires |face| > 0
    requires forall e :: e in edges <==> e in FaceEdgeList(face)
    ensures GraphOf(edges).adj.Keys == Elems(face)
    ensures forall n :: n in GraphOf(edges).adj ==> Reachable(GraphOf(edges).adj, {}, n, face[0])
  {
    GraphOfKeys(edges);
    PolygonEndpoints(face, edges);
    PolygonNeighbours(face, edges);
    forall n | n in GraphOf(edges).adj
      ensures Reachable(GraphOf(edges).adj, {}, n, face[0])
    {
      var k :| 0 <= k < |face| && face[k] == n;
      BackWalk(GraphOf(edges).adj, face, k);
    }
  }

  /** The end points of the edges of a face are its indices. */
  lemma PolygonEndpoints(face: seq<int>, edges: seq<Edge>)
    requires forall e :: e in edges <==> e in FaceEdgeList(face)
    ensures Endpoints(edges) == Elems(face)
  {
    var list := FaceEdgeList(face);
    forall x | x in Endpoints(edges)
      ensures x in face
    {
      var e :| e in edges && (x == e.0 || x == e.1);
      var i :| 0 <= i < |list| && list[i] == e;
      assert face[Next(i, |face|)] in face;
    }
    forall x | x in face
      ensures x in Endpoints(edges)
    {
      var i :| 0 <= i < |face| && face[i] == x;
      assert list[i] in edges;
    }
  }

  /** The first two of several disjoint paths share no node. */
  lemma FirstTwoDisjoint(paths: seq<seq<int>>, x: int)
    requires DisjointPaths(paths)
    ensures |paths| >= 2 && x in paths[0] ==> x !in paths[1]
  {
    if |paths| >= 2 && x in paths[0] {
      assert x in Elems(paths[0]);
    }
  }

  /**
   * Components that cover a node set in which every node reaches x: there
   * is exactly one, and it holds every node.
   */
  lemma OneComponent(adj: map<int, seq<int>>, paths: seq<seq<int>>, x: int)
    requires DisjointPaths(paths) && Components(adj, paths) && Union(paths) != {}
    requires forall n :: n in Union(paths) ==> Reachable(adj, {}, n, x)
    ensures |paths| == 1 && Elems(paths[0]) == Union(paths)
  {
    NoPathsWithoutNodes(paths);
    UnionAppend(paths, []);
    forall i | 0 <= i < |paths|
      ensures x in paths[i]
    {
      assert paths[i][0] in Elems(paths[i]);
    }
    FirstTwoDisjoint(paths, x);
    assert paths[..|paths| - 1] + [paths[|paths| - 1]] == paths;
    UnionAppend(paths[..|paths| - 1], paths[|paths| - 1]);
    assert paths[..|paths| - 1] == [] ==> Union(paths[..|paths| - 1]) == {};
  }

  /**
   * A mesh made of a single face of at least one vertex has exactly one
   * boundary loop, and it visits every UV index of the face: the paths any
   * run of the per-mesh step returns are that one loop.
   */
  lemma SingleFaceIsOneLoop(face: seq<int>, positions: seq<UV>, paths: seq<seq<int>>)
    requires |face| > 0
    requires DisjointPaths(paths)
    requires Union(paths) == Endpoints(MeshBoundaryEdges(Some(MeshUVs([|face|], face, positions))))
    requires Components(GraphOf(MeshBoundaryEdges(Some(MeshUVs([|face|], face, positions)))).adj, paths)
    ensures |paths| == 1 && Elems(paths[0]) == Elems(face)
  {
    OneFace(face);
    var edges := BoundaryEdges([face]);
    assert edges == MeshBoundaryEdges(Some(MeshUVs([|face|], face, positions)));
    OneFaceBoundary(face);
    PolygonLoop(face, edges, paths);
  }

  /**
   * When the boundary edges are exactly the edges of one non-empty polygon,
   * the components of their graph are a single loop through the polygon's
   * indices.
   */
  lemma PolygonLoop(face: seq<int>, edges: seq<Edge>, paths: seq<seq<int>>)
    requires |face| > 0
    requires forall e :: e in edges <==> e in FaceEdgeList(face)
    requires DisjointPaths(paths)
    requires Union(paths) == Endpoints(edges)
    requires Components(GraphOf(edges).adj, paths)
    ensures |paths| == 1 && Elems(paths[0]) == Elems(face)
  {
    PolygonGraph(face, edges);
    GraphOfKeys(edges);
    assert face[0] in Elems(face);
    OneComponent(GraphOf(edges).adj, paths, face[0]);
  }

  /** The number of faces among two that use e. */
  lemma FacesUsingTwo(f1: seq<int>, f2: seq<int>, e: Edge)
    ensures FacesUsing([f1, f2], e) == (if e in FaceEdgeList(f1) then 1 else 0) + (if e in FaceEdgeList(f2) then 1 else 0)
  {
    var faces := [f1, f2];
    assert faces[..1] == [f1];
    assert FacesUsing(faces, e) == FacesUsing([f1], e) + (if e in FaceEdgeList(f2) then 1 else 0);
    assert [f1][..0] == [];
    assert FacesUsing([f1], e) == FacesUsing([], e) + (if e in FaceEdgeList(f1) then 1 else 0);
  }

  /** The counts [3, 3] cut [a, b, c, c, b, d] into [a, b, c] and [c, b, d]. */
  lemma TwoTrianglesFaces(a: int, b: int, c: int, d: int)
    ensures Faces([3, 3], [a, b, c, c, b, d]) == [[a, b, c], [c, b, d]]
  {
    var counts: seq<nat> := [3, 3];
    var indices := [a, b, c, c, b, d];
    assert counts[..0] == [] && counts[..1] == [3];
    assert Sum(counts[..1]) == 3;
    var faces := Faces(counts, indices);
    assert faces[0] == indices[0..3] == [a, b, c];
    assert faces[1] == indices[3..6] == [c, b, d];
  }

  /** Which of the two triangles use an edge: both use (b, c), one uses each outer edge, none uses any other. */
  lemma TwoTrianglesUsing(a: int, b: int, c: int, d: int, e: Edge)
    requires a < b < c < d
    ensures FacesUsing([[a, b, c], [c, b, d]], e) == if e == (b, c) then 2 else if e in {(a, b), (a, c), (b, d), (c, d)} then 1 else 0
  {
    var f1, f2 := [a, b, c], [c, b, d];
    assert FaceEdgeList(f1) == [(a, b), (b, c), (a, c)] by {
      assert EdgeAt(f1, 0) == (a, b) && EdgeAt(f1, 1) == (b, c) && EdgeAt(f1, 2) == (a, c);
    }
    assert FaceEdgeList(f2) == [(b, c), (b, d), (c, d)] by {
      assert EdgeAt(f2, 0) == (b, c) && EdgeAt(f2, 1) == (b, d) && EdgeAt(f2, 2) == (c, d);
    }
    FacesUsingTwo(f1, f2, e);
  }

  /**
   * Two triangles sharing an edge: the faces [a, b, c] and [c, b, d] of the
   * index array [a, b, c, c, b, d], for indices a < b < c < d (for instance
   * 0, 1, 2, 3). The shared edge (b, c) is counted twice and the four outer
   * edges once, and those four are the boundary.
   */
  lemma TwoTriangles(a: int, b: int, c: int, d: int)
    requires a < b < c < d
    ensures Faces([3, 3], [a, b, c, c, b, d]) == [[a, b, c], [c, b, d]]
    ensures forall e :: Get(Incidence([[a, b, c], [c, b, d]]), e) ==
                         (if e == (b, c) then 2 else if e in {(a, b), (a, c), (b, d), (c, d)} then 1 else 0)
    ensures forall e :: e in BoundaryEdges([[a, b, c], [c, b, d]]) <==> e in {(a, b), (a, c), (b, d), (c, d)}
  {
    TwoTrianglesFaces(a, b, c, d);
    var faces := [[a, b, c], [c, b, d]];
    IncidenceCounts(faces);
    BoundaryExactlyOnce(faces);
    forall e
      ensures FacesUsing(faces, e) == if e == (b, c) then 2 else if e in {(a, b), (a, c), (b, d), (c, d)} then 1 else 0
    {
      TwoTrianglesUsing(a, b, c, d, e);
    }
  }

  /** The boundary of the two triangles is the edge set of the quad a -> b -> d -> c around them. */
  lemma QuadEdges(a: int, b: int, c: int, d: int)
    requires a < b < c < d
    ensures FaceEdgeList([a, b, d, c]) == [(a, b), (b, d), (c, d), (a, c)]
  {
    var quad := [a, b, d, c];
    assert EdgeAt(quad, 0) == (a, b) && EdgeAt(quad, 1) == (b, d) && EdgeAt(quad, 2) == (c, d) && EdgeAt(quad, 3) == (a, c);
  }

  /** The boundary edges of the two triangles are exactly the edges of the quad a -> b -> d -> c. */
  lemma TwoTrianglesBoundaryIsQuad(a: int, b: int, c: int, d: int)
    requires a < b < c < d
    ensures forall e :: e in BoundaryEdges([[a, b, c], [c, b, d]]) <==> e in FaceEdgeList([a, b, d, c])
  {
    TwoTriangles(a, b, c, d);
    QuadEdges(a, b, c, d);
  }

  /**
   * The two triangles [a, b, c] and [c, b, d] have a single boundary loop,
   * and it visits all four indices: the paths any run of the per-mesh step
   * returns for them are that one loop.
   */
  lemma TwoTrianglesIsOneLoop(a: int, b: int, c: int, d: int, positions: seq<UV>, paths: seq<seq<int>>)
    requires a < b < c < d
    requires DisjointPaths(paths)
    requires Union(paths) == Endpoints(MeshBoundaryEdges(Some(MeshUVs([3, 3], [a, b, c, c, b, d], positions))))
    requires Components(GraphOf(MeshBoundaryEdges(Some(MeshUVs([3, 3], [a, b, c, c, b, d], positions)))).adj, paths)
    ensures |paths| == 1 && Elems(paths[0]) == {a, b, c, d}
  {
    var edges := MeshBoundaryEdges(Some(MeshUVs([3, 3], [a, b, c, c, b, d], positions)));
    TwoTrianglesFaces(a, b, c, d);
    assert edges == BoundaryEdges([[a, b, c], [c, b, d]]);
    TwoTrianglesBoundaryIsQuad(a, b, c, d);
    var quad := [a, b, d, c];
    PolygonLoop(quad, edges, paths);
    QuadElems(a, b, c, d);
  }

  /** The quad around the two triangles visits a, b, c and d. */
  lemma QuadElems(a: int, b: int, c: int, d: int)
    ensures Elems([a, b, d, c]) == {a, b, c, d}
  {
    forall x
      ensures x in Elems([a, b, d, c]) <==> x in {a, b, c, d}
    {
      assert x in Elems([a, b, d, c]) <==> x in [a, b, d, c];
    }
  }
}
