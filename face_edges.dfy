/**
 * The edge model: canonical edge keys and the edges of one face.
 */
module FaceEdges {
  import opened Seqs
  import opened Uv

  /** An edge key: a pair of UV indices, sorted when built by Canonical. */
  type Edge = (int, int)

  /** The sorted form of the pair (a, b). */
  function Canonical(a: int, b: int): (e: Edge)
    ensures e.0 <= e.1
    ensures (e.0 == a && e.1 == b) || (e.0 == b && e.1 == a)
  {
    if a > b then (b, a) else (a, b)
  }

  /** Two pairs get the same key exactly when they are the same unordered pair; in particular (a, b) and (b, a) share a key. */
  lemma CanonicalIdentifiesPairs(a: int, b: int, c: int, d: int)
    ensures Canonical(a, b) == Canonical(c, d) <==> (a == c && b == d) || (a == d && b == c)
  {
  }

  /** The vertex after i in a face of n vertices: the next one, or the first after the last. */
  function Next(i: nat, n: nat): nat {
    if i + 1 < n then i + 1 else 0
  }

  /** Next is Python's `(i + 1) % n` at main.py:44. */
  lemma NextIsMod(i: nat, n: nat)
    requires i < n
    ensures Next(i, n) == (i + 1) % n
  {
  }

  /** The key of the edge leaving vertex i of the face, the last vertex wrapping to the first. */
  function EdgeAt(face: seq<int>, i: nat): Edge
    requires i < |face|
  {
    Canonical(face[i], face[Next(i, |face|)])
  }

  /** The keys of the face's edges, one per vertex, in vertex order (repeats kept). */
  function FaceEdgeList(face: seq<int>): seq<Edge> {
    seq(|face|, i requires 0 <= i < |face| => EdgeAt(face, i))
  }

  /** Unfolds the edge list: one entry per vertex, entry i the edge leaving vertex i. */
  lemma FaceEdgeListAt(face: seq<int>)
    ensures |FaceEdgeList(face)| == |face|
    ensures forall i :: 0 <= i < |face| ==> FaceEdgeList(face)[i] == EdgeAt(face, i)
  {
  }

  /** Both end points of the edge index into `positions`. */
  predicate EndsIn(e: Edge, positions: seq<UV>) {
    0 <= e.0 < |positions| && 0 <= e.1 < |positions|
  }

  /** The positions of the edge's two end points. */
  function Ends(e: Edge, positions: seq<UV>): (UV, UV)
    requires EndsIn(e, positions)
  {
    (positions[e.0], positions[e.1])
  }

  /**
   * The dict get_uv_edges_from_face builds: each edge key of the face mapped
   * to the positions of its two end points.
   */
  function FaceEdgeMap(face: seq<int>, positions: seq<UV>): map<Edge, (UV, UV)>
    requires forall i :: 0 <= i < |face| ==> 0 <= face[i] < |positions|
  {
    EndsByKey(FaceEdgeList(face), positions)
  }

  /**
   * get_uv_edges_from_face: the loop over the vertices assigning each edge
   * key its end-point positions. `order` is the dict's key order, that is,
   * each key where it was first assigned.
   */
  method EdgesOfFace(face: seq<int>, positions: seq<UV>) returns (edges: map<Edge, (UV, UV)>, order: seq<Edge>)
    requires forall i :: 0 <= i < |face| ==> 0 <= face[i] < |positions|
    ensures edges == FaceEdgeMap(face, positions)
    ensures order == Dedup(FaceEdgeList(face))
  {
    edges := map[];
    order := [];
    ghost var list := FaceEdgeList(face);
    for i := 0 to |face|
      invariant edges == EndsByKey(list[..i], positions)
      invariant order == AddNew([], list[..i])
    {
      NextIsMod(i, |face|);
      // the key is the pair, swapped when its first index is the larger
      var key := Canonical(face[i], face[(i + 1) % |face|]);
      KeyStep(list, i, positions, edges, order);
      if key !in edges {
        order := order + [key];
      }
      edges := edges[key := (positions[key.0], positions[key.1])];
    }
    assert list[..|face|] == list;
  }

  /**
   * What the edge dict of a face holds: its keys are sorted pairs, each the
   * key of some edge of the face, every edge of the face has its key, each
   * value is the pair of end-point positions, and the key order lists every
   * key once. There are at most as many keys as vertices, and exactly as
   * many when the face has at least three distinct indices.
   */
  lemma FaceEdgeMapFacts(face: seq<int>, positions: seq<UV>)
    requires forall i :: 0 <= i < |face| ==> 0 <= face[i] < |positions|
    ensures forall e :: e in FaceEdgeMap(face, positions) ==> e.0 <= e.1 && exists i :: 0 <= i < |face| && e == EdgeAt(face, i)
    ensures forall i :: 0 <= i < |face| ==> EdgeAt(face, i) in FaceEdgeMap(face, positions)
    ensures forall e :: e in FaceEdgeMap(face, positions) ==> EndsIn(e, positions) && FaceEdgeMap(face, positions)[e] == Ends(e, positions)
    ensures Elems(Dedup(FaceEdgeList(face))) == FaceEdgeMap(face, positions).Keys
    ensures |FaceEdgeMap(face, positions)| == |Dedup(FaceEdgeList(face))| <= |face|
    ensures |face| >= 3 && NoDuplicates(face) ==> |FaceEdgeMap(face, positions)| == |face|
  {
    var list := FaceEdgeList(face);
    var m := FaceEdgeMap(face, positions);
    FaceEdgeListAt(face);
    FaceEdgeKeys(face);
    assert forall i :: 0 <= i < |face| ==> list[i] in Elems(list);
    DictSize(m, Dedup(list));
  }

  /** Assigning key list[i] extends the dict and the key order of list[..i] to those of list[..i + 1]. */
  lemma KeyStep(list: seq<Edge>, i: nat, positions: seq<UV>, edges: map<Edge, (UV, UV)>, order: seq<Edge>)
    requires i < |list|
    requires forall k :: 0 <= k < |list| ==> EndsIn(list[k], positions)
    requires edges == EndsByKey(list[..i], positions) && order == AddNew([], list[..i])
    ensures EndsByKey(list[..i + 1], positions) == edges[list[i] := Ends(list[i], positions)]
    ensures AddNew([], list[..i + 1]) == if list[i] in edges then order else order + [list[i]]
  {
    AddNewPrefix([], list, i);
    EndsByKeyPrefix(list, i, positions);
    assert (list[i] in order) == (list[i] in edges) by {
      assert list[i] in order <==> list[i] in Elems(order);
    }
  }

  /** Assigning one more key of a list updates the dict with that key. */
  lemma EndsByKeyPrefix(list: seq<Edge>, i: nat, positions: seq<UV>)
    requires i < |list|
    requires forall k :: 0 <= k < |list| ==> EndsIn(list[k], positions)
    ensures EndsByKey(list[..i + 1], positions) == EndsByKey(list[..i], positions)[list[i] := Ends(list[i], positions)]
  {
    assert list[..i + 1][..i] == list[..i];
  }

  /** The dict built by assigning each key of `keys` in turn the positions of its end points. */
  function EndsByKey(keys: seq<Edge>, positions: seq<UV>): (m: map<Edge, (UV, UV)>)
    requires forall k :: 0 <= k < |keys| ==> EndsIn(keys[k], positions)
    ensures m.Keys == Elems(keys)
    ensures forall e :: e in m ==> EndsIn(e, positions) && m[e] == Ends(e, positions)
  {
    if keys == [] then map[]
    else
      var last := keys[|keys| - 1];
      assert keys == keys[..|keys| - 1] + [last];
      EndsByKey(keys[..|keys| - 1], positions)[last := Ends(last, positions)]
  }

  /** A dict has as many entries as its list of distinct keys. */
  lemma DictSize<V>(m: map<Edge, V>, keys: seq<Edge>)
    requires NoDuplicates(keys) && Elems(keys) == m.Keys
    ensures |m| == |keys|
  {
    ElemsCardinality(keys);
    assert |m| == |m.Keys|;
  }

  /** Facts about the key set of a face: each key is sorted and comes from some vertex, and there are at most as many keys as vertices, exactly as many when the face has at least three distinct indices. */
  lemma FaceEdgeKeys(face: seq<int>)
    ensures forall e :: e in Elems(FaceEdgeList(face)) ==> e.0 <= e.1 && exists i :: 0 <= i < |face| && e == EdgeAt(face, i)
    ensures |Elems(FaceEdgeList(face))| <= |face|
    ensures |face| >= 3 && NoDuplicates(face) ==> |Elems(FaceEdgeList(face))| == |face|
  {
    var list := FaceEdgeList(face);
    forall e | e in Elems(list)
      ensures exists i :: 0 <= i < |face| && e == EdgeAt(face, i)
    {
      var i :| 0 <= i < |list| && list[i] == e;
    }
    ElemsCardinality(list);
    if |face| >= 3 && NoDuplicates(face) {
      DistinctFaceEdges(face);
    }
  }

  /** In a face of at least three distinct indices no two edges share a key. */
  lemma DistinctFaceEdges(face: seq<int>)
    requires |face| >= 3 && NoDuplicates(face)
    ensures NoDuplicates(FaceEdgeList(face))
  {
    var n := |face|;
    forall i, j | 0 <= i < j < n
      ensures EdgeAt(face, i) != EdgeAt(face, j)
    {
      var j' := Next(j, n);
      CanonicalIdentifiesPairs(face[i], face[Next(i, n)], face[j], face[j']);
      assert face[i] != face[j];
      assert i != j' || i + 1 != j;
    }
  }
}
