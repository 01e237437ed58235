/**
 * The boundary graph: the adjacency list built from the boundary edges, the
 * explicit-stack depth-first traversal, and the split into connected paths.
 */
module BoundaryGraph {
  import opened Seqs
  import opened FaceEdges

  /**
   * An adjacency list together with the order in which its keys were first
   * inserted, the order in which a Python dict yields them.
   */
  datatype Graph = Graph(adj: map<int, seq<int>>, order: seq<int>) {
    /** The key order lists every key exactly once. */
    predicate Valid() {
      NoDuplicates(order) && Elems(order) == adj.Keys
    }
  }

  /** Reading `graph[n]` of a `defaultdict(list)`: the neighbour list, or the empty list for a node that is not a key. */
  function Neighbours(adj: map<int, seq<int>>, n: int): seq<int> {
    if n in adj then adj[n] else []
  }

  /** `graph[k].append(x)`: the key is created at the end of the key order when missing, then x is appended to its list. */
  function Append(g: Graph, k: int, x: int): Graph {
    Graph(g.adj[k := Neighbours(g.adj, k) + [x]], if k in g.adj then g.order else g.order + [k])
  }

  /** One iteration of build_graph: each end point gets the other as a neighbour. */
  function AddEdge(g: Graph, e: Edge): Graph {
    Append(Append(g, e.0, e.1), e.1, e.0)
  }

  /** The graph build_graph returns for `edges`: the edges added one after the other to an empty graph. */
  function GraphOf(edges: seq<Edge>): Graph {
    if edges == [] then Graph(map[], [])
    else AddEdge(GraphOf(edges[..|edges| - 1]), edges[|edges| - 1])
  }

  /** The nodes that occur in some edge. */
  function Endpoints(edges: seq<Edge>): set<int> {
    (set e | e in edges :: e.0) + (set e | e in edges :: e.1)
  }

  /** Every neighbour is itself a key. */
  predicate Closed(adj: map<int, seq<int>>) {
    forall k, n :: k in adj && n in adj[k] ==> n in adj
  }

  /** Adjacency goes both ways. */
  predicate Symmetric(adj: map<int, seq<int>>) {
    forall a, b :: a in adj && b in adj[a] ==> a in Neighbours(adj, b)
  }

  /** Total length of the neighbour lists of `keys`. */
  function Degrees(adj: map<int, seq<int>>, keys: seq<int>): nat {
    if keys == [] then 0 else Degrees(adj, keys[..|keys| - 1]) + |Neighbours(adj, keys[|keys| - 1])|
  }

  /**
   * build_graph: for each edge (a, b), appends b to the list of a and a to
   * the list of b, creating a missing list first.
   */
  method BuildGraph(edges: seq<Edge>) returns (g: Graph)
    ensures g == GraphOf(edges)
  {
    var adj: map<int, seq<int>> := map[];
    var order: seq<int> := [];
    for i := 0 to |edges|
      invariant Graph(adj, order) == GraphOf(edges[..i])
    {
      assert edges[..i + 1][..i] == edges[..i];
      var (a, b) := edges[i];
      // graph[a] creates an empty list for a new key; the append extends it
      if a !in adj {
        order := order + [a];
      }
      adj := adj[a := Neighbours(adj, a) + [b]];
      if b !in adj {
        order := order + [b];
      }
      adj := adj[b := Neighbours(adj, b) + [a]];
    }
    assert edges[..|edges|] == edges;
    g := Graph(adj, order);
  }

  /** Appending adds x to the neighbours of k and changes nothing else. */
  lemma AppendNeighbours(g: Graph, k: int, x: int)
    ensures forall n, m :: m in Neighbours(Append(g, k, x).adj, n) <==> m in Neighbours(g.adj, n) || (n == k && m == x)
  {
  }

  /** Appending keeps the key order valid and adds k to the keys. */
  lemma AppendValid(g: Graph, k: int, x: int)
    requires g.Valid()
    ensures Append(g, k, x).Valid()
    ensures Append(g, k, x).adj.Keys == g.adj.Keys + {k}
  {
    if k !in g.adj {
      assert Elems(g.order + [k]) == Elems(g.order) + {k};
    }
  }

  /** The end points of one more edge. */
  lemma EndpointsSnoc(init: seq<Edge>, e: Edge)
    ensures Endpoints(init + [e]) == Endpoints(init) + {e.0, e.1}
  {
    var s := init + [e];
    assert forall f :: f in s <==> f in init || f == e;
  }

  /** The keys of the graph are exactly the end points of the edges, each listed once in the key order. */
  lemma {:induction false} GraphOfKeys(edges: seq<Edge>)
    ensures GraphOf(edges).Valid()
    ensures GraphOf(edges).adj.Keys == Endpoints(edges)
  {
    if edges != [] {
      var init, e := edges[..|edges| - 1], edges[|edges| - 1];
      assert edges == init + [e];
      GraphOfKeys(init);
      var g := GraphOf(init);
      AppendValid(g, e.0, e.1);
      AppendValid(Append(g, e.0, e.1), e.1, e.0);
      EndpointsSnoc(init, e);
    }
  }

  /** b is a neighbour of a exactly when (a, b) or (b, a) is one of the edges. */
  lemma {:induction false} GraphOfNeighbours(edges: seq<Edge>)
    ensures forall a, b :: b in Neighbours(GraphOf(edges).adj, a) <==> (a, b) in edges || (b, a) in edges
  {
    if edges != [] {
      var init, e := edges[..|edges| - 1], edges[|edges| - 1];
      assert edges == init + [e];
      assert forall f :: f in edges <==> f in init || f == e;
      GraphOfNeighbours(init);
      var g := GraphOf(init);
      AppendNeighbours(g, e.0, e.1);
      AppendNeighbours(Append(g, e.0, e.1), e.1, e.0);
    }
  }

  /** Every key of the graph has a non-empty neighbour list. */
  lemma {:induction false} GraphOfNonEmpty(edges: seq<Edge>)
    ensures forall k :: k in GraphOf(edges).adj ==> |GraphOf(edges).adj[k]| > 0
  {
    if edges != [] {
      var init, e := edges[..|edges| - 1], edges[|edges| - 1];
      GraphOfNonEmpty(init);
      var g := GraphOf(init);
      var g1 := Append(g, e.0, e.1);
      assert forall k :: k in g1.adj ==> |g1.adj[k]| > 0;
      var g2 := Append(g1, e.1, e.0);
      assert forall k :: k in g2.adj ==> |g2.adj[k]| > 0;
    }
  }

  /** Every neighbour in the graph is itself a key. */
  lemma GraphOfClosed(edges: seq<Edge>)
    ensures Closed(GraphOf(edges).adj)
  {
    var adj := GraphOf(edges).adj;
    GraphOfKeys(edges);
    GraphOfNeighbours(edges);
    forall k, n | k in adj && n in adj[k]
      ensures n in adj
    {
      assert n in Neighbours(adj, k);
      assert (k, n) in edges || (n, k) in edges;
    }
  }

  /** Adjacency in the graph goes both ways. */
  lemma GraphOfSymmetric(edges: seq<Edge>)
    ensures Symmetric(GraphOf(edges).adj)
  {
    var adj := GraphOf(edges).adj;
    GraphOfNeighbours(edges);
    forall a, b | a in adj && b in adj[a]
      ensures a in Neighbours(adj, b)
    {
      assert b in Neighbours(adj, a);
    }
  }

  /** Updating the list of a key that occurs once in `keys` changes their total length by the difference; other keys do not matter. */
  lemma {:induction false} DegreesUpdate(adj: map<int, seq<int>>, keys: seq<int>, k: int, v: seq<int>)
    requires NoDuplicates(keys)
    ensures k in keys ==> Degrees(adj[k := v], keys) + |Neighbours(adj, k)| == Degrees(adj, keys) + |v|
    ensures k !in keys ==> Degrees(adj[k := v], keys) == Degrees(adj, keys)
  {
    if keys != [] {
      var init, last := keys[..|keys| - 1], keys[|keys| - 1];
      assert keys == init + [last];
      assert NoDuplicates(init);
      DegreesUpdate(adj, init, k, v);
      if k == last {
        assert k !in init;
      }
    }
  }

  /** One append adds one to the total length of the neighbour lists. */
  lemma AppendDegree(g: Graph, k: int, x: int)
    requires g.Valid()
    ensures Append(g, k, x).Valid()
    ensures Degrees(Append(g, k, x).adj, Append(g, k, x).order) == Degrees(g.adj, g.order) + 1
  {
    AppendValid(g, k, x);
    var v := Neighbours(g.adj, k) + [x];
    DegreesUpdate(g.adj, g.order, k, v);
    if k !in g.adj {
      var order := g.order + [k];
      assert order[..|order| - 1] == g.order;
      assert Degrees(g.adj[k := v], order) == Degrees(g.adj[k := v], g.order) + |v|;
    }
  }

  /** The neighbour lists have 2 * |edges| entries in all. */
  lemma {:induction false} GraphOfDegree(edges: seq<Edge>)
    ensures GraphOf(edges).Valid()
    ensures Degrees(GraphOf(edges).adj, GraphOf(edges).order) == 2 * |edges|
  {
    GraphOfKeys(edges);
    if edges != [] {
      var init, e := edges[..|edges| - 1], edges[|edges| - 1];
      GraphOfDegree(init);
      AppendDegree(GraphOf(init), e.0, e.1);
      AppendDegree(Append(GraphOf(init), e.0, e.1), e.1, e.0);
    }
  }

  /** A walk along adjacency that never enters a node of `avoid`. */
  ghost predicate IsWalk(adj: map<int, seq<int>>, avoid: set<int>, w: seq<int>) {
    |w| > 0
    && (forall i :: 0 <= i < |w| ==> w[i] !in avoid)
    && (forall i :: 0 <= i < |w| - 1 ==> w[i + 1] in Neighbours(adj, w[i]))
  }

  /** `to` can be reached from `from` through nodes outside `avoid`. */
  ghost predicate Reachable(adj: map<int, seq<int>>, avoid: set<int>, from: int, to: int) {
    exists w :: IsWalk(adj, avoid, w) && w[0] == from && w[|w| - 1] == to
  }

  /** Every key and every node that occurs in a neighbour list. */
  ghost function Nodes(adj: map<int, seq<int>>): set<int> {
    adj.Keys + (set k, n | k in adj && n in adj[k] :: n)
  }

  /** The neighbours of any node are among the nodes of the graph. */
  lemma NeighboursInNodes(adj: map<int, seq<int>>, n: int)
    ensures forall m :: m in Neighbours(adj, n) ==> m in Nodes(adj)
  {
  }

  /** A node outside `avoid` reaches itself. */
  lemma ReachSelf(adj: map<int, seq<int>>, avoid: set<int>, n: int)
    requires n !in avoid
    ensures Reachable(adj, avoid, n, n)
  {
    assert IsWalk(adj, avoid, [n]);
  }

  /** Nothing is reachable from a node inside `avoid`. */
  lemma NoReachFromAvoided(adj: map<int, seq<int>>, avoid: set<int>, from: int, to: int)
    requires from in avoid
    ensures !Reachable(adj, avoid, from, to)
  {
  }

  /** The neighbours of a reachable node are reachable too, unless they are avoided. */
  lemma ReachNeighbours(adj: map<int, seq<int>>, avoid: set<int>, from: int, n: int)
    requires Reachable(adj, avoid, from, n)
    ensures forall m :: m in Neighbours(adj, n) ==> m in avoid || Reachable(adj, avoid, from, m)
  {
    var w :| IsWalk(adj, avoid, w) && w[0] == from && w[|w| - 1] == n;
    forall m | m in Neighbours(adj, n) && m !in avoid
      ensures Reachable(adj, avoid, from, m)
    {
      var w' := w + [m];
      assert w'[|w'| - 2] == n;
      assert IsWalk(adj, avoid, w');
    }
  }

  /** A walk that starts inside a set from which adjacency only leads into the set or into `avoid` stays inside the set. */
  lemma {:induction false} WalkStaysIn(adj: map<int, seq<int>>, avoid: set<int>, w: seq<int>, inside: set<int>, i: nat)
    requires IsWalk(adj, avoid, w) && w[0] in inside && i < |w|
    requires forall n, m :: n in inside && m in Neighbours(adj, n) ==> m in avoid || m in inside
    ensures w[i] in inside
  {
    if i > 0 {
      WalkStaysIn(adj, avoid, w, inside, i - 1);
      assert w[i] in Neighbours(adj, w[i - 1]);
    }
  }

  /** The node set of a finished traversal holds every node reachable from its start. */
  lemma TraversalComplete(adj: map<int, seq<int>>, avoid: set<int>, from: int, inside: set<int>)
    requires from in inside
    requires forall n, m :: n in inside && m in Neighbours(adj, n) ==> m in avoid || m in inside
    ensures forall n :: Reachable(adj, avoid, from, n) ==> n in inside
  {
    forall n | Reachable(adj, avoid, from, n)
      ensures n in inside
    {
      var w :| IsWalk(adj, avoid, w) && w[0] == from && w[|w| - 1] == n;
      WalkStaysIn(adj, avoid, w, inside, |w| - 1);
    }
  }

  /** Every neighbour of a node of `path` is in `seen` or still on the stack. */
  ghost predicate Frontier(adj: map<int, seq<int>>, path: seq<int>, seen: set<int>, stack: seq<int>) {
    forall n, m :: n in path && m in Neighbours(adj, n) ==> m in seen || m in stack
  }

  /** Popping a node that is already seen keeps the frontier. */
  lemma FrontierPop(adj: map<int, seq<int>>, path: seq<int>, seen: set<int>, stack: seq<int>)
    requires |stack| > 0 && stack[|stack| - 1] in seen
    requires Frontier(adj, path, seen, stack)
    ensures Frontier(adj, path, seen, stack[..|stack| - 1])
  {
    SplitLast(stack);
  }

  /** Popping a new node, visiting it and pushing its neighbours keeps the frontier. */
  lemma FrontierVisit(adj: map<int, seq<int>>, path: seq<int>, seen: set<int>, stack: seq<int>)
    requires |stack| > 0
    requires Frontier(adj, path, seen, stack)
    ensures var node := stack[|stack| - 1];
      Frontier(adj, path + [node], seen + {node}, stack[..|stack| - 1] + Neighbours(adj, node))
  {
    SplitLast(stack);
  }

  /** Marking a node that is not yet visited leaves fewer unvisited nodes. */
  lemma FewerUnvisited(universe: set<int>, visited: set<int>, node: int)
    requires node in universe && node !in visited
    ensures |universe - (visited + {node})| < |universe - visited|
  {
    assert universe - visited == (universe - (visited + {node})) + {node};
  }

  /**
   * traverse_graph: depth-first search with an explicit stack from
   * `current`, skipping the nodes of `visited`. The caller's set is threaded
   * through: `visitedOut` is the set after the call. The path lists each newly
   * visited node once, starting with `current`, and its nodes are exactly the
   * nodes reachable from `current` through nodes that were not visited
   * before.
   */
  method Traverse(adj: map<int, seq<int>>, visited: set<int>, current: int) returns (path: seq<int>, visitedOut: set<int>)
    ensures NoDuplicates(path)
    ensures forall n :: n in path ==> n !in visited
    ensures visitedOut == visited + Elems(path)
    ensures current in visited ==> path == []
    ensures current !in visited ==> path != [] && path[0] == current
    ensures forall n :: n in path <==> Reachable(adj, visited, current, n)
    ensures forall n, m :: n in path && m in Neighbours(adj, n) ==> m in visitedOut
  {
    ghost var universe := Nodes(adj) + {current};
    path := [];
    visitedOut := visited;
    var stack := [current];
    TraverseStart(adj, visited, current, universe);
    while stack != []
      invariant TraverseInv(adj, visited, current, universe, path, visitedOut, stack)
      decreases |universe - visitedOut|, |stack|
    {
      ghost var before := stack;
      var node := stack[|stack| - 1];
      stack := stack[..|stack| - 1];
      if node !in visitedOut {
        TraverseVisit(adj, visited, current, universe, path, visitedOut, before);
        visitedOut := visitedOut + {node};
        path := path + [node];
        stack := stack + Neighbours(adj, node);
      } else {
        TraverseSkip(adj, visited, current, universe, path, visitedOut, before);
      }
    }
    TraverseDone(adj, visited, current, universe, path, visitedOut);
  }

  /**
   * The loop invariant of traverse_graph: `seen` is the visited set so far,
   * the path is duplicate-free and new, every stack entry is a node of the
   * graph that is either visited on entry or reachable, every path node is
   * reachable, and every neighbour of a path node is seen or on the stack.
   */
  ghost predicate TraverseInv(adj: map<int, seq<int>>, visited: set<int>, current: int, universe: set<int>,
                              path: seq<int>, seen: set<int>, stack: seq<int>)
  {
    (forall n :: n in seen <==> n in visited || n in path)
    && NoDuplicates(path)
    && (forall n :: n in path ==> n !in visited)
    && (forall n :: n in stack ==> n in universe)
    && (forall n :: n in stack ==> n in visited || Reachable(adj, visited, current, n))
    && (forall n :: n in path ==> Reachable(adj, visited, current, n))
    && Frontier(adj, path, seen, stack)
    && (current !in visited && path == [] ==> stack == [current])
    && (path != [] ==> path[0] == current)
  }

  /** The invariant holds on entry, with only `current` on the stack. */
  lemma TraverseStart(adj: map<int, seq<int>>, visited: set<int>, current: int, universe: set<int>)
    requires current in universe
    ensures TraverseInv(adj, visited, current, universe, [], visited, [current])
  {
    if current !in visited {
      ReachSelf(adj, visited, current);
    }
  }

  /** Popping a node that is already visited keeps the invariant. */
  lemma TraverseSkip(adj: map<int, seq<int>>, visited: set<int>, current: int, universe: set<int>,
                     path: seq<int>, seen: set<int>, stack: seq<int>)
    requires TraverseInv(adj, visited, current, universe, path, seen, stack)
    requires stack != [] && stack[|stack| - 1] in seen
    ensures TraverseInv(adj, visited, current, universe, path, seen, stack[..|stack| - 1])
  {
    SplitLast(stack);
    FrontierPop(adj, path, seen, stack);
  }

  /** Popping a new node, visiting it and pushing its neighbours keeps the invariant and leaves fewer unvisited nodes. */
  lemma TraverseVisit(adj: map<int, seq<int>>, visited: set<int>, current: int, universe: set<int>,
                      path: seq<int>, seen: set<int>, stack: seq<int>)
    requires TraverseInv(adj, visited, current, universe, path, seen, stack)
    requires Nodes(adj) <= universe
    requires stack != [] && stack[|stack| - 1] !in seen
    ensures var node := stack[|stack| - 1];
      TraverseInv(adj, visited, current, universe, path + [node], seen + {node}, stack[..|stack| - 1] + Neighbours(adj, node))
      && |universe - (seen + {node})| < |universe - seen|
  {
    var node := stack[|stack| - 1];
    SplitLast(stack);
    VisitReach(adj, visited, current, path, stack);
    VisitShape(adj, visited, current, universe, path, seen, stack);
    FrontierVisit(adj, path, seen, stack);
    FewerUnvisited(universe, seen, node);
  }

  /** The popped node, when new, is reachable, and so are its neighbours that were not visited on entry. */
  lemma VisitReach(adj: map<int, seq<int>>, visited: set<int>, current: int, path: seq<int>, stack: seq<int>)
    requires stack != [] && stack[|stack| - 1] !in visited
    requires forall n :: n in stack ==> n in visited || Reachable(adj, visited, current, n)
    requires forall n :: n in path ==> Reachable(adj, visited, current, n)
    ensures var node := stack[|stack| - 1];
      (forall n :: n in stack[..|stack| - 1] + Neighbours(adj, node) ==> n in visited || Reachable(adj, visited, current, n))
      && (forall n :: n in path + [node] ==> Reachable(adj, visited, current, n))
  {
    var node := stack[|stack| - 1];
    SplitLast(stack);
    ReachNeighbours(adj, visited, current, node);
  }

  /** Visiting the popped new node keeps the bookkeeping part of the invariant. */
  lemma VisitShape(adj: map<int, seq<int>>, visited: set<int>, current: int, universe: set<int>,
                   path: seq<int>, seen: set<int>, stack: seq<int>)
    requires TraverseInv(adj, visited, current, universe, path, seen, stack)
    requires Nodes(adj) <= universe
    requires stack != [] && stack[|stack| - 1] !in seen
    ensures var node := stack[|stack| - 1];
      var path', stack' := path + [node], stack[..|stack| - 1] + Neighbours(adj, node);
      (forall n :: n in seen + {node} <==> n in visited || n in path')
      && NoDuplicates(path')
      && (forall n :: n in path' ==> n !in visited)
      && (forall n :: n in stack' ==> n in universe)
      && path'[0] == current
  {
    var node := stack[|stack| - 1];
    SplitLast(stack);
    AppendOne(path, node);
    NeighboursInNodes(adj, node);
    if current in visited {
      NoReachFromAvoided(adj, visited, current, node);
    }
  }

  /** With the stack empty, the invariant gives the traversal's postconditions. */
  lemma TraverseDone(adj: map<int, seq<int>>, visited: set<int>, current: int, universe: set<int>,
                     path: seq<int>, seen: set<int>)
    requires TraverseInv(adj, visited, current, universe, path, seen, [])
    ensures seen == visited + Elems(path)
    ensures current in visited ==> path == []
    ensures current !in visited ==> path != [] && path[0] == current
    ensures forall n :: n in path <==> Reachable(adj, visited, current, n)
    ensures forall n, m :: n in path && m in Neighbours(adj, n) ==> m in seen
  {
    assert forall n :: n in seen <==> n in visited || n in path;
    UnionWithElems(seen, visited, path);
    if current !in visited {
      TraversalComplete(adj, visited, current, Elems(path));
    } else {
      forall n
        ensures !Reachable(adj, visited, current, n)
      {
        NoReachFromAvoided(adj, visited, current, n);
      }
    }
  }

  /** Adjacency leads from a node of `s` only to nodes of `s`. */
  ghost predicate ClosedSet(adj: map<int, seq<int>>, s: set<int>) {
    forall n, m :: n in s && m in Neighbours(adj, n) ==> m in s
  }

  /** From a key of a closed graph only keys are reachable. */
  lemma ReachInKeys(adj: map<int, seq<int>>, avoid: set<int>, from: int, n: int)
    requires Closed(adj) && from in adj && Reachable(adj, avoid, from, n)
    ensures n in adj
  {
    var w :| IsWalk(adj, avoid, w) && w[0] == from && w[|w| - 1] == n;
    WalkStaysIn(adj, avoid, w, adj.Keys, |w| - 1);
  }

  /** In a symmetric graph no walk from outside a closed set enters it. */
  lemma {:induction false} WalkAvoids(adj: map<int, seq<int>>, avoid: set<int>, w: seq<int>, i: nat)
    requires Symmetric(adj) && ClosedSet(adj, avoid)
    requires IsWalk(adj, {}, w) && w[0] !in avoid && i < |w|
    ensures w[i] !in avoid
  {
    if i > 0 {
      WalkAvoids(adj, avoid, w, i - 1);
      assert w[i] in Neighbours(adj, w[i - 1]);
      assert w[i - 1] in adj && w[i] in adj[w[i - 1]];
      assert w[i - 1] in Neighbours(adj, w[i]);
    }
  }

  /** In a symmetric graph, avoiding a closed set that does not hold the start changes nothing about reachability. */
  lemma ReachAroundClosed(adj: map<int, seq<int>>, avoid: set<int>, from: int)
    requires Symmetric(adj) && ClosedSet(adj, avoid) && from !in avoid
    ensures forall n :: Reachable(adj, avoid, from, n) <==> Reachable(adj, {}, from, n)
  {
    forall n | Reachable(adj, {}, from, n)
      ensures Reachable(adj, avoid, from, n)
    {
      var w :| IsWalk(adj, {}, w) && w[0] == from && w[|w| - 1] == n;
      forall i | 0 <= i < |w|
        ensures w[i] !in avoid
      {
        WalkAvoids(adj, avoid, w, i);
      }
      assert IsWalk(adj, avoid, w);
    }
    forall n | Reachable(adj, avoid, from, n)
      ensures Reachable(adj, {}, from, n)
    {
      var w :| IsWalk(adj, avoid, w) && w[0] == from && w[|w| - 1] == n;
      assert IsWalk(adj, {}, w);
    }
  }

  /** The union of the node sets of the paths. */
  function Union(paths: seq<seq<int>>): set<int> {
    if paths == [] then {} else Union(paths[..|paths| - 1]) + Elems(paths[|paths| - 1])
  }

  /** The union grows by the nodes of an appended path, and holds the nodes of every path. */
  lemma {:induction false} UnionAppend(paths: seq<seq<int>>, p: seq<int>)
    ensures Union(paths + [p]) == Union(paths) + Elems(p)
    ensures forall j :: 0 <= j < |paths| ==> Elems(paths[j]) <= Union(paths)
  {
    assert (paths + [p])[..|paths|] == paths;
    if paths != [] {
      var init := paths[..|paths| - 1];
      UnionAppend(init, paths[|paths| - 1]);
      assert init + [paths[|paths| - 1]] == paths;
    }
  }

  /** Non-empty, duplicate-free and pairwise disjoint paths. */
  predicate DisjointPaths(paths: seq<seq<int>>) {
    (forall i :: 0 <= i < |paths| ==> paths[i] != [] && NoDuplicates(paths[i]))
    && (forall i, j :: 0 <= i < j < |paths| ==> Elems(paths[i]) !! Elems(paths[j]))
  }

  /** Each path is closed under adjacency and holds exactly the nodes reachable from its first node: a connected component. */
  ghost predicate Components(adj: map<int, seq<int>>, paths: seq<seq<int>>) {
    forall i :: 0 <= i < |paths| ==>
      paths[i] != [] && ClosedSet(adj, Elems(paths[i])) && forall n :: n in paths[i] <==> Reachable(adj, {}, paths[i][0], n)
  }

  /** A path disjoint from the union of the earlier ones keeps the paths disjoint. */
  lemma DisjointAppend(paths: seq<seq<int>>, p: seq<int>)
    requires DisjointPaths(paths) && p != [] && NoDuplicates(p) && Elems(p) !! Union(paths)
    ensures DisjointPaths(paths + [p])
  {
    UnionAppend(paths, p);
    var r := paths + [p];
    forall i, j | 0 <= i < j < |r|
      ensures Elems(r[i]) !! Elems(r[j])
    {
      if j == |paths| {
        assert Elems(r[i]) <= Union(paths);
      }
    }
  }

  /**
   * One step of get_paths_from_graph on an unvisited key: the traversal's
   * path extends the visited set, which stays closed; in a symmetric graph
   * the path is closed and is the component of its key.
   */
  lemma ComponentAppend(adj: map<int, seq<int>>, paths: seq<seq<int>>, visited: set<int>, key: int, path: seq<int>)
    requires ClosedSet(adj, visited) && key !in visited
    requires path != [] && path[0] == key
    requires forall n :: n in path ==> n !in visited
    requires forall n :: n in path <==> Reachable(adj, visited, key, n)
    requires forall n, m :: n in path && m in Neighbours(adj, n) ==> m in visited + Elems(path)
    requires Symmetric(adj) ==> Components(adj, paths)
    ensures ClosedSet(adj, visited + Elems(path))
    ensures Symmetric(adj) ==> Components(adj, paths + [path])
  {
    VisitedStaysClosed(adj, visited, path);
    if Symmetric(adj) {
      PathClosed(adj, visited, path);
      ReachAroundClosed(adj, visited, key);
      var r := paths + [path];
      assert r[|paths|] == path;
      assert forall i :: 0 <= i < |paths| ==> r[i] == paths[i];
    }
  }

  /** Adding a traversal's path to a closed visited set keeps it closed. */
  lemma VisitedStaysClosed(adj: map<int, seq<int>>, visited: set<int>, path: seq<int>)
    requires ClosedSet(adj, visited)
    requires forall n, m :: n in path && m in Neighbours(adj, n) ==> m in visited + Elems(path)
    ensures ClosedSet(adj, visited + Elems(path))
  {
    forall n, m | n in visited + Elems(path) && m in Neighbours(adj, n)
      ensures m in visited + Elems(path)
    {
      if n !in visited {
        assert n in path;
      }
    }
  }

  /** In a symmetric graph, a traversal's path from outside a closed visited set is itself closed. */
  lemma PathClosed(adj: map<int, seq<int>>, visited: set<int>, path: seq<int>)
    requires Symmetric(adj) && ClosedSet(adj, visited)
    requires forall n :: n in path ==> n !in visited
    requires forall n, m :: n in path && m in Neighbours(adj, n) ==> m in visited + Elems(path)
    ensures ClosedSet(adj, Elems(path))
  {
    forall n, m | n in Elems(path) && m in Neighbours(adj, n)
      ensures m in Elems(path)
    {
      assert n in path;
      assert n in adj && m in adj[n];
      assert n in Neighbours(adj, m);
      assert m in visited ==> n in visited;
      assert m in visited + Elems(path);
    }
  }

  /**
   * get_paths_from_graph: a traversal from every key, in key order, that is
   * not yet visited, the visited set shared between traversals. The paths
   * are disjoint and cover the keys; in a symmetric graph each is a connected
   * component. The graph must be closed: traverse_graph reads `graph[node]`
   * for every node it pops, and on a neighbour that is not a key the
   * defaultdict would grow during the iteration over its keys.
   */
  method GetPaths(g: Graph) returns (paths: seq<seq<int>>)
    requires g.Valid() && Closed(g.adj)
    ensures DisjointPaths(paths)
    ensures Union(paths) == g.adj.Keys
    ensures Symmetric(g.adj) ==> Components(g.adj, paths)
  {
    var visited: set<int> := {};
    paths := [];
    for i := 0 to |g.order|
      invariant PathsInv(g, i, visited, paths)
    {
      var key := g.order[i];
      if key !in visited {
        var path, visitedOut := Traverse(g.adj, visited, key);
        PathsStep(g, i, visited, paths, path);
        paths := paths + [path];
        visited := visitedOut;
      }
    }
    PathsDone(g, visited, paths);
  }

  /**
   * The loop invariant of get_paths_from_graph after the first i keys: the
   * visited set is the union of the paths, holds those keys and only keys,
   * and is closed; the paths are disjoint and, in a symmetric graph,
   * components.
   */
  ghost predicate PathsInv(g: Graph, i: nat, visited: set<int>, paths: seq<seq<int>>) {
    i <= |g.order|
    && visited == Union(paths)
    && visited <= g.adj.Keys
    && (forall k :: 0 <= k < i ==> g.order[k] in visited)
    && ClosedSet(g.adj, visited)
    && DisjointPaths(paths)
    && (Symmetric(g.adj) ==> Components(g.adj, paths))
  }

  /** The traversal from an unvisited key adds a new component and keeps the invariant. */
  lemma PathsStep(g: Graph, i: nat, visited: set<int>, paths: seq<seq<int>>, path: seq<int>)
    requires g.Valid() && Closed(g.adj)
    requires PathsInv(g, i, visited, paths) && i < |g.order| && g.order[i] !in visited
    requires NoDuplicates(path)
    requires forall n :: n in path ==> n !in visited
    requires path != [] && path[0] == g.order[i]
    requires forall n :: n in path <==> Reachable(g.adj, visited, g.order[i], n)
    requires forall n, m :: n in path && m in Neighbours(g.adj, n) ==> m in visited + Elems(path)
    ensures PathsInv(g, i + 1, visited + Elems(path), paths + [path])
  {
    var key := g.order[i];
    assert key in Elems(g.order);
    forall n | n in path
      ensures n in g.adj
    {
      ReachInKeys(g.adj, visited, key, n);
    }
    UnionAppend(paths, path);
    DisjointAppend(paths, path);
    ComponentAppend(g.adj, paths, visited, key, path);
  }

  /** After the last key the paths cover every key. */
  lemma PathsDone(g: Graph, visited: set<int>, paths: seq<seq<int>>)
    requires g.Valid() && PathsInv(g, |g.order|, visited, paths)
    ensures Union(paths) == g.adj.Keys
  {
    forall k | k in g.adj
      ensures k in visited
    {
      assert k in Elems(g.order);
      var idx :| 0 <= idx < |g.order| && g.order[idx] == k;
    }
  }
}
