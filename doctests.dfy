/**
 * The examples in the docstrings of `digraph.py`, each as a client of the
 * model whose contract is the output the docstring shows. The facts about
 * each concrete graph are proved on plain sets, apart from the objects.
 */
module Doctests {
  import opened Wrappers
  import opened GraphSpec
  import opened Digraphs
  import opened WalkCompression
  import opened LeastCostSearch

  /** `Digraph()`: no vertices, no edges. */
  method EmptyGraph() returns (G: Digraph<int>)
    ensures fresh(G) && G.Valid() && G.Edges() == {} && G.Vertices() == {}
  {
    assert forall v :: v !in Endpoints<int>([]);
    G := new Digraph<int>([]);
  }

  /** `Digraph()` has no vertices and no edges. */
  method EmptyGraphExample() returns (n: nat, m: nat)
    ensures n == 0 && m == 0
  {
    var G := EmptyGraph();
    n := G.NumVertices();
    m := G.NumEdges();
  }

  /** `Digraph([(1, 2), (2, 3), (3, 1)])`. */
  method CircularGraph() returns (G: Digraph<int>)
    ensures fresh(G) && G.Valid()
    ensures G.Edges() == {(1, 2), (2, 3), (3, 1)} && G.Vertices() == {1, 2, 3}
  {
    var es := [(1, 2), (2, 3), (3, 1)];
    CircularEdges(es);
    G := new Digraph<int>(es);
  }

  /** The three listed edges, and their endpoints 1, 2, 3. */
  lemma CircularEdges(es: seq<(int, int)>)
    requires es == [(1, 2), (2, 3), (3, 1)]
    ensures Listed(es) == {(1, 2), (2, 3), (3, 1)} && Endpoints(es) == {1, 2, 3}
  {
    assert es[0] == (1, 2) && es[1] == (2, 3) && es[2] == (3, 1);
    forall v ensures v in Endpoints(es) <==> v in {1, 2, 3} {
      if v in Endpoints(es) {
        var e :| e in es && (v == e.0 || v == e.1);
      }
    }
  }

  lemma CircularSizes(E: set<(int, int)>, Vs: set<int>)
    requires E == {(1, 2), (2, 3), (3, 1)} && Vs == {1, 2, 3}
    ensures |E| == 3 && |Vs| == 3
  {
  }

  /** `Digraph([(1, 2), (2, 3), (3, 1)])` has three vertices and three edges. */
  method CircularGraphExample() returns (n: nat, m: nat)
    ensures n == 3 && m == 3
  {
    var G := CircularGraph();
    n := G.NumVertices();
    m := G.NumEdges();
    CircularSizes(G.Edges(), G.Vertices());
  }

  /** `add_vertex(1)` on the empty graph gives the vertex set `{1}`. */
  method AddVertexExample() returns (vs: set<int>)
    ensures vs == {1}
  {
    var G := EmptyGraph();
    G.AddVertex(1);
    vs := G.Vertices();
  }

  lemma AddEdgeSizes(E: set<(int, int)>, Vs: set<int>)
    requires E == {} + {(1, 2)} + {(2, 1)} + {(3, 4)} + {(1, 2)}
    requires Vs == {} + {1} + {2} + {1, 2} + {2, 1} + {3, 4} + {1, 2}
    ensures |E| == 3 && |Vs| == 4
  {
    assert E == {(1, 2), (2, 1), (3, 4)};
    assert Vs == {1, 2, 3, 4};
  }

  /**
   * Adding vertices 1 and 2, then the edges (1, 2), (2, 1), (3, 4) and
   * (1, 2) again, leaves three edges and four vertices.
   */
  method AddEdgeExample() returns (m: nat, n: nat)
    ensures m == 3 && n == 4
  {
    var G := EmptyGraph();
    G.AddVertex(1);
    G.AddVertex(2);
    G.AddEdge((1, 2));
    G.AddEdge((2, 1));
    G.AddEdge((3, 4));
    G.AddEdge((1, 2));
    m := G.NumEdges();
    n := G.NumVertices();
    AddEdgeSizes(G.Edges(), G.Vertices());
  }

  lemma AdjToSets(E: set<(int, int)>, of3: set<int>, of1: set<int>)
    requires E == {} + {(1, 3)} + {(1, 2)}
    requires forall w :: w in of3 <==> (3, w) in E
    requires forall w :: w in of1 <==> (1, w) in E
    ensures of3 == {} && of1 == {2, 3}
  {
    assert E == {(1, 3), (1, 2)};
    assert forall w :: w !in of3;
    assert forall w :: w in of1 <==> w == 2 || w == 3;
  }

  /** Vertices 1, 2, 3 and the edges (1, 3), (1, 2): vertex 3 has no out-neighbours, vertex 1 has 2 and 3. */
  method AdjToExample() returns (of3: set<int>, of1: set<int>)
    ensures of3 == {} && of1 == {2, 3}
  {
    var G := EmptyGraph();
    G.AddVertex(1);
    G.AddVertex(2);
    G.AddVertex(3);
    G.AddEdge((1, 3));
    G.AddEdge((1, 2));
    of3 := G.AdjTo(3);
    of1 := G.AdjTo(1);
    AdjToSets(G.Edges(), of3, of1);
  }

  lemma AdjFromSets(E: set<(int, int)>, of1: set<int>, of3: set<int>)
    requires E == {} + {(1, 3)} + {(2, 3)}
    requires forall u :: u in of1 <==> (u, 1) in E
    requires forall u :: u in of3 <==> (u, 3) in E
    ensures of1 == {} && of3 == {1, 2}
  {
    assert E == {(1, 3), (2, 3)};
    assert forall u :: u !in of1;
    assert forall u :: u in of3 <==> u == 1 || u == 2;
  }

  /** The edges (1, 3), (2, 3): vertex 1 has no in-neighbours, vertex 3 has 1 and 2. */
  method AdjFromExample() returns (of1: set<int>, of3: set<int>)
    ensures of1 == {} && of3 == {1, 2}
  {
    var G := EmptyGraph();
    G.AddEdge((1, 3));
    G.AddEdge((2, 3));
    of1 := G.AdjFrom(1);
    of3 := G.AdjFrom(3);
    AdjFromSets(G.Edges(), of1, of3);
  }

  /** The graph of the `is_path` docstring. */
  method IsPathGraph() returns (G: Digraph<int>)
    ensures fresh(G) && G.Valid()
    ensures G.Edges() == {(1, 2), (2, 3), (2, 4), (1, 5), (2, 5), (4, 5), (5, 2)}
  {
    var es := [(1, 2), (2, 3), (2, 4), (1, 5), (2, 5), (4, 5), (5, 2)];
    assert Listed(es) == {(1, 2), (2, 3), (2, 4), (1, 5), (2, 5), (4, 5), (5, 2)};
    G := new Digraph<int>(es);
  }

  /** Which of the docstring's lists are walks of the `is_path` graph. */
  lemma IsPathWalks(E: set<(int, int)>, p1: seq<int>, p2: seq<int>, p4: seq<int>)
    requires E == {(1, 2), (2, 3), (2, 4), (1, 5), (2, 5), (4, 5), (5, 2)}
    requires p1 == [1, 5, 2, 4, 5] && p2 == [1, 5, 4, 2] && p4 == [5, 4, 2, 5, 1]
    ensures forall k :: 0 <= k < |p1| - 1 ==> (p1[k], p1[k + 1]) in E
    ensures (p2[1], p2[2]) !in E && (p4[0], p4[1]) !in E
    ensures (1, 5) in E
  {
  }

  /** The four `is_path` examples on one seven-edge graph. */
  method IsPathExample() returns (a: bool, b: bool, c: bool, d: bool)
    ensures a && !b && c && !d
  {
    var G := IsPathGraph();
    var p1, p2, p4 := [1, 5, 2, 4, 5], [1, 5, 4, 2], [5, 4, 2, 5, 1];
    IsPathWalks(G.Edges(), p1, p2, p4);
    a := G.IsPath(p1);
    b := G.IsPath(p2);
    c := G.IsPath([1]);
    d := G.IsPath(p4);
  }

  /** `compress` leaves `[1, 2, 3, 4]` alone and cuts `[1, 3, 0, 1, 6, 4, 8, 6, 2]` down to `[1, 6, 2]`. */
  method CompressExample() returns (a: seq<int>, b: seq<int>)
    ensures a == [1, 2, 3, 4] && b == [1, 6, 2]
  {
    CompressedDistinct();
    CompressedCycles();
    a := Compress([1, 2, 3, 4]);
    b := Compress([1, 3, 0, 1, 6, 4, 8, 6, 2]);
  }

  /** A walk with no repeated vertex compresses to itself. */
  lemma CompressedDistinct()
    ensures Compressed([1, 2, 3, 4]) == [1, 2, 3, 4]
  {
    CompressedWithoutRepeats([1, 2, 3, 4]);
  }

  /** The jumps go from position 0 past the last 1 (position 3) to 6, past its last occurrence (7) to 2. */
  lemma CompressedCycles()
    ensures Compressed([1, 3, 0, 1, 6, 4, 8, 6, 2]) == [1, 6, 2]
  {
    var v := [1, 3, 0, 1, 6, 4, 8, 6, 2];
    LastIndexUnique(v, 1, 3);
    LastIndexUnique(v, 6, 7);
    LastIndexUnique(v, 2, 8);
    assert CompressFrom(v, 9) == [];
    assert CompressFrom(v, 8) == [2];
    assert CompressFrom(v, 4) == [6, 2];
  }

  /** The graph of the `least_cost_path` docstring. */
  method RoadGraph() returns (G: Digraph<int>)
    ensures fresh(G) && G.Valid()
    ensures G.Edges() == {(1, 2), (2, 3), (3, 4), (4, 5), (1, 6), (3, 6), (6, 7)}
  {
    var es := [(1, 2), (2, 3), (3, 4), (4, 5), (1, 6), (3, 6), (6, 7)];
    assert Listed(es) == {(1, 2), (2, 3), (3, 4), (4, 5), (1, 6), (3, 6), (6, 7)};
    G := new Digraph<int>(es);
  }

  /** `[1, 6, 7]` is a walk of the docstring graph, and the only one from 1 to 7 with at most three vertices. */
  lemma OnlyShortRoute(to: map<int, set<int>>, E: set<(int, int)>)
    requires E == {(1, 2), (2, 3), (3, 4), (4, 5), (1, 6), (3, 6), (6, 7)}
    requires forall v, w :: (v, w) in E <==> HasEdge(to, v, w)
    ensures IsPathFromTo(to, [1, 6, 7], 1, 7)
    ensures forall q :: IsPathFromTo(to, q, 1, 7) && |q| <= 3 ==> q == [1, 6, 7]
  {
    assert (1, 6) in E && (6, 7) in E;
    forall q | IsPathFromTo(to, q, 1, 7) && |q| <= 3 ensures q == [1, 6, 7] {
      assert HasEdge(to, q[|q| - 2], 7);
      assert (q[|q| - 2], 7) in E;
    }
  }

  /** The graph with the edges (1, 2) and (5, 4). */
  method SplitGraph() returns (G: Digraph<int>)
    ensures fresh(G) && G.Valid()
    ensures G.Edges() == {(1, 2), (5, 4)}
  {
    var es := [(1, 2), (5, 4)];
    assert Listed(es) == {(1, 2), (5, 4)};
    G := new Digraph<int>(es);
  }

  /** From 1 only 1 and 2 can be reached in the graph with the edges (1, 2) and (5, 4). */
  lemma NoRouteToFive(to: map<int, set<int>>, E: set<(int, int)>)
    requires E == {(1, 2), (5, 4)}
    requires forall v, w :: (v, w) in E <==> HasEdge(to, v, w)
    ensures !Reachable(to, 1, 5)
  {
    assert Closed(to, {1, 2}) by {
      forall x, y | x in {1, 2} && HasEdge(to, x, y) ensures y in {1, 2} {
        assert (x, y) in E;
      }
    }
    forall r | IsPathFromTo(to, r, 1, 5) ensures false {
      ClosedKeepsWalks(to, {1, 2}, r, 1, 5);
    }
  }

  /**
   * Any answer meeting the contract of `shortest_path` from 1 to 7 in the
   * docstring graph is `[1, 6, 7]`.
   */
  lemma ShortestRouteIs(to: map<int, set<int>>, E: set<(int, int)>, p: Option<seq<int>>)
    requires E == {(1, 2), (2, 3), (3, 4), (4, 5), (1, 6), (3, 6), (6, 7)}
    requires forall v, w :: (v, w) in E <==> HasEdge(to, v, w)
    requires p.None? <==> !Reachable(to, 1, 7)
    requires p.Some? ==> IsPathFromTo(to, p.value, 1, 7)
    requires p.Some? ==> forall q :: IsPathFromTo(to, q, 1, 7) ==> |p.value| <= |q|
    ensures p == Some([1, 6, 7])
  {
    OnlyShortRoute(to, E);
    assert Reachable(to, 1, 7);
    assert |p.value| <= |[1, 6, 7]|;
  }

  /**
   * The least-cost path with unit costs from 1 to 7 in the docstring graph
   * is `[1, 6, 7]`, and `is_path` accepts it.
   */
  method LeastCostPathExample() returns (p: Option<seq<int>>, ok: bool)
    ensures p == Some([1, 6, 7]) && ok
  {
    var G := RoadGraph();
    p := ShortestPath(G, 1, 7);
    ShortestRouteIs(G.tosets, G.Edges(), p);
    ok := G.IsPath(p.value);
  }

  /** In the graph with the edges (1, 2) and (5, 4) there is no path from 1 to 5. */
  method NoPathExample() returns (p: Option<seq<int>>)
    ensures p == None
  {
    var G := SplitGraph();
    NoRouteToFive(G.tosets, G.Edges());
    p := ShortestPath(G, 1, 5);
  }
}
