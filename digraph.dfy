/**
 * The `Digraph` class: a directed graph held as two dictionaries, `_tosets`
 * (out-neighbours) and `_fromsets` (in-neighbours), that `add_vertex` and
 * `add_edge` grow in place. Vertices are immutable values; vertices and
 * edges are never removed.
 */
module Digraphs {
  import opened GraphSpec

  class Digraph<V(==, !new)> {
    var tosets: map<V, set<V>>
    var fromsets: map<V, set<V>>

    /** The representation invariant kept by every operation. */
    ghost predicate Valid()
      reads this
    {
      Consistent(tosets, fromsets)
    }

    /** `Digraph(edges)`: the empty graph, then `add_edge` for each listed edge in order. */
    constructor (edges: seq<(V, V)>)
      ensures Valid()
      ensures Edges() == Listed(edges)
      ensures Vertices() == Endpoints(edges)
    {
      tosets := map[];
      fromsets := map[];
      new;
      var i := 0;
      while i < |edges|
        invariant 0 <= i <= |edges|
        invariant Valid()
        invariant Edges() == Listed(edges[..i])
        invariant Vertices() == Endpoints(edges[..i])
      {
        ListedPrefixStep(edges, i);
        AddEdge(edges[i]);
        i := i + 1;
      }
      assert edges[..i] == edges;
    }

    /** `add_vertex(v)`: a vertex not yet present is added with no edges; otherwise nothing changes. */
    method AddVertex(v: V)
      requires Valid()
      modifies this
      ensures Valid()
      ensures tosets == WithVertex(old(tosets), v)
      ensures fromsets == WithVertex(old(fromsets), v)
      ensures Edges() == old(Edges())
    {
      AddVertexKeepsGraph(tosets, fromsets, v);
      if v !in tosets {
        tosets := tosets[v := {}];
        fromsets := fromsets[v := {}];
      }
    }

    /**
     * `add_edge(e)`: adds both endpoints (those not yet present), then
     * records `e.1` as an out-neighbour of `e.0` and `e.0` as an
     * in-neighbour of `e.1`.
     */
    method AddEdge(e: (V, V))
      requires Valid()
      modifies this
      ensures Valid()
      ensures tosets == LinkTo(old(tosets), e)
      ensures fromsets == LinkFrom(old(fromsets), e)
      ensures Edges() == old(Edges()) + {e}
      ensures Vertices() == old(Vertices()) + {e.0, e.1}
    {
      AddEdgeConsistent(tosets, fromsets, e);
      AddEdgeEdges(tosets, e);
      AddVertex(e.0);
      AddVertex(e.1);
      tosets := tosets[e.0 := tosets[e.0] + {e.1}];
      fromsets := fromsets[e.1 := fromsets[e.1] + {e.0}];
    }

    /** `edges()`: the set of ordered pairs `(v, w)` with `w` an out-neighbour of `v`. */
    function Edges(): (r: set<(V, V)>)
      reads this
      ensures forall v, w :: (v, w) in r <==> v in tosets && w in tosets[v]
    {
      EdgesOf(tosets)
    }

    /** `vertices()`: every vertex present, including the endpoints of every edge. */
    function Vertices(): (r: set<V>)
      reads this
      requires Valid()
      ensures forall v, w :: (v, w) in Edges() ==> v in r && w in r
      ensures forall v :: v in r <==> v in fromsets
    {
      tosets.Keys
    }

    /** `num_edges()`: sums the out-set sizes vertex by vertex. */
    method NumEdges() returns (m: nat)
      requires Valid()
      ensures m == |Edges()|
    {
      m := 0;
      var todo := tosets.Keys;
      while todo != {}
        invariant todo <= tosets.Keys
        invariant m == |EdgesAmong(tosets, tosets.Keys - todo)|
        decreases todo
      {
        var v :| v in todo;
        EdgesAmongStep(tosets, tosets.Keys - todo, v);
        assert (tosets.Keys - todo) + {v} == tosets.Keys - (todo - {v});
        m := m + |tosets[v]|;
        todo := todo - {v};
      }
      assert tosets.Keys - todo == tosets.Keys;
      EdgesAmongAll(tosets);
    }

    /** `num_vertices()`. */
    function NumVertices(): (n: nat)
      reads this
      requires Valid()
      ensures n == |Vertices()|
    {
      |tosets|
    }

    /** `adj_to(v)`: the out-neighbours of a vertex that is present. */
    function AdjTo(v: V): (r: set<V>)
      reads this
      requires Valid() && v in Vertices()
      ensures forall w :: w in r <==> (v, w) in Edges()
    {
      tosets[v]
    }

    /** `adj_from(v)`: the in-neighbours of a vertex that is present, read from `_fromsets`. */
    function AdjFrom(v: V): (r: set<V>)
      reads this
      requires Valid() && v in Vertices()
      ensures forall u :: u in r <==> (u, v) in Edges()
    {
      fromsets[v]
    }

    /**
     * `is_path(path)`: steps an index through the list; true on reaching
     * the last element, false at the first consecutive pair that is not an
     * edge, and false (Python's `None`) for the empty list. Only the first
     * vertex is ever looked up without having been reached by an edge.
     */
    method IsPath(path: seq<V>) returns (r: bool)
      requires Valid()
      requires |path| > 1 ==> path[0] in Vertices()
      ensures r <==> |path| > 0 && forall k :: 0 <= k < |path| - 1 ==> (path[k], path[k + 1]) in Edges()
    {
      var index := 0;
      while index < |path|
        invariant 0 <= index <= |path| - 1 || index == |path| == 0
        invariant forall k :: 0 <= k < index ==> HasEdge(tosets, path[k], path[k + 1])
        invariant index + 1 < |path| ==> path[index] in tosets
      {
        var i := path[index];
        var nextEle := path[(index + 1) % |path|];
        index := index + 1;
        if index + 1 > |path| {
          return true;
        }
        WrapBelow(index, |path|);
        var elements := AdjTo(i);
        if nextEle !in elements {
          return false;
        }
        assert nextEle in fromsets;
      }
      return false;
    }
  }

  /** Below the modulus, `%` leaves a number unchanged. */
  lemma WrapBelow(a: nat, n: nat)
    requires a < n
    ensures a % n == a
  {
  }
}
