/**
 * The abstract state of a `Digraph` and the value-level meaning of its
 * operations. A graph is the pair of dictionaries `_tosets` (vertex to the
 * set of its out-neighbours) and `_fromsets` (vertex to the set of its
 * in-neighbours); here both are `map<V, set<V>>`. The class in module
 * `Digraphs` updates its fields to exactly these values, and the lemmas
 * below state what the updates preserve.
 */
module GraphSpec {

  /** `v -> w` is an edge of the out-neighbour map `to`. */
  predicate HasEdge<V(==, !new)>(to: map<V, set<V>>, v: V, w: V) {
    v in to && w in to[v]
  }

  /** The edge set that `Digraph.edges` builds from `_tosets`. */
  function EdgesOf<V(==, !new)>(to: map<V, set<V>>): (r: set<(V, V)>)
    ensures forall v, w :: (v, w) in r <==> HasEdge(to, v, w)
  {
    set v, w | v in to && w in to[v] :: (v, w)
  }

  /** The edges whose source lies in `ks`; `EdgesOf(to)` is the case `ks == to.Keys`. */
  function EdgesAmong<V(==, !new)>(to: map<V, set<V>>, ks: set<V>): (r: set<(V, V)>)
    ensures forall v, w :: (v, w) in r <==> v in ks && HasEdge(to, v, w)
  {
    set v, w | v in ks && v in to && w in to[v] :: (v, w)
  }

  /**
   * The representation invariant: both maps have the same keys, and
   * `w` is in the out-set of `v` exactly when `v` is in the in-set of `w`.
   */
  ghost predicate Consistent<V(!new)>(to: map<V, set<V>>, from: map<V, set<V>>) {
    && to.Keys == from.Keys
    && (forall v, w :: v in to && w in to[v] ==> w in from && v in from[w])
    && (forall v, w :: w in from && v in from[w] ==> v in to && w in to[v])
  }

  /** `add_vertex` on one of the two dictionaries: a new key starts with the empty set. */
  function WithVertex<V(==, !new)>(m: map<V, set<V>>, v: V): (r: map<V, set<V>>)
    ensures r.Keys == m.Keys + {v}
    ensures forall u :: u in m ==> r[u] == m[u]
    ensures v !in m ==> r[v] == {}
  {
    if v in m then m else m[v := {}]
  }

  /** `_tosets` after `add_edge(e)`: both endpoints present, `e.1` added to the out-set of `e.0`. */
  function LinkTo<V(==, !new)>(to: map<V, set<V>>, e: (V, V)): (r: map<V, set<V>>)
    ensures r.Keys == to.Keys + {e.0, e.1}
  {
    var m := WithVertex(WithVertex(to, e.0), e.1);
    m[e.0 := m[e.0] + {e.1}]
  }

  /** `_fromsets` after `add_edge(e)`: both endpoints present, `e.0` added to the in-set of `e.1`. */
  function LinkFrom<V(==, !new)>(from: map<V, set<V>>, e: (V, V)): (r: map<V, set<V>>)
    ensures r.Keys == from.Keys + {e.0, e.1}
  {
    var m := WithVertex(WithVertex(from, e.0), e.1);
    m[e.1 := m[e.1] + {e.0}]
  }

  /** Adding a vertex twice is the same as adding it once. */
  lemma AddVertexIdempotent<V(!new)>(m: map<V, set<V>>, v: V)
    ensures WithVertex(WithVertex(m, v), v) == WithVertex(m, v)
  {
  }

  /** Adding a vertex adds no edge and keeps the invariant. */
  lemma AddVertexKeepsGraph<V(!new)>(to: map<V, set<V>>, from: map<V, set<V>>, v: V)
    requires Consistent(to, from)
    ensures Consistent(WithVertex(to, v), WithVertex(from, v))
    ensures EdgesOf(WithVertex(to, v)) == EdgesOf(to)
  {
  }

  /** `add_edge(e)` adds exactly the edge `e` to the edge set. */
  lemma AddEdgeEdges<V(!new)>(to: map<V, set<V>>, e: (V, V))
    ensures EdgesOf(LinkTo(to, e)) == EdgesOf(to) + {e}
  {
    var r := LinkTo(to, e);
    forall v, w ensures HasEdge(r, v, w) <==> HasEdge(to, v, w) || (v, w) == e {
    }
  }

  /** After `add_edge(e)`, `w` is an out-neighbour of `v` exactly when it was before or `(v, w)` is `e`. */
  lemma LinkToHas<V(!new)>(to: map<V, set<V>>, e: (V, V), v: V, w: V)
    ensures HasEdge(LinkTo(to, e), v, w) <==> HasEdge(to, v, w) || (v == e.0 && w == e.1)
  {
  }

  /** After `add_edge(e)`, `v` is an in-neighbour of `w` exactly when it was before or `(v, w)` is `e`. */
  lemma LinkFromHas<V(!new)>(from: map<V, set<V>>, e: (V, V), v: V, w: V)
    ensures (w in LinkFrom(from, e) && v in LinkFrom(from, e)[w]) <==> (w in from && v in from[w]) || (v == e.0 && w == e.1)
  {
  }

  /** `add_edge(e)` keeps `w in _tosets[v] <==> v in _fromsets[w]`. */
  lemma AddEdgeConsistent<V(!new)>(to: map<V, set<V>>, from: map<V, set<V>>, e: (V, V))
    requires Consistent(to, from)
    ensures Consistent(LinkTo(to, e), LinkFrom(from, e))
  {
    var t, f := LinkTo(to, e), LinkFrom(from, e);
    forall v, w ensures (v in t && w in t[v]) <==> (w in f && v in f[w]) {
      LinkToHas(to, e, v, w);
      LinkFromHas(from, e, v, w);
    }
  }

  /** Re-adding an edge that is already present changes neither dictionary. */
  lemma AddEdgeIdempotent<V(!new)>(to: map<V, set<V>>, from: map<V, set<V>>, e: (V, V))
    requires Consistent(to, from) && HasEdge(to, e.0, e.1)
    ensures LinkTo(to, e) == to && LinkFrom(from, e) == from
  {
    assert to[e.0] + {e.1} == to[e.0];
    assert e.0 in from[e.1];
    assert from[e.1] + {e.0} == from[e.1];
  }

  /** Under the invariant, the in-sets describe the same edges as the out-sets. */
  lemma FromSetsMirrorEdges<V(!new)>(to: map<V, set<V>>, from: map<V, set<V>>, v: V, w: V)
    requires Consistent(to, from)
    ensures (v, w) in EdgesOf(to) <==> w in from && v in from[w]
  {
  }

  /** The edges leaving `v` are as many as the out-neighbours of `v`. */
  lemma {:induction false} OutEdgesCount<V(!new)>(v: V, s: set<V>)
    ensures |set w | w in s :: (v, w)| == |s|
    decreases s
  {
    if s != {} {
      var x :| x in s;
      var rest := s - {x};
      OutEdgesCount(v, rest);
      assert (set w | w in s :: (v, w)) == (set w | w in rest :: (v, w)) + {(v, x)};
    }
  }

  /** Adding one more source vertex to `ks` adds its out-set's worth of edges. */
  lemma EdgesAmongStep<V(!new)>(to: map<V, set<V>>, ks: set<V>, v: V)
    requires v in to && v !in ks
    ensures |EdgesAmong(to, ks + {v})| == |EdgesAmong(to, ks)| + |to[v]|
  {
    var out := set w | w in to[v] :: (v, w);
    assert EdgesAmong(to, ks + {v}) == EdgesAmong(to, ks) + out;
    assert EdgesAmong(to, ks) !! out;
    OutEdgesCount(v, to[v]);
  }

  /** With every vertex as a source, `EdgesAmong` is the whole edge set. */
  lemma EdgesAmongAll<V(!new)>(to: map<V, set<V>>)
    ensures EdgesAmong(to, to.Keys) == EdgesOf(to)
  {
    forall e ensures e in EdgesAmong(to, to.Keys) <==> e in EdgesOf(to) {
      assert e == (e.0, e.1);
    }
  }

  /** The edges listed in `es`. */
  function Listed<V(==, !new)>(es: seq<(V, V)>): (r: set<(V, V)>)
    ensures forall e :: e in r <==> e in es
  {
    set e | e in es
  }

  /** The endpoints of the edges listed in `es`. */
  function Endpoints<V(==, !new)>(es: seq<(V, V)>): (r: set<V>)
    ensures forall v :: v in r <==> exists e :: e in es && (v == e.0 || v == e.1)
  {
    (set e | e in es :: e.0) + (set e | e in es :: e.1)
  }

  /** Extending a prefix of the list by one edge adds that edge and its two endpoints. */
  lemma ListedPrefixStep<V(!new)>(es: seq<(V, V)>, i: nat)
    requires i < |es|
    ensures Listed(es[..i + 1]) == Listed(es[..i]) + {es[i]}
    ensures Endpoints(es[..i + 1]) == Endpoints(es[..i]) + {es[i].0, es[i].1}
  {
    assert es[..i + 1] == es[..i] + [es[i]];
    ListedStep(es[..i], es[i]);
  }

  /** Listing one more edge adds it and its two endpoints. */
  lemma ListedStep<V(!new)>(es: seq<(V, V)>, e: (V, V))
    ensures Listed(es + [e]) == Listed(es) + {e}
    ensures Endpoints(es + [e]) == Endpoints(es) + {e.0, e.1}
  {
    forall v ensures v in Endpoints(es + [e]) <==> v in Endpoints(es) + {e.0, e.1} {
      if v in Endpoints(es + [e]) {
        var x :| x in es + [e] && (v == x.0 || v == x.1);
        if x != e {
          assert x in es;
        }
      }
      if v in Endpoints(es) {
        var x :| x in es && (v == x.0 || v == x.1);
        assert x in es + [e];
      }
      assert e in es + [e];
    }
  }

  // ---------------------------------------------------------------------
  // Walks and paths

  /** Every consecutive pair of `p` is an edge; nothing is required of the last vertex. */
  predicate IsWalk<V(==, !new)>(to: map<V, set<V>>, p: seq<V>) {
    forall k :: 0 <= k < |p| - 1 ==> HasEdge(to, p[k], p[k + 1])
  }

  /** `p` is a non-empty walk from `s` to `d`. */
  predicate IsPathFromTo<V(==, !new)>(to: map<V, set<V>>, p: seq<V>, s: V, d: V) {
    |p| > 0 && p[0] == s && p[|p| - 1] == d && IsWalk(to, p)
  }

  ghost predicate Reachable<V(!new)>(to: map<V, set<V>>, s: V, d: V) {
    exists p :: IsPathFromTo(to, p, s, d)
  }

  /** No vertex occurs twice. */
  predicate NoRepeats<V(==, !new)>(s: seq<V>) {
    forall i, j :: 0 <= i < j < |s| ==> s[i] != s[j]
  }

  /** The sum of the costs of the consecutive pairs of `p`. */
  function PathCost<V(==, !new)>(cost: ((V, V)) -> nat, p: seq<V>): nat {
    if |p| <= 1 then 0 else cost((p[0], p[1])) + PathCost(cost, p[1..])
  }

  /** A set of vertices that no edge leaves. */
  ghost predicate Closed<V(!new)>(to: map<V, set<V>>, S: set<V>) {
    forall x, y :: x in S && HasEdge(to, x, y) ==> y in S
  }

  /** The cost of a walk is the cost up to any of its vertices plus the cost from there on. */
  lemma {:induction false} PathCostSplit<V(!new)>(cost: ((V, V)) -> nat, p: seq<V>, i: nat)
    requires i < |p|
    ensures PathCost(cost, p) == PathCost(cost, p[..i + 1]) + PathCost(cost, p[i..])
  {
    if i > 0 {
      PathCostSplit(cost, p[1..], i - 1);
      assert p[1..][..i] == p[..i + 1][1..];
      assert p[1..][i - 1..] == p[i..];
    }
  }

  /** With every edge costing 1, the cost of a walk is its number of edges. */
  lemma {:induction false} UnitPathCost<V(!new)>(p: seq<V>)
    requires |p| > 0
    ensures PathCost((e: (V, V)) => 1, p) == |p| - 1
  {
    if |p| > 1 {
      UnitPathCost(p[1..]);
    }
  }

  /** Every out-neighbour is itself a vertex: no edge leaves the key set. */
  lemma ConsistentIsClosed<V(!new)>(to: map<V, set<V>>, from: map<V, set<V>>)
    requires Consistent(to, from)
    ensures Closed(to, to.Keys)
  {
  }

  /** No walk from a vertex of a closed set leaves it. */
  lemma ClosedKeepsWalks<V(!new)>(to: map<V, set<V>>, S: set<V>, p: seq<V>, s: V, d: V)
    requires Closed(to, S) && s in S && IsPathFromTo(to, p, s, d)
    ensures d in S
  {
    var k := 0;
    while k < |p| - 1
      invariant 0 <= k < |p| && p[k] in S
    {
      assert HasEdge(to, p[k], p[k + 1]);
      k := k + 1;
    }
  }

  /** An edge into the first vertex of a walk extends the walk at the front. */
  lemma ConsWalk<V(!new)>(to: map<V, set<V>>, v: V, p: seq<V>)
    requires IsWalk(to, p) && (p != [] ==> HasEdge(to, v, p[0]))
    ensures IsWalk(to, [v] + p)
  {
    var q := [v] + p;
    forall k | 0 <= k < |q| - 1 ensures HasEdge(to, q[k], q[k + 1]) {
      if k > 0 {
        assert q[k] == p[k - 1] && q[k + 1] == p[k];
      }
    }
  }

  /** A walk stays a walk in a graph with more edges. */
  lemma WalkInLargerGraph<V(!new)>(to: map<V, set<V>>, big: map<V, set<V>>, p: seq<V>)
    requires forall v, w :: HasEdge(to, v, w) ==> HasEdge(big, v, w)
    requires IsWalk(to, p)
    ensures IsWalk(big, p)
  {
  }

  /** A walk to `v` followed by an edge `v -> w` is a walk to `w`. */
  lemma ExtendWalk<V(!new)>(to: map<V, set<V>>, p: seq<V>, s: V, v: V, w: V)
    requires IsPathFromTo(to, p, s, v) && HasEdge(to, v, w)
    ensures IsPathFromTo(to, p + [w], s, w)
  {
    var q := p + [w];
    forall k | 0 <= k < |q| - 1 ensures HasEdge(to, q[k], q[k + 1]) {
      if k < |p| - 1 {
        assert q[k] == p[k] && q[k + 1] == p[k + 1];
      }
    }
  }

  /** Visiting (or finalising) one more vertex of the graph leaves fewer unvisited: the searches' termination measure. */
  lemma VisitShrinks<V(!new)>(keys: set<V>, visited: set<V>, cur: V)
    requires cur in keys && cur !in visited
    ensures |keys - (visited + {cur})| < |keys - visited|
  {
    assert keys - visited == (keys - (visited + {cur})) + {cur};
  }
}
