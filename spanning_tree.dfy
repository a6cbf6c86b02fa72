/**
 * `spanning_tree(G, start)`: depth-first search from `start` with an
 * explicit work list of `(vertex, edge used to reach it)` pairs. The first
 * edge that reaches each new vertex is added to a fresh `Digraph`, which
 * ends up an out-tree rooted at `start` over the vertices `start` reaches,
 * or empty when `start` reaches no vertex but itself.
 */
module SpanningTrees {
  import opened Wrappers
  import opened GraphSpec
  import opened Digraphs

  /** A work-list entry: a vertex and the edge that reached it (`None` for the root). */
  type Entry<V> = (V, Option<(V, V)>)

  /** The vertices waiting on the work list. */
  function Targets<V(==, !new)>(todo: seq<Entry<V>>): (r: set<V>)
    ensures forall v :: v in r <==> exists p :: p in todo && p.0 == v
  {
    set p | p in todo :: p.0
  }

  /** Appending an entry adds its vertex to the targets. */
  lemma TargetsAppend<V(!new)>(todo: seq<Entry<V>>, p: Entry<V>)
    ensures Targets(todo + [p]) == Targets(todo) + {p.0}
  {
    assert (todo + [p])[|todo|] == p;
    forall v | v in Targets(todo + [p]) ensures v in Targets(todo) + {p.0} {
      var q :| q in todo + [p] && q.0 == v;
    }
    forall v | v in Targets(todo) ensures v in Targets(todo + [p]) {
      var q :| q in todo && q.0 == v;
      assert q in todo + [p];
    }
  }

  /** Bookkeeping: where `start`, the visited set and the work list may be. */
  ghost predicate Shape<V(!new)>(to: map<V, set<V>>, start: V, visited: set<V>, todo: seq<Entry<V>>) {
    && Closed(to, to.Keys) && start in to && visited <= to.Keys
    && (forall p :: p in todo ==> p.0 in to)
    && (visited == {} ==> todo == [(start, None)])
    && (visited != {} ==> start in visited)
  }

  /** Every entry but the root's carries a graph edge into its vertex from a visited vertex. */
  ghost predicate EntriesOk<V(!new)>(to: map<V, set<V>>, start: V, visited: set<V>, todo: seq<Entry<V>>) {
    forall p :: p in todo ==>
      && (p.1.None? ==> p.0 == start)
      && (p.1.Some? ==> p.1.value.1 == p.0 && p.1.value.0 in visited && HasEdge(to, p.1.value.0, p.0))
  }

  /**
   * Every edge out of a visited vertex leads to a visited vertex or to one
   * on the work list, except the edges from `cur` to the neighbours in
   * `pending` that are still to be pushed.
   */
  ghost predicate Covered<V(!new)>(to: map<V, set<V>>, visited: set<V>, todo: seq<Entry<V>>, cur: V, pending: set<V>) {
    forall x, y :: x in visited && HasEdge(to, x, y) && !(x == cur && y in pending) ==>
      y in visited || y in Targets(todo)
  }

  /** The invariant of the search loop (with `pending` empty) and of the push loop. */
  ghost predicate WorkInv<V(!new)>(to: map<V, set<V>>, start: V, visited: set<V>, todo: seq<Entry<V>>,
                                   cur: V, pending: set<V>)
  {
    Shape(to, start, visited, todo) && EntriesOk(to, start, visited, todo) && Covered(to, visited, todo, cur, pending)
  }

  /**
   * The tree built so far (`tto`/`tfrom`): a consistent graph whose edges
   * are edges of `to`, whose vertices are visited, in which every visited
   * vertex but `start` has exactly one in-neighbour and `start` none, and in
   * which every visited vertex is reachable from `start`.
   */
  ghost predicate TreeOk<V(!new)>(to: map<V, set<V>>, tto: map<V, set<V>>, tfrom: map<V, set<V>>,
                                  start: V, visited: set<V>)
  {
    && Consistent(tto, tfrom)
    && (forall v, w :: HasEdge(tto, v, w) ==> HasEdge(to, v, w))
    && tto.Keys <= visited
    && (forall v :: v in visited && v != start ==> v in tfrom && |tfrom[v]| == 1)
    && (start in tfrom ==> tfrom[start] == {})
    && (forall v :: v in visited ==> Reachable(tto, start, v))
  }

  /** Popping an entry whose vertex is already visited keeps the invariant. */
  lemma PopVisitedKeepsInv<V(!new)>(to: map<V, set<V>>, start: V, visited: set<V>, todo: seq<Entry<V>>)
    requires todo != [] && WorkInv(to, start, visited, todo, start, {})
    requires todo[|todo| - 1].0 in visited
    ensures WorkInv(to, start, visited, todo[..|todo| - 1], start, {})
  {
    var rest := todo[..|todo| - 1];
    assert todo == rest + [todo[|todo| - 1]];
    forall y | y in Targets(todo) ensures y in visited || y in Targets(rest) {
      var p :| p in todo && p.0 == y;
    }
  }

  /** Popping an unvisited vertex and visiting it keeps the invariant, with all of its out-edges pending. */
  lemma PopNewKeepsInv<V(!new)>(to: map<V, set<V>>, start: V, visited: set<V>, todo: seq<Entry<V>>)
    requires todo != [] && WorkInv(to, start, visited, todo, start, {})
    requires todo[|todo| - 1].0 !in visited
    ensures var cur := todo[|todo| - 1].0;
      WorkInv(to, start, visited + {cur}, todo[..|todo| - 1], cur, to[cur])
  {
    var cur := todo[|todo| - 1].0;
    var rest := todo[..|todo| - 1];
    assert todo == rest + [todo[|todo| - 1]];
    forall y | y in Targets(todo) ensures y == cur || y in Targets(rest) {
      var p :| p in todo && p.0 == y;
    }
    assert visited == {} ==> rest == [];
  }

  /** Pushing `(n, (cur, n))` for an unvisited out-neighbour `n`, or skipping a visited one, keeps the invariant. */
  lemma PushKeepsInv<V(!new)>(to: map<V, set<V>>, start: V, visited: set<V>, todo: seq<Entry<V>>,
                              cur: V, pending: set<V>, n: V)
    requires WorkInv(to, start, visited, todo, cur, pending)
    requires cur in visited && cur in to && n in pending && pending <= to[cur]
    ensures n in visited ==> WorkInv(to, start, visited, todo, cur, pending - {n})
    ensures n !in visited ==> WorkInv(to, start, visited, todo + [(n, Some((cur, n)))], cur, pending - {n})
  {
    assert HasEdge(to, cur, n);
    var todo' := todo + [(n, Some((cur, n)))];
    assert n in Targets(todo') by {
      assert todo'[|todo|] == (n, Some((cur, n)));
    }
    assert Targets(todo) <= Targets(todo') by {
      forall y | y in Targets(todo) ensures y in Targets(todo') {
        var p :| p in todo && p.0 == y;
        assert p in todo';
      }
    }
  }

  /** Visiting the root with no edge keeps the tree: it is still empty, and `start` reaches itself. */
  lemma VisitRootKeepsTree<V(!new)>(to: map<V, set<V>>, tto: map<V, set<V>>, tfrom: map<V, set<V>>, start: V)
    requires TreeOk(to, tto, tfrom, start, {})
    ensures TreeOk(to, tto, tfrom, start, {start})
  {
    assert IsPathFromTo(tto, [start], start, start);
  }

  /** Adding an edge keeps every walk and every edge of the graph. */
  lemma LinkKeepsWalks<V(!new)>(tto: map<V, set<V>>, e: (V, V), s: V, v: V)
    requires Reachable(tto, s, v)
    ensures Reachable(LinkTo(tto, e), s, v)
  {
    var p :| IsPathFromTo(tto, p, s, v);
    AddEdgeEdges(tto, e);
    forall a, b | HasEdge(tto, a, b) ensures HasEdge(LinkTo(tto, e), a, b) {
      assert (a, b) in EdgesOf(tto);
    }
    WalkInLargerGraph(tto, LinkTo(tto, e), p);
    assert IsPathFromTo(LinkTo(tto, e), p, s, v);
  }

  /** After adding `(x, cur)`, a vertex reachable from `start` before, and `cur` through `x`, are reachable. */
  lemma AttachKeepsReachable<V(!new)>(tto: map<V, set<V>>, start: V, visited: set<V>, x: V, cur: V)
    requires x in visited && forall v :: v in visited ==> Reachable(tto, start, v)
    ensures forall v :: v in visited + {cur} ==> Reachable(LinkTo(tto, (x, cur)), start, v)
  {
    var tto' := LinkTo(tto, (x, cur));
    forall v | v in visited ensures Reachable(tto', start, v) {
      LinkKeepsWalks(tto, (x, cur), start, v);
    }
    var p :| IsPathFromTo(tto', p, start, x);
    AddEdgeEdges(tto, (x, cur));
    assert (x, cur) in EdgesOf(tto');
    ExtendWalk(tto', p, start, x, cur);
  }

  /**
   * Adding the edge `(x, cur)` from a visited `x` to the newly visited
   * `cur` keeps the tree: `cur` gets `x` as its one in-neighbour and is
   * reached through `x`.
   */
  lemma AttachKeepsTree<V(!new)>(to: map<V, set<V>>, tto: map<V, set<V>>, tfrom: map<V, set<V>>,
                                 start: V, visited: set<V>, x: V, cur: V)
    requires TreeOk(to, tto, tfrom, start, visited)
    requires x in visited && cur !in visited && cur != start && HasEdge(to, x, cur)
    ensures TreeOk(to, LinkTo(tto, (x, cur)), LinkFrom(tfrom, (x, cur)), start, visited + {cur})
  {
    AddEdgeConsistent(tto, tfrom, (x, cur));
    AttachKeepsEdges(to, tto, x, cur);
    AttachKeepsInDegree(tfrom, start, visited, x, cur);
    AttachKeepsReachable(tto, start, visited, x, cur);
  }

  /** Adding a graph edge to the tree keeps every tree edge a graph edge. */
  lemma AttachKeepsEdges<V(!new)>(to: map<V, set<V>>, tto: map<V, set<V>>, x: V, cur: V)
    requires forall v, w :: HasEdge(tto, v, w) ==> HasEdge(to, v, w)
    requires HasEdge(to, x, cur)
    ensures forall v, w :: HasEdge(LinkTo(tto, (x, cur)), v, w) ==> HasEdge(to, v, w)
  {
    var tto' := LinkTo(tto, (x, cur));
    AddEdgeEdges(tto, (x, cur));
    forall v, w | HasEdge(tto', v, w) ensures HasEdge(to, v, w) {
      assert (v, w) in EdgesOf(tto');
    }
  }

  /** After adding `(x, cur)` for a new `cur`, `cur` has the one in-neighbour `x` and no other in-set changes. */
  lemma AttachKeepsInDegree<V(!new)>(tfrom: map<V, set<V>>, start: V, visited: set<V>, x: V, cur: V)
    requires tfrom.Keys <= visited && cur !in visited && cur != start
    requires forall v :: v in visited && v != start ==> v in tfrom && |tfrom[v]| == 1
    requires start in tfrom ==> tfrom[start] == {}
    ensures forall v :: v in visited + {cur} && v != start ==> v in LinkFrom(tfrom, (x, cur)) && |LinkFrom(tfrom, (x, cur))[v]| == 1
    ensures start in LinkFrom(tfrom, (x, cur)) ==> LinkFrom(tfrom, (x, cur))[start] == {}
  {
    var tfrom' := LinkFrom(tfrom, (x, cur));
    assert tfrom'[cur] == {x};
    forall v | v in tfrom && v != cur ensures tfrom'[v] == tfrom[v] {
    }
  }

  /** With the work list empty, every vertex `start` reaches is visited. */
  lemma ExhaustedReachesAll<V(!new)>(to: map<V, set<V>>, start: V, visited: set<V>, v: V)
    requires WorkInv(to, start, visited, [], start, {}) && Reachable(to, start, v)
    ensures v in visited
  {
    assert Closed(to, visited);
    var p :| IsPathFromTo(to, p, start, v);
    ClosedKeepsWalks(to, visited, p, start, v);
  }

  /** One pass of the inner loop of `spanning_tree`: push `(n, (cur, n))` unless `n` is visited. */
  method PushIfUnvisited<V(==, !new)>(ghost to: map<V, set<V>>, start: V, cur: V, n: V, visited: set<V>,
                                      todo: seq<Entry<V>>, ghost pending: set<V>)
    returns (todo': seq<Entry<V>>)
    requires WorkInv(to, start, visited, todo, cur, pending)
    requires cur in visited && cur in to && n in pending && pending <= to[cur]
    ensures WorkInv(to, start, visited, todo', cur, pending - {n})
    ensures n in visited ==> todo' == todo
    ensures n !in visited ==> todo' == todo + [(n, Some((cur, n)))]
    ensures Targets(todo') == Targets(todo) + ({n} - visited)
  {
    TargetsAppend(todo, (n, Some((cur, n))));
    PushKeepsInv(to, start, visited, todo, cur, pending, n);
    todo' := todo;
    if n !in visited {
      todo' := todo' + [(n, Some((cur, n)))];
    }
  }

  /** `PushIfUnvisited` for the next neighbour `n`, which moves it from the pending neighbours to the handled ones. */
  method PushNext<V(==, !new)>(ghost to: map<V, set<V>>, start: V, cur: V, n: V, visited: set<V>,
                               ghost todo0: seq<Entry<V>>, todo: seq<Entry<V>>, ghost pending: set<V>)
    returns (todo': seq<Entry<V>>)
    requires cur in visited && cur in to && n in pending && pending <= to[cur]
    requires WorkInv(to, start, visited, todo, cur, pending)
    requires todo0 <= todo
    requires Targets(todo) == Targets(todo0) + ((to[cur] - pending) - visited)
    requires PushedAfter(todo, |todo0|, cur, (to[cur] - pending) - visited)
    ensures WorkInv(to, start, visited, todo', cur, pending - {n})
    ensures todo0 <= todo'
    ensures Targets(todo') == Targets(todo0) + ((to[cur] - (pending - {n})) - visited)
    ensures PushedAfter(todo', |todo0|, cur, (to[cur] - (pending - {n})) - visited)
  {
    todo' := PushIfUnvisited(to, start, cur, n, visited, todo, pending);
    PushedStep(Targets(todo0), Targets(todo), Targets(todo'), to[cur], pending, visited, n);
    var done := (to[cur] - pending) - visited;
    if n in visited {
      assert (to[cur] - (pending - {n})) - visited == done;
    } else {
      assert (to[cur] - (pending - {n})) - visited == done + {n};
      PushedAfterAppend(todo, |todo0|, cur, done, n);
    }
  }

  /**
   * The inner loop of `spanning_tree`: for each out-neighbour `n` of the
   * vertex `cur` just visited, push `(n, (cur, n))` unless `n` is visited.
   */
  method PushNeighbours<V(==, !new)>(G: Digraph<V>, start: V, cur: V, visited: set<V>, todo: seq<Entry<V>>)
    returns (todo': seq<Entry<V>>)
    requires G.Valid() && cur in visited && cur in G.Vertices()
    requires WorkInv(G.tosets, start, visited, todo, cur, G.tosets[cur])
    ensures WorkInv(G.tosets, start, visited, todo', start, {})
    ensures todo <= todo'
    ensures Targets(todo') == Targets(todo) + (G.tosets[cur] - visited)
    ensures PushedAfter(todo', |todo|, cur, G.tosets[cur] - visited)
  {
    var neighbours := G.AdjTo(cur);
    todo' := PushAll(G.tosets, start, cur, neighbours, visited, todo);
  }

  /** The loop of `PushNeighbours`, over the out-neighbours `neighbours` of `cur` in the graph `to`. */
  method PushAll<V(==, !new)>(ghost to: map<V, set<V>>, start: V, cur: V, neighbours: set<V>, visited: set<V>,
                              todo: seq<Entry<V>>)
    returns (todo': seq<Entry<V>>)
    requires cur in visited && cur in to && neighbours == to[cur]
    requires WorkInv(to, start, visited, todo, cur, neighbours)
    ensures WorkInv(to, start, visited, todo', start, {})
    ensures todo <= todo'
    ensures Targets(todo') == Targets(todo) + (neighbours - visited)
    ensures PushedAfter(todo', |todo|, cur, neighbours - visited)
  {
    todo' := todo;
    var pending := neighbours;
    PushedNothing(todo, cur, (to[cur] - pending) - visited);
    while pending != {}
      invariant pending <= to[cur]
      invariant WorkInv(to, start, visited, todo', cur, pending)
      invariant todo <= todo'
      invariant Targets(todo') == Targets(todo) + ((to[cur] - pending) - visited)
      invariant PushedAfter(todo', |todo|, cur, (to[cur] - pending) - visited)
      decreases pending
    {
      var n :| n in pending;
      todo' := PushNext(to, start, cur, n, visited, todo, todo', pending);
      pending := pending - {n};
    }
    assert to[cur] - pending == to[cur];
    NoPendingWork(to, start, visited, todo', cur);
  }

  /**
   * The entries of `todo` from position `k` on are one `(n, (cur, n))` for
   * each `n` in `ns`, in some order, and nothing else: as many entries as
   * `ns` has vertices, each for a different vertex of `ns`.
   */
  ghost predicate PushedAfter<V(!new)>(todo: seq<Entry<V>>, k: nat, cur: V, ns: set<V>) {
    && k <= |todo| && |todo| - k == |ns|
    && (forall i :: k <= i < |todo| ==> todo[i].0 in ns && todo[i].1 == Some((cur, todo[i].0)))
    && (forall i, j :: k <= i < j < |todo| ==> todo[i].0 != todo[j].0)
  }

  /** Before the inner loop nothing is pushed. */
  lemma PushedNothing<V(!new)>(todo: seq<Entry<V>>, cur: V, done: set<V>)
    requires done == {}
    ensures PushedAfter(todo, |todo|, cur, done) && Targets(todo) == Targets(todo) + done
  {
  }

  /** Appending the entry of a vertex not yet pushed extends what was pushed by that vertex. */
  lemma PushedAfterAppend<V(!new)>(todo: seq<Entry<V>>, k: nat, cur: V, ns: set<V>, n: V)
    requires PushedAfter(todo, k, cur, ns) && n !in ns
    ensures PushedAfter(todo + [(n, Some((cur, n)))], k, cur, ns + {n})
  {
    assert |ns + {n}| == |ns| + 1;
  }

  /** Handling one more neighbour `n` adds it to the targets unless it is visited. */
  lemma PushedStep<V(!new)>(initial: set<V>, before: set<V>, after: set<V>, out: set<V>,
                            pending: set<V>, visited: set<V>, n: V)
    requires before == initial + ((out - pending) - visited)
    requires after == before + ({n} - visited)
    requires n in pending && pending <= out
    ensures after == initial + ((out - (pending - {n})) - visited)
  {
    assert out - (pending - {n}) == (out - pending) + {n};
  }

  /** With nothing pending, the invariant does not depend on which vertex was visited last. */
  lemma NoPendingWork<V(!new)>(to: map<V, set<V>>, start: V, visited: set<V>, todo: seq<Entry<V>>, cur: V)
    requires WorkInv(to, start, visited, todo, cur, {})
    ensures WorkInv(to, start, visited, todo, start, {})
  {
  }

  /**
   * `spanning_tree(G, start)`: a fresh graph whose edges are edges of `G`,
   * in which every vertex `start` reaches in `G` (but `start`) has exactly
   * one in-neighbour, `start` has none, and every vertex is reachable from
   * `start`: an out-tree rooted at `start` spanning what `start` reaches.
   */
  method SpanningTree<V(==, !new)>(G: Digraph<V>, start: V) returns (T: Digraph<V>)
    requires G.Valid() && start in G.Vertices()
    ensures fresh(T) && T.Valid()
    ensures T.Edges() <= G.Edges()
    ensures forall v :: v in T.Vertices() ==> Reachable(T.tosets, start, v)
    ensures forall v :: Reachable(G.tosets, start, v) && v != start ==> v in T.Vertices() && |T.AdjFrom(v)| == 1
    ensures start in T.Vertices() ==> T.AdjFrom(start) == {}
  {
    T := new Digraph([]);
    assert T.tosets.Keys == {} by {
      assert forall v :: v !in Endpoints<V>([]);
    }
    var visited := Explore(G, T, start);
    TreeSpans(G.tosets, T.tosets, T.fromsets, start, visited);
  }

  /**
   * The search loop of `spanning_tree`: pop the last work-list entry; skip
   * it if its vertex is visited, otherwise visit it. On return every vertex
   * `start` reaches is visited and `T` is a tree over the visited vertices.
   */
  method Explore<V(==, !new)>(G: Digraph<V>, T: Digraph<V>, start: V) returns (visited: set<V>)
    requires G.Valid() && T.Valid() && G != T && start in G.Vertices()
    requires TreeOk(G.tosets, T.tosets, T.fromsets, start, {})
    modifies T
    ensures T.Valid()
    ensures TreeOk(G.tosets, T.tosets, T.fromsets, start, visited)
    ensures forall v :: Reachable(G.tosets, start, v) ==> v in visited
  {
    visited := {};
    var todo: seq<Entry<V>> := [(start, None)];
    ghost var to := G.tosets;
    ConsistentIsClosed(G.tosets, G.fromsets);
    while todo != []
      invariant T.Valid() && G.tosets == to
      invariant WorkInv(to, start, visited, todo, start, {})
      invariant TreeOk(to, T.tosets, T.fromsets, start, visited)
      decreases |to.Keys - visited|, |todo|
    {
      var (cur, e) := todo[|todo| - 1];
      if cur in visited {
        PopVisitedKeepsInv(to, start, visited, todo);
        todo := todo[..|todo| - 1];
      } else {
        VisitShrinks(to.Keys, visited, cur);
        visited, todo := Visit(G, T, start, visited, todo);
      }
    }
    forall v | Reachable(to, start, v) ensures v in visited {
      ExhaustedReachesAll(to, start, visited, v);
    }
  }

  /**
   * Once every vertex `start` reaches is visited, the tree is an out-tree
   * rooted at `start` made of graph edges, spanning what `start` reaches.
   */
  lemma TreeSpans<V(!new)>(to: map<V, set<V>>, tto: map<V, set<V>>, tfrom: map<V, set<V>>,
                           start: V, visited: set<V>)
    requires TreeOk(to, tto, tfrom, start, visited)
    requires forall v :: Reachable(to, start, v) ==> v in visited
    ensures EdgesOf(tto) <= EdgesOf(to)
    ensures forall v :: v in tto ==> Reachable(tto, start, v)
    ensures forall v :: Reachable(to, start, v) && v != start ==> v in tto && v in tfrom && |tfrom[v]| == 1
    ensures start in tto ==> tfrom[start] == {}
  {
    forall e | e in EdgesOf(tto) ensures e in EdgesOf(to) {
      assert HasEdge(tto, e.0, e.1);
    }
  }

  /**
   * One pass of the search loop of `spanning_tree` whose popped vertex
   * `cur` is not yet visited: visit it, add the edge that reached it (if
   * any) to the tree, and push its unvisited out-neighbours.
   */
  method Visit<V(==, !new)>(G: Digraph<V>, T: Digraph<V>, start: V, visited: set<V>, todo: seq<Entry<V>>)
    returns (visited': set<V>, todo': seq<Entry<V>>)
    requires G.Valid() && T.Valid() && G != T && todo != [] && todo[|todo| - 1].0 !in visited
    requires WorkInv(G.tosets, start, visited, todo, start, {})
    requires TreeOk(G.tosets, T.tosets, T.fromsets, start, visited)
    modifies T
    ensures T.Valid()
    ensures visited' == visited + {todo[|todo| - 1].0}
    ensures WorkInv(G.tosets, start, visited', todo', start, {})
    ensures TreeOk(G.tosets, T.tosets, T.fromsets, start, visited')
    ensures todo[|todo| - 1].1.Some? ==>
      T.tosets == LinkTo(old(T.tosets), todo[|todo| - 1].1.value) &&
      T.fromsets == LinkFrom(old(T.fromsets), todo[|todo| - 1].1.value)
    ensures todo[|todo| - 1].1.None? ==> T.tosets == old(T.tosets) && T.fromsets == old(T.fromsets)
    ensures todo[..|todo| - 1] <= todo'
    ensures Targets(todo') == Targets(todo[..|todo| - 1]) + (G.tosets[todo[|todo| - 1].0] - visited')
    ensures PushedAfter(todo', |todo| - 1, todo[|todo| - 1].0, G.tosets[todo[|todo| - 1].0] - visited')
  {
    var (cur, e) := todo[|todo| - 1];
    PopNewKeepsInv(G.tosets, start, visited, todo);
    if e.Some? {
      AttachKeepsTree(G.tosets, T.tosets, T.fromsets, start, visited, e.value.0, cur);
      T.AddEdge(e.value);
    } else {
      VisitRootKeepsTree(G.tosets, T.tosets, T.fromsets, start);
    }
    visited' := visited + {cur};
    todo' := PushNeighbours(G, start, cur, visited', todo[..|todo| - 1]);
  }
}
