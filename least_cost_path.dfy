/**
 * `least_cost_path` (uniform-cost search) and `shortest_path`, its
 * unit-cost case. The frontier `todo` maps discovered vertices to their
 * best known cost, `visited` holds the finalised vertices and `parent` the
 * predecessor on the best known route. The ghost maps `dist` (the cost at
 * which a vertex was finalised) and `order` (when it was finalised) carry
 * the proof.
 */
module LeastCostSearch {
  import opened Wrappers
  import opened GraphSpec
  import opened Digraphs

  /** `v` was reached from the finalised `parent[v]` by an edge, at cost `c`. */
  ghost predicate LinkedAt<V(!new)>(to: map<V, set<V>>, cost: ((V, V)) -> nat, parent: map<V, V>,
                                    dist: map<V, nat>, v: V, c: nat)
  {
    v in parent && parent[v] in dist && HasEdge(to, parent[v], v) && c == dist[parent[v]] + cost((parent[v], v))
  }

  /**
   * Every edge from a finalised `x` to an unfinalised `y` has put `y` on
   * the frontier at no more than `dist[x]` plus its cost, except the edges
   * from `cur` to the neighbours in `pending` that are still to be relaxed.
   */
  ghost predicate FrontierCovers<V(!new)>(to: map<V, set<V>>, cost: ((V, V)) -> nat, todo: map<V, nat>,
                                          visited: set<V>, dist: map<V, nat>, cur: V, pending: set<V>)
    requires dist.Keys == visited
  {
    forall x, y :: x in visited && HasEdge(to, x, y) && y !in visited && !(x == cur && y in pending) ==>
      y in todo && todo[y] <= dist[x] + cost((x, y))
  }

  /** No walk from `start` to `v` costs less than `d`. */
  ghost predicate Cheapest<V(!new)>(to: map<V, set<V>>, cost: ((V, V)) -> nat, start: V, v: V, d: nat) {
    forall q :: IsPathFromTo(to, q, start, v) ==> d <= PathCost(cost, q)
  }

  /** Bookkeeping: what each of the search's dictionaries and sets may hold. */
  ghost predicate Shape<V(!new)>(to: map<V, set<V>>, start: V, todo: map<V, nat>, visited: set<V>,
                                 dist: map<V, nat>, order: map<V, nat>)
  {
    && Closed(to, to.Keys)
    && visited <= to.Keys && todo.Keys <= to.Keys && todo.Keys !! visited
    && dist.Keys == visited && order.Keys == visited
    && (forall v :: v in visited ==> order[v] < |visited|)
    && (visited == {} ==> todo == map[start := 0])
    && (visited != {} ==> start in visited && dist[start] == 0)
  }

  /** Every finalised vertex but `start` hangs off a parent finalised earlier, at the cost of that edge. */
  ghost predicate FinalisedLinks<V(!new)>(to: map<V, set<V>>, cost: ((V, V)) -> nat, start: V,
                                          visited: set<V>, parent: map<V, V>, dist: map<V, nat>, order: map<V, nat>)
    requires dist.Keys == visited && order.Keys == visited
  {
    forall v {:trigger LinkedAt(to, cost, parent, dist, v, dist[v])} :: v in visited && v != start ==>
      LinkedAt(to, cost, parent, dist, v, dist[v]) && order[parent[v]] < order[v]
  }

  /**
   * The parent links of the finalised vertices, and every frontier cost is
   * that of the route through the recorded parent.
   */
  ghost predicate ParentLinks<V(!new)>(to: map<V, set<V>>, cost: ((V, V)) -> nat, start: V,
                                       todo: map<V, nat>, visited: set<V>, parent: map<V, V>,
                                       dist: map<V, nat>, order: map<V, nat>)
    requires dist.Keys == visited && order.Keys == visited
  {
    && FinalisedLinks(to, cost, start, visited, parent, dist, order)
    && (forall v {:trigger LinkedAt(to, cost, parent, dist, v, todo[v])} :: v in todo && v != start ==>
          LinkedAt(to, cost, parent, dist, v, todo[v]))
  }

  /** Every finalised vertex was finalised at its least cost. */
  ghost predicate AllCheapest<V(!new)>(to: map<V, set<V>>, cost: ((V, V)) -> nat, start: V,
                                       visited: set<V>, dist: map<V, nat>)
    requires dist.Keys == visited
  {
    forall v :: v in visited ==> Cheapest(to, cost, start, v, dist[v])
  }

  /** The invariant of the search loop (with `pending` empty) and of the relaxation loop. */
  ghost predicate SearchInv<V(!new)>(to: map<V, set<V>>, cost: ((V, V)) -> nat, start: V,
                                     todo: map<V, nat>, visited: set<V>, parent: map<V, V>,
                                     dist: map<V, nat>, order: map<V, nat>, cur: V, pending: set<V>)
  {
    && Shape(to, start, todo, visited, dist, order)
    && ParentLinks(to, cost, start, todo, visited, parent, dist, order)
    && AllCheapest(to, cost, start, visited, dist)
    && FrontierCovers(to, cost, todo, visited, dist, cur, pending)
  }

  /** A non-empty frontier has an entry of least cost. */
  lemma {:induction false} MinimumExists<V(!new)>(m: map<V, nat>)
    requires m != map[]
    ensures exists u :: u in m && forall w :: w in m ==> m[u] <= m[w]
    decreases |m.Keys|
  {
    var k :| k in m;
    var rest := map w | w in m && w != k :: m[w];
    assert rest.Keys == m.Keys - {k};
    if rest == map[] {
      assert m.Keys - {k} == {};
      assert m.Keys == {k};
    } else {
      MinimumExists(rest);
      var u :| u in rest && forall w :: w in rest ==> rest[u] <= rest[w];
      var best := if m[k] < m[u] then k else u;
      forall w | w in m ensures m[best] <= m[w] {
        if w != k {
          assert w in rest;
        }
      }
    }
  }

  /**
   * The frontier minimum is final: any walk from `start` to it leaves the
   * finalised set through some edge `x -> y`, which already costs at least
   * `todo[y]`, and that is no less than the minimum.
   */
  lemma MinimumIsCheapest<V(!new)>(to: map<V, set<V>>, cost: ((V, V)) -> nat, start: V,
                                   todo: map<V, nat>, visited: set<V>, parent: map<V, V>,
                                   dist: map<V, nat>, order: map<V, nat>, any: V, cur: V)
    requires SearchInv(to, cost, start, todo, visited, parent, dist, order, any, {})
    requires cur in todo && forall u :: u in todo ==> todo[cur] <= todo[u]
    ensures Cheapest(to, cost, start, cur, todo[cur])
  {
    forall q | IsPathFromTo(to, q, start, cur) ensures todo[cur] <= PathCost(cost, q) {
      if visited != {} {
        var k := 1;
        while q[k] in visited
          invariant 1 <= k < |q| && q[k - 1] in visited
          decreases |q| - k
        {
          k := k + 1;
        }
        var x, y := q[k - 1], q[k];
        assert HasEdge(to, x, y);
        assert IsPathFromTo(to, q[..k], start, x);
        assert Cheapest(to, cost, start, x, dist[x]);
        PathCostSplit(cost, q, k - 1);
        assert q[k - 1..][1..] == q[k..];
      }
    }
  }

  lemma FinaliseKeepsShape<V(!new)>(to: map<V, set<V>>, start: V, todo: map<V, nat>, visited: set<V>,
                                    dist: map<V, nat>, order: map<V, nat>, cur: V)
    requires Shape(to, start, todo, visited, dist, order) && cur in todo
    ensures Shape(to, start, todo - {cur}, visited + {cur}, dist[cur := todo[cur]], order[cur := |visited|])
  {
    assert |visited + {cur}| == |visited| + 1;
  }

  lemma FinaliseKeepsFinalisedLinks<V(!new)>(to: map<V, set<V>>, cost: ((V, V)) -> nat, start: V,
                                             todo: map<V, nat>, visited: set<V>, parent: map<V, V>,
                                             dist: map<V, nat>, order: map<V, nat>, cur: V)
    requires dist.Keys == visited && order.Keys == visited && cur in todo && cur !in visited
    requires forall v :: v in visited ==> order[v] < |visited|
    requires FinalisedLinks(to, cost, start, visited, parent, dist, order)
    requires cur != start ==> LinkedAt(to, cost, parent, dist, cur, todo[cur])
    ensures FinalisedLinks(to, cost, start, visited + {cur}, parent, dist[cur := todo[cur]], order[cur := |visited|])
  {
    var visited', dist', order' := visited + {cur}, dist[cur := todo[cur]], order[cur := |visited|];
    forall v | v in visited' && v != start
      ensures LinkedAt(to, cost, parent, dist', v, dist'[v]) && order'[parent[v]] < order'[v]
    {
      if v == cur {
        LinkedAfterFinalise(to, cost, parent, dist, order, cur, todo[cur], |visited|, v);
      } else {
        assert LinkedAt(to, cost, parent, dist, v, dist[v]);
        LinkedAfterFinalise(to, cost, parent, dist, order, cur, todo[cur], |visited|, v);
      }
    }
  }

  /** A parent link of `v` survives finalising `cur` at cost `c` as the `k`-th vertex. */
  lemma LinkedAfterFinalise<V(!new)>(to: map<V, set<V>>, cost: ((V, V)) -> nat, parent: map<V, V>,
                                     dist: map<V, nat>, order: map<V, nat>, cur: V, c: nat, k: nat, v: V)
    requires dist.Keys == order.Keys && cur !in dist
    requires v == cur ==> LinkedAt(to, cost, parent, dist, cur, c) && order[parent[cur]] < k
    requires v != cur ==> v in dist && LinkedAt(to, cost, parent, dist, v, dist[v]) && order[parent[v]] < order[v]
    ensures LinkedAt(to, cost, parent, dist[cur := c], v, dist[cur := c][v])
    ensures order[cur := k][parent[v]] < order[cur := k][v]
  {
    var u := parent[v];
    assert u in dist && u != cur;
  }

  lemma FinaliseKeepsLinks<V(!new)>(to: map<V, set<V>>, cost: ((V, V)) -> nat, start: V,
                                    todo: map<V, nat>, visited: set<V>, parent: map<V, V>,
                                    dist: map<V, nat>, order: map<V, nat>, cur: V)
    requires Shape(to, start, todo, visited, dist, order) && cur in todo
    requires ParentLinks(to, cost, start, todo, visited, parent, dist, order)
    ensures ParentLinks(to, cost, start, todo - {cur}, visited + {cur}, parent,
                        dist[cur := todo[cur]], order[cur := |visited|])
  {
    if cur != start {
      assert LinkedAt(to, cost, parent, dist, cur, todo[cur]);
    }
    FinaliseKeepsFinalisedLinks(to, cost, start, todo, visited, parent, dist, order, cur);
    var todo', dist' := todo - {cur}, dist[cur := todo[cur]];
    forall v | v in todo' && v != start ensures LinkedAt(to, cost, parent, dist', v, todo'[v]) {
      assert LinkedAt(to, cost, parent, dist, v, todo[v]);
    }
  }

  lemma FinaliseKeepsFrontier<V(!new)>(to: map<V, set<V>>, cost: ((V, V)) -> nat,
                                       todo: map<V, nat>, visited: set<V>, dist: map<V, nat>, any: V, cur: V)
    requires dist.Keys == visited && todo.Keys !! visited && cur in todo && cur in to
    requires FrontierCovers(to, cost, todo, visited, dist, any, {})
    ensures FrontierCovers(to, cost, todo - {cur}, visited + {cur}, dist[cur := todo[cur]], cur, to[cur])
  {
    var todo', visited', dist' := todo - {cur}, visited + {cur}, dist[cur := todo[cur]];
    forall x, y | x in visited' && HasEdge(to, x, y) && y !in visited' && !(x == cur && y in to[cur])
      ensures y in todo' && todo'[y] <= dist'[x] + cost((x, y))
    {
      assert x in visited;
    }
  }

  /** Taking the frontier minimum `cur` and finalising it keeps the invariant, with all of its edges pending. */
  lemma FinaliseKeepsInv<V(!new)>(to: map<V, set<V>>, cost: ((V, V)) -> nat, start: V,
                                  todo: map<V, nat>, visited: set<V>, parent: map<V, V>,
                                  dist: map<V, nat>, order: map<V, nat>, any: V, cur: V)
    requires SearchInv(to, cost, start, todo, visited, parent, dist, order, any, {})
    requires cur in todo && forall u :: u in todo ==> todo[cur] <= todo[u]
    ensures SearchInv(to, cost, start, todo - {cur}, visited + {cur}, parent,
                      dist[cur := todo[cur]], order[cur := |visited|], cur, to[cur])
  {
    MinimumIsCheapest(to, cost, start, todo, visited, parent, dist, order, any, cur);
    FinaliseKeepsShape(to, start, todo, visited, dist, order, cur);
    FinaliseKeepsLinks(to, cost, start, todo, visited, parent, dist, order, cur);
    FinaliseKeepsFrontier(to, cost, todo, visited, dist, any, cur);
  }

  /** Relaxing the pending edge `cur -> n` without touching the frontier keeps the invariant. */
  lemma RelaxSkipKeepsInv<V(!new)>(to: map<V, set<V>>, cost: ((V, V)) -> nat, start: V,
                                   todo: map<V, nat>, visited: set<V>, parent: map<V, V>,
                                   dist: map<V, nat>, order: map<V, nat>, cur: V, pending: set<V>, n: V)
    requires SearchInv(to, cost, start, todo, visited, parent, dist, order, cur, pending)
    requires cur in visited && n in pending
    requires n in visited || (n in todo && todo[n] <= dist[cur] + cost((cur, n)))
    ensures SearchInv(to, cost, start, todo, visited, parent, dist, order, cur, pending - {n})
  {
  }

  lemma RelaxUpdateKeepsLinks<V(!new)>(to: map<V, set<V>>, cost: ((V, V)) -> nat, start: V,
                                       todo: map<V, nat>, visited: set<V>, parent: map<V, V>,
                                       dist: map<V, nat>, order: map<V, nat>, cur: V, n: V)
    requires dist.Keys == visited && order.Keys == visited
    requires ParentLinks(to, cost, start, todo, visited, parent, dist, order)
    requires cur in visited && HasEdge(to, cur, n) && n !in visited
    ensures ParentLinks(to, cost, start, todo[n := dist[cur] + cost((cur, n))], visited,
                        parent[n := cur], dist, order)
  {
    var todo', parent' := todo[n := dist[cur] + cost((cur, n))], parent[n := cur];
    forall v | v in visited && v != start
      ensures LinkedAt(to, cost, parent', dist, v, dist[v]) && order[parent'[v]] < order[v]
    {
      assert LinkedAt(to, cost, parent, dist, v, dist[v]);
    }
    forall v | v in todo' && v != start ensures LinkedAt(to, cost, parent', dist, v, todo'[v]) {
      if v != n {
        assert LinkedAt(to, cost, parent, dist, v, todo[v]);
      }
    }
  }

  lemma RelaxUpdateKeepsFrontier<V(!new)>(to: map<V, set<V>>, cost: ((V, V)) -> nat,
                                          todo: map<V, nat>, visited: set<V>, dist: map<V, nat>,
                                          cur: V, pending: set<V>, n: V)
    requires dist.Keys == visited && cur in visited
    requires FrontierCovers(to, cost, todo, visited, dist, cur, pending)
    requires n !in todo || dist[cur] + cost((cur, n)) < todo[n]
    ensures FrontierCovers(to, cost, todo[n := dist[cur] + cost((cur, n))], visited, dist, cur, pending - {n})
  {
    var todo' := todo[n := dist[cur] + cost((cur, n))];
    forall x, y | x in visited && HasEdge(to, x, y) && y !in visited && !(x == cur && y in pending - {n})
      ensures y in todo' && todo'[y] <= dist[x] + cost((x, y))
    {
      if !(x == cur && y == n) {
        assert y in todo && todo[y] <= dist[x] + cost((x, y));
      }
    }
  }

  /** Relaxing `cur -> n` by recording the cheaper route through `cur` keeps the invariant. */
  lemma RelaxUpdateKeepsInv<V(!new)>(to: map<V, set<V>>, cost: ((V, V)) -> nat, start: V,
                                     todo: map<V, nat>, visited: set<V>, parent: map<V, V>,
                                     dist: map<V, nat>, order: map<V, nat>, cur: V, pending: set<V>, n: V)
    requires SearchInv(to, cost, start, todo, visited, parent, dist, order, cur, pending)
    requires cur in visited && n in pending && pending <= to[cur] && n !in visited
    requires n !in todo || dist[cur] + cost((cur, n)) < todo[n]
    ensures SearchInv(to, cost, start, todo[n := dist[cur] + cost((cur, n))], visited,
                      parent[n := cur], dist, order, cur, pending - {n})
  {
    assert HasEdge(to, cur, n);
    RelaxUpdateKeepsLinks(to, cost, start, todo, visited, parent, dist, order, cur, n);
    RelaxUpdateKeepsFrontier(to, cost, todo, visited, dist, cur, pending, n);
  }

  /** Once the frontier is empty, the finalised set is closed under edges and `dest` outside it is unreachable. */
  lemma ExhaustedMeansUnreachable<V(!new)>(to: map<V, set<V>>, cost: ((V, V)) -> nat, start: V, dest: V,
                                           visited: set<V>, parent: map<V, V>,
                                           dist: map<V, nat>, order: map<V, nat>, any: V)
    requires SearchInv(to, cost, start, map[], visited, parent, dist, order, any, {})
    requires dest !in visited
    ensures !Reachable(to, start, dest)
  {
    assert Closed(to, visited);
    forall q | IsPathFromTo(to, q, start, dest) ensures false {
      ClosedKeepsWalks(to, visited, q, start, dest);
    }
  }

  /** With nothing pending, the frontier property does not depend on which vertex was finalised last. */
  lemma NoPendingFrontier<V(!new)>(to: map<V, set<V>>, cost: ((V, V)) -> nat, todo: map<V, nat>,
                                visited: set<V>, dist: map<V, nat>, cur: V, any: V)
    requires dist.Keys == visited
    requires FrontierCovers(to, cost, todo, visited, dist, cur, {})
    ensures FrontierCovers(to, cost, todo, visited, dist, any, {})
  {
  }

  /** The route through `cur`, at cost `c + cost((cur, n))`, is new for `n` or strictly cheaper than its frontier cost. */
  ghost predicate Improves<V(!new)>(cost: ((V, V)) -> nat, cur: V, c: nat, todo: map<V, nat>, n: V) {
    n !in todo || c + cost((cur, n)) < todo[n]
  }

  /** The frontier entry and the parent of `k` are the same in both pairs of maps. */
  ghost predicate SameEntry<V(!new)>(todo: map<V, nat>, parent: map<V, V>, todo': map<V, nat>, parent': map<V, V>, k: V) {
    && (k in todo' <==> k in todo) && (k in todo ==> todo'[k] == todo[k])
    && (k in parent' <==> k in parent) && (k in parent ==> parent'[k] == parent[k])
  }

  /**
   * `todo'`/`parent'` are `todo`/`parent` after relaxing the edges from
   * `cur` (finalised at `c`) to the neighbours in `done`: an unfinalised
   * neighbour the route through `cur` improves gets that cost and parent
   * `cur`; every other entry is unchanged.
   */
  ghost predicate RelaxedOver<V(!new)>(cost: ((V, V)) -> nat, cur: V, c: nat, visited: set<V>, done: set<V>,
                                       todo: map<V, nat>, parent: map<V, V>, todo': map<V, nat>, parent': map<V, V>)
  {
    forall k {:trigger SameEntry(todo, parent, todo', parent', k)} {:trigger k in done} ::
      if k in done && k !in visited && Improves(cost, cur, c, todo, k)
      then k in todo' && todo'[k] == c + cost((cur, k)) && k in parent' && parent'[k] == cur
      else SameEntry(todo, parent, todo', parent', k)
  }

  /** Relaxing no neighbour changes nothing. */
  lemma RelaxedNothing<V(!new)>(cost: ((V, V)) -> nat, cur: V, c: nat, visited: set<V>, done: set<V>,
                                todo: map<V, nat>, parent: map<V, V>)
    requires done == {}
    ensures RelaxedOver(cost, cur, c, visited, done, todo, parent, todo, parent)
  {
  }

  /** Relaxing one more neighbour `n` extends the relaxation from `done` to `done + {n}`. */
  lemma RelaxedStep<V(!new)>(cost: ((V, V)) -> nat, cur: V, c: nat, visited: set<V>, done: set<V>, n: V,
                             todo: map<V, nat>, parent: map<V, V>, todo': map<V, nat>, parent': map<V, V>,
                             todo'': map<V, nat>, parent'': map<V, V>)
    requires n !in done && RelaxedOver(cost, cur, c, visited, done, todo, parent, todo', parent')
    requires n in visited ==> todo'' == todo' && parent'' == parent'
    requires n !in visited && Improves(cost, cur, c, todo', n) ==>
      todo'' == todo'[n := c + cost((cur, n))] && parent'' == parent'[n := cur]
    requires !Improves(cost, cur, c, todo', n) ==> todo'' == todo' && parent'' == parent'
    ensures RelaxedOver(cost, cur, c, visited, done + {n}, todo, parent, todo'', parent'')
  {
    assert SameEntry(todo, parent, todo', parent', n);
    assert Improves(cost, cur, c, todo', n) == Improves(cost, cur, c, todo, n);
    forall k | k != n
      ensures if k in done && k !in visited && Improves(cost, cur, c, todo, k)
              then k in todo'' && todo''[k] == c + cost((cur, k)) && k in parent'' && parent''[k] == cur
              else SameEntry(todo, parent, todo'', parent'', k)
    {
      if k in done && k !in visited && Improves(cost, cur, c, todo, k) {
      } else {
        assert SameEntry(todo, parent, todo', parent', k);
      }
    }
  }

  /**
   * One pass of the inner loop of `least_cost_path`, for the out-neighbour
   * `n` of `cur`: nothing when `n` is finalised or already on the frontier
   * at no more than `c + cost((cur, n))`; otherwise that cost goes on the
   * frontier with parent `cur`.
   */
  method RelaxEdge<V(==, !new)>(ghost to: map<V, set<V>>, cost: ((V, V)) -> nat, start: V, cur: V, c: nat, n: V,
                                todo: map<V, nat>, visited: set<V>, parent: map<V, V>,
                                ghost dist: map<V, nat>, ghost order: map<V, nat>, ghost pending: set<V>)
    returns (todo': map<V, nat>, parent': map<V, V>)
    requires cur in visited && cur in dist && dist[cur] == c && cur in to && n in pending && pending <= to[cur]
    requires SearchInv(to, cost, start, todo, visited, parent, dist, order, cur, pending)
    ensures SearchInv(to, cost, start, todo', visited, parent', dist, order, cur, pending - {n})
    ensures n in visited ==> todo' == todo && parent' == parent
    ensures n !in visited ==> n in todo' && todo'[n] <= c + cost((cur, n))
    ensures n !in visited && Improves(cost, cur, c, todo, n) ==>
      todo' == todo[n := c + cost((cur, n))] && parent' == parent[n := cur]
    ensures !Improves(cost, cur, c, todo, n) ==> todo' == todo && parent' == parent
  {
    if n in visited || (n in todo && c + cost((cur, n)) >= todo[n]) {
      RelaxSkipKeepsInv(to, cost, start, todo, visited, parent, dist, order, cur, pending, n);
      todo', parent' := todo, parent;
    } else {
      RelaxUpdateKeepsInv(to, cost, start, todo, visited, parent, dist, order, cur, pending, n);
      todo' := todo[n := c + cost((cur, n))];
      parent' := parent[n := cur];
    }
  }

  /** `RelaxEdge` for the next neighbour `n`, which moves it from the pending neighbours to the relaxed ones. */
  method RelaxNext<V(==, !new)>(ghost to: map<V, set<V>>, cost: ((V, V)) -> nat, start: V, cur: V, c: nat, n: V,
                                ghost todo0: map<V, nat>, ghost parent0: map<V, V>,
                                todo: map<V, nat>, visited: set<V>, parent: map<V, V>,
                                ghost dist: map<V, nat>, ghost order: map<V, nat>, ghost pending: set<V>)
    returns (todo': map<V, nat>, parent': map<V, V>)
    requires cur in visited && cur in dist && dist[cur] == c && cur in to && n in pending && pending <= to[cur]
    requires SearchInv(to, cost, start, todo, visited, parent, dist, order, cur, pending)
    requires RelaxedOver(cost, cur, c, visited, to[cur] - pending, todo0, parent0, todo, parent)
    ensures SearchInv(to, cost, start, todo', visited, parent', dist, order, cur, pending - {n})
    ensures RelaxedOver(cost, cur, c, visited, to[cur] - (pending - {n}), todo0, parent0, todo', parent')
  {
    todo', parent' := RelaxEdge(to, cost, start, cur, c, n, todo, visited, parent, dist, order, pending);
    RelaxedStep(cost, cur, c, visited, to[cur] - pending, n, todo0, parent0, todo, parent, todo', parent');
    assert (to[cur] - pending) + {n} == to[cur] - (pending - {n});
  }

  /**
   * The inner loop of `least_cost_path`: for each out-neighbour `n` of the
   * vertex `cur` just finalised at cost `c`, unless `n` is finalised, record
   * `c + cost((cur, n))` and parent `cur` when `n` is new to the frontier or
   * this is cheaper than its frontier cost.
   */
  method RelaxNeighbours<V(==, !new)>(G: Digraph<V>, cost: ((V, V)) -> nat, start: V, cur: V, c: nat,
                                      todo: map<V, nat>, visited: set<V>, parent: map<V, V>,
                                      ghost dist: map<V, nat>, ghost order: map<V, nat>)
    returns (todo': map<V, nat>, parent': map<V, V>)
    requires G.Valid() && cur in visited && cur in G.Vertices() && cur in dist && dist[cur] == c
    requires SearchInv(G.tosets, cost, start, todo, visited, parent, dist, order, cur, G.tosets[cur])
    ensures SearchInv(G.tosets, cost, start, todo', visited, parent', dist, order, start, {})
    ensures RelaxedOver(cost, cur, c, visited, G.tosets[cur], todo, parent, todo', parent')
  {
    var neighbours := G.AdjTo(cur);
    todo', parent' := RelaxAll(G.tosets, cost, start, cur, c, neighbours, todo, visited, parent, dist, order);
  }

  /** The loop of `RelaxNeighbours`, over the out-neighbours `neighbours` of `cur` in the graph `to`. */
  method RelaxAll<V(==, !new)>(ghost to: map<V, set<V>>, cost: ((V, V)) -> nat, start: V, cur: V, c: nat,
                               neighbours: set<V>, todo: map<V, nat>, visited: set<V>, parent: map<V, V>,
                               ghost dist: map<V, nat>, ghost order: map<V, nat>)
    returns (todo': map<V, nat>, parent': map<V, V>)
    requires cur in visited && cur in to && neighbours == to[cur] && cur in dist && dist[cur] == c
    requires SearchInv(to, cost, start, todo, visited, parent, dist, order, cur, neighbours)
    ensures SearchInv(to, cost, start, todo', visited, parent', dist, order, start, {})
    ensures RelaxedOver(cost, cur, c, visited, neighbours, todo, parent, todo', parent')
  {
    todo', parent' := todo, parent;
    var pending := neighbours;
    RelaxedNothing(cost, cur, c, visited, to[cur] - pending, todo, parent);
    while pending != {}
      invariant pending <= to[cur]
      invariant SearchInv(to, cost, start, todo', visited, parent', dist, order, cur, pending)
      invariant RelaxedOver(cost, cur, c, visited, to[cur] - pending, todo, parent, todo', parent')
      decreases pending
    {
      var n :| n in pending;
      todo', parent' := RelaxNext(to, cost, start, cur, c, n, todo, parent, todo', visited, parent', dist, order, pending);
      pending := pending - {n};
    }
    assert to[cur] - pending == to[cur];
    NoPendingFrontier(to, cost, todo', visited, dist, cur, start);
  }

  /**
   * The search loop of `least_cost_path`: until the frontier is empty or
   * `dest` is finalised, finalise a frontier entry of least cost (any one,
   * when several tie) and relax its out-edges.
   */
  method Search<V(==, !new)>(G: Digraph<V>, start: V, dest: V, cost: ((V, V)) -> nat)
    returns (todo: map<V, nat>, visited: set<V>, parent: map<V, V>, ghost dist: map<V, nat>, ghost order: map<V, nat>)
    requires G.Valid() && start in G.Vertices()
    ensures SearchInv(G.tosets, cost, start, todo, visited, parent, dist, order, start, {})
    ensures dest !in visited ==> todo == map[]
  {
    todo := map[start := 0];
    visited, parent, dist, order := {}, map[], map[], map[];
    ConsistentIsClosed(G.tosets, G.fromsets);

    while todo != map[] && dest !in visited
      invariant SearchInv(G.tosets, cost, start, todo, visited, parent, dist, order, start, {})
      decreases |G.tosets.Keys - visited|
    {
      MinimumExists(todo);
      var cur :| cur in todo && forall u :: u in todo ==> todo[cur] <= todo[u];
      FinaliseKeepsInv(G.tosets, cost, start, todo, visited, parent, dist, order, start, cur);
      var c := todo[cur];
      VisitShrinks(G.tosets.Keys, visited, cur);
      dist := dist[cur := c];
      order := order[cur := |visited|];
      todo := todo - {cur};
      visited := visited + {cur};
      todo, parent := RelaxNeighbours(G, cost, start, cur, c, todo, visited, parent, dist, order);
    }
  }

  /**
   * `route` is a walk to `dest` along which the finalisation order rises
   * and each edge adds its cost to the finalised cost.
   */
  ghost predicate RouteBack<V(!new)>(to: map<V, set<V>>, cost: ((V, V)) -> nat, dist: map<V, nat>,
                                     order: map<V, nat>, route: seq<V>, dest: V)
  {
    && |route| > 0 && route[|route| - 1] == dest && IsWalk(to, route)
    && (forall i :: 0 <= i < |route| ==> route[i] in dist && route[i] in order)
    && dist[route[0]] + PathCost(cost, route) == dist[dest]
    && (forall i, j :: 0 <= i < j < |route| ==> order[route[i]] < order[route[j]])
  }

  /** Putting the parent of its first vertex in front of a `RouteBack` route keeps it one. */
  lemma StepBack<V(!new)>(to: map<V, set<V>>, cost: ((V, V)) -> nat, parent: map<V, V>, dist: map<V, nat>,
                          order: map<V, nat>, route: seq<V>, dest: V)
    requires RouteBack(to, cost, dist, order, route, dest)
    requires LinkedAt(to, cost, parent, dist, route[0], dist[route[0]])
    requires parent[route[0]] in order && order[parent[route[0]]] < order[route[0]]
    ensures RouteBack(to, cost, dist, order, [parent[route[0]]] + route, dest)
  {
    var u := parent[route[0]];
    var route' := [u] + route;
    assert route'[1..] == route;
    assert PathCost(cost, route') == cost((u, route[0])) + PathCost(cost, route);
    forall i, j | 0 <= i < j < |route'| ensures order[route'[i]] < order[route'[j]] {
      if i == 0 && j > 1 {
        assert order[route[0]] < order[route[j - 1]];
      }
    }
  }

  /**
   * The reconstruction of `least_cost_path`: from `dest`, append the parent
   * of the last vertex until `start` is reached, then reverse.
   */
  method FollowParents<V(==, !new)>(G: Digraph<V>, cost: ((V, V)) -> nat, start: V, dest: V,
                                    visited: set<V>, parent: map<V, V>,
                                    ghost dist: map<V, nat>, ghost order: map<V, nat>)
    returns (path: seq<V>)
    requires dest in visited && start in visited && dist.Keys == visited && order.Keys == visited
    requires FinalisedLinks(G.tosets, cost, start, visited, parent, dist, order) && dist[start] == 0
    ensures IsPathFromTo(G.tosets, path, start, dest) && NoRepeats(path)
    ensures PathCost(cost, path) == dist[dest]
    ensures start == dest ==> path == [start]
  {
    path := [dest];
    ghost var route := [dest];
    while path[|path| - 1] != start
      invariant |path| == |route| > 0
      invariant forall i :: 0 <= i < |path| ==> path[i] == route[|route| - 1 - i]
      invariant RouteBack(G.tosets, cost, dist, order, route, dest)
      decreases order[route[0]]
    {
      var last := path[|path| - 1];
      assert last == route[0];
      assert LinkedAt(G.tosets, cost, parent, dist, last, dist[last]);
      var u := parent[last];
      StepBack(G.tosets, cost, parent, dist, order, route, dest);
      path := path + [u];
      route := [u] + route;
    }
    path := Reverse(path);
    assert path == route;
  }

  /**
   * `least_cost_path(G, start, dest, cost)`: `None` exactly when `dest`
   * cannot be reached from `start`; otherwise a walk from `start` to `dest`
   * that repeats no vertex and costs no more than any other such walk.
   */
  method LeastCostPath<V(==, !new)>(G: Digraph<V>, start: V, dest: V, cost: ((V, V)) -> nat)
    returns (p: Option<seq<V>>)
    requires G.Valid() && start in G.Vertices()
    ensures p.None? <==> !Reachable(G.tosets, start, dest)
    ensures p.Some? ==> IsPathFromTo(G.tosets, p.value, start, dest) && NoRepeats(p.value)
    ensures p.Some? ==> forall q :: IsPathFromTo(G.tosets, q, start, dest) ==> PathCost(cost, p.value) <= PathCost(cost, q)
    ensures start == dest ==> p == Some([start])
  {
    var todo, visited, parent, dist, order := Search(G, start, dest, cost);
    if dest !in visited {
      ExhaustedMeansUnreachable(G.tosets, cost, start, dest, visited, parent, dist, order, start);
      return None;
    }
    var path := FollowParents(G, cost, start, dest, visited, parent, dist, order);
    assert Cheapest(G.tosets, cost, start, dest, dist[dest]);
    if start == dest {
      assert path[0] == path[|path| - 1];
    }
    p := Some(path);
  }

  /** `path.reverse()` */
  function Reverse<V>(s: seq<V>): (r: seq<V>)
    ensures |r| == |s|
    ensures forall i :: 0 <= i < |s| ==> r[i] == s[|s| - 1 - i]
  {
    if s == [] then [] else [s[|s| - 1]] + Reverse(s[..|s| - 1])
  }

  /**
   * `shortest_path(G, source, dest)`: the least-cost search with every
   * edge costing 1, so no walk from `source` to `dest` has fewer vertices.
   */
  method ShortestPath<V(==, !new)>(G: Digraph<V>, source: V, dest: V) returns (p: Option<seq<V>>)
    requires G.Valid() && source in G.Vertices()
    ensures p.None? <==> !Reachable(G.tosets, source, dest)
    ensures p.Some? ==> IsPathFromTo(G.tosets, p.value, source, dest) && NoRepeats(p.value)
    ensures p.Some? ==> forall q :: IsPathFromTo(G.tosets, q, source, dest) ==> |p.value| <= |q|
  {
    p := LeastCostPath(G, source, dest, (e: (V, V)) => 1);
    if p.Some? {
      forall q | IsPathFromTo(G.tosets, q, source, dest) ensures |p.value| <= |q| {
        UnitPathCost(q);
        UnitPathCost(p.value);
      }
    }
  }
}
