/** The shortest-path tree that `City.makeTree` leaves behind, read as a
    forest of parent links, and the route `City.getLinksTo` recovers from it:
    the chain of parent links from a city down to a descendant. */
module RouteTree {
  import opened JavaLang
  import opened RailGraph
  import opened ShortestPaths

  /** Every registered city polled, in the order `order`, and the parent and
      used links shaped as makeTree leaves them. */
  ghost predicate Forest(g: Graph, V: set<CityId>, order: map<CityId, nat>, t: TreeState) {
    Fits(g, t) && WellFormed(g) && Closed(g, V) && Ordered(V, order) && TreeShaped(g, V, V, order, t)
  }

  /** The links from `c` down the tree to `dest`, found by climbing parent
      links up from `dest` until `c` is met; None when `c` is not a proper
      ancestor of `dest`. */
  ghost function TreeRoute(g: Graph, V: set<CityId>, order: map<CityId, nat>, t: TreeState,
                           c: CityId, dest: CityId): Option<seq<LinkId>>
    requires Forest(g, V, order, t)
    decreases if dest in V then order[dest] else 0
  {
    if dest !in V || t.parent[dest].None? then None
    else
      var l := t.parent[dest].value;
      var p := Pred(g, l, dest);
      if p == c then Some([l])
      else match TreeRoute(g, V, order, t, c, p)
        case None => None
        case Some(r) => Some(r + [l])
  }

  /** A route goes from an earlier polled city to a later one and is not
      empty. */
  lemma {:induction false} RouteOrder(g: Graph, V: set<CityId>, order: map<CityId, nat>, t: TreeState,
                                      c: CityId, dest: CityId)
    requires Forest(g, V, order, t) && TreeRoute(g, V, order, t, c, dest).Some?
    ensures c in V && dest in V && order[c] < order[dest]
    ensures |TreeRoute(g, V, order, t, c, dest).value| > 0
    decreases order[dest]
  {
    var l := t.parent[dest].value;
    var p := Pred(g, l, dest);
    if p != c {
      RouteOrder(g, V, order, t, c, p);
    }
  }

  /** No city is its own descendant: the route from a city to itself is
      None, so getLinksTo from a city to itself fails. */
  lemma NoRouteToSelf(g: Graph, V: set<CityId>, order: map<CityId, nat>, t: TreeState, c: CityId)
    requires Forest(g, V, order, t)
    ensures TreeRoute(g, V, order, t, c, c) == None
  {
    if TreeRoute(g, V, order, t, c, c).Some? {
      RouteOrder(g, V, order, t, c, c);
    }
  }

  /** A used link of `c` that is not its parent leads to a child of `c`. */
  lemma ChildLink(g: Graph, V: set<CityId>, order: map<CityId, nat>, t: TreeState, c: CityId, l: LinkId)
    requires Forest(g, V, order, t) && c in V
    requires l in g.adjacency[c] && t.used[l] && t.parent[c] != Some(l)
    ensures Adj(g.links[l], c) in V && Adj(g.links[l], c) != c
    ensures t.parent[Adj(g.links[l], c)] == Some(l) && Pred(g, l, Adj(g.links[l], c)) == c
  {
    var child := Adj(g.links[l], c);
    assert child in V && t.parent[child] == Some(l);
    if child == c {
      assert false;
    }
    AdjSwap(g.links[l], c, child);
  }

  /** The parent of a city below `child` is not a city polled before
      `child`. */
  lemma AncestorNotUnder(g: Graph, V: set<CityId>, order: map<CityId, nat>, t: TreeState,
                         c: CityId, child: CityId, dest: CityId)
    requires Forest(g, V, order, t) && c in V && child in V && order[c] < order[child]
    requires TreeRoute(g, V, order, t, child, dest).Some?
    ensures Pred(g, t.parent[dest].value, dest) != c
  {
    var p2 := Pred(g, t.parent[dest].value, dest);
    if p2 != child {
      RouteOrder(g, V, order, t, child, p2);
    }
  }

  /** Going down through a child: the route to `dest` starts with the link
      to the child, then follows the child's own route. */
  lemma {:induction false} RouteViaChild(g: Graph, V: set<CityId>, order: map<CityId, nat>, t: TreeState,
                                         c: CityId, l: LinkId, dest: CityId)
    requires Forest(g, V, order, t) && c in V
    requires l in g.adjacency[c] && t.used[l] && t.parent[c] != Some(l)
    ensures Adj(g.links[l], c) == dest ==> TreeRoute(g, V, order, t, c, dest) == Some([l])
    ensures Adj(g.links[l], c) != dest && TreeRoute(g, V, order, t, Adj(g.links[l], c), dest).Some? ==>
      TreeRoute(g, V, order, t, c, dest) == Some([l] + TreeRoute(g, V, order, t, Adj(g.links[l], c), dest).value)
    decreases if dest in V then order[dest] else 0
  {
    var child := Adj(g.links[l], c);
    ChildLink(g, V, order, t, c, l);
    if child != dest && TreeRoute(g, V, order, t, child, dest).Some? {
      var l2 := t.parent[dest].value;
      var p2 := Pred(g, l2, dest);
      assert ParentLink(g, l, child);
      assert order[c] < order[child];
      AncestorNotUnder(g, V, order, t, c, child, dest);
      if p2 != child {
        RouteViaChild(g, V, order, t, c, l, p2);
        var r2 := TreeRoute(g, V, order, t, child, p2).value;
        assert [l] + r2 + [l2] == [l] + (r2 + [l2]);
      }
    }
  }

  /** Conversely a route from `c` starts with a used, non-parent link of `c`,
      to `dest` itself or to a child with its own route. */
  lemma {:induction false} RouteStart(g: Graph, V: set<CityId>, order: map<CityId, nat>, t: TreeState,
                                      c: CityId, dest: CityId) returns (l: LinkId)
    requires Forest(g, V, order, t) && TreeRoute(g, V, order, t, c, dest).Some?
    ensures c in V && l in g.adjacency[c] && l < |g.links| && t.used[l] && t.parent[c] != Some(l)
    ensures Adj(g.links[l], c) == dest || TreeRoute(g, V, order, t, Adj(g.links[l], c), dest).Some?
    decreases order[dest]
  {
    RouteOrder(g, V, order, t, c, dest);
    var l2 := t.parent[dest].value;
    var p := Pred(g, l2, dest);
    if p == c {
      l := l2;
      assert ParentLink(g, l, dest);
      if t.parent[c] == Some(l) {
        SharedParent(g, l, dest, c);
        assert false;
      }
    } else {
      l := RouteStart(g, V, order, t, c, p);
      var child := Adj(g.links[l], c);
      if child != p {
        assert TreeRoute(g, V, order, t, child, p).Some?;
        RouteOrder(g, V, order, t, child, p);
        if child == dest {
          assert false;
        }
      }
    }
  }

  // ---------------------------------------------------------------------
  // The route from the source of a finished tree

  /** A finished tree from `s`: every registered city polled, the source at
      distance 0 without a parent, every reachable city settled. */
  ghost predicate Final(g: Graph, V: set<CityId>, s: CityId, order: map<CityId, nat>, t: TreeState) {
    Forest(g, V, order, t) && s in V && t.distance[s] == 0 && t.parent[s] == None &&
    forall v {:trigger Settled(g, s, t, v)} :: v in V && Reachable(g, s, v) ==> Settled(g, s, t, v)
  }

  /** In a finished tree a link of a registered city is used exactly when
      it is the parent link of some registered city: the used links are the
      shortest-path tree. */
  lemma UsedIffParent(g: Graph, V: set<CityId>, s: CityId, order: map<CityId, nat>, t: TreeState,
                      c: CityId, l: LinkId)
    requires Final(g, V, s, order, t) && c in V && l in g.adjacency[c]
    ensures t.used[l] <==> exists v :: v in V && t.parent[v] == Some(l)
  {
    if t.used[l] && t.parent[c] != Some(l) {
      assert Adj(g.links[l], c) in V && t.parent[Adj(g.links[l], c)] == Some(l);
    }
    if exists v :: v in V && t.parent[v] == Some(l) {
      var v :| v in V && t.parent[v] == Some(l);
      assert t.used[t.parent[v].value];
    }
  }

  /** The route from the source is a walk from the source whose length is the
      distance of its destination. */
  lemma {:induction false} RouteWalk(g: Graph, V: set<CityId>, s: CityId, order: map<CityId, nat>,
                                     t: TreeState, dest: CityId) returns (vs: seq<CityId>)
    requires Final(g, V, s, order, t) && TreeRoute(g, V, order, t, s, dest).Some?
    ensures Walk(g, s, vs, TreeRoute(g, V, order, t, s, dest).value, dest)
    ensures PathLength(g, TreeRoute(g, V, order, t, s, dest).value) == t.distance[dest] as int
    decreases order[dest]
  {
    RouteOrder(g, V, order, t, s, dest);
    var l := t.parent[dest].value;
    var p := Pred(g, l, dest);
    assert ParentLink(g, l, dest) && p in V;
    AdjSwap(g.links[l], dest, p);
    assert Step(g, p, l, dest);
    var r0: seq<LinkId>;
    var vs0: seq<CityId>;
    if p == s {
      r0, vs0 := [], [s];
    } else {
      r0 := TreeRoute(g, V, order, t, s, p).value;
      vs0 := RouteWalk(g, V, s, order, t, p);
    }
    assert Walk(g, s, vs0, r0, p) && PathLength(g, r0) == t.distance[p] as int;
    WalkExtend(g, s, vs0, r0, p, l, dest);
    vs := vs0 + [dest];
    assert Reachable(g, s, dest);
    assert Settled(g, s, t, dest);
  }

  /** Every reachable city other than the source has a route from it. */
  lemma {:induction false} ReachableHasRoute(g: Graph, V: set<CityId>, s: CityId, order: map<CityId, nat>,
                                             t: TreeState, dest: CityId)
    requires Final(g, V, s, order, t) && dest in V && dest != s && Reachable(g, s, dest)
    ensures TreeRoute(g, V, order, t, s, dest).Some?
    decreases order[dest]
  {
    assert Settled(g, s, t, dest);
    var l := t.parent[dest].value;
    var p := Pred(g, l, dest);
    assert p in V && order[p] < order[dest];
    if p != s {
      ReachableHasRoute(g, V, s, order, t, p);
    }
  }

  /** getLinksTo run from the source after makeTree: a route exists exactly
      for the reachable cities other than the source, and its length is the
      shortest distance, which is the city's distance. */
  lemma RouteFromSource(g: Graph, V: set<CityId>, s: CityId, order: map<CityId, nat>,
                        t: TreeState, dest: CityId)
    requires Final(g, V, s, order, t) && dest in V
    ensures TreeRoute(g, V, order, t, s, dest).Some? <==> dest != s && Reachable(g, s, dest)
    ensures TreeRoute(g, V, order, t, s, dest).Some? ==>
      ShortestDistance(g, s, dest, PathLength(g, TreeRoute(g, V, order, t, s, dest).value)) &&
      PathLength(g, TreeRoute(g, V, order, t, s, dest).value) == t.distance[dest] as int
  {
    if TreeRoute(g, V, order, t, s, dest).Some? {
      RouteOrder(g, V, order, t, s, dest);
      var vs := RouteWalk(g, V, s, order, t, dest);
      assert Reachable(g, s, dest);
      assert Settled(g, s, t, dest);
    } else if dest != s && Reachable(g, s, dest) {
      ReachableHasRoute(g, V, s, order, t, dest);
    }
  }

  /** The loop invariant of makeTree once every registered city is polled
      gives the finished tree. */
  lemma InvFinal(g: Graph, V: set<CityId>, s: CityId, m: int, done: bool, order: map<CityId, nat>, t: TreeState)
    requires Inv(g, V, s, m, V, done, order, t)
    ensures Final(g, V, s, order, t)
  {
  }

  /** What a finished tree promises: every reachable city carries its
      shortest distance, and every reachable city other than the source has a
      parent link from a reachable city, one link length closer; every parent
      link is marked used. */
  lemma FinalMeaning(g: Graph, V: set<CityId>, s: CityId, order: map<CityId, nat>, t: TreeState)
    requires Final(g, V, s, order, t)
    ensures forall v :: v in V && Reachable(g, s, v) ==> ShortestDistance(g, s, v, t.distance[v] as int)
    ensures forall v :: v in V && v != s && Reachable(g, s, v) ==>
      t.parent[v].Some? && t.parent[v].value < |g.links| &&
      Step(g, Pred(g, t.parent[v].value, v), t.parent[v].value, v) &&
      Reachable(g, s, Pred(g, t.parent[v].value, v)) &&
      t.distance[v] as int == t.distance[Pred(g, t.parent[v].value, v)] as int + LinkLength(g, t.parent[v].value)
    ensures forall v :: v in V && t.parent[v].Some? ==> t.parent[v].value < |t.used| && t.used[t.parent[v].value]
  {
    forall v | v in V && Reachable(g, s, v)
      ensures ShortestDistance(g, s, v, t.distance[v] as int)
    {
      assert Settled(g, s, t, v);
    }
    forall v | v in V && v != s && Reachable(g, s, v)
      ensures t.parent[v].Some? && t.parent[v].value < |g.links| &&
        Step(g, Pred(g, t.parent[v].value, v), t.parent[v].value, v) &&
        Reachable(g, s, Pred(g, t.parent[v].value, v)) &&
        t.distance[v] as int == t.distance[Pred(g, t.parent[v].value, v)] as int + LinkLength(g, t.parent[v].value)
    {
      assert Settled(g, s, t, v);
      var l := t.parent[v].value;
      assert ParentLink(g, l, v);
      AdjSwap(g.links[l], v, Pred(g, l, v));
    }
  }
}
