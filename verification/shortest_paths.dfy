/** The invariant of the shortest-path-tree loop (`City.makeTree`) and the
    lemmas that carry it across one poll of the priority queue. Everything
    here is about values: the loop in module Rail hands its fields over. */
module ShortestPaths {
  import opened JavaLang
  import opened RailGraph

  /** The per-run state that a tree build overwrites: each city's distance
      and parent link, and each link's used flag. */
  datatype TreeState = TreeState(distance: seq<int32>, parent: seq<Option<LinkId>>, used: seq<bool>)

  ghost predicate Fits(g: Graph, t: TreeState) {
    |t.distance| == |g.adjacency| && |t.parent| == |g.adjacency| && |t.used| == |g.links|
  }

  /** `l` reaches `v` from a different city that holds `l`. */
  ghost predicate ParentLink(g: Graph, l: LinkId, v: CityId) {
    l < |g.links| &&
    var p := Adj(g.links[l], v);
    p != v && p < |g.adjacency| && l in g.adjacency[p] && Adj(g.links[l], p) == v
  }

  /** The city at the other end of `v`'s parent link. */
  function Pred(g: Graph, l: LinkId, v: CityId): CityId
    requires l < |g.links|
  {
    Adj(g.links[l], v)
  }

  /** Two cities with the same parent link are its two ends. */
  lemma SharedParent(g: Graph, l: LinkId, v: CityId, w: CityId)
    requires WellFormed(g) && ParentLink(g, l, v) && ParentLink(g, l, w) && v != w
    ensures w == Pred(g, l, v)
  {
    var lk := g.links[l];
    AdjOfEndpoint(lk, Adj(lk, v));
    AdjOfEndpoint(lk, Adj(lk, w));
    ThirdEndpoint(lk, v, Adj(lk, v), w);
  }

  /** The order in which cities were polled: `order[v]` is the number of
      cities polled before `v`. */
  ghost predicate Ordered(F: set<CityId>, order: map<CityId, nat>) {
    order.Keys == F &&
    (forall v :: v in F ==> order[v] < |F|) &&
    (forall v, w :: v in F && w in F && v != w ==> order[v] != order[w])
  }

  /** Every parent link joins its city to a different, already polled city;
      among polled cities the parent was polled earlier. */
  ghost predicate ParentsBack(g: Graph, V: set<CityId>, F: set<CityId>, order: map<CityId, nat>, t: TreeState)
    requires Fits(g, t) && Closed(g, V) && F <= order.Keys
  {
    forall v :: v in V && t.parent[v].Some? ==>
      ParentLink(g, t.parent[v].value, v) &&
      Pred(g, t.parent[v].value, v) in F &&
      (v in F ==> order[Pred(g, t.parent[v].value, v)] < order[v])
  }

  /** A parent link is marked used exactly when its city has been polled. */
  ghost predicate ParentsUsed(g: Graph, V: set<CityId>, F: set<CityId>, t: TreeState)
    requires Fits(g, t) && Closed(g, V)
  {
    forall v :: v in V && t.parent[v].Some? && t.parent[v].value < |g.links| ==>
      (t.used[t.parent[v].value] <==> v in F)
  }

  /** A used link that is not a city's own parent link leads to a polled
      city whose parent it is. */
  ghost predicate UsedAreParents(g: Graph, V: set<CityId>, F: set<CityId>, t: TreeState)
    requires Fits(g, t) && Closed(g, V)
  {
    forall c, l :: c in V && l in g.adjacency[c] && t.used[l] && t.parent[c] != Some(l) ==>
      Adj(g.links[l], c) in F && t.parent[Adj(g.links[l], c)] == Some(l)
  }

  /** The parent links form a tree over the polled cities, ordered by poll,
      and the used links are exactly those parent links. */
  ghost predicate TreeShaped(g: Graph, V: set<CityId>, F: set<CityId>, order: map<CityId, nat>, t: TreeState)
    requires Fits(g, t) && Closed(g, V) && F <= order.Keys
  {
    ParentsBack(g, V, F, order, t) && ParentsUsed(g, V, F, t) && UsedAreParents(g, V, F, t)
  }

  /** `v` carries its shortest distance from `s`, and (unless it is `s`) its
      parent link comes from a reachable city whose distance plus the link's
      length is `v`'s distance. */
  ghost predicate Settled(g: Graph, s: CityId, t: TreeState, v: CityId)
    requires Fits(g, t) && v < |g.adjacency|
  {
    0 <= t.distance[v] as int < MAX_VALUE &&
    ShortestDistance(g, s, v, t.distance[v] as int) &&
    (v != s ==>
      t.parent[v].Some? && t.parent[v].value < |g.links| &&
      Pred(g, t.parent[v].value, v) < |g.adjacency| &&
      Reachable(g, s, Pred(g, t.parent[v].value, v)) &&
      t.distance[v] as int == t.distance[Pred(g, t.parent[v].value, v)] as int + LinkLength(g, t.parent[v].value))
  }

  /** A not-yet-polled city with a finite distance: the distance is the length
      of some walk, it is bounded, and it came from its parent link. */
  ghost predicate Candidate(g: Graph, s: CityId, F: set<CityId>, m: int, t: TreeState, v: CityId)
    requires Fits(g, t) && v < |g.adjacency|
  {
    0 <= t.distance[v] as int <= Times(|F|, m) &&
    (exists vs, ls :: Walk(g, s, vs, ls, v) && PathLength(g, ls) == t.distance[v] as int) &&
    (v != s ==>
      t.parent[v].Some? && t.parent[v].value < |g.links| &&
      Pred(g, t.parent[v].value, v) < |g.adjacency| &&
      t.distance[v] as int == t.distance[Pred(g, t.parent[v].value, v)] as int + LinkLength(g, t.parent[v].value))
  }

  /** The polled cities are settled, within `|F|` link lengths of `s`. */
  ghost predicate PolledSettled(g: Graph, V: set<CityId>, s: CityId, m: int, F: set<CityId>, t: TreeState)
    requires Fits(g, t) && Closed(g, V)
  {
    forall v {:trigger Settled(g, s, t, v)} ::
      v in F ==> v in V && Settled(g, s, t, v) && t.distance[v] as int <= Times(|F|, m)
  }

  /** The unpolled cities with a finite distance are candidates. */
  ghost predicate Candidates(g: Graph, V: set<CityId>, s: CityId, m: int, F: set<CityId>, t: TreeState)
    requires Fits(g, t) && Closed(g, V)
  {
    forall v {:trigger Candidate(g, s, F, m, t, v)} ::
      v in V && v !in F && t.distance[v] as int < MAX_VALUE ==> Candidate(g, s, F, m, t, v)
  }

  /** Every link out of a polled city to an unpolled one has been relaxed. */
  ghost predicate EdgesRelaxed(g: Graph, V: set<CityId>, F: set<CityId>, t: TreeState)
    requires Fits(g, t) && Closed(g, V) && WellFormed(g)
  {
    forall x, l :: x in F && x in V && l in g.adjacency[x] && Adj(g.links[l], x) !in F ==>
      t.distance[Adj(g.links[l], x)] as int <= t.distance[x] as int + LinkLength(g, l)
  }

  /** While only reachable cities have been polled: they are settled, the
      others with finite distance are candidates, and every link out of a
      polled city has been relaxed. */
  ghost predicate Phase1(g: Graph, V: set<CityId>, s: CityId, m: int, F: set<CityId>, t: TreeState)
    requires Fits(g, t) && Closed(g, V) && WellFormed(g)
  {
    PolledSettled(g, V, s, m, F, t) && Candidates(g, V, s, m, F, t) && EdgesRelaxed(g, V, F, t)
  }

  /** Static facts about the network a tree is built over. */
  ghost predicate Network(g: Graph, V: set<CityId>, s: CityId, m: int) {
    WellFormed(g) && Closed(g, V) && s in V &&
    LengthsAtMost(g, V, m) && 0 <= m && Times(|V|, m) < MAX_VALUE
  }

  /** The source stays at distance 0 without a parent; before the first poll
      it is the only city with a finite distance, and it is polled first. */
  ghost predicate Start(V: set<CityId>, s: CityId, F: set<CityId>, t: TreeState) {
    s < |t.distance| && s < |t.parent| && t.distance[s] == 0 && t.parent[s] == None &&
    (s !in F ==>
      F == {} && forall v :: v in V && v != s && v < |t.distance| ==> t.distance[v] as int == MAX_VALUE)
  }

  /** The loop invariant of makeTree: `F` is the set of polled cities and
      `done` records that a city at distance MAX_VALUE has been polled. */
  ghost predicate Inv(g: Graph, V: set<CityId>, s: CityId, m: int, F: set<CityId>, done: bool,
                      order: map<CityId, nat>, t: TreeState)
  {
    Network(g, V, s, m) && Fits(g, t) && F <= V &&
    Ordered(F, order) && TreeShaped(g, V, F, order, t) && Start(V, s, F, t) &&
    (!done ==> Phase1(g, V, s, m, F, t)) &&
    (done ==> forall v :: v in V && Reachable(g, s, v) ==> v in F) &&
    (forall v {:trigger Settled(g, s, t, v)} :: v in F && Reachable(g, s, v) ==> Settled(g, s, t, v))
  }

  /** The first phase, before a poll. */
  ghost predicate Phase1Setting(g: Graph, V: set<CityId>, s: CityId, m: int, F: set<CityId>, t: TreeState) {
    Network(g, V, s, m) && Fits(g, t) && F <= V && Start(V, s, F, t) && Phase1(g, V, s, m, F, t)
  }

  /** `u` is an unpolled city at minimum distance: what `poll` returns. */
  ghost predicate MinPolled(V: set<CityId>, F: set<CityId>, t: TreeState, u: CityId) {
    u in V && u !in F && u < |t.distance| &&
    forall v :: v in V && v !in F && v < |t.distance| ==> t.distance[u] <= t.distance[v]
  }

  /** What `City.updateDistances` does to distances and parents when it
      relaxes the links of `u`, with `F` the polled cities: a city changes
      only if it is not polled, then it strictly improves to `u`'s distance
      plus the (32-bit) length of a link of `u` that leads to it; and after
      the call no link of `u` offers a smaller distance to a city outside `F`. */
  ghost predicate Relaxed(g: Graph, u: CityId, F: set<CityId>, d0: seq<int32>, p0: seq<Option<LinkId>>,
                          d1: seq<int32>, p1: seq<Option<LinkId>>)
    requires u < |d0| && |p0| == |d0|
  {
    |d1| == |d0| && |p1| == |p0| &&
    (forall v :: 0 <= v < |d0| ==>
      (d1[v] == d0[v] && p1[v] == p0[v]) ||
      (v !in F && d1[v] < d0[v] && p1[v].Some? && Step(g, u, p1[v].value, v) &&
       d1[v] == Add(d0[u], g.links[p1[v].value].length))) &&
    (forall l ::
      (u < |g.adjacency| && l in g.adjacency[u] && l < |g.links| &&
       Adj(g.links[l], u) < |d0| && Adj(g.links[l], u) !in F) ==>
      d1[Adj(g.links[l], u)] <= Add(d0[u], g.links[l].length))
  }

  // ---------------------------------------------------------------------
  // Arithmetic and set helpers

  lemma {:induction false} SubsetCardinality<T>(A: set<T>, B: set<T>)
    requires A <= B
    ensures |A| <= |B|
    decreases |A|
  {
    if A != {} {
      var x :| x in A;
      SubsetCardinality(A - {x}, B - {x});
    }
  }

  /** A set missing one element of another it is included in is smaller. */
  lemma StrictSubsetCardinality<T>(A: set<T>, B: set<T>, x: T)
    requires A <= B && x in B && x !in A
    ensures |A| < |B|
  {
    SubsetCardinality(A, B - {x});
    assert B == (B - {x}) + {x};
  }

  /** `k * m` written as repeated addition, so that the bounds of the loop
      invariant stay within linear arithmetic. */
  function Times(k: nat, m: int): int {
    if k == 0 then 0 else Times(k - 1, m) + m
  }

  lemma {:induction false} TimesMonotone(a: nat, b: nat, m: int)
    requires a <= b && 0 <= m
    ensures 0 <= Times(a, m) <= Times(b, m)
    decreases b - a, b
  {
    if a < b {
      TimesMonotone(a, b - 1, m);
    } else if a > 0 {
      TimesMonotone(a - 1, a - 1, m);
    }
  }

  /** One more poll raises the bound by one link length, and stays below the
      bound for all of `V`. */
  lemma TimesStep(k: nat, n: nat, m: int)
    requires k < n && 0 <= m
    ensures Times(k + 1, m) == Times(k, m) + m
    ensures 0 <= Times(k, m) <= Times(k + 1, m) <= Times(n, m)
  {
    TimesMonotone(k + 1, n, m);
    TimesMonotone(k, k + 1, m);
  }

  /** A finite non-empty set of cities has one at minimum distance. */
  lemma {:induction false} MinimumExists(Q: set<CityId>, d: seq<int32>)
    requires Q != {} && forall v :: v in Q ==> v < |d|
    ensures exists u :: u in Q && forall v :: v in Q ==> d[u] <= d[v]
    decreases |Q|
  {
    var x :| x in Q;
    if Q - {x} == {} {
      assert Q == {x};
    } else {
      MinimumExists(Q - {x}, d);
      var y :| y in Q - {x} && forall v :: v in Q - {x} ==> d[y] <= d[v];
      if d[x] <= d[y] {
        assert forall v :: v in Q ==> d[x] <= d[v];
      } else {
        assert forall v :: v in Q ==> d[y] <= d[v];
      }
    }
  }

  // ---------------------------------------------------------------------
  // The step lemmas

  /** Settledness only depends on the distances and parent of the city and
      its predecessor. */
  lemma SettledFrame(g: Graph, s: CityId, t: TreeState, t': TreeState, v: CityId)
    requires Fits(g, t) && Fits(g, t') && v < |g.adjacency| && Settled(g, s, t, v)
    requires t'.distance[v] == t.distance[v] && t'.parent[v] == t.parent[v]
    requires v != s ==> t'.distance[Pred(g, t.parent[v].value, v)] == t.distance[Pred(g, t.parent[v].value, v)]
    ensures Settled(g, s, t', v)
  {
  }

  /** The state right after `initializeCities` and `populatePriorityQueue`
      satisfies the loop invariant with nothing polled. */
  lemma InitialInv(g: Graph, V: set<CityId>, s: CityId, m: int, t: TreeState)
    requires Network(g, V, s, m) && Fits(g, t)
    requires forall v :: v in V ==>
      t.parent[v] == None && t.distance[v] as int == if v == s then 0 else MAX_VALUE
    requires forall c, l :: c in V && l in g.adjacency[c] ==> !t.used[l]
    ensures Inv(g, V, s, m, {}, false, map[], t)
  {
    assert Walk(g, s, [s], [], s);
    assert Candidate(g, s, {}, m, t, s);
  }

  /** Where a walk first leaves the polled cities, the city it enters is no
      farther than the whole walk: the polled city it leaves is no farther
      than the walk's prefix, and the link between them has been relaxed. */
  lemma ExitBound(g: Graph, s: CityId, t: TreeState, vs: seq<CityId>, ls: seq<LinkId>, u: CityId, j: nat)
    requires Fits(g, t) && Walk(g, s, vs, ls, u) && j < |ls|
    requires vs[j] < |g.adjacency| && vs[j + 1] < |g.adjacency|
    requires forall i :: 0 <= i < |ls| ==> 0 <= LinkLength(g, ls[i])
    requires forall vs', ls' :: Walk(g, s, vs', ls', vs[j]) ==> t.distance[vs[j]] as int <= PathLength(g, ls')
    requires t.distance[vs[j + 1]] as int <= t.distance[vs[j]] as int + LinkLength(g, ls[j])
    ensures t.distance[vs[j + 1]] as int <= PathLength(g, ls)
  {
    WalkPrefix(g, s, vs, ls, u, j);
    assert ls[..j + 1][..j] == ls[..j];
    PathLengthPrefix(g, ls, j + 1);
  }

  /** The polled city is no farther than the length of any walk to it. */
  lemma MinIsShortest(g: Graph, V: set<CityId>, s: CityId, m: int, F: set<CityId>,
                      t: TreeState, u: CityId, vs: seq<CityId>, ls: seq<LinkId>)
    requires Phase1Setting(g, V, s, m, F, t) && MinPolled(V, F, t, u)
    requires Walk(g, s, vs, ls, u)
    ensures t.distance[u] as int <= PathLength(g, ls)
  {
    WalkLengthsNonNegative(g, V, m, s, vs, ls, u);
    PathLengthPrefix(g, ls, 0);
    if s !in F {
      assert t.distance[u] <= t.distance[s];
    } else {
      var j := FirstExit(vs, F);
      WalkInside(g, V, s, vs, ls, u, j);
      WalkInside(g, V, s, vs, ls, u, j + 1);
      assert Step(g, vs[j], ls[j], vs[j + 1]);
      assert Settled(g, s, t, vs[j]);
      ExitBound(g, s, t, vs, ls, u, j);
      assert t.distance[u] <= t.distance[vs[j + 1]];
    }
  }

  /** One relaxed link out of a polled city stays below MAX_VALUE while
      fewer than all cities are polled. */
  lemma BelowInfinity(dx: int, len: int, dw: int, k: nat, n: nat, m: int)
    requires 0 <= m && dx <= Times(k, m) && 0 <= len <= m && dw <= dx + len
    requires k < n && Times(n, m) < MAX_VALUE
    ensures dw < MAX_VALUE
  {
    TimesStep(k, n, m);
  }

  /** Where a walk to an unpolled city first leaves the polled cities, it
      enters a city whose distance is finite. */
  lemma ExitFinite(g: Graph, V: set<CityId>, s: CityId, m: int, F: set<CityId>,
                   t: TreeState, v: CityId) returns (w: CityId)
    requires Network(g, V, s, m) && Fits(g, t) && F <= V && s in F && Phase1(g, V, s, m, F, t)
    requires v in V && v !in F && Reachable(g, s, v)
    ensures w in V && w !in F && t.distance[w] as int < MAX_VALUE
  {
    var vs, ls :| Walk(g, s, vs, ls, v);
    var j := FirstExit(vs, F);
    var x := vs[j];
    w := vs[j + 1];
    WalkInside(g, V, s, vs, ls, v, j + 1);
    assert Step(g, x, ls[j], w);
    WalkInside(g, V, s, vs, ls, v, j);
    assert Settled(g, s, t, x);
    StrictSubsetCardinality(F, V, w);
    BelowInfinity(t.distance[x] as int, LinkLength(g, ls[j]), t.distance[w] as int, |F|, |V|, m);
  }

  /** While an unpolled city is reachable, some unpolled city has a finite
      distance. */
  lemma FrontierFinite(g: Graph, V: set<CityId>, s: CityId, m: int, F: set<CityId>,
                       t: TreeState, v: CityId) returns (w: CityId)
    requires Phase1Setting(g, V, s, m, F, t)
    requires v in V && v !in F && Reachable(g, s, v)
    ensures w in V && w !in F && t.distance[w] as int < MAX_VALUE
  {
    if s !in F {
      w := s;
    } else {
      w := ExitFinite(g, V, s, m, F, t, v);
    }
  }

  /** Polling a city at distance MAX_VALUE means nothing reachable is left. */
  lemma NothingReachableLeft(g: Graph, V: set<CityId>, s: CityId, m: int, F: set<CityId>,
                             t: TreeState, u: CityId)
    requires Phase1Setting(g, V, s, m, F, t) && MinPolled(V, F, t, u)
    requires t.distance[u] as int == MAX_VALUE
    ensures forall v :: v in V && Reachable(g, s, v) ==> v in F
  {
    forall v | v in V && Reachable(g, s, v) ensures v in F {
      if v !in F {
        var w := FrontierFinite(g, V, s, m, F, t, v);
      }
    }
  }

  // ---------------------------------------------------------------------
  // One poll of the loop

  /** makeTree marks the polled city's parent link used. */
  function MarkParent(t: TreeState, u: CityId): (r: seq<bool>)
    ensures |r| == |t.used|
    ensures forall l :: 0 <= l < |r| ==>
      r[l] == (t.used[l] || (u < |t.parent| && t.parent[u] == Some(l)))
  {
    if u < |t.parent| && t.parent[u].Some? && t.parent[u].value < |t.used| then
      t.used[t.parent[u].value := true]
    else
      t.used
  }

  /** One iteration of makeTree's loop: `u` leaves the queue, its parent link
      is marked, and its links are relaxed with `u` already in the tree. */
  ghost predicate PollTransition(g: Graph, F: set<CityId>, u: CityId, t0: TreeState, t1: TreeState) {
    Fits(g, t0) && u < |g.adjacency| &&
    t1.used == MarkParent(t0, u) &&
    Relaxed(g, u, F + {u}, t0.distance, t0.parent, t1.distance, t1.parent)
  }

  /** The situation in which a city `u` is polled. */
  ghost predicate Polling(g: Graph, V: set<CityId>, s: CityId, m: int, F: set<CityId>,
                          order: map<CityId, nat>, t0: TreeState, u: CityId)
  {
    Network(g, V, s, m) && Fits(g, t0) && F <= V && u in V && u !in F &&
    Ordered(F, order) && TreeShaped(g, V, F, order, t0)
  }

  /** A poll in the first phase: the polled city has a finite distance. */
  ghost predicate FirstPhasePoll(g: Graph, V: set<CityId>, s: CityId, m: int, F: set<CityId>,
                                 order: map<CityId, nat>, t0: TreeState, u: CityId)
  {
    Polling(g, V, s, m, F, order, t0, u) && Phase1Setting(g, V, s, m, F, t0) &&
    MinPolled(V, F, t0, u) && t0.distance[u] as int < MAX_VALUE
  }

  lemma OrderedStep(F: set<CityId>, order: map<CityId, nat>, u: CityId)
    requires Ordered(F, order) && u !in F
    ensures Ordered(F + {u}, order[u := |F|])
  {
    assert |F + {u}| == |F| + 1;
  }

  /** After a poll every parent link still points back to an earlier polled
      city: an unchanged parent keeps its end, and a new parent is a link of
      the polled city. */
  lemma ParentsBackStep(g: Graph, V: set<CityId>, s: CityId, m: int, F: set<CityId>,
                        order: map<CityId, nat>, t0: TreeState, u: CityId, t1: TreeState)
    requires Polling(g, V, s, m, F, order, t0, u) && PollTransition(g, F, u, t0, t1)
    ensures Fits(g, t1)
    ensures ParentsBack(g, V, F + {u}, order[u := |F|], t1)
  {
    var F1, order1 := F + {u}, order[u := |F|];
    forall v | v in V && t1.parent[v].Some?
      ensures ParentLink(g, t1.parent[v].value, v)
      ensures Pred(g, t1.parent[v].value, v) in F1
      ensures v in F1 ==> order1[Pred(g, t1.parent[v].value, v)] < order1[v]
    {
      if t1.distance[v] == t0.distance[v] && t1.parent[v] == t0.parent[v] {
        var l := t0.parent[v].value;
        assert ParentLink(g, l, v) && Pred(g, l, v) in F;
        if v in F {
          assert order[Pred(g, l, v)] < order[v];
        }
      } else {
        var l := t1.parent[v].value;
        assert v !in F1 && Step(g, u, l, v);
        AdjSwap(g.links[l], u, v);
      }
    }
  }

  /** After a poll a parent link is used exactly when its city is polled: the
      polled city's parent has just been marked, and a link that a new parent
      comes from cannot have been used, since it leads to an unpolled city. */
  lemma ParentsUsedStep(g: Graph, V: set<CityId>, s: CityId, m: int, F: set<CityId>,
                        order: map<CityId, nat>, t0: TreeState, u: CityId, t1: TreeState)
    requires Polling(g, V, s, m, F, order, t0, u) && PollTransition(g, F, u, t0, t1)
    ensures Fits(g, t1)
    ensures ParentsUsed(g, V, F + {u}, t1)
  {
    var F1 := F + {u};
    forall v | v in V && t1.parent[v].Some? && t1.parent[v].value < |g.links|
      ensures t1.used[t1.parent[v].value] <==> v in F1
    {
      var l := t1.parent[v].value;
      if t1.distance[v] == t0.distance[v] && t1.parent[v] == t0.parent[v] {
        if v !in F1 && t0.parent[u] == Some(l) {
          SharedParent(g, l, u, v);
          assert false;
        }
      } else {
        assert v !in F1 && Step(g, u, l, v);
        if t0.parent[u] == Some(l) || t0.used[l] {
          assert false;
        }
      }
    }
  }

  /** After a poll a used link that is not a city's own parent still leads to
      a polled city whose parent it is; for the link just marked that city is
      the polled one. */
  lemma UsedAreParentsStep(g: Graph, V: set<CityId>, s: CityId, m: int, F: set<CityId>,
                           order: map<CityId, nat>, t0: TreeState, u: CityId, t1: TreeState)
    requires Polling(g, V, s, m, F, order, t0, u) && PollTransition(g, F, u, t0, t1)
    ensures Fits(g, t1)
    ensures UsedAreParents(g, V, F + {u}, t1)
  {
    var F1 := F + {u};
    forall c, l | c in V && l in g.adjacency[c] && t1.used[l] && t1.parent[c] != Some(l)
      ensures Adj(g.links[l], c) in F1 && t1.parent[Adj(g.links[l], c)] == Some(l)
    {
      var lk := g.links[l];
      if t0.parent[u] == Some(l) {
        assert c != u;
        var p := Adj(lk, u);
        AdjOfEndpoint(lk, u);
        AdjOfEndpoint(lk, p);
        ThirdEndpoint(lk, u, p, c);
      } else if t0.parent[c] == Some(l) {
        assert false;
      } else {
        var y := Adj(lk, c);
        assert y in F && t0.parent[y] == Some(l);
        assert t1.parent[y] == t0.parent[y];
      }
    }
  }

  /** While fewer than all cities are polled, relaxing a link of the polled
      city does not wrap around: the 32-bit sum is the true sum, and it stays
      within one more link length. */
  lemma RelaxNoWrap(g: Graph, V: set<CityId>, s: CityId, m: int, F: set<CityId>,
                    t0: TreeState, u: CityId, l: LinkId)
    requires Network(g, V, s, m) && Fits(g, t0) && F <= V && u in V && u !in F
    requires 0 <= t0.distance[u] as int <= Times(|F|, m)
    requires l in g.adjacency[u]
    ensures 0 <= LinkLength(g, l) <= m
    ensures Add(t0.distance[u], g.links[l].length) as int == t0.distance[u] as int + LinkLength(g, l)
    ensures t0.distance[u] as int + LinkLength(g, l) <= Times(|F + {u}|, m)
  {
    StrictSubsetCardinality(F, V, u);
    assert |F + {u}| == |F| + 1;
    TimesStep(|F|, |V|, m);
  }

  /** The city polled in the first phase is settled. */
  lemma PolledIsSettled(g: Graph, V: set<CityId>, s: CityId, m: int, F: set<CityId>,
                        order: map<CityId, nat>, t0: TreeState, u: CityId)
    requires FirstPhasePoll(g, V, s, m, F, order, t0, u)
    ensures Settled(g, s, t0, u) && t0.distance[u] as int <= Times(|F|, m)
  {
    assert Candidate(g, s, F, m, t0, u);
    forall vs, ls | Walk(g, s, vs, ls, u) ensures t0.distance[u] as int <= PathLength(g, ls) {
      MinIsShortest(g, V, s, m, F, t0, u, vs, ls);
    }
    if u != s {
      var p := Pred(g, t0.parent[u].value, u);
      assert p in F && Settled(g, s, t0, p);
    }
  }

  /** The first phase goes on: the polled cities, now with `u`, stay settled
      and within the larger bound. */
  lemma PolledSettledStep(g: Graph, V: set<CityId>, s: CityId, m: int, F: set<CityId>,
                          order: map<CityId, nat>, t0: TreeState, u: CityId, t1: TreeState)
    requires FirstPhasePoll(g, V, s, m, F, order, t0, u) && PollTransition(g, F, u, t0, t1)
    ensures Fits(g, t1)
    ensures PolledSettled(g, V, s, m, F + {u}, t1)
  {
    PolledIsSettled(g, V, s, m, F, order, t0, u);
    PolledSettledKept(g, V, s, m, F, order, t0, u, t1);
  }

  lemma PolledSettledKept(g: Graph, V: set<CityId>, s: CityId, m: int, F: set<CityId>,
                          order: map<CityId, nat>, t0: TreeState, u: CityId, t1: TreeState)
    requires Network(g, V, s, m) && Fits(g, t0) && Fits(g, t1) && F <= V && u in V && u !in F
    requires Ordered(F, order) && ParentsBack(g, V, F, order, t0) && PolledSettled(g, V, s, m, F, t0)
    requires Settled(g, s, t0, u) && t0.distance[u] as int <= Times(|F|, m)
    requires Relaxed(g, u, F + {u}, t0.distance, t0.parent, t1.distance, t1.parent)
    ensures PolledSettled(g, V, s, m, F + {u}, t1)
  {
    var F1 := F + {u};
    forall v | v in F1 ensures v in V && Settled(g, s, t1, v) && t1.distance[v] as int <= Times(|F1|, m) {
      KeptOne(g, V, s, m, F, order, t0, u, t1, v);
    }
  }

  lemma KeptOne(g: Graph, V: set<CityId>, s: CityId, m: int, F: set<CityId>,
                order: map<CityId, nat>, t0: TreeState, u: CityId, t1: TreeState, v: CityId)
    requires Network(g, V, s, m) && Fits(g, t0) && Fits(g, t1) && F <= V && u in V && u !in F
    requires Ordered(F, order) && ParentsBack(g, V, F, order, t0)
    requires v in F + {u} && Settled(g, s, t0, v) && t0.distance[v] as int <= Times(|F|, m)
    requires Relaxed(g, u, F + {u}, t0.distance, t0.parent, t1.distance, t1.parent)
    ensures Settled(g, s, t1, v) && t1.distance[v] as int <= Times(|F + {u}|, m)
  {
    assert v < |t0.distance| && t1.distance[v] == t0.distance[v] && t1.parent[v] == t0.parent[v];
    if v != s {
      var p := Pred(g, t0.parent[v].value, v);
      assert p in F && p < |t0.distance|;
      assert t1.distance[p] == t0.distance[p];
    }
    SettledKept(g, s, F, m, t0, u, t1, v);
  }

  /** A settled city whose distance and parent, and whose parent end's
      distance, are unchanged stays settled within the larger bound. */
  lemma SettledKept(g: Graph, s: CityId, F: set<CityId>, m: int, t0: TreeState, u: CityId,
                    t1: TreeState, v: CityId)
    requires Fits(g, t0) && Fits(g, t1) && v < |g.adjacency| && 0 <= m && u !in F
    requires Settled(g, s, t0, v) && t0.distance[v] as int <= Times(|F|, m)
    requires t1.distance[v] == t0.distance[v] && t1.parent[v] == t0.parent[v]
    requires v != s ==> t1.distance[Pred(g, t0.parent[v].value, v)] == t0.distance[Pred(g, t0.parent[v].value, v)]
    ensures Settled(g, s, t1, v) && t1.distance[v] as int <= Times(|F + {u}|, m)
  {
    assert |F + {u}| == |F| + 1;
    TimesMonotone(|F|, |F| + 1, m);
    SettledFrame(g, s, t0, t1, v);
  }

  /** An unpolled city that kept its distance and parent stays a candidate:
      its parent end is polled, so its distance did not change either. */
  lemma CandidateKept(g: Graph, s: CityId, F: set<CityId>, m: int, t0: TreeState, u: CityId,
                      t1: TreeState, v: CityId)
    requires Fits(g, t0) && Fits(g, t1) && v < |g.adjacency| && 0 <= m
    requires Candidate(g, s, F, m, t0, v)
    requires t1.distance[v] == t0.distance[v] && t1.parent[v] == t0.parent[v]
    requires v != s ==> t1.distance[Pred(g, t0.parent[v].value, v)] == t0.distance[Pred(g, t0.parent[v].value, v)]
    requires u !in F
    ensures Candidate(g, s, F + {u}, m, t1, v)
  {
    assert |F + {u}| == |F| + 1;
    TimesMonotone(|F|, |F| + 1, m);
  }

  /** An unpolled city improved through a link of the polled candidate `u`
      becomes a candidate: the walk to `u` extends by that link, and the sum
      does not wrap. */
  lemma CandidateImproved(g: Graph, V: set<CityId>, s: CityId, m: int, F: set<CityId>,
                          t0: TreeState, u: CityId, t1: TreeState, v: CityId, l: LinkId)
    requires Network(g, V, s, m) && Fits(g, t0) && Fits(g, t1) && F <= V && u in V && u !in F
    requires Candidate(g, s, F, m, t0, u) && t0.distance[u] as int < MAX_VALUE
    requires v != u && Step(g, u, l, v) && t1.parent[v] == Some(l)
    requires t1.distance[v] == Add(t0.distance[u], g.links[l].length) && t1.distance[u] == t0.distance[u]
    ensures Candidate(g, s, F + {u}, m, t1, v)
  {
    RelaxNoWrap(g, V, s, m, F, t0, u, l);
    AdjSwap(g.links[l], u, v);
    var vs, ls :| Walk(g, s, vs, ls, u) && PathLength(g, ls) == t0.distance[u] as int;
    WalkExtend(g, s, vs, ls, u, l, v);
  }

  /** The first phase goes on: every unpolled city with a finite distance is
      still a candidate, whether it kept its distance or was just improved
      through `u`. */
  lemma CandidatesStep(g: Graph, V: set<CityId>, s: CityId, m: int, F: set<CityId>,
                       order: map<CityId, nat>, t0: TreeState, u: CityId, t1: TreeState)
    requires FirstPhasePoll(g, V, s, m, F, order, t0, u) && PollTransition(g, F, u, t0, t1)
    ensures Fits(g, t1)
    ensures Candidates(g, V, s, m, F + {u}, t1)
  {
    var F1 := F + {u};
    assert Candidate(g, s, F, m, t0, u);
    forall v | v in V && v !in F1 && t1.distance[v] as int < MAX_VALUE
      ensures Candidate(g, s, F1, m, t1, v)
    {
      CandidateOne(g, V, s, m, F, order, t0, u, t1, v);
    }
  }

  lemma CandidateOne(g: Graph, V: set<CityId>, s: CityId, m: int, F: set<CityId>,
                     order: map<CityId, nat>, t0: TreeState, u: CityId, t1: TreeState, v: CityId)
    requires Network(g, V, s, m) && Fits(g, t0) && Fits(g, t1) && F <= V && u in V && u !in F
    requires Ordered(F, order) && ParentsBack(g, V, F, order, t0) && Candidates(g, V, s, m, F, t0)
    requires Candidate(g, s, F, m, t0, u) && t0.distance[u] as int < MAX_VALUE
    requires Relaxed(g, u, F + {u}, t0.distance, t0.parent, t1.distance, t1.parent)
    requires v in V && v !in F + {u} && t1.distance[v] as int < MAX_VALUE
    ensures Candidate(g, s, F + {u}, m, t1, v)
  {
    assert v < |t0.distance| && u < |t0.distance|;
    assert t1.distance[u] == t0.distance[u];
    if t1.distance[v] == t0.distance[v] && t1.parent[v] == t0.parent[v] {
      assert Candidate(g, s, F, m, t0, v);
      if v != s {
        var p := Pred(g, t0.parent[v].value, v);
        assert p in F && p < |t0.distance|;
        assert t1.distance[p] == t0.distance[p];
      }
      CandidateKept(g, s, F, m, t0, u, t1, v);
    } else {
      CandidateImproved(g, V, s, m, F, t0, u, t1, v, t1.parent[v].value);
    }
  }

  /** The first phase goes on: links out of `u` were just relaxed, and links
      out of earlier polled cities only see distances that went down. */
  lemma EdgesRelaxedStep(g: Graph, V: set<CityId>, s: CityId, m: int, F: set<CityId>,
                         order: map<CityId, nat>, t0: TreeState, u: CityId, t1: TreeState)
    requires FirstPhasePoll(g, V, s, m, F, order, t0, u) && PollTransition(g, F, u, t0, t1)
    ensures Fits(g, t1)
    ensures EdgesRelaxed(g, V, F + {u}, t1)
  {
    assert Candidate(g, s, F, m, t0, u);
    EdgesRelaxedKept(g, V, s, m, F, t0, u, t1);
  }

  lemma EdgesRelaxedKept(g: Graph, V: set<CityId>, s: CityId, m: int, F: set<CityId>,
                         t0: TreeState, u: CityId, t1: TreeState)
    requires Network(g, V, s, m) && Fits(g, t0) && Fits(g, t1) && F <= V && u in V && u !in F
    requires 0 <= t0.distance[u] as int <= Times(|F|, m)
    requires EdgesRelaxed(g, V, F, t0)
    requires Relaxed(g, u, F + {u}, t0.distance, t0.parent, t1.distance, t1.parent)
    ensures EdgesRelaxed(g, V, F + {u}, t1)
  {
    var F1 := F + {u};
    forall x, l | x in F1 && x in V && l in g.adjacency[x] && Adj(g.links[l], x) !in F1
      ensures t1.distance[Adj(g.links[l], x)] as int <= t1.distance[x] as int + LinkLength(g, l)
    {
      var y := Adj(g.links[l], x);
      assert t1.distance[x] == t0.distance[x];
      if x == u {
        RelaxNoWrap(g, V, s, m, F, t0, u, l);
      } else {
        assert t0.distance[y] as int <= t0.distance[x] as int + LinkLength(g, l);
        assert t1.distance[y] <= t0.distance[y];
      }
    }
  }

  /** A polled city keeps its distance and parent, and so does its parent
      end: a settled polled city stays settled. */
  lemma SettledOne(g: Graph, V: set<CityId>, s: CityId, F: set<CityId>, order: map<CityId, nat>,
                   t0: TreeState, u: CityId, t1: TreeState, v: CityId)
    requires Fits(g, t0) && Fits(g, t1) && Closed(g, V) && F <= V && u in V
    requires Ordered(F, order) && ParentsBack(g, V, F, order, t0)
    requires v in F + {u} && Settled(g, s, t0, v)
    requires Relaxed(g, u, F + {u}, t0.distance, t0.parent, t1.distance, t1.parent)
    ensures Settled(g, s, t1, v)
  {
    assert v < |t0.distance| && t1.distance[v] == t0.distance[v] && t1.parent[v] == t0.parent[v];
    if v != s {
      var p := Pred(g, t0.parent[v].value, v);
      assert p in F && p < |t0.distance|;
      assert t1.distance[p] == t0.distance[p];
    }
    SettledFrame(g, s, t0, t1, v);
  }

  /** Before the first poll the minimum is the source; afterwards the source
      keeps distance 0 and no parent. */
  lemma StartStep(g: Graph, V: set<CityId>, s: CityId, m: int, F: set<CityId>, done: bool,
                  order: map<CityId, nat>, t0: TreeState, u: CityId, t1: TreeState)
    requires Inv(g, V, s, m, F, done, order, t0) && MinPolled(V, F, t0, u) && PollTransition(g, F, u, t0, t1)
    ensures Start(V, s, F + {u}, t1)
  {
    if s !in F {
      assert t0.distance[u] <= t0.distance[s];
      if u != s {
        assert false;
      }
    }
    assert s < |t0.distance| && t1.distance[s] == t0.distance[s] && t1.parent[s] == t0.parent[s];
  }

  /** Every reachable polled city is settled after the poll: the earlier ones
      keep their values, and a reachable `u` is polled in the first phase at
      a finite distance. */
  lemma ReachableSettledStep(g: Graph, V: set<CityId>, s: CityId, m: int, F: set<CityId>, done: bool,
                             order: map<CityId, nat>, t0: TreeState, u: CityId, t1: TreeState)
    requires Inv(g, V, s, m, F, done, order, t0) && MinPolled(V, F, t0, u) && PollTransition(g, F, u, t0, t1)
    ensures Fits(g, t1)
    ensures forall v {:trigger Settled(g, s, t1, v)} :: v in F + {u} && Reachable(g, s, v) ==> Settled(g, s, t1, v)
  {
    if Reachable(g, s, u) {
      assert !done;
      if t0.distance[u] as int == MAX_VALUE {
        NothingReachableLeft(g, V, s, m, F, t0, u);
        assert false;
      }
      PolledIsSettled(g, V, s, m, F, order, t0, u);
    }
    forall v | v in F + {u} && Reachable(g, s, v) ensures Settled(g, s, t1, v) {
      assert Settled(g, s, t0, v);
      SettledOne(g, V, s, F, order, t0, u, t1, v);
    }
  }

  /** The tree part of the invariant survives a poll. */
  lemma ShapeStep(g: Graph, V: set<CityId>, s: CityId, m: int, F: set<CityId>, done: bool,
                  order: map<CityId, nat>, t0: TreeState, u: CityId, t1: TreeState)
    requires Inv(g, V, s, m, F, done, order, t0) && MinPolled(V, F, t0, u) && PollTransition(g, F, u, t0, t1)
    ensures Fits(g, t1) && Ordered(F + {u}, order[u := |F|])
    ensures TreeShaped(g, V, F + {u}, order[u := |F|], t1)
  {
    OrderedStep(F, order, u);
    ParentsBackStep(g, V, s, m, F, order, t0, u, t1);
    ParentsUsedStep(g, V, s, m, F, order, t0, u, t1);
    UsedAreParentsStep(g, V, s, m, F, order, t0, u, t1);
  }

  /** The phase part of the invariant survives a poll: the first phase goes
      on while the polled city has a finite distance; once a city at
      MAX_VALUE is polled no reachable city is left unpolled. */
  lemma PhaseStep(g: Graph, V: set<CityId>, s: CityId, m: int, F: set<CityId>, done: bool,
                  order: map<CityId, nat>, t0: TreeState, u: CityId, t1: TreeState)
    requires Inv(g, V, s, m, F, done, order, t0) && MinPolled(V, F, t0, u) && PollTransition(g, F, u, t0, t1)
    ensures Fits(g, t1)
    ensures var done1 := done || t0.distance[u] as int == MAX_VALUE;
      (!done1 ==> Phase1(g, V, s, m, F + {u}, t1)) &&
      (done1 ==> forall v :: v in V && Reachable(g, s, v) ==> v in F + {u})
  {
    if !done {
      if t0.distance[u] as int == MAX_VALUE {
        NothingReachableLeft(g, V, s, m, F, t0, u);
      } else {
        PolledSettledStep(g, V, s, m, F, order, t0, u, t1);
        CandidatesStep(g, V, s, m, F, order, t0, u, t1);
        EdgesRelaxedStep(g, V, s, m, F, order, t0, u, t1);
      }
    }
  }

  /** One poll of makeTree's loop preserves the invariant. */
  lemma PollStep(g: Graph, V: set<CityId>, s: CityId, m: int, F: set<CityId>, done: bool,
                 order: map<CityId, nat>, t0: TreeState, u: CityId, t1: TreeState)
    requires Inv(g, V, s, m, F, done, order, t0) && MinPolled(V, F, t0, u) && PollTransition(g, F, u, t0, t1)
    ensures Inv(g, V, s, m, F + {u}, done || t0.distance[u] as int == MAX_VALUE, order[u := |F|], t1)
  {
    ShapeStep(g, V, s, m, F, done, order, t0, u, t1);
    StartStep(g, V, s, m, F, done, order, t0, u, t1);
    PhaseStep(g, V, s, m, F, done, order, t0, u, t1);
    ReachableSettledStep(g, V, s, m, F, done, order, t0, u, t1);
  }
}
