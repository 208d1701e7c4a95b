/** The rail network as the Java program keeps it: the static registry of
    cities by name, every `City` object with its links, distance and parent,
    and every `Link` object with its endpoints, length, direction and used
    flag. Objects are numbered: city `c` is the `c`-th City constructed and
    link `l` the `l`-th Link. */
module Rail {
  import opened JavaLang
  import opened RailGraph
  import opened ShortestPaths
  import opened RouteTree

  /** The links of a route, as the set `getLinksTo` fills. */
  function Elements(r: seq<LinkId>): set<LinkId> {
    set x | x in r
  }

  /** A city without links keeps the graph well formed. */
  lemma NewCityWellFormed(g: Graph)
    requires WellFormed(g)
    ensures WellFormed(Graph(g.adjacency + [{}], g.links))
  {
    var adj := g.adjacency + [{}];
    forall c, l | 0 <= c < |adj| && l in adj[c]
      ensures l < |g.links| && IsEndpoint(g.links[l], c)
    {
      assert c < |g.adjacency| && adj[c] == g.adjacency[c];
      HeldLink(g, c, l);
    }
  }

  /** A new link between existing cities keeps the graph well formed, and no
      city holds it yet. */
  lemma AppendLinkWellFormed(g: Graph, lk: Link)
    requires WellFormed(g) && lk.city1 < |g.adjacency| && lk.city2 < |g.adjacency|
    ensures WellFormed(Graph(g.adjacency, g.links + [lk]))
    ensures forall c :: 0 <= c < |g.adjacency| ==> |g.links| !in g.adjacency[c]
  {
    var ls := g.links + [lk];
    forall c, l | 0 <= c < |g.adjacency| && l in g.adjacency[c]
      ensures l < |g.links| && ls[l] == g.links[l] && IsEndpoint(ls[l], c)
    {
      HeldLink(g, c, l);
    }
  }

  /** A city may hold a link of which it is an endpoint. */
  lemma AddLinkWellFormed(g: Graph, c: CityId, l: LinkId)
    requires WellFormed(g) && c < |g.adjacency| && l < |g.links| && IsEndpoint(g.links[l], c)
    ensures WellFormed(Graph(g.adjacency[c := g.adjacency[c] + {l}], g.links))
  {
    var adj := g.adjacency[c := g.adjacency[c] + {l}];
    forall c', l' | 0 <= c' < |adj| && l' in adj[c']
      ensures l' < |g.links| && IsEndpoint(g.links[l'], c')
    {
      if c' != c || l' != l {
        assert l' in g.adjacency[c'];
        HeldLink(g, c', l');
      }
    }
  }

  /** The links a city holds are links of the graph with that city at one
      end. */
  lemma HeldLink(g: Graph, c: CityId, l: LinkId)
    requires WellFormed(g) && c < |g.adjacency| && l in g.adjacency[c]
    ensures l < |g.links| && IsEndpoint(g.links[l], c)
  {
  }

  /** The links held by the cities of `D`. */
  ghost function HeldBy(adjacency: seq<set<LinkId>>, D: set<CityId>): set<LinkId> {
    set c, l | c in D && 0 <= c < |adjacency| && l in adjacency[c] :: l
  }

  lemma HeldByAdd(adjacency: seq<set<LinkId>>, D: set<CityId>, c: CityId)
    requires 0 <= c < |adjacency|
    ensures HeldBy(adjacency, D + {c}) == HeldBy(adjacency, D) + adjacency[c]
  {
  }

  /** The distances `initializeCities` has set once it has reset the cities
      of `D`. */
  function ResetDistances(d0: seq<int32>, D: set<CityId>, src: CityId): seq<int32> {
    seq(|d0|, c requires 0 <= c < |d0| => if c !in D then d0[c] else if c == src then 0 else MAX_VALUE as int32)
  }

  /** Cities outside `V` keep their distance and parent, and links that no
      city of `V` holds keep their used flag. */
  ghost predicate KeptOutside(g: Graph, V: set<CityId>, t0: TreeState, t1: TreeState) {
    |t1.distance| == |t0.distance| && |t1.parent| == |t0.parent| && |t1.used| == |t0.used| &&
    (forall v :: 0 <= v < |t0.distance| && v !in V ==> t1.distance[v] == t0.distance[v]) &&
    (forall v :: 0 <= v < |t0.parent| && v !in V ==> t1.parent[v] == t0.parent[v]) &&
    (forall l :: 0 <= l < |t0.used| && l !in HeldBy(g.adjacency, V) ==> t1.used[l] == t0.used[l])
  }

  /** A poll of a registered city touches only registered cities and their
      links: relaxation changes cities its links reach, which the closed
      registry contains, and the parent link marked used is held by the
      parent's city. */
  lemma PollKeptOutside(g: Graph, V: set<CityId>, s: CityId, m: int, F: set<CityId>, done: bool,
                        order: map<CityId, nat>, t0: TreeState, u: CityId, t1: TreeState)
    requires Inv(g, V, s, m, F, done, order, t0) && u in V
    requires PollTransition(g, F, u, t0, t1)
    ensures KeptOutside(g, V, t0, t1)
  {
    forall v | 0 <= v < |t0.distance| && v !in V
      ensures t1.distance[v] == t0.distance[v] && t1.parent[v] == t0.parent[v]
    {
      if t1.distance[v] != t0.distance[v] || t1.parent[v] != t0.parent[v] {
        var l := t1.parent[v].value;
        assert Step(g, u, l, v);
        AdjOfEndpoint(g.links[l], u);
      }
    }
    if t0.parent[u].Some? {
      var l := t0.parent[u].value;
      assert ParentLink(g, l, u) && Pred(g, l, u) in F;
      assert l in HeldBy(g.adjacency, V);
    }
  }

  lemma ResetDistancesAdd(d0: seq<int32>, D: set<CityId>, src: CityId, c: CityId)
    requires c < |d0|
    ensures ResetDistances(d0, D + {c}, src) ==
      ResetDistances(d0, D, src)[c := if c == src then 0 else MAX_VALUE as int32]
  {
  }

  /** The parents `initializeCities` has set once it has reset the cities of
      `D`. */
  function ResetParents(p0: seq<Option<LinkId>>, D: set<CityId>): seq<Option<LinkId>> {
    seq(|p0|, c requires 0 <= c < |p0| => if c in D then None else p0[c])
  }

  lemma ResetParentsAdd(p0: seq<Option<LinkId>>, D: set<CityId>, c: CityId)
    requires c < |p0|
    ensures ResetParents(p0, D + {c}) == ResetParents(p0, D)[c := None]
  {
  }

  /** The used flags with the links of `S` cleared. */
  function ClearFlags(u0: seq<bool>, S: set<LinkId>): seq<bool> {
    seq(|u0|, l requires 0 <= l < |u0| => u0[l] && l !in S)
  }

  lemma ClearFlagsTwice(u0: seq<bool>, S: set<LinkId>, T: set<LinkId>)
    ensures ClearFlags(ClearFlags(u0, S), T) == ClearFlags(u0, S + T)
  {
  }

  /** Resetting one more city `c` of the cities `V - todo`. */
  lemma ResetStep(d0: seq<int32>, p0: seq<Option<LinkId>>, u0: seq<bool>, adjacency: seq<set<LinkId>>,
                  V: set<CityId>, todo: set<CityId>, src: CityId, c: CityId)
    requires c in todo && todo <= V && c < |d0| && c < |p0| && c < |adjacency|
    ensures ResetDistances(d0, V - (todo - {c}), src) ==
      ResetDistances(d0, V - todo, src)[c := if c == src then 0 else MAX_VALUE as int32]
    ensures ResetParents(p0, V - (todo - {c})) == ResetParents(p0, V - todo)[c := None]
    ensures ClearFlags(u0, HeldBy(adjacency, V - (todo - {c}))) ==
      ClearFlags(ClearFlags(u0, HeldBy(adjacency, V - todo)), adjacency[c])
  {
    assert V - (todo - {c}) == (V - todo) + {c};
    ResetDistancesAdd(d0, V - todo, src, c);
    ResetParentsAdd(p0, V - todo, c);
    HeldByAdd(adjacency, V - todo, c);
    ClearFlagsTwice(u0, HeldBy(adjacency, V - todo), adjacency[c]);
  }

  lemma UnionStep<T>(A: set<T>, B: set<T>, C: set<T>)
    ensures (A + B) + C == A + (B + C)
  {
  }

  /** Moving `x` from the links still to do to the links done. */
  lemma MoveDone<T>(A: set<T>, todo: set<T>, x: T)
    requires x in todo && todo <= A
    ensures (A - todo) + {x} == A - (todo - {x})
  {
  }

  /** The cities whose distance in `d1` differs from `d0`. */
  ghost function ChangedFrom(d0: seq<int32>, d1: seq<int32>): set<CityId> {
    set v | 0 <= v < |d1| && v < |d0| && d1[v] != d0[v]
  }

  lemma ChangedStep(d0: seq<int32>, d1: seq<int32>, c: CityId, x: int32)
    requires |d1| == |d0| && c < |d1| && x < d1[c] <= d0[c]
    ensures ChangedFrom(d0, d1[c := x]) == ChangedFrom(d0, d1) + {c}
  {
  }

  /** `Relaxed` for the links of `u` in `done`: the state part of
      updateDistances' loop invariant. */
  ghost predicate RelaxedUpTo(g: Graph, u: CityId, F: set<CityId>, d0: seq<int32>, p0: seq<Option<LinkId>>,
                              d1: seq<int32>, p1: seq<Option<LinkId>>, done: set<LinkId>)
    requires u < |d0| && |p0| == |d0|
  {
    |d1| == |d0| && |p1| == |p0| &&
    (forall v :: 0 <= v < |d0| ==>
      (d1[v] == d0[v] && p1[v] == p0[v]) ||
      (v !in F && d1[v] < d0[v] && p1[v].Some? && Step(g, u, p1[v].value, v) &&
       d1[v] == Add(d0[u], g.links[p1[v].value].length))) &&
    (forall l ::
      (l in done && u < |g.adjacency| && l in g.adjacency[u] && l < |g.links| &&
       Adj(g.links[l], u) < |d0| && Adj(g.links[l], u) !in F) ==>
      d1[Adj(g.links[l], u)] <= Add(d0[u], g.links[l].length))
  }

  lemma RelaxedUpToAll(g: Graph, u: CityId, F: set<CityId>, d0: seq<int32>, p0: seq<Option<LinkId>>,
                       d1: seq<int32>, p1: seq<Option<LinkId>>)
    requires u < |d0| && |p0| == |d0| && u < |g.adjacency|
    requires RelaxedUpTo(g, u, F, d0, p0, d1, p1, g.adjacency[u])
    ensures Relaxed(g, u, F, d0, p0, d1, p1)
  {
  }

  /** The distances and parents after one iteration of updateDistances'
      loop relaxes link `l` of `u`: the city at its other end improves when
      it is outside `F` and `u`'s distance plus the (32-bit) length is
      strictly smaller than its own. */
  function RelaxedState(g: Graph, u: CityId, F: set<CityId>, d: seq<int32>, p: seq<Option<LinkId>>,
                        l: LinkId): (r: (seq<int32>, seq<Option<LinkId>>))
    requires u < |d| && |p| == |d| && l < |g.links| && Adj(g.links[l], u) < |d|
    ensures |r.0| == |d| && |r.1| == |p|
  {
    var c := Adj(g.links[l], u);
    var x := Add(d[u], g.links[l].length);
    if c !in F && d[c] > x then (d[c := x], p[c := Some(l)]) else (d, p)
  }

  /** Relaxing one more link `l` of `u` extends the loop invariant to
      `done + {l}`, leaves `u` itself alone, and changes at most the city at
      the other end of `l`. */
  lemma RelaxOne(g: Graph, u: CityId, F: set<CityId>, d0: seq<int32>, p0: seq<Option<LinkId>>,
                 d1: seq<int32>, p1: seq<Option<LinkId>>, done: set<LinkId>, l: LinkId)
    requires u < |d0| && |p0| == |d0| && u < |g.adjacency| && l in g.adjacency[u] && l < |g.links|
    requires RelaxedUpTo(g, u, F, d0, p0, d1, p1, done) && d1[u] == d0[u]
    requires Adj(g.links[l], u) < |d0| && (u in F || Adj(g.links[l], u) != u)
    ensures var r := RelaxedState(g, u, F, d1, p1, l);
      RelaxedUpTo(g, u, F, d0, p0, r.0, r.1, done + {l}) && r.0[u] == d0[u] &&
      ChangedFrom(d0, r.0) == ChangedFrom(d0, d1) + (if r.0 == d1 then {} else {Adj(g.links[l], u)})
  {
    var c := Adj(g.links[l], u);
    var x := Add(d1[u], g.links[l].length);
    if c !in F && d1[c] > x {
      assert Step(g, u, l, c);
      var d2, p2 := d1[c := x], p1[c := Some(l)];
      assert d2 != d1 by {
        assert d2[c] != d1[c];
      }
      forall v | 0 <= v < |d0|
        ensures (d2[v] == d0[v] && p2[v] == p0[v]) ||
          (v !in F && d2[v] < d0[v] && p2[v].Some? && Step(g, u, p2[v].value, v) &&
           d2[v] == Add(d0[u], g.links[p2[v].value].length))
      {
        if v != c {
          assert d2[v] == d1[v] && p2[v] == p1[v];
        }
      }
      ChangedStep(d0, d1, c, x);
    }
  }

  /** A city whose distance a relaxation from the polled city `u` changed is
      an unpolled city of the network. */
  lemma ChangedUnpolled(g: Graph, V: set<CityId>, u: CityId, F: set<CityId>, d0: seq<int32>,
                        p0: seq<Option<LinkId>>, d1: seq<int32>, p1: seq<Option<LinkId>>)
    requires WellFormed(g) && Closed(g, V) && u in V && u < |d0| && |p0| == |d0|
    requires Relaxed(g, u, F, d0, p0, d1, p1)
    ensures ChangedFrom(d0, d1) <= V - F
  {
    forall v | v in ChangedFrom(d0, d1)
      ensures v in V - F
    {
      var l := p1[v].value;
      assert Step(g, u, l, v);
      AdjOfEndpoint(g.links[l], u);
    }
  }

  /** makeTree's queue after a poll: the polled city has left it, and the
      cities updateDistances re-added were in it already. */
  lemma QueueStep(V: set<CityId>, F: set<CityId>, pq: set<CityId>, u: CityId, rest: set<CityId>, C: set<CityId>)
    requires pq == V - F && u in pq && rest == pq - {u} && C <= V - (F + {u})
    ensures rest + C == V - (F + {u}) && |rest + C| < |pq|
  {
    assert rest + C == rest;
    assert pq == rest + {u};
  }

  /** The links of a route that starts with `l`. */
  lemma ElementsCons(l: LinkId, r: seq<LinkId>)
    ensures Elements([l] + r) == {l} + Elements(r)
  {
  }

  /** Every parent link of a city of `V` is a link of the network. */
  ghost predicate ParentsInRange(g: Graph, V: set<CityId>, t: TreeState) {
    forall v :: v in V && v < |t.parent| && t.parent[v].Some? ==> t.parent[v].value < |g.links|
  }

  /** Under makeTree's invariant every parent link is a link of the network. */
  lemma InvParents(g: Graph, V: set<CityId>, s: CityId, m: int, F: set<CityId>, done: bool,
                   order: map<CityId, nat>, t: TreeState)
    requires Inv(g, V, s, m, F, done, order, t)
    ensures ParentsInRange(g, V, t)
  {
    forall v | v in V && v < |t.parent| && t.parent[v].Some?
      ensures t.parent[v].value < |g.links|
    {
      assert ParentLink(g, t.parent[v].value, v);
    }
  }

  class RailNetwork {
    /** `City.name`, `City.links`, `City.distance` and `City.parent`, by city. */
    var names: seq<string>
    var adjacency: seq<set<LinkId>>
    var distance: seq<int32>
    var parent: seq<Option<LinkId>>
    /** The fixed fields of each Link, and its `used` flag, by link. */
    var links: seq<Link>
    var used: seq<bool>
    /** `City.cities`: the registry from names to cities. */
    var cities: map<string, CityId>

    /** One entry per city and per link, links joining constructed cities,
        and each registered city carrying its own name. */
    ghost predicate Valid()
      reads this
    {
      Linked() && |distance| == |names| && |parent| == |names| && |used| == |links|
    }

    /** The part of Valid that the shortest-path runs leave alone. */
    ghost predicate Linked()
      reads this`names, this`adjacency, this`links, this`cities
    {
      |adjacency| == |names| && WellFormed(Topology()) &&
      forall nm :: nm in cities ==> cities[nm] < |names| && names[cities[nm]] == nm
    }

    /** The cities reachable through `City.cities.values()`. */
    ghost function Registered(): set<CityId>
      reads this`cities
    {
      cities.Values
    }

    /** No city has been displaced from the registry by a later city of the
        same name. */
    ghost predicate AllRegistered()
      reads this`names, this`cities
    {
      forall c :: 0 <= c < |names| ==> c in cities.Values
    }

    function Topology(): Graph
      reads this`adjacency, this`links
    {
      Graph(adjacency, links)
    }

    function RunState(): TreeState
      reads this`distance, this`parent, this`used
    {
      TreeState(distance, parent, used)
    }

    /** The program's starting state: no cities, no links. */
    constructor ()
      ensures Valid() && AllRegistered()
      ensures names == [] && links == [] && cities == map[]
    {
      names, adjacency, distance, parent := [], [], [], [];
      links, used := [], [];
      cities := map[];
    }

    /** `new City(nm)`: a fresh city without links, registered under its
        name, replacing any earlier city of that name. */
    method NewCity(nm: string) returns (c: CityId)
      requires Valid()
      modifies this
      ensures Valid()
      ensures c == |old(names)| && names == old(names) + [nm]
      ensures adjacency == old(adjacency) + [{}]
      ensures distance == old(distance) + [0] && parent == old(parent) + [None]
      ensures links == old(links) && used == old(used)
      ensures cities == old(cities)[nm := c]
    {
      NewCityWellFormed(Topology());
      names := names + [nm];
      adjacency := adjacency + [{}];
      distance := distance + [0];
      parent := parent + [None];
      c := |names| - 1;
      cities := cities[nm := c];
    }

    /** `City.find`: the registered city named `nm`, or else a new one. */
    method Find(nm: string) returns (c: CityId)
      requires Valid()
      modifies this
      ensures Valid()
      ensures nm in cities && cities[nm] == c && c < |names| && names[c] == nm
      ensures nm in old(cities) ==> c == old(cities)[nm] && unchanged(this)
      ensures nm !in old(cities) ==>
        c == |old(names)| && names == old(names) + [nm] && adjacency == old(adjacency) + [{}] &&
        distance == old(distance) + [0] && parent == old(parent) + [None] &&
        links == old(links) && used == old(used) &&
        cities == old(cities)[nm := c] && |cities| == |old(cities)| + 1
      ensures old(AllRegistered()) ==> AllRegistered()
    {
      if nm in cities {
        c := cities[nm];
      } else {
        c := NewCity(nm);
        if old(AllRegistered()) {
          forall c' | 0 <= c' < |names|
            ensures c' in cities.Values
          {
            if c' < c {
              assert c' in old(cities).Values;
              var nm' :| nm' in old(cities) && old(cities)[nm'] == c';
              assert cities[nm'] == c';
            } else {
              assert cities[nm] == c';
            }
          }
        }
      }
    }

    /** A registry that holds every city is closed under links. */
    lemma RegisteredClosed()
      requires Valid() && AllRegistered()
      ensures Closed(Topology(), Registered())
    {
      forall c | c in Registered()
        ensures c < |adjacency|
      {
        var nm :| nm in cities && cities[nm] == c;
      }
      forall c, l | c in Registered() && c < |adjacency| && l in adjacency[c]
        ensures l < |links| && links[l].city1 in Registered() && links[l].city2 in Registered()
      {
        HeldLink(Topology(), c, l);
      }
    }

    /** `City.addLink`: set insertion into the city's links. */
    method AddLink(c: CityId, l: LinkId)
      requires Valid() && c < |names| && l < |links| && IsEndpoint(links[l], c)
      modifies this`adjacency
      ensures Valid()
      ensures adjacency == old(adjacency)[c := old(adjacency)[c] + {l}]
      ensures l in adjacency[c]
      ensures l in old(adjacency)[c] ==> adjacency == old(adjacency)
    {
      AddLinkWellFormed(Topology(), c, l);
      if l in adjacency[c] {
        assert adjacency[c] + {l} == adjacency[c];
      }
      adjacency := adjacency[c := adjacency[c] + {l}];
    }

    /** Appends a link record, not yet held by any city. */
    method AppendLink(lk: Link) returns (l: LinkId)
      requires Valid() && lk.city1 < |names| && lk.city2 < |names|
      modifies this`links, this`used
      ensures Valid()
      ensures l == |old(links)| && links == old(links) + [lk] && used == old(used) + [false]
      ensures forall c :: 0 <= c < |adjacency| ==> l !in adjacency[c]
    {
      AppendLinkWellFormed(Topology(), lk);
      l := |links|;
      links := links + [lk];
      used := used + [false];
    }

    /** `new Link(c1, c2, len)`: endpoints in name order, held by both
        cities, not used. */
    method NewLink(c1: CityId, c2: CityId, len: int32) returns (l: LinkId)
      requires Valid() && c1 < |names| && c2 < |names|
      modifies this`links, this`used, this`adjacency
      ensures Valid()
      ensures l == |old(links)| && used == old(used) + [false]
      ensures links == old(links) + [Link(Canonical(names, c1, c2).0, Canonical(names, c1, c2).1, len, None)]
      ensures {links[l].city1, links[l].city2} == {c1, c2}
      ensures !LexLess(names[links[l].city2], names[links[l].city1])
      ensures names[c1] == names[c2] ==> links[l].city1 == c2
      ensures GetLength(l) == len
      ensures |adjacency| == |old(adjacency)|
      ensures forall c :: 0 <= c < |adjacency| ==>
        adjacency[c] == old(adjacency)[c] + (if c == c1 || c == c2 then {l} else {})
    {
      var (a, b) := Canonical(names, c1, c2);
      CanonicalOrdered(names, c1, c2);
      CompareStringsZero(names[c1], names[c2]);
      l := AppendLink(Link(a, b, len, None));
      AddLink(c1, l);
      AddLink(c2, l);
    }

    /** `new Link(c1, c2, len, dir)` for the two directions the program
        creates: `One` keeps the given order and only `c1` holds the link;
        `Two` orders the endpoints by name and both cities hold it. */
    method NewDirectedLink(c1: CityId, c2: CityId, len: int32, dir: Direction) returns (l: LinkId)
      requires Valid() && c1 < |names| && c2 < |names| && (dir == One || dir == Two)
      modifies this`links, this`used, this`adjacency
      ensures Valid()
      ensures l == |old(links)| && used == old(used) + [false] && |links| == |old(links)| + 1
      ensures links[..l] == old(links)
      ensures dir == One ==> links[l] == Link(c1, c2, len, Some(One))
      ensures dir == Two ==>
        links[l] == Link(Canonical(names, c1, c2).0, Canonical(names, c1, c2).1, len, Some(Two))
      ensures GetLength(l) == len
      ensures |adjacency| == |old(adjacency)|
      ensures forall c :: 0 <= c < |adjacency| ==>
        adjacency[c] == old(adjacency)[c] + (if c == c1 || (dir == Two && c == c2) then {l} else {})
    {
      if dir == One {
        l := AppendLink(Link(c1, c2, len, Some(One)));
        AddLink(c1, l);
      } else {
        var (a, b) := Canonical(names, c1, c2);
        CanonicalOrdered(names, c1, c2);
        l := AppendLink(Link(a, b, len, Some(Two)));
        AddLink(c1, l);
        AddLink(c2, l);
      }
    }

    /** `Link.getLength`. */
    function GetLength(l: LinkId): int32
      requires l < |links|
      reads this
    {
      links[l].length
    }

    /** `Link.isUsed`. */
    function IsUsed(l: LinkId): bool
      requires l < |used|
      reads this
    {
      used[l]
    }

    /** `Link.setUsed`: afterwards `isUsed` reports `u` and no other link
        changes. */
    method SetUsed(l: LinkId, u: bool)
      requires Valid() && l < |used|
      modifies this`used
      ensures Valid()
      ensures used == old(used)[l := u]
      ensures IsUsed(l) == u
    {
      used := used[l := u];
    }

    /** `City.compareTo`: the sign follows the name order. */
    function CompareCities(c1: CityId, c2: CityId): (r: int)
      requires c1 < |names| && c2 < |names|
      reads this
      ensures r == 0 <==> names[c1] == names[c2]
      ensures r < 0 <==> LexLess(names[c1], names[c2])
      ensures r > 0 <==> LexLess(names[c2], names[c1])
    {
      CompareStringsZero(names[c1], names[c2]);
      CompareStringsNegative(names[c1], names[c2]);
      CompareStringsNegative(names[c2], names[c1]);
      CompareStringsAntisymmetric(names[c1], names[c2]);
      CompareStrings(names[c1], names[c2])
    }

    /** `City.compare`: the 32-bit difference of the distances, whose sign
        follows the distance order when neither distance is negative. */
    function CompareDistances(c1: CityId, c2: CityId): (r: int32)
      requires c1 < |distance| && c2 < |distance|
      reads this
      ensures (r as int - (distance[c1] as int - distance[c2] as int)) % 0x1_0000_0000 == 0
      ensures 0 <= distance[c1] && 0 <= distance[c2] ==>
        (r < 0 <==> distance[c1] < distance[c2]) && (r == 0 <==> distance[c1] == distance[c2])
    {
      Sub(distance[c1], distance[c2])
    }

    /** The inner loop of `City.initializeCities`: every link of `c` becomes
        unused, and no other link changes. */
    method ClearLinks(c: CityId)
      requires Valid() && c < |names|
      modifies this`used
      ensures Valid()
      ensures forall l :: 0 <= l < |used| ==> used[l] == (old(used)[l] && l !in adjacency[c])
    {
      var ls := adjacency[c];
      while ls != {}
        invariant Valid() && ls <= adjacency[c]
        invariant forall l :: 0 <= l < |used| ==> used[l] == (old(used)[l] && l !in adjacency[c] - ls)
        decreases |ls|
      {
        var l :| l in ls;
        HeldLink(Topology(), c, l);
        SetUsed(l, false);
        ls := ls - {l};
      }
    }

    /** A registered city is a constructed one. */
    lemma RegisteredCity(c: CityId)
      requires Valid() && c in Registered()
      ensures c < |names|
    {
      var nm :| nm in cities && cities[nm] == c;
    }

    /** One iteration of `City.initializeCities`' loop: city `c` gets
        distance 0 if it is `src` and MAX_VALUE otherwise, loses its parent,
        and every link it holds becomes unused. */
    method ResetCity(c: CityId, src: CityId)
      requires Valid() && c < |names|
      modifies this`distance, this`parent, this`used
      ensures Valid()
      ensures distance == old(distance)[c := if c == src then 0 else MAX_VALUE as int32]
      ensures parent == old(parent)[c := None]
      ensures used == ClearFlags(old(used), adjacency[c])
    {
      if c != src {
        distance := distance[c := MAX_VALUE as int32];
      } else {
        distance := distance[c := 0];
      }
      parent := parent[c := None];
      ClearLinks(c);
    }

    /** `City.initializeCities` on `src`: every registered city gets distance
        MAX_VALUE (`src` gets 0) and no parent, and every link held by a
        registered city becomes unused; nothing else changes. */
    method InitializeCities(src: CityId)
      requires Valid()
      modifies this`distance, this`parent, this`used
      ensures Valid()
      ensures forall c :: 0 <= c < |names| ==>
        distance[c] == (if c in Registered() then (if c == src then 0 else MAX_VALUE as int32) else old(distance)[c]) &&
        parent[c] == (if c in Registered() then None else old(parent)[c])
      ensures forall l :: 0 <= l < |links| ==> used[l] == (old(used)[l] && l !in HeldBy(adjacency, Registered()))
    {
      ghost var V, d0, p0, u0 := Registered(), distance, parent, used;
      var todo := cities.Values;
      assert distance == ResetDistances(d0, {}, src) && parent == ResetParents(p0, {});
      assert used == ClearFlags(u0, HeldBy(adjacency, {}));
      while todo != {}
        invariant Valid() && todo <= V
        invariant distance == ResetDistances(d0, V - todo, src) && parent == ResetParents(p0, V - todo)
        invariant used == ClearFlags(u0, HeldBy(adjacency, V - todo))
        decreases |todo|
      {
        var c :| c in todo;
        RegisteredCity(c);
        ResetCity(c, src);
        ResetStep(d0, p0, u0, adjacency, V, todo, src, c);
        todo := todo - {c};
      }
    }

    /** `City.populatePriorityQueue`: the queue holds the registered cities. */
    method PopulatePriorityQueue() returns (pq: set<CityId>)
      ensures pq == Registered()
    {
      pq := {};
      var todo := cities.Values;
      while todo != {}
        invariant pq + todo == Registered()
        decreases |todo|
      {
        var c :| c in todo;
        pq := pq + {c};
        todo := todo - {c};
      }
    }

    /** `City.findNextClosestCity`: `poll` removes a city of minimum
        distance; ties are broken arbitrarily. */
    method FindNextClosestCity(pq: set<CityId>) returns (city: CityId, rest: set<CityId>)
      requires pq != {} && forall v :: v in pq ==> v < |distance|
      ensures city in pq && rest == pq - {city}
      ensures forall v :: v in pq ==> distance[city] <= distance[v]
    {
      MinimumExists(pq, distance);
      city :| city in pq && forall v :: v in pq ==> distance[city] <= distance[v];
      rest := pq - {city};
    }

    /** The body of `City.updateDistances`' loop for link `l`: a strictly
        improved city outside `tree` takes the new distance and `l` as its
        parent and is removed from and added back to the queue. */
    method RelaxLink(city: CityId, tree: set<CityId>, l: LinkId, pq: set<CityId>) returns (pq': set<CityId>)
      requires Valid() && city < |names| && l in adjacency[city]
      modifies this`distance, this`parent
      ensures Valid() && l < |links|
      ensures (distance, parent) == RelaxedState(Topology(), city, tree, old(distance), old(parent), l)
      ensures pq' == pq + if distance == old(distance) then {} else {Adj(links[l], city)}
    {
      HeldLink(Topology(), city, l);
      var child := Adj(links[l], city);
      pq' := pq;
      if child !in tree {
        var length := GetLength(l);
        if distance[child] > Add(distance[city], length) {
          pq' := pq' - {child};
          distance := distance[child := Add(distance[city], length)];
          parent := parent[child := Some(l)];
          pq' := pq' + {child};
          assert distance[child] != old(distance)[child];
        }
      }
    }

    /** `City.updateDistances`: the links of `city` are relaxed, improving
        strictly the cities outside `tree`; every improved city is in the
        queue afterwards (`remove` then `add`) and no other one joins it. */
    method UpdateDistances(city: CityId, tree: set<CityId>, pq: set<CityId>) returns (pq': set<CityId>)
      requires Valid() && city < |names|
      requires city in tree || forall l :: l in adjacency[city] && l < |links| ==> Adj(links[l], city) != city
      modifies this`distance, this`parent
      ensures Valid()
      ensures Relaxed(Topology(), city, tree, old(distance), old(parent), distance, parent)
      ensures forall v :: 0 <= v < |distance| ==> distance[v] <= old(distance)[v]
      ensures pq' == pq + ChangedFrom(old(distance), distance)
    {
      ghost var d0, p0, g := distance, parent, Topology();
      var todo := adjacency[city];
      pq' := pq;
      assert ChangedFrom(d0, distance) == {};
      while todo != {}
        invariant Valid() && todo <= adjacency[city] && distance[city] == d0[city]
        invariant RelaxedUpTo(g, city, tree, d0, p0, distance, parent, adjacency[city] - todo)
        invariant pq' == pq + ChangedFrom(d0, distance)
        decreases |todo|
      {
        var l :| l in todo;
        HeldLink(g, city, l);
        RelaxOne(g, city, tree, d0, p0, distance, parent, adjacency[city] - todo, l);
        MoveDone(adjacency[city], todo, l);
        todo := todo - {l};
        ghost var d1, changed := distance, ChangedFrom(d0, distance);
        pq' := RelaxLink(city, tree, l, pq');
        UnionStep(pq, changed, if distance == d1 then {} else {Adj(links[l], city)});
      }
      RelaxedUpToAll(g, city, tree, d0, p0, distance, parent);
    }
  
    /** The first two steps of makeTree: `initializeCities` and
        `populatePriorityQueue`, after which makeTree's loop invariant holds
        with nothing polled yet. */
    method StartTree(ghost g: Graph, ghost V: set<CityId>, src: CityId, ghost m: int) returns (pq: set<CityId>)
      requires Valid() && g == Topology() && V == Registered() && Network(g, V, src, m)
      modifies this`distance, this`parent, this`used
      ensures Valid() && pq == V
      ensures Inv(g, V, src, m, {}, false, map[], RunState())
      ensures KeptOutside(g, V, old(RunState()), RunState())
    {
      InitializeCities(src);
      forall v | v in V
        ensures parent[v] == None && distance[v] as int == if v == src then 0 else MAX_VALUE
      {
        RegisteredCity(v);
      }
      forall c, l | c in V && l in adjacency[c]
        ensures !used[l]
      {
        HeldLink(g, c, l);
        assert l in HeldBy(adjacency, V);
      }
      InitialInv(g, V, src, m, RunState());
      pq := PopulatePriorityQueue();
    }

    /** makeTree marks the polled city's parent link, if it has one, used. */
    method MarkParentLink(city: CityId)
      requires Valid() && city < |parent|
      requires parent[city].Some? ==> parent[city].value < |used|
      modifies this`used
      ensures Valid() && used == MarkParent(old(RunState()), city)
    {
      if parent[city].Some? {
        SetUsed(parent[city].value, true);
      }
    }

    /** One iteration of makeTree's loop: polls a closest city of `pq`,
        marks its parent link used, adds it to the tree and relaxes its
        links; the queue then holds exactly the cities outside the tree. */
    method PollClosest(ghost V: set<CityId>, tree: set<CityId>, pq: set<CityId>)
      returns (city: CityId, tree': set<CityId>, pq': set<CityId>)
      requires Valid() && Closed(Topology(), V) && pq == V - tree && pq != {}
      requires ParentsInRange(Topology(), V, RunState())
      modifies this`distance, this`parent, this`used
      ensures Valid()
      ensures MinPolled(V, tree, old(RunState()), city)
      ensures tree' == tree + {city} && pq' == V - tree' && |pq'| < |pq|
      ensures PollTransition(Topology(), tree, city, old(RunState()), RunState())
    {
      ghost var g, t0 := Topology(), RunState();
      assert forall v :: v in pq ==> v < |distance|;
      var rest;
      city, rest := FindNextClosestCity(pq);
      assert MinPolled(V, tree, t0, city);
      assert parent[city].Some? ==> parent[city].value < |used| by {
        assert city in V && city < |t0.parent| && t0.parent[city] == parent[city];
      }
      MarkParentLink(city);
      tree' := tree + {city};
      pq' := UpdateDistances(city, tree', rest);
      ChangedUnpolled(g, V, city, tree', t0.distance, t0.parent, distance, parent);
      QueueStep(V, tree, pq, city, rest, ChangedFrom(t0.distance, distance));
    }

    /** One iteration of makeTree's loop, with the loop invariant it keeps. */
    method PollAndSettle(ghost g: Graph, ghost V: set<CityId>, src: CityId, ghost m: int, tree: set<CityId>,
                         queue: set<CityId>, ghost done: bool, ghost order: map<CityId, nat>)
      returns (tree': set<CityId>, queue': set<CityId>, ghost done': bool, ghost order': map<CityId, nat>)
      requires Valid() && Topology() == g && queue == V - tree && queue != {}
      requires Inv(g, V, src, m, tree, done, order, RunState())
      modifies this`distance, this`parent, this`used
      ensures Valid() && Topology() == g && queue' == V - tree' && tree' <= V && |queue'| < |queue|
      ensures Inv(g, V, src, m, tree', done', order', RunState())
      ensures KeptOutside(g, V, old(RunState()), RunState())
    {
      ghost var t0 := RunState();
      InvParents(g, V, src, m, tree, done, order, t0);
      var city;
      city, tree', queue' := PollClosest(V, tree, queue);
      PollStep(g, V, src, m, tree, done, order, t0, city, RunState());
      PollKeptOutside(g, V, src, m, tree, done, order, t0, city, RunState());
      order' := order[city := |tree|];
      done' := done || t0.distance[city] as int == MAX_VALUE;
    }

    /** makeTree's loop: polls cities until the queue is empty. Started
        with the queue holding the cities of `V` and the loop invariant
        holding with nothing polled, it ends with every city polled and the
        shortest-path tree in place. */
    method DrainQueue(ghost g: Graph, ghost V: set<CityId>, src: CityId, ghost m: int, pq: set<CityId>)
      returns (tree: set<CityId>, ghost order: map<CityId, nat>)
      requires Valid() && Topology() == g && pq == V
      requires Inv(g, V, src, m, {}, false, map[], RunState())
      modifies this`distance, this`parent, this`used
      ensures Valid() && tree == V
      ensures Final(g, V, src, order, RunState())
      ensures KeptOutside(g, V, old(RunState()), RunState())
    {
      ghost var t0 := RunState();
      var queue := pq;
      tree := {};
      order := map[];
      ghost var done := false;
      while queue != {}
        invariant Valid() && Topology() == g && queue == V - tree && tree <= V
        invariant Inv(g, V, src, m, tree, done, order, RunState())
        invariant KeptOutside(g, V, t0, RunState())
        decreases |queue|
      {
        tree, queue, done, order := PollAndSettle(g, V, src, m, tree, queue, done, order);
      }
      assert V <= tree by {
        forall v | v in V
          ensures v in tree
        {
          assert v !in queue;
        }
      }
      InvFinal(g, V, src, m, done, order, RunState());
    }

    /** `City.makeTree` from `src`: Dijkstra's algorithm over the registered
        cities. It returns exactly the registered cities, and leaves the
        finished shortest-path tree; `order` records when each city was
        polled. */
    method MakeTree(src: CityId) returns (tree: set<CityId>, ghost order: map<CityId, nat>)
      requires Valid() && src in Registered()
      requires exists m :: Network(Topology(), Registered(), src, m)
      modifies this`distance, this`parent, this`used
      ensures Valid()
      ensures tree == Registered()
      ensures Final(Topology(), Registered(), src, order, RunState())
      ensures KeptOutside(Topology(), Registered(), old(RunState()), RunState())
    {
      ghost var V, g := Registered(), Topology();
      ghost var m :| Network(g, V, src, m);
      var pq := StartTree(g, V, src, m);
      tree, order := DrainQueue(g, V, src, m, pq);
    }

    /** `City.getLinksTo`: from `c`, searches down the used links other than
        `c`'s own parent link. It succeeds exactly when the tree holds a route
        from `c` down to `dest`, and then adds that route's links to
        `routeLinks`; otherwise `routeLinks` is unchanged. */
    method GetLinksTo(ghost V: set<CityId>, c: CityId, dest: CityId, routeLinks: set<LinkId>,
                      ghost order: map<CityId, nat>)
      returns (found: bool, route: set<LinkId>)
      requires Valid() && c in V && Forest(Topology(), V, order, RunState())
      ensures found == TreeRoute(Topology(), V, order, RunState(), c, dest).Some?
      ensures route ==
        if found then routeLinks + Elements(TreeRoute(Topology(), V, order, RunState(), c, dest).value)
        else routeLinks
      decreases |V| - order[c], 1
    {
      ghost var g, t := Topology(), RunState();
      var todo := adjacency[c];
      while todo != {}
        invariant todo <= adjacency[c]
        invariant forall l :: l in adjacency[c] && l !in todo ==> Explored(V, order, c, dest, l)
        decreases |todo|
      {
        var l :| l in todo;
        var ok, r := FollowLink(V, c, dest, routeLinks, order, l);
        if ok {
          return true, r;
        }
        todo := todo - {l};
      }
      if TreeRoute(g, V, order, t, c, dest).Some? {
        var l := RouteStart(g, V, order, t, c, dest);
        assert false;
      }
      return false, routeLinks;
    }

    /** A link `l` of `c` that getLinksTo has tried without success: it is
        not a used link to `dest` or to a child with a route to `dest`. */
    ghost predicate Explored(V: set<CityId>, order: map<CityId, nat>, c: CityId, dest: CityId, l: LinkId)
      reads this`adjacency, this`links, this`distance, this`parent, this`used
      requires c in V && Forest(Topology(), V, order, RunState())
    {
      l < |links| && l < |used| &&
      (used[l] && parent[c] != Some(l) ==>
         Adj(links[l], c) != dest && TreeRoute(Topology(), V, order, RunState(), Adj(links[l], c), dest).None?)
    }

    /** The body of getLinksTo's loop for the link `l` of `c`: when `l` is a
        used link other than `c`'s parent, it leads to a child, and the search
        succeeds at the child or below it. */
    method FollowLink(ghost V: set<CityId>, c: CityId, dest: CityId, routeLinks: set<LinkId>,
                      ghost order: map<CityId, nat>, l: LinkId)
      returns (found: bool, route: set<LinkId>)
      requires Valid() && c in V && Forest(Topology(), V, order, RunState()) && l in adjacency[c]
      ensures found ==>
        TreeRoute(Topology(), V, order, RunState(), c, dest).Some? &&
        route == routeLinks + Elements(TreeRoute(Topology(), V, order, RunState(), c, dest).value)
      ensures !found ==> route == routeLinks && Explored(V, order, c, dest, l)
      ensures found <==>
        used[l] && parent[c] != Some(l) &&
        (Adj(links[l], c) == dest || TreeRoute(Topology(), V, order, RunState(), Adj(links[l], c), dest).Some?)
      decreases |V| - order[c], 0
    {
      ghost var g, t := Topology(), RunState();
      HeldLink(g, c, l);
      if IsUsed(l) && parent[c] != Some(l) {
        var child := Adj(links[l], c);
        ChildLink(g, V, order, t, c, l);
        assert ParentLink(g, l, child);
        RouteViaChild(g, V, order, t, c, l, dest);
        if dest == child {
          assert Elements([l]) == {l};
          return true, routeLinks + {l};
        }
        var ok, r := GetLinksTo(V, child, dest, routeLinks, order);
        if ok {
          ElementsCons(l, TreeRoute(g, V, order, t, child, dest).value);
          return true, r + {l};
        }
      }
      return false, routeLinks;
    }

    /** The route query of the rail network's driver: makeTree from `src`,
        then getLinksTo from `src` to `dest`. A route is found exactly when
        `dest` is another city reachable from `src`, and then the links added
        are those of a shortest walk from `src` to `dest`. */
    method RouteTo(src: CityId, dest: CityId, routeLinks: set<LinkId>) returns (found: bool, route: set<LinkId>)
      requires Valid() && src in Registered() && dest in Registered()
      requires exists m :: Network(Topology(), Registered(), src, m)
      modifies this`distance, this`parent, this`used
      ensures Valid()
      ensures found <==> dest != src && Reachable(Topology(), src, dest)
      ensures found ==> exists vs, ls ::
        Walk(Topology(), src, vs, ls, dest) && route == routeLinks + Elements(ls) &&
        ShortestDistance(Topology(), src, dest, PathLength(Topology(), ls)) &&
        PathLength(Topology(), ls) == distance[dest] as int
      ensures !found ==> route == routeLinks
      ensures KeptOutside(Topology(), Registered(), old(RunState()), RunState())
    {
      var tree, order := MakeTree(src);
      ghost var g, V, t := Topology(), Registered(), RunState();
      found, route := GetLinksTo(V, src, dest, routeLinks, order);
      RouteFromSource(g, V, src, order, t, dest);
      if found {
        var ls := TreeRoute(g, V, order, t, src, dest).value;
        var vs := RouteWalk(g, V, src, order, t, dest);
        assert Walk(g, src, vs, ls, dest) && route == routeLinks + Elements(ls);
      }
    }
  }
}
