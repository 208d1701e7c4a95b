/** The rail network as a graph: directions, links between cities, the
    adjacency that the cities keep, and walks over that adjacency. Cities and
    links are named by their index in the network's arena (see module Rail);
    `CityId` and `LinkId` play the part of Java object references. */
module RailGraph {
  import opened JavaLang

  type CityId = nat
  type LinkId = nat

  /** The four direction constants of the network's enum. */
  datatype Direction = One | Two | Three | Four

  /** The parts of a link that are fixed once it is constructed; its `used`
      flag is kept with the rest of the per-run state. */
  datatype Link = Link(city1: CityId, city2: CityId, length: int32, direction: Option<Direction>)

  /** The topology: the links each city holds, and every link. */
  datatype Graph = Graph(adjacency: seq<set<LinkId>>, links: seq<Link>)

  predicate IsEndpoint(l: Link, c: CityId) {
    c == l.city1 || c == l.city2
  }

  /** `Link.getAdj`: `city2` when `c` is `city1`, and `city1` otherwise. */
  function Adj(l: Link, c: CityId): (r: CityId)
    ensures IsEndpoint(l, r)
    ensures IsEndpoint(l, c) && l.city1 != l.city2 ==> r != c
  {
    if c == l.city1 then l.city2 else l.city1
  }

  /** getAdj always lands on an endpoint, and from an endpoint of a link with
      two distinct ends it goes to the other end and back. */
  lemma AdjOfEndpoint(l: Link, c: CityId)
    ensures IsEndpoint(l, Adj(l, c))
    ensures IsEndpoint(l, c) && l.city1 != l.city2 ==> Adj(l, c) != c && Adj(l, Adj(l, c)) == c
  {
  }

  /** From `u` the link leads to `v`, a different city: then it leads back. */
  lemma AdjSwap(l: Link, u: CityId, v: CityId)
    requires IsEndpoint(l, u) && Adj(l, u) == v && v != u
    ensures Adj(l, v) == u
  {
  }

  /** A link has two ends: a third endpoint equals one of two distinct ones. */
  lemma ThirdEndpoint(l: Link, a: CityId, b: CityId, c: CityId)
    requires IsEndpoint(l, a) && IsEndpoint(l, b) && a != b
    requires IsEndpoint(l, c) && c != a
    ensures c == b
  {
  }

  /** `Link.cityComparator`: the city whose name is smaller comes first; on
      equal names the second argument comes first. */
  function Canonical(names: seq<string>, c1: CityId, c2: CityId): (r: (CityId, CityId))
    requires c1 < |names| && c2 < |names|
    ensures {r.0, r.1} == {c1, c2}
    ensures names[r.0] == names[r.1] ==> r == (c2, c1)
  {
    CompareStringsZero(names[c1], names[c2]);
    if CompareStrings(names[c1], names[c2]) < 0 then (c1, c2) else (c2, c1)
  }

  /** The ordered pair holds the two arguments, and its first name is never
      lexicographically greater than its second. */
  lemma CanonicalOrdered(names: seq<string>, c1: CityId, c2: CityId)
    requires c1 < |names| && c2 < |names|
    ensures var (a, b) := Canonical(names, c1, c2);
      {a, b} == {c1, c2} && !LexLess(names[b], names[a])
  {
    CompareStringsNegative(names[c1], names[c2]);
    CompareStringsNegative(names[c2], names[c1]);
    CompareStringsAntisymmetric(names[c1], names[c2]);
  }

  /** Ordering two cities either way round gives the same pair of names. */
  lemma CanonicalSymmetric(names: seq<string>, c1: CityId, c2: CityId)
    requires c1 < |names| && c2 < |names|
    ensures var (a, b) := Canonical(names, c1, c2);
      var (a', b') := Canonical(names, c2, c1);
      names[a] == names[a'] && names[b] == names[b']
  {
    CompareStringsAntisymmetric(names[c1], names[c2]);
    CompareStringsZero(names[c1], names[c2]);
  }

  /** The enum constant's name, as Java prints it. */
  function DirectionName(d: Direction): string {
    match d
    case One => "one"
    case Two => "two"
    case Three => "three"
    case Four => "four"
  }

  /** `Link.toString`: "city1 length city2", then " direction" when the link
      has one. */
  function Describe(names: seq<string>, l: Link): (r: string)
    requires l.city1 < |names| && l.city2 < |names|
    ensures |names[l.city1]| + |names[l.city2]| + 2 <= |r|
    ensures r[..|names[l.city1]|] == names[l.city1] && r[|names[l.city1]|] == ' '
    ensures l.direction.None? ==> r[|r| - |names[l.city2]|..] == names[l.city2]
  {
    var output := names[l.city1] + " " + IntToString(l.length) + " " + names[l.city2];
    match l.direction
    case None => output
    case Some(d) => output + " " + DirectionName(d)
  }

  /** Two undirected links built from the same cities in either order print
      identically. */
  lemma DescribeSymmetric(names: seq<string>, c1: CityId, c2: CityId, len: int32)
    requires c1 < |names| && c2 < |names|
    ensures var (a, b) := Canonical(names, c1, c2);
      var (a', b') := Canonical(names, c2, c1);
      Describe(names, Link(a, b, len, None)) == Describe(names, Link(a', b', len, None))
  {
    CanonicalSymmetric(names, c1, c2);
  }

  /** `Link.compareTo`: compare the first cities' names, then the second's. */
  function CompareLinks(names: seq<string>, x: Link, y: Link): (r: int)
    requires x.city1 < |names| && x.city2 < |names| && y.city1 < |names| && y.city2 < |names|
    ensures r == 0 <==> names[x.city1] == names[y.city1] && names[x.city2] == names[y.city2]
  {
    CompareStringsZero(names[x.city1], names[y.city1]);
    CompareStringsZero(names[x.city2], names[y.city2]);
    var diff := CompareStrings(names[x.city1], names[y.city1]);
    if diff == 0 then CompareStrings(names[x.city2], names[y.city2]) else diff
  }

  /** CompareLinks is zero exactly when both names agree, is antisymmetric, and
      is negative exactly in lexicographic order on the pair of names; length
      and direction play no part. */
  lemma CompareLinksOrder(names: seq<string>, x: Link, y: Link)
    requires x.city1 < |names| && x.city2 < |names| && y.city1 < |names| && y.city2 < |names|
    ensures CompareLinks(names, x, y) == 0 <==>
      names[x.city1] == names[y.city1] && names[x.city2] == names[y.city2]
    ensures CompareLinks(names, x, y) == -CompareLinks(names, y, x)
    ensures CompareLinks(names, x, y) < 0 <==>
      LexLess(names[x.city1], names[y.city1]) ||
      (names[x.city1] == names[y.city1] && LexLess(names[x.city2], names[y.city2]))
  {
    CompareStringsZero(names[x.city1], names[y.city1]);
    CompareStringsZero(names[x.city2], names[y.city2]);
    CompareStringsAntisymmetric(names[x.city1], names[y.city1]);
    CompareStringsAntisymmetric(names[x.city2], names[y.city2]);
    CompareStringsNegative(names[x.city1], names[y.city1]);
    CompareStringsNegative(names[x.city2], names[y.city2]);
  }

  // ---------------------------------------------------------------------
  // Topology invariants

  /** Every link a city holds has that city as an endpoint, and every link's
      endpoints are cities of the arena. */
  ghost predicate WellFormed(g: Graph) {
    (forall c, l {:trigger l in g.adjacency[c]} :: 0 <= c < |g.adjacency| && l in g.adjacency[c] ==>
      l < |g.links| && IsEndpoint(g.links[l], c)) &&
    (forall l :: 0 <= l < |g.links| ==>
      g.links[l].city1 < |g.adjacency| && g.links[l].city2 < |g.adjacency|)
  }

  /** The cities `V` are closed under the links they hold. */
  ghost predicate Closed(g: Graph, V: set<CityId>) {
    (forall c :: c in V ==> c < |g.adjacency|) &&
    (forall c, l :: c in V && c < |g.adjacency| && l in g.adjacency[c] ==>
      l < |g.links| && g.links[l].city1 in V && g.links[l].city2 in V)
  }

  /** Every link held by a city of `V` has a length in `[0, m]`. */
  ghost predicate LengthsAtMost(g: Graph, V: set<CityId>, m: int) {
    forall c, l :: c in V && c < |g.adjacency| && l in g.adjacency[c] && l < |g.links| ==>
      0 <= g.links[l].length as int <= m
  }

  // ---------------------------------------------------------------------
  // Walks

  /** From city `u`, the link `l` that `u` holds leads to `w`. */
  ghost predicate Step(g: Graph, u: CityId, l: LinkId, w: CityId) {
    u < |g.adjacency| && l in g.adjacency[u] && l < |g.links| && Adj(g.links[l], u) == w
  }

  /** `vs` are the cities and `ls` the links of a walk from `s` to `t`. */
  ghost predicate Walk(g: Graph, s: CityId, vs: seq<CityId>, ls: seq<LinkId>, t: CityId) {
    |vs| == |ls| + 1 && vs[0] == s && vs[|ls|] == t &&
    forall i {:trigger ls[i]} :: 0 <= i < |ls| ==> Step(g, vs[i], ls[i], vs[i + 1])
  }

  function LinkLength(g: Graph, l: LinkId): int {
    if l < |g.links| then g.links[l].length as int else 0
  }

  /** The total length of a sequence of links (unbounded, no wrap-around). */
  function PathLength(g: Graph, ls: seq<LinkId>): int {
    if ls == [] then 0 else PathLength(g, ls[..|ls| - 1]) + LinkLength(g, ls[|ls| - 1])
  }

  ghost predicate Reachable(g: Graph, s: CityId, t: CityId) {
    exists vs, ls :: Walk(g, s, vs, ls, t)
  }

  /** `d` is the length of a walk from `s` to `t`, and no walk is shorter. */
  ghost predicate ShortestDistance(g: Graph, s: CityId, t: CityId, d: int) {
    (exists vs, ls :: Walk(g, s, vs, ls, t) && PathLength(g, ls) == d) &&
    (forall vs, ls :: Walk(g, s, vs, ls, t) ==> d <= PathLength(g, ls))
  }

  /** Appending one step to a walk. */
  lemma WalkExtend(g: Graph, s: CityId, vs: seq<CityId>, ls: seq<LinkId>, u: CityId, l: LinkId, w: CityId)
    requires Walk(g, s, vs, ls, u) && Step(g, u, l, w)
    ensures Walk(g, s, vs + [w], ls + [l], w)
    ensures PathLength(g, ls + [l]) == PathLength(g, ls) + LinkLength(g, l)
  {
    assert (ls + [l])[..|ls|] == ls;
    var vs', ls' := vs + [w], ls + [l];
    forall i | 0 <= i < |ls'| ensures Step(g, vs'[i], ls'[i], vs'[i + 1]) {
      if i < |ls| {
        assert vs'[i] == vs[i] && ls'[i] == ls[i] && vs'[i + 1] == vs[i + 1];
      }
    }
  }

  /** The first `j` steps of a walk are a walk. */
  lemma WalkPrefix(g: Graph, s: CityId, vs: seq<CityId>, ls: seq<LinkId>, t: CityId, j: nat)
    requires Walk(g, s, vs, ls, t) && j <= |ls|
    ensures Walk(g, s, vs[..j + 1], ls[..j], vs[j])
  {
    forall i | 0 <= i < j ensures Step(g, vs[..j + 1][i], ls[..j][i], vs[..j + 1][i + 1]) {
      assert Step(g, vs[i], ls[i], vs[i + 1]);
    }
  }

  /** A walk that starts in a closed set of cities stays in it. */
  lemma {:induction false} WalkInside(g: Graph, V: set<CityId>, s: CityId, vs: seq<CityId>, ls: seq<LinkId>, t: CityId, i: nat)
    requires Closed(g, V) && s in V && Walk(g, s, vs, ls, t) && i < |vs|
    ensures vs[i] in V
    decreases i
  {
    if i > 0 {
      WalkInside(g, V, s, vs, ls, t, i - 1);
      assert Step(g, vs[i - 1], ls[i - 1], vs[i]);
    }
  }

  /** Along a walk inside `V`, every link has a non-negative length. */
  lemma WalkLengthsNonNegative(g: Graph, V: set<CityId>, m: int, s: CityId, vs: seq<CityId>, ls: seq<LinkId>, t: CityId)
    requires Closed(g, V) && LengthsAtMost(g, V, m) && s in V && Walk(g, s, vs, ls, t)
    ensures forall i :: 0 <= i < |ls| ==> 0 <= LinkLength(g, ls[i])
  {
    forall i | 0 <= i < |ls| ensures 0 <= LinkLength(g, ls[i]) {
      WalkInside(g, V, s, vs, ls, t, i);
      assert Step(g, vs[i], ls[i], vs[i + 1]);
    }
  }

  /** With non-negative lengths, a prefix is never longer than the whole. */
  lemma {:induction false} PathLengthPrefix(g: Graph, ls: seq<LinkId>, j: nat)
    requires j <= |ls|
    requires forall i :: 0 <= i < |ls| ==> 0 <= LinkLength(g, ls[i])
    ensures 0 <= PathLength(g, ls[..j]) <= PathLength(g, ls)
    decreases |ls|
  {
    if j == |ls| {
      assert ls[..j] == ls;
      if ls != [] {
        PathLengthPrefix(g, ls[..|ls| - 1], 0);
        assert ls[..|ls| - 1][..0] == [];
      }
    } else {
      var front := ls[..|ls| - 1];
      assert front[..j] == ls[..j];
      PathLengthPrefix(g, front, j);
    }
  }

  /** A sequence that starts inside `F` and ends outside it leaves `F` at
      some step. */
  lemma {:induction false} FirstExit(vs: seq<CityId>, F: set<CityId>) returns (j: nat)
    requires |vs| > 0 && vs[0] in F && vs[|vs| - 1] !in F
    ensures j + 1 < |vs| && vs[j] in F && vs[j + 1] !in F
    decreases |vs|
  {
    if vs[|vs| - 2] in F {
      j := |vs| - 2;
    } else {
      j := FirstExit(vs[..|vs| - 1], F);
    }
  }
}
