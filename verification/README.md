# Rail network: cities, links, shortest-path tree and route recovery

This project models the core of a small Java rail-network program: the `City` and `Link` classes.
- Cities are registered by name in a static registry.
- Each city keeps the set of links it holds, plus scratch fields `distance` and `parent`.
- A link joins two cities. It has an `int` length, an optional `Direction`, and a `used` flag.

The model covers:
- **Building the network:** `new City`, `City.find`, `addLink`, and the two `Link` constructors with their name ordering (`cityComparator`).
- **Dijkstra:** `City.makeTree` builds a shortest-path tree from a source city. It uses `initializeCities`, `populatePriorityQueue`, `findNextClosestCity` and `updateDistances`.
- **Route recovery:** `City.getLinksTo` walks the used links of that tree down to a destination.
- **The driver's query:** the sequence "makeTree on the source, then getLinksTo".

The model is written in these terms:
- **Arena.** The whole heap of `City` and `Link` objects is one object, `Rail.RailNetwork`. City `c` is the `c`-th City constructed and link `l` is the `l`-th Link, so an index plays the part of a reference. Each field of `City` and `Link` is a `seq` indexed by city or link. The registry `City.cities` is a `map<string, CityId>`.
- **Imperative code.** Java loops become `while` loops over the sets they iterate, with invariants. Every method is proved against a specification function or predicate:
  - the initial values: `ResetDistances`, `ResetParents`, `ClearFlags`;
  - one relaxation: `RelaxedState`, `Relaxed`;
  - the Dijkstra loop invariant `Inv` and the finished tree `Final`;
  - the tree route `TreeRoute`.
- **Helper methods.** Some method bodies are split into helper methods so that each proof stays small. makeTree becomes `StartTree` (initializeCities and populatePriorityQueue), `DrainQueue` (its `while` loop), `PollAndSettle` (one iteration), `PollClosest` (the poll, the parent mark and updateDistances) and `MarkParentLink`. Loop bodies become `ClearLinks`, `ResetCity`, `RelaxLink` and `FollowLink`. The statements and their order are those of the Java code.
- **Java semantics.** `int` is a 32-bit newtype. `city.distance + length` and `c1.distance - c2.distance` wrap around as in Java (`JavaLang.Add`, `JavaLang.Sub`), and `Integer.MAX_VALUE` is "infinity". `String.compareTo` is the difference of the first differing characters, or else of the lengths.
- **Unreachable cities.** After an unreachable city at `MAX_VALUE` is polled, its neighbours can receive wrapped, negative distances. The code does not keep "infinity" for them (`JavaLang.AddToInfinityWraps`). The shortest-distance theorem is therefore stated for the cities reachable from the source.
- **The queue.** The priority queue is the set of cities it holds. `poll` picks any city of minimum distance; ties are not specified. HashSet and HashMap iteration picks the next element arbitrarily.

Modules:
- `JavaLang`: int32 wrap-around, `String.compareTo`, `Integer.toString`.
- `RailGraph`: `Direction`, `Link`, `getAdj`, `cityComparator`, `Link.toString`, `Link.compareTo`, walks and shortest distances.
- `ShortestPaths`: the makeTree loop invariant and the lemmas that carry it across one poll.
- `RouteTree`: the tree makeTree leaves, and the route getLinksTo recovers from it.
- `Rail`: the heap and every operation as a method.

## Model

| member | source | states |
|---|---|---|
| JavaLang.Wrap | src/City.java:167-169 | The 32-bit result agrees with the true sum or difference modulo 2^32, and equals it whenever it fits in an `int`. |
| JavaLang.Add | src/City.java:167-169 | `city.distance + length` is the true sum when it fits in an `int`, and otherwise differs from it by a multiple of 2^32 (two's-complement wrap). |
| JavaLang.Sub | src/City.java:70 | `c1.distance - c2.distance` is the true difference when it fits in an `int`, and otherwise differs from it by a multiple of 2^32. |
| JavaLang.AddToInfinityWraps | src/City.java:167 | `MAX_VALUE + len` with a positive length is negative (`MAX_VALUE + len - 2^32`), so the strict improvement test passes from an unreachable city. |
| JavaLang.CompareStringsZero | src/City.java:56-58 | `compareTo` on names is zero exactly when the names are equal. |
| JavaLang.CompareStringsAntisymmetric | src/City.java:56-58 | `a.compareTo(b) == -b.compareTo(a)`. |
| JavaLang.CompareStringsNegative | src/City.java:56-58 | `compareTo` is negative exactly when the first string is lexicographically smaller (a proper prefix, or smaller at the first difference). |
| JavaLang.NatToDecimalDigits | src/Link.java:79 | The decimal rendering of a number is a non-empty string of digits whose value is that number. |
| JavaLang.IntToStringRoundTrip | src/Link.java:79 | Reading back the printed length gives the length: the rendering loses nothing. |
| RailGraph.AdjOfEndpoint | src/Link.java:59-61 | `getAdj` lands on an endpoint. For an endpoint of a link with distinct ends it gives the other end, and `getAdj(getAdj(c)) == c`. |
| RailGraph.AdjSwap | src/Link.java:59-61 | If the link leads from `u` to a different city `v`, it leads from `v` back to `u`. |
| RailGraph.Adj | src/Link.java:59-61 | `getAdj` returns an endpoint of the link, and from one end of a link with distinct ends it returns a different city. |
| RailGraph.CanonicalOrdered | src/Link.java:105-114 | `cityComparator` keeps both cities, and the first name is never lexicographically greater than the second. |
| RailGraph.CanonicalSymmetric | src/Link.java:105-114 | Ordering the two cities either way round gives the same pair of names. |
| RailGraph.Canonical | src/Link.java:105-114 | `cityComparator` returns the two given cities in some order, and on equal names puts the second argument first. |
| RailGraph.DescribeSymmetric | src/Link.java:77-89 | `new Link(a, b, L)` and `new Link(b, a, L)` print identically. |
| RailGraph.Describe | src/Link.java:77-89 | `toString` starts with city1's name and a space, and without a direction ends with city2's name. |
| RailGraph.CompareLinksOrder | src/Link.java:96-102 | `Link.compareTo` is zero exactly when both names match. It is antisymmetric, and negative exactly in lexicographic order on the pair (city1, city2); length and direction play no part. |
| RailGraph.CompareLinks | src/Link.java:96-102 | `compareTo` is zero exactly when both links have the same city1 name and the same city2 name. |
| ShortestPaths.MarkParent | src/City.java:143-145 | Marking the polled city's parent sets exactly that link's flag and keeps every other flag. |
| ShortestPaths.InitialInv | src/City.java:117-129 | After initializeCities (source 0, the others MAX_VALUE, no parents, no used links), the Dijkstra invariant holds with nothing polled. |
| ShortestPaths.MinIsShortest | src/City.java:155-157 | While only reachable cities have been polled, the distance of a city of minimum distance is at most the length of any walk to it. |
| ShortestPaths.PollStep | src/City.java:141-148 | One poll, mark and updateDistances keeps the invariant: polled reachable cities are settled at their shortest distance, parents point to earlier polled cities, used links are exactly those parents, and the source keeps 0. |
| RouteTree.InvFinal | src/City.java:141-149 | When the queue is empty (every registered city polled), the invariant gives the finished tree. |
| RouteTree.UsedIffParent | src/Link.java:10-11 | After makeTree, a link of a registered city is used exactly when it is the parent link of some registered city: `used` marks exactly the links of the shortest-path tree. |
| RouteTree.FinalMeaning | src/City.java:90-96 | After makeTree, every reachable city's distance is its shortest distance. Every reachable city other than the source has a parent link from a reachable predecessor, one link length closer. Every parent link is used. |
| RouteTree.RouteOrder | src/City.java:77-88 | A tree route goes from an earlier polled city to a later one and is non-empty, which is why getLinksTo terminates. |
| RouteTree.NoRouteToSelf | src/City.java:77-88 | There is no route from a city to itself, so getLinksTo from a city to itself fails. |
| RouteTree.RouteViaChild | src/City.java:79-84 | A used, non-parent link of `c` to `dest` is the whole route. If it leads to a child with a route to `dest`, the route is that link followed by the child's route. |
| RouteTree.RouteStart | src/City.java:77-88 | Conversely, a route from `c` starts with a used, non-parent link of `c` that leads to `dest` or to a child with a route to `dest`. |
| RouteTree.RouteWalk | src/City.java:90-96 | The route from the source is a walk from the source to the destination whose length is the destination's distance. |
| RouteTree.RouteFromSource | src/City.java:90-96 | From the source of a finished tree, a route exists exactly for the reachable cities other than the source, and its length is their shortest distance. |
| Rail.RelaxOne | src/City.java:164-173 | Relaxing one more link keeps the partial relaxation invariant. Only the city at the link's other end can change, and then only if it is outside the tree and strictly improves. |
| Rail.ChangedUnpolled | src/City.java:165 | A city whose distance updateDistances changed is a registered city not yet in the tree, so it is still in the queue. |
| Rail.QueueStep | src/City.java:141-147 | After a poll the queue holds exactly the registered cities outside the tree, and it is smaller. |
| Rail.RailNetwork.constructor | src/City.java:14 | The program starts with an empty registry, no cities and no links. |
| Rail.RailNetwork.NewCity | src/City.java:27-30 | A new city has the given name, no links, distance 0 and no parent. It is registered under its name, replacing any earlier city of that name; nothing else changes. |
| Rail.RailNetwork.Find | src/City.java:36-43 | Returns a city registered under `nm` with that name. If `nm` was registered, the result is that city and the state is unchanged. Otherwise a new city is appended and the registry grows by exactly one. |
| Rail.RailNetwork.RegisteredClosed | src/City.java:27-30 | When no city has been displaced by a same-name city, every endpoint of a registered city's link is registered. |
| Rail.RailNetwork.AddLink | src/City.java:47-49 | Set insertion: the link is held afterwards, only that city's set changes, and re-adding a held link changes nothing. |
| Rail.RailNetwork.AppendLink | src/Link.java:6-12 | A new link record is appended with `used == false`, and no city holds it yet. |
| Rail.RailNetwork.NewLink | src/Link.java:18-23 | The 3-argument constructor stores the two cities name-ordered (`city1 = c2` on equal names), with no direction, and adds the link to both cities' sets; no other city changes. `getLength` on the new link returns `len`. |
| Rail.RailNetwork.NewDirectedLink | src/Link.java:29-46 | With `One` the endpoints keep input order and only `c1` holds the link. With `Two` they are name-ordered and both cities hold it. `getLength` on the new link returns `len`. |
| Rail.RailNetwork.SetUsed | src/Link.java:64-71 | Afterwards `isUsed` returns the value set; no other link's flag changes. |
| Rail.RailNetwork.CompareCities | src/City.java:56-58 | The sign of `compareTo` follows the lexicographic order of the names, and is zero exactly for equal names. |
| Rail.RailNetwork.CompareDistances | src/City.java:69-71 | The result is the 32-bit difference of the distances. For non-negative distances its sign follows their order. |
| Rail.RailNetwork.ClearLinks | src/City.java:125-127 | Every link the city holds becomes unused; no other flag changes. |
| Rail.RailNetwork.ResetCity | src/City.java:119-127 | One city gets distance 0 if it is the source and MAX_VALUE otherwise, loses its parent, and its links become unused. |
| Rail.RailNetwork.InitializeCities | src/City.java:117-129 | Every registered city gets MAX_VALUE (the source 0) and no parent, and every link held by a registered city becomes unused. Unregistered cities and other links are untouched. |
| Rail.RailNetwork.PopulatePriorityQueue | src/City.java:103-110 | The queue holds exactly the registered cities. |
| Rail.RailNetwork.FindNextClosestCity | src/City.java:155-157 | `poll` removes a city of the queue whose distance is at most every other queued city's. |
| Rail.RailNetwork.RelaxLink | src/City.java:164-173 | One iteration of updateDistances' loop computes `RelaxedState`: the child outside the tree takes `city.distance + length` and the link as parent exactly when that is strictly smaller. The queue is unchanged as a set except that an improved child is (re-)added. |
| Rail.RailNetwork.UpdateDistances | src/City.java:162-175 | Only cities outside the tree change, and only on strict improvement to `city.distance + length` with that link as parent. Afterwards no link of `city` offers a smaller distance. No distance increases, and the only cities added to the queue are the improved ones. |
| Rail.RailNetwork.StartTree | src/City.java:138-139 | initializeCities then populatePriorityQueue: the queue is the registered cities and the loop invariant holds with nothing polled. Unregistered cities and links no registered city holds are untouched. |
| Rail.RailNetwork.MarkParentLink | src/City.java:143-145 | The polled city's parent link, if any, becomes used. |
| Rail.RailNetwork.PollClosest | src/City.java:142-147 | The polled city has minimum distance among the unpolled cities. It joins the tree, and the queue is exactly the registered cities outside the tree. |
| Rail.RailNetwork.PollAndSettle | src/City.java:141-148 | One loop iteration keeps the Dijkstra invariant and the queue/tree invariant, shrinks the queue, and leaves unregistered cities and links no registered city holds untouched. |
| Rail.PollKeptOutside | src/City.java:141-148 | A poll of a registered city changes only registered cities (the relaxed neighbours are in the closed registry) and only a link a registered city holds (the polled city's parent link is held by its parent). |
| Rail.RailNetwork.DrainQueue | src/City.java:140-149 | The loop ends with every registered city in the tree and the finished shortest-path tree in place; unregistered cities and links no registered city holds keep their state. |
| Rail.RailNetwork.MakeTree | src/City.java:137-150 | Returns exactly the registered cities, each polled once. It leaves the source at 0 with no parent, every reachable city at its shortest distance with a parent from its predecessor, and exactly the parent links used. A city no longer in the registry (displaced by a later city of the same name) keeps its distance and parent, and a link that no registered city holds keeps its used flag. |
| Rail.RailNetwork.GetLinksTo | src/City.java:77-88 | Returns true exactly when the tree holds a route from the city down to `dest`. Then it adds exactly that route's links; otherwise the set is unchanged. |
| Rail.RailNetwork.FollowLink | src/City.java:79-85 | For one link: success exactly when it is a used non-parent link leading to `dest` or to a child with a route to `dest`, and then the links of the route from the city are added. A link tried without success leads neither to `dest` nor to such a child, and the set is unchanged. |
| Rail.RailNetwork.RouteTo | src/RouteCost.java:129-137 | makeTree on the source, then getLinksTo: a route is found exactly when `dest` is another city reachable from the source. Its links form a shortest walk whose length is `dest`'s distance; on failure the set is unchanged. Cities outside the registry and links no registered city holds keep their state. |

## Left out

- The driver program (`RouteCost`) is not modelled beyond the route query `RouteTo`: line input with `Scanner`, `split`, `Integer.parseInt`, `Direction.valueOf`, and printing the links and their total.
- Java's `PriorityQueue`, `CityComparator`, `HashSet` and `HashMap` internals are not modelled, including their iteration order. The queue is a set with an arbitrary choice among minimum-distance cities; loops over sets pick their next element arbitrarily.
- `City.toString` is not modelled as a member: it returns `names[c]`.
- The `TrinaryHeap` exercised by the tests is not part of this model (its source is absent). `Direction` is only the datatype `Link` uses.
- Characters are Dafny `char`s. `String.compareTo` is modelled as differences of character values, which matches UTF-16 code units for characters of the Basic Multilingual Plane only.
- Object references are arena indices. `routeLinks` is passed to getLinksTo and returned as a value rather than mutated in place, so aliasing of the caller's set is not modelled.
- NewDirectedLink: requires `One` or `Two`. With `Three` or `Four`, Java leaves the endpoints null and no city holds the link; the driver never passes them.
- AddLink: requires the city to be an endpoint of the link. Java's `addLink` accepts any link, but only the Link constructors call it, always with an endpoint.
- UpdateDistances: requires the polled city to be in the tree, or to have no self-loop. makeTree always adds the city to the tree before the call.
- MakeTree: requires a closed network with link lengths in `[0, m]` and `|V| * m < MAX_VALUE`, so relaxations from reachable cities do not overflow. It is proved to give shortest distances for reachable cities only; unreachable cities may end with wrapped distances.
- GetLinksTo: requires the forest that makeTree leaves (used links are exactly the parents of polled cities). With arbitrary used flags the Java recursion need not terminate. It takes the polled cities and the ghost poll order as parameters.
- RouteTo: `routeLinks` is a set of link identities, like the `HashSet` the tests pass. The driver's `TreeSet<Link>` orders links by `Link.compareTo` and keeps only one link per (city1 name, city2 name) pair, so a route link whose name pair is already in the driver's set is not added there; the model adds it. RouteTo also inherits MakeTree's requirement of link lengths in `[0, m]` with `|V| * m < MAX_VALUE`.
- RouteTo: requires the destination to be registered already. The driver's `City.find` could create a fresh city with no links after makeTree; that path is not modelled.
