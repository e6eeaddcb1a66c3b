# Route finder search engine, modelled in Dafny

This project models the search engine of `find_route.py`. The engine finds a
route between two named locations on an undirected road map and reports three
counters with it: nodes popped, nodes expanded and nodes generated.

The model has four modules:

- `Graph` (`graph.dfy`) builds the adjacency map from already-parsed
  `(source, dest, distance)` lines. Each line is appended to the source's list
  and, reversed, to the destination's list. The module also defines walks over
  those lists, their summed distance, and reachability.
- `Frontier` (`frontier.dfy`) holds the frontier entries `(key, city, path)`.
  A key is a finite number or the infinity used for a missing heuristic value.
  The module gives the order in which Python compares these tuples and a
  pop-minimum over a sequence that stands in for `heapq`.
- `SearchSpec` (`search_spec.dfy`) states what the two searches are proved
  against:
  - the entries each expansion pushes;
  - the loop invariant of each search;
  - the outcome each search guarantees;
  - one lemma per kind of loop step.
- `RouteSearch` (`search.dfy`) holds the `RouteFinder` value, the `search`
  dispatch, and both searches. The searches are written as methods with
  `while` loops over a frontier, an explored set and the three counters.

What is proved:

- **Graph construction.**
  - Every connection appears in both directions and nothing else does.
  - Parallel edges and self-loops are kept.
  - Reading more lines only appends to the lists.
- **Dispatch.** `search` uses the heuristic-ordered search exactly when the
  heuristic table is present and non-empty.
- **Uniform-cost search (`uninformed_search`).**
  - Every frontier entry's path is a walk from the origin to its city, and its
    cost is the summed distance of that walk.
  - A route is returned exactly when the destination is reachable.
  - With non-negative distances, no walk is cheaper than the returned route.
  - When no route is found, the explored set is exactly the set of locations
    reachable from the origin, so expanded equals its size; after a route,
    expanded is below that size.
  - The counters satisfy exact relations: see the table below.
  - The loop terminates. The measure is the number of unexplored locations,
    then the frontier size.
- **Heuristic-ordered search (`informed_search`).** The same facts, except
  optimality. A pushed entry's key is the neighbour's estimate plus the last
  edge's distance, so this search is greedy and no optimality is claimed.

## Model

| member | source | states |
|---|---|---|
| Graph.AddConnection | find_route.py:168-169 | one line adds both endpoints as keys, appends `(dest, d)` to the source's list and `(source, d)` to the destination's list (both to the one list for a self-loop), and leaves every other list unchanged |
| Graph.BuildGraph | find_route.py:161-169 | the reading loop over parsed lines produces `Build(cs)`, the lines folded in order through `AddConnection` |
| Graph.AddConnectionKeys | find_route.py:168-169 | after one line, a location has a list exactly when it had one or is an endpoint of the line |
| Graph.BuildKeys | find_route.py:166-169 | the locations with a list are exactly the endpoints of the lines read |
| Graph.AddConnectionEntries | find_route.py:168-169 | after one line, `(y, w)` is in the list of `x` exactly when it was before or the line joins `x` and `y` with distance `w` |
| Graph.BuildEntries | find_route.py:166-169 | `(y, w)` is in the list of `x` exactly when some line joins `x` and `y`, in either direction, with distance `w` |
| Graph.BuildSymmetric | find_route.py:168-169 | every list entry `x -> (y, w)` has its reverse `y -> (x, w)`, so the map is undirected |
| Graph.BuildRetainsAll | find_route.py:166-169 | the list of `x` has one entry per endpoint occurrence of `x` among the lines, so parallel edges and self-loops (twice) are kept |
| Graph.BuildExtends | find_route.py:166-169 | reading further lines only appends: each earlier list is a prefix of the later one |
| Graph.WalkExtend | find_route.py:130-133 | a walk extended by one list entry is a walk to the neighbour, and its summed distance grows by that entry's distance |
| Frontier.AddDistance | find_route.py:154 | a push for a location with no estimate (key infinity) ranks behind every finite key; adding a distance to a finite key raises it exactly when the distance is positive and lowers it exactly when it is negative |
| Frontier.EntryLessIrreflexive | find_route.py:121 | no frontier tuple compares below itself |
| Frontier.EntryLessTransitive | find_route.py:121 | the tuple order (key, then city, then path) is transitive |
| Frontier.EntryLessTrichotomy | find_route.py:121 | any two distinct frontier tuples are ordered one way or the other |
| Frontier.MinimumIsUnique | find_route.py:121 | the entry a pop hands out is determined by the frontier's contents alone, whatever the heap layout |
| Frontier.PopMin | find_route.py:121 | a pop (here and at line 144) returns a least entry under the tuple order and leaves exactly the other entries, one fewer in all |
| RouteSearch.Search | find_route.py:108-112 | a heuristic table that is present and non-empty (Python truthiness, `UsesHeuristic`) gives the outcome of the heuristic-ordered search; an absent or empty one gives that of the uniform-cost search, which differs in whether the destination pop is counted |
| RouteSearch.PushCostSuccessors | find_route.py:129-134 | the expansion appends `CostSuccessors` of the popped city's list (none when the city has no list) and counts one per push |
| RouteSearch.PushGreedySuccessors | find_route.py:151-156 | the expansion appends `GreedySuccessors` of the popped city's list (none when the city has no list) and counts one per push |
| RouteSearch.UninformedSearch | find_route.py:114-135 | the result satisfies `UniformCostOutcome`: a route is returned exactly when the destination is reachable, it is a walk from the origin, and with non-negative distances none is cheaper. Expanded is below the size of the reachable set after a route and equal to it after none. (The per-location facts behind these counts are loop-invariant facts: `Counts` keeps expanded equal to the size of the explored set, and `UniformExhausted` shows the explored set equals the reachable set at exhaustion.) Expanded is at most popped and at most generated + 1. Popped is at most generated after a route and exactly generated + 1 after none. Origin equal to destination gives `([origin], 0, 0, 0)` |
| RouteSearch.InformedSearch | find_route.py:137-157 | the result satisfies `GreedyOutcome`: the same route, reachability and expansion facts without optimality. Every pop is counted, so after a route expanded < popped <= generated + 1, and after none popped == generated + 1. Origin equal to destination gives `([origin], 1, 0, 0)` |
| SearchSpec.CostSuccessorsSpec | find_route.py:129-134 | an entry is pushed by a uniform-cost expansion exactly when some list entry leads outside the explored set, with key popped cost + distance and path extended by the neighbour |
| SearchSpec.GreedySuccessorsSpec | find_route.py:151-156 | an entry is pushed by a heuristic-ordered expansion exactly when some list entry leads outside the explored set, with key `estimate(neighbour) + distance` (infinity for a missing estimate) |
| SearchSpec.CostSuccessorsValid | find_route.py:129-133 | each pushed uniform-cost entry's path is a walk from the origin to its city, its key is that walk's summed distance, and its city is unexplored |
| SearchSpec.GreedySuccessorsValid | find_route.py:151-155 | each pushed heuristic-ordered entry's path is a walk from the origin to its city, keyed by its estimate plus the last distance, and its city is unexplored |
| SearchSpec.CostEntryExtends | find_route.py:131-133 | extending a uniform-cost entry by one list entry gives a uniform-cost entry |
| SearchSpec.UniformStart | find_route.py:115-119 | the seed `(0, origin, [origin])` with empty explored set and zero counters satisfies the loop invariant |
| SearchSpec.GreedyStart | find_route.py:138-142 | the seed `(h(origin), origin, [origin])` with empty explored set and zero counters satisfies the loop invariant |
| SearchSpec.UniformArrive | find_route.py:121-125 | popping the destination returns a route with the outcome above, uncounted in popped; with non-negative distances it is cheapest |
| SearchSpec.GreedyArrive | find_route.py:144-147 | popping the destination (counted) returns a route with the outcome above |
| SearchSpec.UniformStep | find_route.py:120-134 | a non-destination pop has a finite key and keeps the invariant; an expansion also strictly shrinks the set of unexplored locations |
| SearchSpec.GreedyStep | find_route.py:143-156 | a non-destination pop keeps the invariant; an expansion also strictly shrinks the set of unexplored locations |
| SearchSpec.UniformSettle | find_route.py:126-134 | expanding an unexplored city keeps the invariant with one more pop, one more expansion and one generation per push |
| SearchSpec.GreedySettle | find_route.py:148-156 | as `UniformSettle`, for the heuristic-ordered search |
| SearchSpec.UniformStale | find_route.py:121-127 | popping an entry of an explored city changes nothing but the pop count |
| SearchSpec.GreedyStale | find_route.py:144-149 | as `UniformStale`, for the heuristic-ordered search |
| SearchSpec.UniformExhausted | find_route.py:120-135 | an empty frontier yields `None` with the outcome above |
| SearchSpec.GreedyExhausted | find_route.py:143-157 | an empty frontier yields `None` with the outcome above |
| SearchSpec.CountsAtArrival | find_route.py:122-125 | when the destination is popped, expanded <= popped <= generated, and a destination popped first is the seed with every counter at zero |
| SearchSpec.CountsAfterSettle | find_route.py:122-134 | after an expansion the counters still match the state: one pop, one expansion, one generation per push, and every pop accounted for by the frontier |
| SearchSpec.CountsAfterStale | find_route.py:121-127 | discarding an entry of an explored city keeps the counters consistent with one more pop |
| SearchSpec.FromSeedAfterSettle | find_route.py:121-133 | every frontier entry is still the seed or a pushed entry |
| SearchSpec.CostEntriesAfterSettle | find_route.py:129-133 | the uniform-cost frontier and pushed entries stay walk-consistent with costs equal to their walks' sums |
| SearchSpec.GreedyEntriesAfterSettle | find_route.py:151-155 | the heuristic-ordered frontier and pushed entries stay walk-consistent with their greedy keys |
| SearchSpec.UniformExploredAfterSettle | find_route.py:126-133 | the explored set stays reachable and free of the destination, its settled costs stay lower bounds, and the frontier still covers its outgoing entries |
| SearchSpec.GreedyExploredAfterSettle | find_route.py:148-155 | the explored set stays reachable and free of the destination, and the frontier still covers its outgoing entries |
| SearchSpec.SettledOptimalAfterSettle | find_route.py:126-127 | settling a city at a cost no walk undercuts keeps every settled cost a lower bound |
| SearchSpec.FrontierBelowWalk | find_route.py:120-133 | with non-negative distances, while a city is unexplored the frontier holds an entry no dearer than any walk to it |
| SearchSpec.PoppedIsCheapest | find_route.py:121-127 | with non-negative distances, the least entry popped for an unexplored city carries the least cost of any walk to it |
| SearchSpec.CostCoveredAfterSettle | find_route.py:126-133 | after an expansion, every list entry of an explored city leading outside the explored set still has a frontier entry no dearer than the settled cost plus the distance |
| SearchSpec.CostCoveredAfterStale | find_route.py:121-126 | discarding an entry of an explored city keeps that coverage |
| SearchSpec.CoveredAfterSettle | find_route.py:148-155 | after an expansion, every list entry of an explored city leading outside the explored set still has a frontier entry |
| SearchSpec.CoveredAfterStale | find_route.py:144-148 | discarding an entry of an explored city keeps that coverage |
| SearchSpec.WalksStayInside | find_route.py:120-135 | a set holding the origin and closed under the lists holds the end of every walk from the origin |
| SearchSpec.ExploredIsReachableSet | find_route.py:120-135 | when the frontier runs empty, the explored set is exactly the reachable set and the destination is unreachable |
| SearchSpec.ExploredBelowReachable | find_route.py:122-125 | when the destination is popped, the explored set, all reachable and without the destination, is smaller than the reachable set |
| Graph.ReachableFromMembers | find_route.py:120-135 | `ReachableFrom(g, origin)` holds exactly the locations some walk from the origin ends at |
| Graph.WalkEndInLocations | find_route.py:127-133 | a walk from the origin ends in `Locations(g, origin)`: the origin, a key of the map or a location named in some list, a finite set that bounds the explored set |

## Behaviour of the code worth knowing

- **`nodes_generated` starts at 0** (`find_route.py:119`, `find_route.py:142`),
  and the origin is never counted as generated. So `generated >= expanded`
  fails: an edge `A - B`, origin `A` and an absent destination `Z` give
  generated 1 and expanded 2. The model proves `expanded <= generated + 1`.
- **The destination pop.** The uniform-cost search does not count it
  (`find_route.py:122-123`); the heuristic-ordered search does
  (`find_route.py:145`).
- **Key of a heuristic-ordered push** is the neighbour's estimate plus the
  last edge's distance (`find_route.py:154`), not the cost so far plus the
  estimate, so the search is greedy.
- **Tie-breaking.** `heapq` compares whole tuples, so ties between equal keys
  go to the smaller city name, then to the smaller path, not to insertion
  order.
- **Counters after a failed search.** Expanded equals the size of the set of
  locations reachable from the origin; popped equals generated + 1, because
  popped also counts the discarded stale entries.

## Left out

- File reading and parsing in `read_input` (`find_route.py:160-165`) and
  `read_heuristic` (`find_route.py:172-178`). These are I/O. The model takes
  parsed connections and a finite heuristic map.
- Printing in `find_route` (`find_route.py:188-205`). This includes the
  distance total at `find_route.py:192`, which adds every parallel edge
  between consecutive route cities. That is output formatting, not search.
- Command-line handling (`find_route.py:207-215`) and the commented-out
  earlier version (`find_route.py:1-98`), which is dead code.
- Floating-point arithmetic. Distances and estimates are exact `real`s and
  `float('inf')` is the key `Inf`. Rounding is not modelled. NaN and infinite input values are not modelled:
  `float` at `find_route.py:167` and `find_route.py:177` accepts `"nan"` and
  `"inf"`, but a distance here is a finite `real`, and a heuristic value is a
  finite `real` in the map (only a missing estimate becomes `Inf`).
- The array layout of `heapq`. The frontier is a sequence, and a pop scans it
  for the least entry under the same tuple order. `Frontier.MinimumIsUnique`
  shows that the popped entry does not depend on the layout.
- RouteSearch.UninformedSearch: after a found route, popped is bounded
  (`expanded <= popped <= generated`) but not given exactly. Its value depends
  on how many stale entries were discarded on the way.
- RouteSearch.InformedSearch: no optimality is stated. Keys ignore the cost
  accumulated so far, so the route returned need not be the cheapest.
- RouteSearch.InformedSearch: its outcome `GreedyOutcome` does not mention the
  heuristic table, so it holds for every table alike. What the table does is
  proved only inside the search: `GreedyStart` (seed key `h(origin)`),
  `GreedySuccessorsSpec` (push key `h(neighbour) + distance`, infinity for a
  missing estimate) and the invariant `GreedyInv` that carries those keys.
- Constructing a `RouteFinder` only stores its two arguments. It is the
  datatype constructor `RouteSearch.RouteFinder`.
