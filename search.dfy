/** The route finder: the dispatch between its two searches, the uniform-cost
    search and the heuristic-ordered search, with their path-finding counters. */
module RouteSearch {
  import opened Graph
  import opened Frontier
  import opened SearchSpec

  /** The finder holds the adjacency map and, optionally, a heuristic table;
      neither changes after construction. */
  datatype RouteFinder = RouteFinder(connections: Graph, heuristic: Option<Heuristic>)

  /** The truth value of the heuristic table: absent and empty are both false. */
  predicate UsesHeuristic(h: Option<Heuristic>)
  {
    h.Some? && h.value != map[]
  }

  /** `search`: the heuristic-ordered search when the table is truthy, the
      uniform-cost search otherwise. */
  method Search(rf: RouteFinder, origin: Location, destination: Location)
    returns (r: SearchResult)
    ensures UsesHeuristic(rf.heuristic) ==>
              GreedyOutcome(rf.connections, origin, destination, r)
    ensures !UsesHeuristic(rf.heuristic) ==>
              UniformCostOutcome(rf.connections, origin, destination, r)
  {
    if UsesHeuristic(rf.heuristic) {
      r := InformedSearch(rf.connections, rf.heuristic.value, origin, destination);
    } else {
      r := UninformedSearch(rf.connections, origin, destination);
    }
  }

  /** The expansion step of `uninformed_search`: when the popped city has a
      list, one push per neighbour outside the explored set, each counted. */
  method PushCostSuccessors(g: Graph, frontier: seq<Entry>, city: Location, explored: set<Location>,
                            cost: real, path: seq<Location>)
    returns (after: seq<Entry>, count: nat)
    ensures after == frontier + CostSuccessors(Neighbours(g, city), explored, cost, path)
    ensures count == |CostSuccessors(Neighbours(g, city), explored, cost, path)|
  {
    after, count := frontier, 0;
    if city in g {
      var neighbours := g[city];
      for i := 0 to |neighbours|
        invariant after == frontier + CostSuccessors(neighbours[..i], explored, cost, path)
        invariant count == |CostSuccessors(neighbours[..i], explored, cost, path)|
      {
        assert neighbours[..i + 1][..i] == neighbours[..i];
        var (neighbor, distance) := neighbours[i];
        if neighbor !in explored {
          var newCost := cost + distance;
          after := after + [Entry(Fin(newCost), neighbor, path + [neighbor])];
          count := count + 1;
        }
      }
      assert neighbours[..|neighbours|] == neighbours;
    } else {
      assert after == frontier + [];
    }
  }

  /** The expansion step of `informed_search`: when the popped city has a
      list, one push per neighbour outside the explored set, keyed by its
      estimate plus the distance, each counted. */
  method PushGreedySuccessors(g: Graph, frontier: seq<Entry>, city: Location, explored: set<Location>,
                            h: Heuristic, path: seq<Location>)
    returns (after: seq<Entry>, count: nat)
    ensures after == frontier + GreedySuccessors(Neighbours(g, city), explored, h, path)
    ensures count == |GreedySuccessors(Neighbours(g, city), explored, h, path)|
  {
    after, count := frontier, 0;
    if city in g {
      var neighbours := g[city];
      for i := 0 to |neighbours|
        invariant after == frontier + GreedySuccessors(neighbours[..i], explored, h, path)
        invariant count == |GreedySuccessors(neighbours[..i], explored, h, path)|
      {
        assert neighbours[..i + 1][..i] == neighbours[..i];
        var (neighbor, distance) := neighbours[i];
        if neighbor !in explored {
          var newCost := AddDistance(Estimate(h, neighbor), distance);
          after := after + [Entry(newCost, neighbor, path + [neighbor])];
          count := count + 1;
        }
      }
      assert neighbours[..|neighbours|] == neighbours;
    } else {
      assert after == frontier + [];
    }
  }

  /** `uninformed_search`: uniform-cost search with lazy deletion through the
      explored set. */
  method UninformedSearch(g: Graph, origin: Location, destination: Location)
    returns (r: SearchResult)
    ensures UniformCostOutcome(g, origin, destination, r)
  {
    var frontier := [Entry(Fin(0.0), origin, [origin])];
    var explored: set<Location> := {};
    var nodesPopped, nodesExpanded, nodesGenerated := 0, 0, 0;
    ghost var settled: map<Location, real> := map[];
    ghost var pushedCities: set<Location> := {};
    ghost var pushed: seq<Entry> := [];
    UniformStart(g, origin, destination);
    while frontier != []
      invariant UniformInv(g, origin, destination, frontier, explored, settled, pushed, pushedCities,
                           nodesPopped, nodesExpanded, nodesGenerated)
      decreases |Locations(g, origin) - explored|, |frontier|
    {
      ghost var before, popped0 := frontier, nodesPopped;
      var e, rest := PopMin(frontier);
      frontier := rest;
      var currentCity, path := e.city, e.path;
      if currentCity != destination {
        nodesPopped := nodesPopped + 1;
      }
      if currentCity == destination {
        r := SearchResult(Some(path), nodesPopped, nodesExpanded, nodesGenerated);
        UniformArrive(g, origin, destination, before, e, explored, settled, pushed, pushedCities,
                      nodesPopped, nodesExpanded, nodesGenerated, r);
        return;
      }
      UniformStep(g, origin, destination, before, e, rest, explored, settled, pushed, pushedCities,
                  popped0, nodesExpanded, nodesGenerated);
      var cost := e.key.value;
      if currentCity !in explored {
        ghost var added := CostSuccessors(Neighbours(g, currentCity), explored + {currentCity}, cost, path);
        explored := explored + {currentCity};
        settled := settled[currentCity := cost];
        nodesExpanded := nodesExpanded + 1;
        var count;
        frontier, count := PushCostSuccessors(g, frontier, currentCity, explored, cost, path);
        nodesGenerated := nodesGenerated + count;
        pushed := pushed + added;
        pushedCities := pushedCities + Cities(added);
      }
    }
    r := SearchResult(None, nodesPopped, nodesExpanded, nodesGenerated);
    UniformExhausted(g, origin, destination, explored, settled, pushed, pushedCities,
                     nodesPopped, nodesExpanded, nodesGenerated, r);
  }

  /** `informed_search`: the same loop, ordered by the estimate of each pushed
      city plus the distance of the edge that reached it. */
  method InformedSearch(g: Graph, h: Heuristic, origin: Location, destination: Location)
    returns (r: SearchResult)
    ensures GreedyOutcome(g, origin, destination, r)
  {
    var frontier := [Entry(Estimate(h, origin), origin, [origin])];
    var explored: set<Location> := {};
    var nodesPopped, nodesExpanded, nodesGenerated := 0, 0, 0;
    ghost var pushedCities: set<Location> := {};
    ghost var pushed: seq<Entry> := [];
    GreedyStart(g, h, origin, destination);
    while frontier != []
      invariant GreedyInv(g, h, origin, destination, frontier, explored, pushed, pushedCities,
                          nodesPopped, nodesExpanded, nodesGenerated)
      decreases |Locations(g, origin) - explored|, |frontier|
    {
      ghost var before, popped0 := frontier, nodesPopped;
      var e, rest := PopMin(frontier);
      frontier := rest;
      var currentCity, path := e.city, e.path;
      nodesPopped := nodesPopped + 1;
      if currentCity == destination {
        r := SearchResult(Some(path), nodesPopped, nodesExpanded, nodesGenerated);
        GreedyArrive(g, h, origin, destination, before, e, explored, pushed, pushedCities,
                     nodesPopped, nodesExpanded, nodesGenerated, r);
        return;
      }
      GreedyStep(g, h, origin, destination, before, e, rest, explored, pushed, pushedCities,
                 popped0, nodesExpanded, nodesGenerated);
      if currentCity !in explored {
        ghost var added := GreedySuccessors(Neighbours(g, currentCity), explored + {currentCity}, h, path);
        explored := explored + {currentCity};
        nodesExpanded := nodesExpanded + 1;
        var count;
        frontier, count := PushGreedySuccessors(g, frontier, currentCity, explored, h, path);
        nodesGenerated := nodesGenerated + count;
        pushed := pushed + added;
        pushedCities := pushedCities + Cities(added);
      }
    }
    r := SearchResult(None, nodesPopped, nodesExpanded, nodesGenerated);
    GreedyExhausted(g, h, origin, destination, explored, pushed, pushedCities,
                    nodesPopped, nodesExpanded, nodesGenerated, r);
  }
}
