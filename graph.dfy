/** The road map the route finder searches: locations, the adjacency lists built
    from the parsed lines of the connections file, and walks over those lists. */
module Graph {

  /** A location is an opaque name. */
  type Location = string

  /** One parsed line `SOURCE DEST DISTANCE` of the connections file. */
  datatype Connection = Connection(source: Location, dest: Location, distance: real)

  /** Each location maps to its ordered list of (neighbour, distance) entries. */
  type Graph = map<Location, seq<(Location, real)>>

  /** The list stored for `x`, or the empty list when `x` has none yet. */
  function Neighbours(g: Graph, x: Location): seq<(Location, real)>
  {
    if x in g then g[x] else []
  }

  /** One iteration of the reading loop: the connection is appended to the
      source's list and then, reversed, to the destination's list. */
  function AddConnection(g: Graph, c: Connection): (r: Graph)
    ensures r.Keys == g.Keys + {c.source, c.dest}
    ensures c.source != c.dest ==>
              r[c.source] == Neighbours(g, c.source) + [(c.dest, c.distance)] &&
              r[c.dest] == Neighbours(g, c.dest) + [(c.source, c.distance)]
    ensures c.source == c.dest ==>
              r[c.source] == Neighbours(g, c.source) + [(c.dest, c.distance), (c.source, c.distance)]
    ensures forall x :: x in g && x != c.source && x != c.dest ==> r[x] == g[x]
  {
    var g' := g[c.source := Neighbours(g, c.source) + [(c.dest, c.distance)]];
    g'[c.dest := Neighbours(g', c.dest) + [(c.source, c.distance)]]
  }

  /** The adjacency map after reading the connections in order. */
  function Build(cs: seq<Connection>): Graph
  {
    if cs == [] then map[] else AddConnection(Build(cs[..|cs| - 1]), cs[|cs| - 1])
  }

  /** The loop of the reader over already-parsed connections. */
  method BuildGraph(cs: seq<Connection>) returns (g: Graph)
    ensures g == Build(cs)
  {
    g := map[];
    for i := 0 to |cs|
      invariant g == Build(cs[..i])
    {
      assert cs[..i + 1][..i] == cs[..i];
      var c := cs[i];
      g := g[c.source := Neighbours(g, c.source) + [(c.dest, c.distance)]];
      g := g[c.dest := Neighbours(g, c.dest) + [(c.source, c.distance)]];
    }
    assert cs[..|cs|] == cs;
  }

  /** Connection `c` joins `x` and `y` (in either direction) with distance `w`. */
  predicate Joins(c: Connection, x: Location, y: Location, w: real)
  {
    c.distance == w && ((c.source == x && c.dest == y) || (c.source == y && c.dest == x))
  }

  /** Connection `c` has `x` as an endpoint. */
  predicate Touches(c: Connection, x: Location)
  {
    c.source == x || c.dest == x
  }

  /** After one connection, `x` has a list when it had one or is an endpoint. */
  lemma AddConnectionKeys(g: Graph, c: Connection, x: Location)
    ensures x in AddConnection(g, c) <==> x in g || Touches(c, x)
  {
    assert x in AddConnection(g, c).Keys <==> x in g.Keys + {c.source, c.dest};
  }

  /** The locations that have a list are exactly the endpoints of the connections. */
  lemma {:induction false} BuildKeys(cs: seq<Connection>, x: Location)
    ensures x in Build(cs) <==> exists k :: 0 <= k < |cs| && Touches(cs[k], x)
  {
    if cs != [] {
      var init, c := cs[..|cs| - 1], cs[|cs| - 1];
      BuildKeys(init, x);
      AddConnectionKeys(Build(init), c, x);
      if x in Build(cs) {
        if x in Build(init) {
          var k :| 0 <= k < |init| && Touches(init[k], x);
          assert cs[k] == init[k];
        } else {
          assert Touches(c, x);
        }
      } else {
        forall k | 0 <= k < |cs|
          ensures !Touches(cs[k], x)
        {
          if k < |init| {
            assert cs[k] == init[k];
          }
        }
      }
    }
  }

  /** One connection adds `(y, w)` to the list of `x` exactly when it joins them. */
  lemma AddConnectionEntries(g: Graph, c: Connection, x: Location, y: Location, w: real)
    ensures (x in AddConnection(g, c) && (y, w) in AddConnection(g, c)[x]) <==>
            ((x in g && (y, w) in g[x]) || Joins(c, x, y, w))
  {
    var r := AddConnection(g, c);
    if x == c.source && x == c.dest {
      assert r[x] == Neighbours(g, x) + [(c.dest, c.distance), (c.source, c.distance)];
    } else if x == c.source {
      assert r[x] == Neighbours(g, x) + [(c.dest, c.distance)];
    } else if x == c.dest {
      assert r[x] == Neighbours(g, x) + [(c.source, c.distance)];
    }
  }

  /** `(y, w)` is in the list of `x` exactly when some connection joins `x` and `y`
      with distance `w`: both directions are inserted, and nothing else is. */
  lemma {:induction false} BuildEntries(cs: seq<Connection>, x: Location, y: Location, w: real)
    ensures (x in Build(cs) && (y, w) in Build(cs)[x]) <==>
            exists k :: 0 <= k < |cs| && Joins(cs[k], x, y, w)
  {
    if cs != [] {
      var init, c := cs[..|cs| - 1], cs[|cs| - 1];
      BuildEntries(init, x, y, w);
      AddConnectionEntries(Build(init), c, x, y, w);
      if x in Build(cs) && (y, w) in Build(cs)[x] {
        if x in Build(init) && (y, w) in Build(init)[x] {
          var k :| 0 <= k < |init| && Joins(init[k], x, y, w);
          assert cs[k] == init[k];
        } else {
          assert Joins(cs[|cs| - 1], x, y, w);
        }
      } else {
        forall k | 0 <= k < |cs|
          ensures !Joins(cs[k], x, y, w)
        {
          if k < |init| {
            assert cs[k] == init[k];
          }
        }
      }
    }
  }

  /** Every edge can be travelled both ways with the same distance. */
  lemma BuildSymmetric(cs: seq<Connection>, x: Location, y: Location, w: real)
    requires x in Build(cs) && (y, w) in Build(cs)[x]
    ensures y in Build(cs) && (x, w) in Build(cs)[y]
  {
    BuildEntries(cs, x, y, w);
    var k :| 0 <= k < |cs| && Joins(cs[k], x, y, w);
    assert Joins(cs[k], y, x, w);
    BuildEntries(cs, y, x, w);
  }

  /** How many entries the connections contribute to the list of `x`; a
      self-loop contributes two. */
  function Degree(cs: seq<Connection>, x: Location): nat
  {
    if cs == [] then 0
    else
      var c := cs[|cs| - 1];
      Degree(cs[..|cs| - 1], x) + (if c.source == x then 1 else 0) + (if c.dest == x then 1 else 0)
  }

  /** Parallel edges and self-loops are all retained: the list of `x` has one
      entry per endpoint occurrence of `x`. */
  lemma {:induction false} BuildRetainsAll(cs: seq<Connection>, x: Location)
    ensures |Neighbours(Build(cs), x)| == Degree(cs, x)
  {
    if cs != [] {
      BuildRetainsAll(cs[..|cs| - 1], x);
    }
  }

  /** Reading more connections only appends: each earlier list is a prefix of
      the later one. */
  lemma {:induction false} BuildExtends(cs: seq<Connection>, n: nat, x: Location)
    requires n <= |cs|
    ensures Neighbours(Build(cs[..n]), x) <= Neighbours(Build(cs), x)
    decreases |cs|
  {
    if n < |cs| {
      var init := cs[..|cs| - 1];
      assert init[..n] == cs[..n];
      BuildExtends(init, n, x);
    } else {
      assert cs[..n] == cs;
    }
  }

  /** The sum of a sequence of distances, adding the last one last. */
  function Sum(ds: seq<real>): real
  {
    if ds == [] then 0.0 else Sum(ds[..|ds| - 1]) + ds[|ds| - 1]
  }

  /** `path` follows the lists of `g`, taking the entry of distance `ds[i]` from
      `path[i]` to `path[i + 1]`; parallel edges make the distances a choice. */
  ghost predicate IsWalk(g: Graph, path: seq<Location>, ds: seq<real>)
  {
    |path| == |ds| + 1 &&
    forall i :: 0 <= i < |ds| ==> path[i] in g && (path[i + 1], ds[i]) in g[path[i]]
  }

  ghost predicate WalkBetween(g: Graph, from: Location, to: Location, path: seq<Location>, ds: seq<real>)
  {
    IsWalk(g, path, ds) && path[0] == from && path[|path| - 1] == to
  }

  /** `path` is a walk from `from` to `to` for some choice of distances. */
  ghost predicate IsRoute(g: Graph, from: Location, to: Location, path: seq<Location>)
  {
    exists ds :: WalkBetween(g, from, to, path, ds)
  }

  ghost predicate Reachable(g: Graph, from: Location, to: Location)
  {
    exists path, ds :: WalkBetween(g, from, to, path, ds)
  }

  /** Every location reachable from `origin`: a finite set, since each one is
      the origin or a list entry. */
  ghost function ReachableFrom(g: Graph, origin: Location): set<Location>
  {
    set v | v in Locations(g, origin) && Reachable(g, origin, v)
  }

  /** No walk from `from` to `to` costs less than `c`. */
  ghost predicate CostBound(g: Graph, from: Location, to: Location, c: real)
  {
    forall path, ds :: WalkBetween(g, from, to, path, ds) ==> c <= Sum(ds)
  }

  predicate NonNegative(g: Graph)
  {
    forall x, i :: x in g && 0 <= i < |g[x]| ==> g[x][i].1 >= 0.0
  }

  /** Every name the search can meet starting from `origin`. */
  ghost function Locations(g: Graph, origin: Location): set<Location>
  {
    {origin} + g.Keys + (set x, i | x in g && 0 <= i < |g[x]| :: g[x][i].0)
  }

  lemma TrivialWalk(g: Graph, origin: Location)
    ensures WalkBetween(g, origin, origin, [origin], []) && Sum([]) == 0.0
  {
  }

  /** A walk extended by one list entry is a walk, one distance longer. */
  lemma WalkExtend(g: Graph, origin: Location, v: Location, path: seq<Location>, ds: seq<real>, w: Location, d: real)
    requires WalkBetween(g, origin, v, path, ds)
    requires v in g && (w, d) in g[v]
    ensures WalkBetween(g, origin, w, path + [w], ds + [d])
    ensures Sum(ds + [d]) == Sum(ds) + d
  {
    assert (ds + [d])[..|ds|] == ds;
    var p, e := path + [w], ds + [d];
    forall i | 0 <= i < |e|
      ensures p[i] in g && (p[i + 1], e[i]) in g[p[i]]
    {
      if i < |ds| {
        assert p[i] == path[i] && p[i + 1] == path[i + 1] && e[i] == ds[i];
      }
    }
  }

  /** A walk of at least one step is a shorter walk followed by one list entry. */
  lemma WalkLastStep(g: Graph, origin: Location, t: Location, path: seq<Location>, ds: seq<real>)
    requires WalkBetween(g, origin, t, path, ds) && ds != []
    ensures var n := |ds|;
            WalkBetween(g, origin, path[n - 1], path[..n], ds[..n - 1]) &&
            path[n - 1] in g && (t, ds[n - 1]) in g[path[n - 1]] &&
            Sum(ds) == Sum(ds[..n - 1]) + ds[n - 1]
  {
    var n := |ds|;
    assert IsWalk(g, path[..n], ds[..n - 1]) by {
      forall i | 0 <= i < n - 1
        ensures path[..n][i] in g && (path[..n][i + 1], ds[..n - 1][i]) in g[path[..n][i]]
      {
        assert path[i] in g && (path[i + 1], ds[i]) in g[path[i]];
      }
    }
  }

  /** A walk from `origin` ends at a name the search can meet. */
  lemma WalkEndInLocations(g: Graph, origin: Location, t: Location, path: seq<Location>, ds: seq<real>)
    requires WalkBetween(g, origin, t, path, ds)
    ensures t in Locations(g, origin)
  {
    if ds != [] {
      var n := |ds|;
      var p := path[n - 1];
      assert p in g && (t, ds[n - 1]) in g[p];
      var i :| 0 <= i < |g[p]| && g[p][i] == (t, ds[n - 1]);
    }
  }

  /** The reachable set holds exactly the locations some walk from `origin`
      ends at. */
  lemma ReachableFromMembers(g: Graph, origin: Location)
    ensures forall v :: v in ReachableFrom(g, origin) <==> Reachable(g, origin, v)
  {
    forall v | Reachable(g, origin, v)
      ensures v in Locations(g, origin)
    {
      var path, ds :| WalkBetween(g, origin, v, path, ds);
      WalkEndInLocations(g, origin, v, path, ds);
    }
  }
}
