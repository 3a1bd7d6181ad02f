/**
 The current flight network, lib/model/graph/graph.rb: a hash from airport
 code to its row of one-way routes (destination -> kilometres, a missing key
 meaning no route), the connection index for the map URL, and running
 statistics that additions update incrementally and deletions correct,
 rescanning every route when a deleted route touched an extreme flight.
 */
module NetworkGraph {
  import opened Distance
  import opened Hashes
  import opened FlightStats
  import Connection
  import Dijkstra

  /** One airport's outgoing routes: destination -> kilometres, in insertion order. */
  type Row = Hash<nat>

  datatype Graph = Graph(nodes: Hash<Row>, connectors: Connection.Connection, stats: Stats) {

    ghost predicate Valid() {
      ValidNodes(nodes) && connectors.Valid()
    }
  }

  /** Hashes well formed, and every route leads to an airport of the graph. */
  ghost predicate ValidNodes(nodes: Hash<Row>) {
    && nodes.Valid()
    && (forall u :: u in nodes.vals ==> nodes.vals[u].Valid())
    && (forall u, v :: u in nodes.vals && v in nodes.vals[u].vals ==> v in nodes.vals)
  }

  /** `Graph.new`. */
  function Empty(): (g: Graph)
    ensures g.Valid() && g.nodes.vals == map[]
  {
    Graph(Hashes.Empty(), Connection.Empty(), Initial())
  }

  /** The stored route `u -> v`, infinity when there is none. */
  function Length(g: Graph, u: string, v: string): Dist {
    if u in g.nodes.vals && v in g.nodes.vals[u].vals then Fin(g.nodes.vals[u].vals[v]) else Inf
  }

  /**
   `get_route`: -1 (`Unknown`) when either airport is missing, 0 from an
   airport to itself, otherwise the stored route or infinity.
   */
  function GetRoute(g: Graph, a: string, b: string): (r: Lookup)
    ensures r.Unknown? <==> a !in g.nodes.vals || b !in g.nodes.vals
    ensures r.Known? && a == b ==> r.d == Fin(0)
    ensures r.Known? && a != b ==> (r.d.Fin? <==> b in g.nodes.vals[a].vals)
    ensures r.Known? && a != b && r.d.Fin? ==> r.d.n == g.nodes.vals[a].vals[b]
  {
    if a !in g.nodes.vals || b !in g.nodes.vals then Unknown
    else if a == b then Known(Fin(0))
    else Known(Length(g, a, b))
  }

  /**
   `add_node`: the airport gets an empty row. On an existing airport this
   discards its routes (the statistics are not corrected).
   */
  function AddNode(g: Graph, p: string): (r: Graph)
    requires g.Valid()
    ensures r.Valid()
    ensures forall x :: x in r.nodes.vals <==> x in g.nodes.vals || x == p
    ensures forall u, v :: Length(r, u, v) == if u == p then Inf else Length(g, u, v)
    ensures r.connectors == g.connectors && r.stats == g.stats
  {
    g.(nodes := Put(g.nodes, p, Hashes.Empty()))
  }

  /** `add_if_non_existing`. */
  function AddIfNonExisting(g: Graph, p: string): (r: Graph)
    requires g.Valid()
    ensures r.Valid()
    ensures forall x :: x in r.nodes.vals <==> x in g.nodes.vals || x == p
    ensures forall u, v :: Length(r, u, v) == Length(g, u, v)
    ensures r.connectors == g.connectors && r.stats == g.stats
  {
    if p in g.nodes.vals then g else AddNode(g, p)
  }

  /**
   `add_route`: creates missing airports, stores the one-way route `a -> b`,
   records the pair in the connection index and accounts the flight.
   */
  function AddRoute(g: Graph, a: string, b: string, d: nat): (r: Graph)
    requires g.Valid()
    ensures r.Valid()
    ensures forall x :: x in r.nodes.vals <==> x in g.nodes.vals || x == a || x == b
    ensures forall u, v :: Length(r, u, v) == if u == a && v == b then Fin(d) else Length(g, u, v)
    ensures r.stats == MakeStatistics(g.stats, a, b, d)
    ensures r.connectors == Connection.AddConnection(g.connectors, a, b)
  {
    var g1 := AddIfNonExisting(AddIfNonExisting(g, a), b);
    assert g1.connectors == g.connectors && g1.stats == g.stats;
    assert forall u, v :: Length(g1, u, v) == Length(g, u, v);
    var g2 := StoreRoute(g1, a, b, d);
    var r := g2.(connectors := Connection.AddConnection(g.connectors, a, b), stats := MakeStatistics(g.stats, a, b, d));
    assert forall u, v :: Length(r, u, v) == Length(g2, u, v);
    r
  }

  /** `@node_hash[a][b] = d` for two existing airports. */
  function StoreRoute(g: Graph, a: string, b: string, d: nat): (r: Graph)
    requires g.Valid() && a in g.nodes.vals && b in g.nodes.vals
    ensures r.Valid() && r.nodes.vals.Keys == g.nodes.vals.Keys
    ensures forall u, v :: Length(r, u, v) == if u == a && v == b then Fin(d) else Length(g, u, v)
    ensures r.connectors == g.connectors && r.stats == g.stats
  {
    g.(nodes := Put(g.nodes, a, Put(g.nodes.vals[a], b, d)))
  }

  /** `add_connection`: the route in both directions, each accounted as one flight. */
  function AddConnection(g: Graph, a: string, b: string, d: nat): (r: Graph)
    requires g.Valid()
    ensures r.Valid()
    ensures forall x :: x in r.nodes.vals <==> x in g.nodes.vals || x == a || x == b
    ensures GetRoute(r, a, b) == GetRoute(r, b, a) == Known(if a == b then Fin(0) else Fin(d))
    ensures forall u, v :: !Connection.Pair(u, v, a, b) ==> Length(r, u, v) == Length(g, u, v)
    ensures r.stats.total == g.stats.total + 2 * d && r.stats.flights == g.stats.flights + 2
  {
    var g1 := AddRoute(g, a, b, d);
    var r := AddRoute(g1, b, a, d);
    assert a in r.nodes.vals && b in r.nodes.vals;
    assert Length(r, a, b) == Fin(d) by {
      if a != b {
        assert Length(r, a, b) == Length(g1, a, b);
      }
    }
    r
  }

  /** `route_does_not_exist`: an airport is missing or no route is stored. */
  predicate RouteDoesNotExist(g: Graph, a: string, b: string) {
    a !in g.nodes.vals || b !in g.nodes.vals || b !in g.nodes.vals[a].vals
  }

  /** The statistic rescans scan every stored route, airports and rows in insertion order. */
  function RowRoutes(from: string, row: Row): (rs: seq<Record>)
    requires row.Valid()
    ensures |rs| == |row.keys|
    ensures forall i :: 0 <= i < |rs| ==> rs[i] == Record(from, row.keys[i], row.vals[row.keys[i]])
  {
    seq(|row.keys|, i requires 0 <= i < |row.keys| => Record(from, row.keys[i], row.vals[row.keys[i]]))
  }

  function RoutesOver(ks: seq<string>, rows: map<string, Row>): seq<Record>
    requires forall k :: k in ks ==> k in rows && rows[k].Valid()
  {
    if |ks| == 0 then [] else RowRoutes(ks[0], rows[ks[0]]) + RoutesOver(ks[1..], rows)
  }

  function Routes(g: Graph): seq<Record>
    requires g.Valid()
  {
    RoutesOver(g.nodes.keys, g.nodes.vals)
  }

  /** `recalculate_shortest_flight`: the first strictly shortest route, from infinity and `["", ""]`. */
  function RecalculateShortest(g: Graph): (r: Graph)
    requires g.Valid()
    ensures r.nodes == g.nodes && r.connectors == g.connectors
    ensures r.stats == g.stats.(shortest := ScanShortest(Flight(Inf, ["", ""]), Routes(g)))
  {
    g.(stats := g.stats.(shortest := ScanShortest(Flight(Inf, ["", ""]), Routes(g))))
  }

  /** `recalculate_longest_flight`: the first strictly longest route, from 0 and `["", ""]`. */
  function RecalculateLongest(g: Graph): (r: Graph)
    requires g.Valid()
    ensures r.nodes == g.nodes && r.connectors == g.connectors
    ensures r.stats == g.stats.(longest := ScanLongest(Flight(Fin(0), ["", ""]), Routes(g)))
  {
    g.(stats := g.stats.(longest := ScanLongest(Flight(Fin(0), ["", ""]), Routes(g))))
  }

  /** `check_extreme_flights`: rescan an extreme whose ports include `n`. */
  function CheckExtremeFlights(g: Graph, n: string): (r: Graph)
    requires g.Valid()
    ensures r.Valid() && r.nodes == g.nodes && r.connectors == g.connectors
    ensures r.stats.total == g.stats.total && r.stats.flights == g.stats.flights
    ensures n !in g.stats.shortest.ports ==> r.stats.shortest == g.stats.shortest
    ensures n !in g.stats.longest.ports ==> r.stats.longest == g.stats.longest
  {
    var g1 := if n in g.stats.shortest.ports then RecalculateShortest(g) else g;
    if n in g1.stats.longest.ports then RecalculateLongest(g1) else g1
  }

  /**
   `delete_route`: nothing happens unless the route is stored. Otherwise its
   length leaves the total, the flight count drops by one, the key is removed,
   the pair leaves the connection index when `b` has no route back to `a`, and
   extremes starting at `a` are rescanned.
   */
  function DeleteRoute(g: Graph, a: string, b: string): (r: Graph)
    requires g.Valid()
    ensures r.Valid()
    ensures r.nodes.vals.Keys == g.nodes.vals.Keys
    ensures forall u, v :: Length(r, u, v) == if u == a && v == b then Inf else Length(g, u, v)
    ensures RouteDoesNotExist(g, a, b) ==> r == g
    ensures !RouteDoesNotExist(g, a, b) ==>
              && r.stats.total == g.stats.total - g.nodes.vals[a].vals[b]
              && r.stats.flights == g.stats.flights - 1
              && r.connectors == (if Length(g, b, a).Fin? && !(a == b) then g.connectors
                                  else Connection.RemoveConnection(g.connectors, a, b))
  {
    if RouteDoesNotExist(g, a, b) then g
    else CheckExtremeFlights(DropRoute(g, a, b), a)
  }

  /** `delete_route` before its rescan: the key, the length, one flight and possibly the pair go. */
  function DropRoute(g: Graph, a: string, b: string): (r: Graph)
    requires g.Valid() && !RouteDoesNotExist(g, a, b)
    ensures r.Valid()
    ensures r.nodes.vals.Keys == g.nodes.vals.Keys
    ensures forall u, v :: Length(r, u, v) == if u == a && v == b then Inf else Length(g, u, v)
    ensures r.stats == g.stats.(total := g.stats.total - g.nodes.vals[a].vals[b], flights := g.stats.flights - 1)
    ensures r.connectors == (if Length(g, b, a).Fin? && !(a == b) then g.connectors
                             else Connection.RemoveConnection(g.connectors, a, b))
  {
    var h := DropKey(g, a, b);
    var connectors := if a in h.nodes.vals[b].vals then g.connectors
                      else Connection.RemoveConnection(g.connectors, a, b);
    var stats := g.stats.(total := g.stats.total - g.nodes.vals[a].vals[b], flights := g.stats.flights - 1);
    var r := Graph(h.nodes, connectors, stats);
    assert forall u, v :: Length(r, u, v) == Length(h, u, v);
    r
  }

  /** `@node_hash[a].delete(b)`. */
  function DropKey(g: Graph, a: string, b: string): (r: Graph)
    requires g.Valid() && a in g.nodes.vals
    ensures r.Valid() && r.nodes.vals.Keys == g.nodes.vals.Keys
    ensures forall u, v :: Length(r, u, v) == if u == a && v == b then Inf else Length(g, u, v)
    ensures r.connectors == g.connectors && r.stats == g.stats
  {
    g.(nodes := Put(g.nodes, a, Delete(g.nodes.vals[a], b)))
  }

  /** `delete_connection`: both directions. */
  function DeleteConnection(g: Graph, a: string, b: string): (r: Graph)
    requires g.Valid()
    ensures r.Valid()
    ensures r.nodes.vals.Keys == g.nodes.vals.Keys
    ensures forall u, v :: Length(r, u, v) == if Connection.Pair(u, v, a, b) then Inf else Length(g, u, v)
  {
    DeleteRoute(DeleteRoute(g, a, b), b, a)
  }

  /**
   `delete_routes_from`: every route leaving `s`, in row order. The row is
   read once before the deletions start.
   */
  function DeleteRoutesFrom(g: Graph, s: string): (r: Graph)
    requires g.Valid() && s in g.nodes.vals
    ensures r.Valid() && r.nodes.vals.Keys == g.nodes.vals.Keys
    ensures forall u, v :: Length(r, u, v) == if u == s then Inf else Length(g, u, v)
  {
    var r := DeleteEach(g, s, g.nodes.vals[s].keys);
    assert forall v :: Length(r, s, v) == Inf by {
      forall v ensures Length(r, s, v) == Inf {
        if v !in g.nodes.vals[s].keys {
          assert v !in g.nodes.vals[s].vals;
        }
      }
    }
    r
  }

  /** `delete_route(s, d)` for each `d` of `ds` in order. */
  function DeleteEach(g: Graph, s: string, ds: seq<string>): (r: Graph)
    requires g.Valid()
    ensures r.Valid() && r.nodes.vals.Keys == g.nodes.vals.Keys
    ensures forall u, v :: Length(r, u, v) == if u == s && v in ds then Inf else Length(g, u, v)
    decreases |ds|
  {
    if |ds| == 0 then g else DeleteEach(DeleteRoute(g, s, ds[0]), s, ds[1..])
  }

  /**
   The loop of `delete_node` over every airport (in order) whose row has a
   route to `n`: each such route is deleted.
   */
  function DeleteIncoming(g: Graph, n: string, sources: seq<string>): (r: Graph)
    requires g.Valid()
    ensures r.Valid() && r.nodes.vals.Keys == g.nodes.vals.Keys
    ensures forall u, v :: Length(r, u, v) == if v == n && u in sources then Inf else Length(g, u, v)
    decreases |sources|
  {
    if |sources| == 0 then g
    else
      var u := sources[0];
      var g1 := if u in g.nodes.vals && n in g.nodes.vals[u].vals then DeleteRoute(g, u, n) else g;
      DeleteIncoming(g1, n, sources[1..])
  }

  /**
   The loops of `delete_node` over `n`'s outgoing and incoming routes: every
   route touching `n` is gone afterwards, and nothing else changes.
   */
  function DeleteRoutesTouching(g: Graph, n: string): (r: Graph)
    requires g.Valid() && n in g.nodes.vals
    ensures r.Valid() && r.nodes.vals.Keys == g.nodes.vals.Keys
    ensures forall u, v :: Length(r, u, v) == if u == n || v == n then Inf else Length(g, u, v)
  {
    var g1 := DeleteRoutesFrom(g, n);
    var g2 := DeleteIncoming(g1, n, g1.nodes.keys);
    assert forall u, v :: Length(g2, u, v) == if u == n || v == n then Inf else Length(g, u, v) by {
      forall u, v ensures Length(g2, u, v) == if u == n || v == n then Inf else Length(g, u, v) {
        if v == n && u in g1.nodes.vals {
          assert u in g1.nodes.keys;
        }
      }
    }
    g2
  }

  /** `@node_hash.delete(n)` once no route touches `n`. */
  function RemoveIsolated(g: Graph, n: string): (r: Graph)
    requires g.Valid()
    requires forall u, v :: Length(g, u, v).Fin? ==> u != n && v != n
    ensures r.Valid() && r.nodes.vals.Keys == g.nodes.vals.Keys - {n}
    ensures forall u, v :: Length(r, u, v) == Length(g, u, v)
    ensures r.connectors == g.connectors && r.stats == g.stats
  {
    assert forall u, v :: u in g.nodes.vals && v in g.nodes.vals[u].vals ==> Length(g, u, v).Fin?;
    g.(nodes := Delete(g.nodes, n))
  }

  /**
   `delete_node`: an unknown airport changes nothing. Otherwise its outgoing
   and then its incoming routes are deleted (with all their bookkeeping), the
   airport is removed, and extremes touching it are rescanned.
   */
  function DeleteNode(g: Graph, n: string): (r: Graph)
    requires g.Valid()
    ensures r.Valid()
    ensures n !in g.nodes.vals ==> r == g
    ensures r.nodes.vals.Keys == g.nodes.vals.Keys - {n}
    ensures forall u, v :: Length(r, u, v) == if u == n || v == n then Inf else Length(g, u, v)
  {
    if n !in g.nodes.vals then g
    else CheckExtremeFlights(RemoveIsolated(DeleteRoutesTouching(g, n), n), n)
  }

  /** After `delete_node(n)` no remaining row has a route to `n`. */
  lemma DeleteNodeLeavesNoRouteTo(g: Graph, n: string)
    requires g.Valid()
    ensures forall u :: u in DeleteNode(g, n).nodes.vals ==> n !in DeleteNode(g, n).nodes.vals[u].vals
  {
    var r := DeleteNode(g, n);
    forall u | u in r.nodes.vals
      ensures n !in r.nodes.vals[u].vals
    {
      assert Length(r, u, n) == Inf;
    }
  }

  /** `get_average_flight`: real division; with no flights Ruby answers NaN, which is left out. */
  function AverageFlight(g: Graph): (r: real)
    requires g.stats.flights > 0
    ensures r * (g.stats.flights as real) == g.stats.total as real
  {
    (g.stats.total as real) / (g.stats.flights as real)
  }

  /** A row as the shortest-path search reads it: every stored length is finite. */
  function FiniteRow(row: Row): (r: Hash<Dist>)
    requires row.Valid()
    ensures r.Valid() && r.keys == row.keys
    ensures forall v :: (v in r.vals <==> v in row.vals) && (v in row.vals ==> r.vals[v] == Fin(row.vals[v]))
  {
    Hash(row.keys, map v | v in row.vals :: Fin(row.vals[v]))
  }

  /** The hash `dijkstra` is handed: the same airports and routes, in the same order. */
  function AsAdjacency(g: Graph): (adj: Dijkstra.Adjacency)
    requires g.Valid()
    ensures Dijkstra.ValidAdjacency(adj) && adj.keys == g.nodes.keys && adj.vals.Keys == g.nodes.vals.Keys
    ensures forall u, v :: u in adj.vals ==> Dijkstra.Weight(adj, u, v) == Length(g, u, v)
  {
    Hash(g.nodes.keys, map u | u in g.nodes.vals :: FiniteRow(g.nodes.vals[u]))
  }

  /** The `dist` and `prev` hashes that `evaluate_dijkstra` stores per source. */
  datatype Paths = Paths(dist: map<string, nat>, prev: map<string, string>)

  /** `p` is what the shortest-path search guarantees for `source`. */
  ghost predicate Solves(adj: Dijkstra.Adjacency, source: string, p: Paths) {
    && p.dist.Keys == adj.vals.Keys
    && source in p.dist && p.dist[source] == 0 && source !in p.prev
    && (forall v, w :: Dijkstra.IsPath(adj, w, source, v) ==> p.dist[v] <= Dijkstra.Cost(adj, w))
    && Dijkstra.Achieved(adj, source, p.dist)
    && (forall v :: v in p.prev ==> (v in p.dist && p.prev[v] in adj.vals && Dijkstra.Weight(adj, p.prev[v], v).Fin?
                                      && p.dist[v] == p.dist[p.prev[v]] + Dijkstra.Weight(adj, p.prev[v], v).n))
    && (forall v :: v in p.dist ==> Dijkstra.ChainReaches(p.prev, v, source))
  }

  /**
   `evaluate_dijkstra`: the search from every airport. Every airport must be
   reachable from every airport, or the search fails in the Ruby.
   */
  method EvaluateDijkstra(g: Graph) returns (shortPaths: map<string, Paths>)
    requires g.Valid()
    requires forall u :: u in g.nodes.vals ==> Dijkstra.AllReachable(AsAdjacency(g), u)
    ensures shortPaths.Keys == g.nodes.vals.Keys
    ensures forall u :: u in shortPaths ==> Solves(AsAdjacency(g), u, shortPaths[u])
  {
    shortPaths := SolveAll(AsAdjacency(g), g.nodes.keys);
  }

  /** Every stored pair solves the search from its key. */
  ghost predicate SolvesEach(adj: Dijkstra.Adjacency, m: map<string, Paths>) {
    forall u :: u in m ==> Solves(adj, u, m[u])
  }

  lemma SolvesEachPut(adj: Dijkstra.Adjacency, m: map<string, Paths>, u: string, p: Paths)
    requires SolvesEach(adj, m) && Solves(adj, u, p)
    ensures SolvesEach(adj, m[u := p])
  {
  }

  /** One search of `evaluate_dijkstra`: `dijkstra` from `source`, kept as a pair. */
  method SolveFrom(adj: Dijkstra.Adjacency, source: string) returns (p: Paths)
    requires Dijkstra.ValidAdjacency(adj) && source in adj.vals && Dijkstra.AllReachable(adj, source)
    ensures Solves(adj, source, p)
  {
    var dist, prev := Dijkstra.Dijkstra(source, adj);
    p := Paths(dist, prev);
  }

  /**
   The loop of `evaluate_dijkstra` over the airports `ks`, in order; it is
   written as recursion on the prefix already handled.
   */
  method SolveAll(adj: Dijkstra.Adjacency, ks: seq<string>) returns (shortPaths: map<string, Paths>)
    requires Dijkstra.ValidAdjacency(adj)
    requires forall i :: 0 <= i < |ks| ==> ks[i] in adj.vals && Dijkstra.AllReachable(adj, ks[i])
    ensures forall u :: u in shortPaths <==> u in ks
    ensures SolvesEach(adj, shortPaths)
    decreases |ks|
  {
    if ks == [] {
      shortPaths := map[];
    } else {
      var u := ks[|ks| - 1];
      shortPaths := SolveAll(adj, ks[..|ks| - 1]);
      var p := SolveFrom(adj, u);
      SolvesEachPut(adj, shortPaths, u, p);
      shortPaths := shortPaths[u := p];
      LastAndRest(ks);
    }
  }

  lemma LastAndRest(ks: seq<string>)
    requires |ks| > 0
    ensures forall x :: x in ks <==> x in ks[..|ks| - 1] || x == ks[|ks| - 1]
  {
    assert ks == ks[..|ks| - 1] + [ks[|ks| - 1]];
  }

  /**
   `shortest_path_as_array`: the route read back from the stored `prev` of
   `a`; it is a walk from `a` to `b` and no walk is shorter.
   */
  method ShortestPathAsArray(g: Graph, shortPaths: map<string, Paths>, a: string, b: string)
    returns (path: seq<string>)
    requires g.Valid() && a in g.nodes.vals && b in g.nodes.vals
    requires a in shortPaths && Solves(AsAdjacency(g), a, shortPaths[a])
    ensures Dijkstra.IsPath(AsAdjacency(g), path, a, b)
    ensures forall w :: Dijkstra.IsPath(AsAdjacency(g), w, a, b) ==>
                          Dijkstra.Cost(AsAdjacency(g), path) <= Dijkstra.Cost(AsAdjacency(g), w)
    ensures a == b ==> path == [a]
  {
    var p := shortPaths[a];
    path := Dijkstra.CreateShortestPath(a, b, p.prev);
    Dijkstra.PrevChainCost(AsAdjacency(g), p.dist, p.prev, a, path);
  }

  /** `shortest_path_as_string`: the map URL of that route. */
  method ShortestPathAsString(g: Graph, shortPaths: map<string, Paths>, a: string, b: string)
    returns (url: string)
    requires g.Valid() && a in g.nodes.vals && b in g.nodes.vals
    requires a in shortPaths && Solves(AsAdjacency(g), a, shortPaths[a])
    ensures exists path :: && Dijkstra.IsPath(AsAdjacency(g), path, a, b)
                           && (forall w :: Dijkstra.IsPath(AsAdjacency(g), w, a, b) ==>
                                             Dijkstra.Cost(AsAdjacency(g), path) <= Dijkstra.Cost(AsAdjacency(g), w))
                           && url == Dijkstra.CreateUrlFromPath(path)
    ensures a == b ==> url == ""
  {
    var path := ShortestPathAsArray(g, shortPaths, a, b);
    url := Dijkstra.CreateUrlFromPath(path);
  }
}
