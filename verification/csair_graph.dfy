/**
 The earlier flight network, lib/csair_lib/graph.rb: every connection is
 stored in both directions at once and accounted once in the statistics,
 a deleted direction keeps its key with the value infinity, and removing a
 city does not correct the statistics. Its `dijkstra` is the same algorithm
 as the shortest-path module, run on the graph's own hash.
 */
module CsairGraph {
  import opened Distance
  import opened Hashes
  import opened FlightStats
  import Connection
  import Dijkstra

  /** One airport's connections: destination -> length, infinity once a direction is deleted. */
  type Row = Hash<Dist>

  datatype Graph = Graph(nodes: Hash<Row>, connectors: Connection.Connection, stats: Stats) {

    ghost predicate Valid() {
      ValidNodes(nodes) && connectors.Valid()
    }
  }

  /** Hashes well formed, and every stored key is an airport of the graph. */
  ghost predicate ValidNodes(nodes: Hash<Row>) {
    && nodes.Valid()
    && (forall u :: u in nodes.vals ==> nodes.vals[u].Valid())
    && (forall u, v :: u in nodes.vals && v in nodes.vals[u].vals ==> v in nodes.vals)
  }

  /** `Graph.new`. */
  function Empty(): (g: Graph)
    ensures g.Valid() && g.nodes.vals == map[] && g.stats == Initial()
  {
    Graph(Hashes.Empty(), Connection.Empty(), Initial())
  }

  /** `@node_hash[u][v]`: the row's default is infinity. */
  function Read(g: Graph, u: string, v: string): Dist
    requires u in g.nodes.vals
  {
    if v in g.nodes.vals[u].vals then g.nodes.vals[u].vals[v] else Inf
  }

  /**
   `get_connection`: -1 (`Unknown`) when either airport is missing, 0 from an
   airport to itself, otherwise the stored length or infinity.
   */
  function GetConnection(g: Graph, a: string, b: string): (r: Lookup)
    ensures r.Unknown? <==> a !in g.nodes.vals || b !in g.nodes.vals
    ensures r.Known? && a == b ==> r.d == Fin(0)
    ensures r.Known? && a != b ==> r.d == Read(g, a, b)
  {
    if a !in g.nodes.vals || b !in g.nodes.vals then Unknown
    else if a == b then Known(Fin(0))
    else Known(Read(g, a, b))
  }

  /** `add_node`: a new, empty row (an existing airport loses its connections). */
  function AddNode(g: Graph, p: string): (r: Graph)
    requires g.Valid()
    ensures r.Valid()
    ensures forall x :: x in r.nodes.vals <==> x in g.nodes.vals || x == p
    ensures forall v :: Read(r, p, v) == Inf
    ensures forall u, v :: u in g.nodes.vals && u != p ==> Read(r, u, v) == Read(g, u, v)
    ensures r.connectors == g.connectors && r.stats == g.stats
  {
    g.(nodes := Put(g.nodes, p, Hashes.Empty()))
  }

  /** `add_if_non_existing`. */
  function AddIfNonExisting(g: Graph, p: string): (r: Graph)
    requires g.Valid()
    ensures r.Valid()
    ensures forall x :: x in r.nodes.vals <==> x in g.nodes.vals || x == p
    ensures forall u :: u in g.nodes.vals ==> r.nodes.vals[u] == g.nodes.vals[u]
    ensures p !in g.nodes.vals ==> r.nodes.vals[p].vals == map[]
    ensures r.connectors == g.connectors && r.stats == g.stats
  {
    if p in g.nodes.vals then g else AddNode(g, p)
  }

  /**
   `add_connection`: creates missing airports, stores the length in both
   directions (`b -> a` first, as Ruby's chained assignment does), records
   the pair and accounts one flight.
   */
  function AddConnection(g: Graph, a: string, b: string, d: nat): (r: Graph)
    requires g.Valid()
    ensures r.Valid()
    ensures forall x :: x in r.nodes.vals <==> x in g.nodes.vals || x == a || x == b
    ensures a in r.nodes.vals && b in r.nodes.vals && forall u :: u in g.nodes.vals ==> u in r.nodes.vals
    ensures Read(r, a, b) == Fin(d) && Read(r, b, a) == Fin(d)
    ensures GetConnection(r, a, b) == GetConnection(r, b, a) == Known(if a == b then Fin(0) else Fin(d))
    ensures forall u, v :: u in g.nodes.vals && !Connection.Pair(u, v, a, b) ==> Read(r, u, v) == Read(g, u, v)
    ensures r.stats == MakeStatistics(g.stats, a, b, d)
    ensures r.connectors == Connection.AddConnection(g.connectors, a, b)
  {
    var g2 := StoreBoth(Grow(g, a, b), a, b, Fin(d));
    var r := Graph(g2.nodes, Connection.AddConnection(g.connectors, a, b), MakeStatistics(g.stats, a, b, d));
    SameNodesRead(r, g2);
    r
  }

  /** Reading depends on the rows only. */
  lemma SameNodesRead(g: Graph, h: Graph)
    requires g.nodes == h.nodes
    ensures forall u, v :: u in g.nodes.vals ==> Read(g, u, v) == Read(h, u, v)
  {
  }

  /** `add_if_non_existing` of both airports. */
  function Grow(g: Graph, a: string, b: string): (r: Graph)
    requires g.Valid()
    ensures r.Valid() && forall x :: x in r.nodes.vals <==> x in g.nodes.vals || x == a || x == b
    ensures a in r.nodes.vals && b in r.nodes.vals
    ensures forall u, v :: u in g.nodes.vals ==> u in r.nodes.vals && Read(r, u, v) == Read(g, u, v)
    ensures r.connectors == g.connectors && r.stats == g.stats
  {
    AddIfNonExisting(AddIfNonExisting(g, a), b)
  }

  /** `@node_hash[a][b] = @node_hash[b][a] = x` for two existing airports. */
  function StoreBoth(g: Graph, a: string, b: string, x: Dist): (r: Graph)
    requires g.Valid() && a in g.nodes.vals && b in g.nodes.vals
    ensures r.Valid() && r.nodes.vals.Keys == g.nodes.vals.Keys
    ensures Read(r, a, b) == x && Read(r, b, a) == x
    ensures forall u, v :: u in g.nodes.vals && !Connection.Pair(u, v, a, b) ==> Read(r, u, v) == Read(g, u, v)
    ensures r.connectors == g.connectors && r.stats == g.stats
  {
    Store(Store(g, b, a, x), a, b, x)
  }

  /** `@node_hash[a][b] = x` for two existing airports. */
  function Store(g: Graph, a: string, b: string, x: Dist): (r: Graph)
    requires g.Valid() && a in g.nodes.vals && b in g.nodes.vals
    ensures r.Valid() && r.nodes.vals.Keys == g.nodes.vals.Keys
    ensures Read(r, a, b) == x && b in r.nodes.vals[a].vals
    ensures forall u, v :: u in g.nodes.vals && !(u == a && v == b) ==> Read(r, u, v) == Read(g, u, v)
    ensures r.connectors == g.connectors && r.stats == g.stats
  {
    g.(nodes := Put(g.nodes, a, Put(g.nodes.vals[a], b, x)))
  }

  /**
   `remove_city`: the airport's row goes and so does every key naming it;
   the statistics and the connection index are left as they were.
   */
  function RemoveCity(g: Graph, n: string): (r: Graph)
    requires g.Valid()
    ensures r.Valid()
    ensures r.nodes.vals.Keys == g.nodes.vals.Keys - {n}
    ensures forall u :: u in r.nodes.vals ==> n !in r.nodes.vals[u].vals
    ensures forall u, v :: u in r.nodes.vals && v != n ==> Read(r, u, v) == Read(g, u, v)
    ensures forall x :: GetConnection(r, n, x).Unknown? && GetConnection(r, x, n).Unknown?
    ensures r.stats == g.stats && r.connectors == g.connectors
    ensures n !in g.nodes.vals ==> r == g
  {
    if n !in g.nodes.vals then g
    else
      var rest := Hashes.Delete(g.nodes, n);
      g.(nodes := Hash(rest.keys, map u | u in rest.vals :: Hashes.Delete(rest.vals[u], n)))
  }

  /**
   `delete_direction`: nothing happens when an airport is missing. Otherwise
   `a -> b` reads infinity with its key kept, and once `b -> a` reads infinity
   too the index's `delete_connection` is called, which as written adds the
   pair's token (see `Connection.DeleteConnection`) rather than removing it.
   */
  function DeleteDirection(g: Graph, a: string, b: string): (r: Graph)
    requires g.Valid()
    ensures r.Valid()
    ensures a !in g.nodes.vals || b !in g.nodes.vals ==> r == g
    ensures r.nodes.vals.Keys == g.nodes.vals.Keys && r.stats == g.stats
    ensures a in g.nodes.vals && b in g.nodes.vals ==>
              && Read(r, a, b) == Inf && b in r.nodes.vals[a].vals
              && (forall t :: t in r.connectors.tokens <==>
                               t in g.connectors.tokens || (Read(r, b, a) == Inf && t == Connection.AlphabeticalOrder(a, b)))
    ensures forall u, v :: u in g.nodes.vals && !(u == a && v == b) ==> Read(r, u, v) == Read(g, u, v)
  {
    if a !in g.nodes.vals || b !in g.nodes.vals then g
    else
      var g1 := Store(g, a, b, Inf);
      g1.(connectors := if Read(g1, b, a) == Inf then Connection.DeleteConnection(g.connectors, a, b)
                        else g.connectors)
  }

  /**
   `delete_connection`: both directions, then the index's `delete_connection`
   once more. As written that call adds the pair's token, so afterwards the
   token is in the index whether or not the airports exist.
   */
  function DeleteConnection(g: Graph, a: string, b: string): (r: Graph)
    requires g.Valid()
    ensures r.Valid()
    ensures r.nodes.vals.Keys == g.nodes.vals.Keys && r.stats == g.stats
    ensures a in g.nodes.vals && b in g.nodes.vals ==> Read(r, a, b) == Inf && Read(r, b, a) == Inf
    ensures forall u, v :: u in g.nodes.vals && !Connection.Pair(u, v, a, b) ==> Read(r, u, v) == Read(g, u, v)
    ensures forall t :: t in r.connectors.tokens <==> t in g.connectors.tokens || t == Connection.AlphabeticalOrder(a, b)
  {
    var g1 := DeleteBoth(g, a, b);
    var r := Graph(g1.nodes, Connection.DeleteConnection(g1.connectors, a, b), g1.stats);
    SameNodesRead(r, g1);
    r
  }

  /** The two `delete_direction` calls of `delete_connection`: no token leaves the index, only the pair's can join. */
  function DeleteBoth(g: Graph, a: string, b: string): (r: Graph)
    requires g.Valid()
    ensures r.Valid()
    ensures r.nodes.vals.Keys == g.nodes.vals.Keys && r.stats == g.stats
    ensures forall u :: u in g.nodes.vals ==> u in r.nodes.vals
    ensures a in g.nodes.vals && b in g.nodes.vals ==> Read(r, a, b) == Inf && Read(r, b, a) == Inf
    ensures forall u, v :: u in g.nodes.vals && !Connection.Pair(u, v, a, b) ==> Read(r, u, v) == Read(g, u, v)
    ensures forall t :: t in g.connectors.tokens ==> t in r.connectors.tokens
    ensures forall t :: t in r.connectors.tokens ==> t in g.connectors.tokens || t == Connection.AlphabeticalOrder(a, b)
  {
    var g1 := DeleteDirection(g, a, b);
    Connection.TokenSymmetric(a, b);
    DeleteDirection(g1, b, a)
  }

  /**
   `dijkstra(source)`: the shortest-path search on the graph's own hash. A
   direction stored as infinity is no edge at all, so it never improves a
   distance.
   */
  method ShortestPaths(g: Graph, source: string) returns (dist: map<string, nat>, prev: map<string, string>)
    requires g.Valid() && source in g.nodes.vals && Dijkstra.AllReachable(g.nodes, source)
    ensures dist.Keys == g.nodes.vals.Keys
    ensures dist[source] == 0 && source !in prev
    ensures forall v, p :: Dijkstra.IsPath(g.nodes, p, source, v) ==> dist[v] <= Dijkstra.Cost(g.nodes, p)
    ensures Dijkstra.Achieved(g.nodes, source, dist)
    ensures forall v :: v in prev ==> (v in dist && prev[v] in g.nodes.vals && Read(g, prev[v], v).Fin?
                                       && dist[v] == dist[prev[v]] + Read(g, prev[v], v).n)
    ensures forall v :: v in dist && v != source ==> v in prev
    ensures forall v :: v in dist ==> Dijkstra.ChainReaches(prev, v, source)
  {
    AdjacencyOf(g);
    dist, prev := Dijkstra.Dijkstra(source, g.nodes);
  }

  /** The graph's hash is the search's adjacency as it stands, stored infinities included. */
  lemma AdjacencyOf(g: Graph)
    requires g.Valid()
    ensures Dijkstra.ValidAdjacency(g.nodes)
    ensures forall u, v :: u in g.nodes.vals ==> Dijkstra.Weight(g.nodes, u, v) == Read(g, u, v)
  {
  }

  /** After `delete_connection` no walk uses either direction of the pair. */
  lemma DeletedConnectionUnused(g: Graph, a: string, b: string, p: seq<string>)
    requires g.Valid() && a in g.nodes.vals && b in g.nodes.vals
    requires Dijkstra.Walkable(DeleteConnection(g, a, b).nodes, p)
    ensures forall i :: 0 <= i < |p| - 1 ==> !Connection.Pair(p[i], p[i + 1], a, b)
  {
    var r := DeleteConnection(g, a, b);
    assert Dijkstra.Weight(r.nodes, a, b) == Read(r, a, b) == Inf;
    assert Dijkstra.Weight(r.nodes, b, a) == Read(r, b, a) == Inf;
    NoWalkUsesInfinity(r.nodes, a, b, p);
  }

  /** A walk only takes finite directions, so it never steps between two airports stored as infinity. */
  lemma NoWalkUsesInfinity(adj: Dijkstra.Adjacency, a: string, b: string, p: seq<string>)
    requires a in adj.vals && b in adj.vals
    requires Dijkstra.Weight(adj, a, b) == Inf && Dijkstra.Weight(adj, b, a) == Inf
    requires Dijkstra.Walkable(adj, p)
    ensures forall i :: 0 <= i < |p| - 1 ==> !Connection.Pair(p[i], p[i + 1], a, b)
  {
  }

  /** The graph that adding the connections `rs` in order builds from an empty one. */
  function Build(rs: seq<Record>): (g: Graph)
    ensures g.Valid()
  {
    if |rs| == 0 then Empty()
    else
      var last := rs[|rs| - 1];
      AddConnection(Build(rs[..|rs| - 1]), last.from, last.to, last.distance)
  }

  /**
   Statistics count once per connection: after adding `rs`, they are the
   replay of `rs` alone (the total is their sum, the count is `|rs|`, the
   extremes are the first shortest and longest of them).
   */
  lemma {:induction false} BuildStats(rs: seq<Record>)
    ensures Build(rs).stats == Replay(Initial(), rs)
  {
    if |rs| > 0 {
      BuildStats(rs[..|rs| - 1]);
    }
  }

  /** The Ruby connection test: both directions read the stored length. */
  lemma AddConnectionExample()
    ensures var g := AddConnection(AddConnection(Empty(), "MEX", "CHI", 2131), "MEX", "SCL", 2123);
            GetConnection(g, "MEX", "CHI") == Known(Fin(2131)) && GetConnection(g, "CHI", "MEX") == Known(Fin(2131))
  {
    assert "CHI" != "SCL" && "MEX" != "CHI" by {
      assert "CHI"[0] != "SCL"[0] && "MEX"[0] != "CHI"[0];
    }
    var g1 := AddConnection(Empty(), "MEX", "CHI", 2131);
    assert "MEX" in g1.nodes.vals && "CHI" in g1.nodes.vals;
    assert !Connection.Pair("MEX", "CHI", "MEX", "SCL") && !Connection.Pair("CHI", "MEX", "MEX", "SCL");
    var g := AddConnection(g1, "MEX", "SCL", 2123);
    assert Read(g, "MEX", "CHI") == Fin(2131) && Read(g, "CHI", "MEX") == Fin(2131);
  }

  /** The Ruby removal test: a removed city is unknown afterwards. */
  lemma RemoveCityExample()
    ensures GetConnection(RemoveCity(AddConnection(Empty(), "ABC", "DEF", 10), "ABC"), "ABC", "DEF") == Unknown
  {
  }
}
