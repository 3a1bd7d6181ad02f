/**
 The invariant behind the running statistics of lib/model/graph/graph.rb:
 the total is the sum of the stored routes, the flight count is their
 number, no stored route is shorter than the shortest flight or longer than
 the longest, and an extreme flight names a route that is stored with that
 length. Building the network route by route and deleting routes or
 airports keeps it; re-adding a stored route or re-adding an airport does not.
 */
module NetworkStatistics {
  import opened Distance
  import opened FlightStats
  import opened NetworkGraph
  import Hashes
  import Connection

  function Kilometres(w: nat): int {
    w
  }

  function OneFlight(w: nat): int {
    1
  }

  /** The kilometres of one row's routes. */
  function RowTotal(row: Row): int {
    Hashes.Sum(row, Kilometres)
  }

  /** The number of one row's routes. */
  function RowCount(row: Row): int {
    Hashes.Sum(row, OneFlight)
  }

  /** The kilometres of every stored route. */
  function Total(g: Graph): int {
    Hashes.Sum(g.nodes, RowTotal)
  }

  /** The number of stored routes. */
  function Count(g: Graph): int {
    Hashes.Sum(g.nodes, RowCount)
  }

  /** `f` is stored as the route from its first to its second port. */
  predicate Names(g: Graph, f: Flight) {
    |f.ports| == 2 && Length(g, f.ports[0], f.ports[1]) == f.distance
  }

  /** No stored route is shorter, and a finite shortest flight is a stored route. */
  ghost predicate ShortestOK(g: Graph) {
    && (forall u, v :: Length(g, u, v).Fin? ==> AtMost(g.stats.shortest.distance, Length(g, u, v)))
    && (g.stats.shortest.distance.Fin? ==> Names(g, g.stats.shortest))
  }

  /** No stored route is longer, and a positive longest flight is a stored route. */
  ghost predicate LongestOK(g: Graph) {
    && g.stats.longest.distance.Fin?
    && (forall u, v :: Length(g, u, v).Fin? ==> AtMost(Length(g, u, v), g.stats.longest.distance))
    && (g.stats.longest.distance.n > 0 ==> Names(g, g.stats.longest))
  }

  /** The statistics agree with the stored routes. */
  ghost predicate Consistent(g: Graph) {
    && g.Valid()
    && g.stats.total == Total(g)
    && g.stats.flights == Count(g)
    && ShortestOK(g)
    && LongestOK(g)
  }

  /** A row's records are exactly its stored routes. */
  lemma RowRoutesMembership(from: string, row: Row)
    requires row.Valid()
    ensures forall r :: r in RowRoutes(from, row) <==>
                          r.from == from && r.to in row.vals && row.vals[r.to] == r.distance
  {
    var rs := RowRoutes(from, row);
    forall r: Record | r.from == from && r.to in row.vals && row.vals[r.to] == r.distance
      ensures r in rs
    {
      var i :| 0 <= i < |row.keys| && row.keys[i] == r.to;
      assert rs[i] == r;
    }
  }

  lemma {:induction false} RoutesOverMembership(ks: seq<string>, rows: map<string, Row>)
    requires forall k :: k in ks ==> k in rows && rows[k].Valid()
    ensures forall r :: r in RoutesOver(ks, rows) <==>
                          r.from in ks && r.to in rows[r.from].vals && rows[r.from].vals[r.to] == r.distance
  {
    if |ks| > 0 {
      RowRoutesMembership(ks[0], rows[ks[0]]);
      RoutesOverMembership(ks[1..], rows);
      assert forall k :: k in ks <==> k == ks[0] || k in ks[1..];
    }
  }

  /** The rescans visit exactly the stored routes. */
  lemma RoutesMembership(g: Graph)
    requires g.Valid()
    ensures forall r :: r in Routes(g) <==> Length(g, r.from, r.to) == Fin(r.distance)
  {
    RoutesOverMembership(g.nodes.keys, g.nodes.vals);
  }

  /** `recalculate_shortest_flight` always leaves a correct shortest flight. */
  lemma RescanShortestOK(g: Graph)
    requires g.Valid()
    ensures ShortestOK(RecalculateShortest(g))
  {
    var rs := Routes(g);
    var r := RecalculateShortest(g);
    RoutesMembership(g);
    ScanShortestFinds(["", ""], rs);
    forall u, v | Length(r, u, v).Fin?
      ensures AtMost(r.stats.shortest.distance, Length(r, u, v))
    {
      assert Length(r, u, v) == Length(g, u, v);
      assert Record(u, v, Length(g, u, v).n) in rs;
      var j :| 0 <= j < |rs| && rs[j] == Record(u, v, Length(g, u, v).n);
      var i :| FirstShortest(rs, i) && r.stats.shortest == Flight(Fin(rs[i].distance), [rs[i].from, rs[i].to]);
    }
    if r.stats.shortest.distance.Fin? {
      var i :| FirstShortest(rs, i) && r.stats.shortest == Flight(Fin(rs[i].distance), [rs[i].from, rs[i].to]);
      assert rs[i] in rs;
      assert Length(r, rs[i].from, rs[i].to) == Length(g, rs[i].from, rs[i].to);
    }
  }

  /** `recalculate_longest_flight` always leaves a correct longest flight. */
  lemma RescanLongestOK(g: Graph)
    requires g.Valid()
    ensures LongestOK(RecalculateLongest(g))
  {
    var rs := Routes(g);
    var r := RecalculateLongest(g);
    RoutesMembership(g);
    ScanLongestFinds(["", ""], rs);
    forall u, v | Length(r, u, v).Fin?
      ensures AtMost(Length(r, u, v), r.stats.longest.distance)
    {
      assert Length(r, u, v) == Length(g, u, v);
      assert Record(u, v, Length(g, u, v).n) in rs;
      var j :| 0 <= j < |rs| && rs[j] == Record(u, v, Length(g, u, v).n);
    }
    if r.stats.longest.distance.n > 0 {
      var i :| FirstLongest(rs, i) && rs[i].distance > 0
               && r.stats.longest == Flight(Fin(rs[i].distance), [rs[i].from, rs[i].to]);
      assert rs[i] in rs;
      assert Length(r, rs[i].from, rs[i].to) == Length(g, rs[i].from, rs[i].to);
    }
  }

  /** Both extremes depend only on the stored routes and on the extreme itself. */
  lemma ExtremesFrame(g: Graph, h: Graph)
    requires g.nodes == h.nodes
    ensures g.stats.shortest == h.stats.shortest ==> (ShortestOK(g) <==> ShortestOK(h))
    ensures g.stats.longest == h.stats.longest ==> (LongestOK(g) <==> LongestOK(h))
  {
    assert forall u, v :: Length(g, u, v) == Length(h, u, v);
  }

  /**
   `check_extreme_flights(n)` repairs any extreme whose ports include `n`; an
   extreme it leaves alone must already be correct.
   */
  lemma CheckExtremeFlightsOK(g: Graph, n: string)
    requires g.Valid()
    requires n !in g.stats.shortest.ports ==> ShortestOK(g)
    requires n !in g.stats.longest.ports ==> LongestOK(g)
    ensures ShortestOK(CheckExtremeFlights(g, n)) && LongestOK(CheckExtremeFlights(g, n))
  {
    var g1 := if n in g.stats.shortest.ports then RecalculateShortest(g) else g;
    if n in g.stats.shortest.ports {
      RescanShortestOK(g);
    }
    ExtremesFrame(g, g1);
    var r := CheckExtremeFlights(g, n);
    if n in g1.stats.longest.ports {
      RescanLongestOK(g1);
    }
    ExtremesFrame(g1, r);
  }

  /** A new graph has no routes, a total of 0 and 0 flights. */
  lemma EmptyConsistent()
    ensures Consistent(NetworkGraph.Empty())
  {
  }

  lemma {:induction false} SumByNothing(ks: seq<string>, m: map<string, nat>, f: nat -> int)
    requires m == map[]
    ensures Hashes.SumBy(ks, m, f) == 0
  {
    if |ks| > 0 {
      SumByNothing(ks[1..], m, f);
    }
  }

  /** A row without routes adds nothing to either sum. */
  lemma EmptyRowSums(row: Row)
    requires row.vals == map[]
    ensures RowTotal(row) == 0 && RowCount(row) == 0
  {
    SumByNothing(row.keys, row.vals, Kilometres);
    SumByNothing(row.keys, row.vals, OneFlight);
  }

  /** `add_node` of a new airport leaves both sums alone. */
  lemma AddNodeSums(g: Graph, p: string)
    requires g.Valid() && p !in g.nodes.vals
    ensures Total(AddNode(g, p)) == Total(g) && Count(AddNode(g, p)) == Count(g)
  {
    EmptyRowSums(Hashes.Empty());
    Hashes.SumPut(g.nodes, p, Hashes.Empty(), RowTotal);
    Hashes.SumPut(g.nodes, p, Hashes.Empty(), RowCount);
  }

  /** Adding a new airport keeps the statistics consistent. */
  lemma AddNodeConsistent(g: Graph, p: string)
    requires Consistent(g) && p !in g.nodes.vals
    ensures Consistent(AddNode(g, p))
  {
    AddNodeSums(g, p);
    var r := AddNode(g, p);
    assert forall u, v :: Length(r, u, v) == Length(g, u, v);
  }

  /**
   `add_node` on an airport that has routes drops them from the graph but not
   from the flight count, which then exceeds the routes stored.
   */
  lemma AddNodeExistingMiscounts(g: Graph, p: string)
    requires Consistent(g) && p in g.nodes.vals && g.nodes.vals[p].vals != map[]
    ensures AddNode(g, p).stats.flights == Count(AddNode(g, p)) + RowCount(g.nodes.vals[p])
    ensures RowCount(g.nodes.vals[p]) > 0
  {
    var row := g.nodes.vals[p];
    EmptyRowSums(Hashes.Empty());
    Hashes.SumPut(g.nodes, p, Hashes.Empty(), RowCount);
    var k :| k in row.vals;
    assert row.vals == (row.vals - {k})[k := row.vals[k]];
    Hashes.SumDelete(row, k, OneFlight);
    CountNonNegative(Hashes.Delete(row, k));
  }

  lemma {:induction false} SumByOneNonNegative(ks: seq<string>, m: map<string, nat>)
    ensures Hashes.SumBy(ks, m, OneFlight) >= 0
  {
    if |ks| > 0 {
      SumByOneNonNegative(ks[1..], m);
    }
  }

  lemma CountNonNegative(row: Row)
    ensures RowCount(row) >= 0
  {
    SumByOneNonNegative(row.keys, row.vals);
  }

  /** `add_if_non_existing` keeps the statistics consistent. */
  lemma AddIfNonExistingConsistent(g: Graph, p: string)
    requires Consistent(g)
    ensures Consistent(AddIfNonExisting(g, p))
  {
    if p !in g.nodes.vals {
      AddNodeConsistent(g, p);
    }
  }

  /**
   Storing a route trades the old length (if any) for the new one, and counts
   one more route only when none was stored.
   */
  lemma StoreRouteSums(g: Graph, a: string, b: string, d: nat)
    requires g.Valid() && a in g.nodes.vals && b in g.nodes.vals
    ensures var old_d := if b in g.nodes.vals[a].vals then g.nodes.vals[a].vals[b] else 0;
            Total(StoreRoute(g, a, b, d)) == Total(g) - old_d + d
    ensures Count(StoreRoute(g, a, b, d)) == Count(g) + (if b in g.nodes.vals[a].vals then 0 else 1)
  {
    var row := g.nodes.vals[a];
    Hashes.SumPut(row, b, d, Kilometres);
    Hashes.SumPut(row, b, d, OneFlight);
    Hashes.SumPut(g.nodes, a, Hashes.Put(row, b, d), RowTotal);
    Hashes.SumPut(g.nodes, a, Hashes.Put(row, b, d), RowCount);
  }

  /** Adding a route that is not stored yet keeps the statistics consistent. */
  lemma AddRouteConsistent(g: Graph, a: string, b: string, d: nat)
    requires Consistent(g) && Length(g, a, b) == Inf
    ensures Consistent(AddRoute(g, a, b, d))
  {
    AddRouteSums(g, a, b, d);
    AddRouteShortest(g, a, b, d);
    AddRouteLongest(g, a, b, d);
  }

  /** A new route adds its length and one flight to the sums. */
  lemma AddRouteSums(g: Graph, a: string, b: string, d: nat)
    requires Consistent(g) && Length(g, a, b) == Inf
    ensures Total(AddRoute(g, a, b, d)) == Total(g) + d && Count(AddRoute(g, a, b, d)) == Count(g) + 1
  {
    var g0 := AddIfNonExisting(g, a);
    AddIfNonExistingConsistent(g, a);
    var g1 := AddIfNonExisting(g0, b);
    AddIfNonExistingConsistent(g0, b);
    StoreRouteSums(g1, a, b, d);
    assert AddRoute(g, a, b, d).nodes == StoreRoute(g1, a, b, d).nodes;
  }

  /** The shortest flight stays correct when a route is added. */
  lemma AddRouteShortest(g: Graph, a: string, b: string, d: nat)
    requires Consistent(g) && Length(g, a, b) == Inf
    ensures ShortestOK(AddRoute(g, a, b, d))
  {
    var r := AddRoute(g, a, b, d);
    var f := g.stats.shortest;
    forall u, v | Length(r, u, v).Fin?
      ensures AtMost(r.stats.shortest.distance, Length(r, u, v))
    {
      if !(u == a && v == b) {
        assert Length(r, u, v) == Length(g, u, v);
      }
    }
    if !Below(Fin(d), f.distance) && f.distance.Fin? {
      assert Length(r, f.ports[0], f.ports[1]) == Length(g, f.ports[0], f.ports[1]);
    }
  }

  /** The longest flight stays correct when a route is added. */
  lemma AddRouteLongest(g: Graph, a: string, b: string, d: nat)
    requires Consistent(g) && Length(g, a, b) == Inf
    ensures LongestOK(AddRoute(g, a, b, d))
  {
    var r := AddRoute(g, a, b, d);
    var f := g.stats.longest;
    forall u, v | Length(r, u, v).Fin?
      ensures AtMost(Length(r, u, v), r.stats.longest.distance)
    {
      if !(u == a && v == b) {
        assert Length(r, u, v) == Length(g, u, v);
      }
    }
    if !Below(f.distance, Fin(d)) && f.distance.n > 0 {
      assert Length(r, f.ports[0], f.ports[1]) == Length(g, f.ports[0], f.ports[1]);
    }
  }

  /** Deleting a stored route takes its length and one flight out of the sums. */
  lemma DeleteRouteSums(g: Graph, a: string, b: string)
    requires g.Valid() && !RouteDoesNotExist(g, a, b)
    ensures Total(DeleteRoute(g, a, b)) == Total(g) - g.nodes.vals[a].vals[b]
    ensures Count(DeleteRoute(g, a, b)) == Count(g) - 1
  {
    var row := g.nodes.vals[a];
    Hashes.SumDelete(row, b, Kilometres);
    Hashes.SumDelete(row, b, OneFlight);
    Hashes.SumPut(g.nodes, a, Hashes.Delete(row, b), RowTotal);
    Hashes.SumPut(g.nodes, a, Hashes.Delete(row, b), RowCount);
  }

  /**
   Dropping the route `a -> b` leaves an extreme flight correct as long as
   its ports do not include `a`: it cannot be the dropped route.
   */
  lemma DroppedRouteExtremes(g: Graph, h: Graph, a: string, b: string)
    requires ShortestOK(g) && LongestOK(g)
    requires h.stats.shortest == g.stats.shortest && h.stats.longest == g.stats.longest
    requires forall u, v :: Length(h, u, v) == if u == a && v == b then Inf else Length(g, u, v)
    ensures a !in g.stats.shortest.ports ==> ShortestOK(h)
    ensures a !in g.stats.longest.ports ==> LongestOK(h)
  {
    var f := g.stats.shortest;
    if a !in f.ports && f.distance.Fin? {
      assert Length(h, f.ports[0], f.ports[1]) == Length(g, f.ports[0], f.ports[1]);
    }
    var l := g.stats.longest;
    if a !in l.ports && l.distance.n > 0 {
      assert Length(h, l.ports[0], l.ports[1]) == Length(g, l.ports[0], l.ports[1]);
    }
  }

  /** `delete_route` keeps the statistics consistent. */
  lemma DeleteRouteConsistent(g: Graph, a: string, b: string)
    requires Consistent(g)
    ensures Consistent(DeleteRoute(g, a, b))
  {
    if !RouteDoesNotExist(g, a, b) {
      DeleteRouteSums(g, a, b);
      var h := DropRoute(g, a, b);
      DroppedRouteExtremes(g, h, a, b);
      CheckExtremeFlightsOK(h, a);
    }
  }

  lemma {:induction false} DeleteEachConsistent(g: Graph, s: string, ds: seq<string>)
    requires Consistent(g)
    ensures Consistent(DeleteEach(g, s, ds))
    decreases |ds|
  {
    if |ds| > 0 {
      DeleteRouteConsistent(g, s, ds[0]);
      DeleteEachConsistent(DeleteRoute(g, s, ds[0]), s, ds[1..]);
    }
  }

  lemma {:induction false} DeleteIncomingConsistent(g: Graph, n: string, sources: seq<string>)
    requires Consistent(g)
    ensures Consistent(DeleteIncoming(g, n, sources))
    decreases |sources|
  {
    if |sources| > 0 {
      var u := sources[0];
      var g1 := if u in g.nodes.vals && n in g.nodes.vals[u].vals then DeleteRoute(g, u, n) else g;
      DeleteRouteConsistent(g, u, n);
      DeleteIncomingConsistent(g1, n, sources[1..]);
    }
  }

  /** Removing an airport that no route touches keeps the statistics consistent. */
  lemma RemoveIsolatedConsistent(g: Graph, n: string)
    requires Consistent(g)
    requires forall u, v :: Length(g, u, v).Fin? ==> u != n && v != n
    ensures Consistent(RemoveIsolated(g, n))
  {
    var r := RemoveIsolated(g, n);
    if n in g.nodes.vals {
      var row := g.nodes.vals[n];
      assert forall v :: v in row.vals ==> Length(g, n, v).Fin?;
      assert row.vals == map[];
      EmptyRowSums(row);
    }
    Hashes.SumDelete(g.nodes, n, RowTotal);
    Hashes.SumDelete(g.nodes, n, RowCount);
    ExtremesFrameLengths(g, r);
  }

  /** Graphs with the same route lengths and extremes agree on the extremes' correctness. */
  lemma ExtremesFrameLengths(g: Graph, h: Graph)
    requires forall u, v :: Length(g, u, v) == Length(h, u, v)
    requires g.stats == h.stats
    ensures ShortestOK(g) <==> ShortestOK(h)
    ensures LongestOK(g) <==> LongestOK(h)
  {
    var f := g.stats.shortest;
    if |f.ports| == 2 {
      assert Length(g, f.ports[0], f.ports[1]) == Length(h, f.ports[0], f.ports[1]);
    }
    var l := g.stats.longest;
    if |l.ports| == 2 {
      assert Length(g, l.ports[0], l.ports[1]) == Length(h, l.ports[0], l.ports[1]);
    }
  }

  /** `delete_node` keeps the statistics consistent. */
  lemma DeleteNodeConsistent(g: Graph, n: string)
    requires Consistent(g)
    ensures Consistent(DeleteNode(g, n))
  {
    if n in g.nodes.vals {
      var g1 := DeleteRoutesFrom(g, n);
      DeleteEachConsistent(g, n, g.nodes.vals[n].keys);
      var g2 := DeleteIncoming(g1, n, g1.nodes.keys);
      DeleteIncomingConsistent(g1, n, g1.nodes.keys);
      assert g2 == DeleteRoutesTouching(g, n);
      RemoveIsolatedConsistent(g2, n);
      var g3 := RemoveIsolated(g2, n);
      CheckExtremeFlightsOK(g3, n);
    }
  }

  /**
   `add_route` of a route that is already stored overwrites its length but
   still counts one more flight than the routes stored.
   */
  lemma AddRouteAgainMiscounts(g: Graph, a: string, b: string, d: nat)
    requires Consistent(g) && Length(g, a, b).Fin?
    ensures AddRoute(g, a, b, d).stats.flights == Count(AddRoute(g, a, b, d)) + 1
    ensures AddRoute(g, a, b, d).stats.total == Total(AddRoute(g, a, b, d)) + Length(g, a, b).n
  {
    assert AddIfNonExisting(AddIfNonExisting(g, a), b) == g;
    StoreRouteSums(g, a, b, d);
    assert AddRoute(g, a, b, d).nodes == StoreRoute(g, a, b, d).nodes;
  }

  /** `add_connection` of two different airports with no route between them keeps the statistics consistent. */
  lemma AddConnectionConsistent(g: Graph, a: string, b: string, d: nat)
    requires Consistent(g) && a != b && Length(g, a, b) == Inf && Length(g, b, a) == Inf
    ensures Consistent(AddConnection(g, a, b, d))
  {
    AddRouteConsistent(g, a, b, d);
    AddRouteConsistent(AddRoute(g, a, b, d), b, a, d);
  }

  /** `delete_connection` keeps the statistics consistent. */
  lemma DeleteConnectionConsistent(g: Graph, a: string, b: string)
    requires Consistent(g)
    ensures Consistent(DeleteConnection(g, a, b))
  {
    DeleteRouteConsistent(g, a, b);
    DeleteRouteConsistent(DeleteRoute(g, a, b), b, a);
  }
}
