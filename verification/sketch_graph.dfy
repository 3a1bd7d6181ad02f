/**
 The graph of the first sketch, lib/graph/graph.rb: airport code -> row of
 connections whose default is infinity. A connection is stored in both
 directions, and a lookup has no special case for an airport and itself.
 */
module SketchGraph {
  import opened Distance
  import opened Hashes

  type Row = Hash<nat>

  datatype Graph = Graph(nodes: Hash<Row>) {
    ghost predicate Valid() {
      && nodes.Valid()
      && (forall u :: u in nodes.vals ==> nodes.vals[u].Valid())
      && (forall u, v :: u in nodes.vals && v in nodes.vals[u].vals ==> v in nodes.vals)
    }
  }

  function Empty(): (g: Graph)
    ensures g.Valid() && g.nodes.vals == map[]
  {
    Graph(Hashes.Empty())
  }

  /** `get_connection`: -1 (`Unknown`) when either airport is missing, else the row's value or infinity. */
  function GetConnection(g: Graph, a: string, b: string): (r: Lookup)
    ensures r.Unknown? <==> a !in g.nodes.vals || b !in g.nodes.vals
    ensures r.Known? ==> (r.d.Fin? <==> b in g.nodes.vals[a].vals)
    ensures r.Known? && r.d.Fin? ==> r.d.n == g.nodes.vals[a].vals[b]
  {
    if a !in g.nodes.vals || b !in g.nodes.vals then Unknown
    else if b in g.nodes.vals[a].vals then Known(Fin(g.nodes.vals[a].vals[b]))
    else Known(Inf)
  }

  /** `check_existence_of`: a missing airport gets an empty row; an existing one is kept. */
  function CheckExistenceOf(g: Graph, p: string): (r: Graph)
    requires g.Valid()
    ensures r.Valid()
    ensures forall x :: x in r.nodes.vals <==> x in g.nodes.vals || x == p
    ensures forall a, b :: a in g.nodes.vals && b in g.nodes.vals ==> GetConnection(r, a, b) == GetConnection(g, a, b)
    ensures p !in g.nodes.vals ==> forall x :: x in r.nodes.vals ==> GetConnection(r, p, x) == Known(Inf)
  {
    if p in g.nodes.vals then g else AddNode(g, p)
  }

  /** `add_node`: an empty row. */
  function AddNode(g: Graph, p: string): (r: Graph)
    requires g.Valid()
    ensures r.Valid()
    ensures forall x :: x in r.nodes.vals <==> x in g.nodes.vals || x == p
    ensures forall x :: x in r.nodes.vals ==> GetConnection(r, p, x) == Known(Inf)
  {
    Graph(Put(g.nodes, p, Hashes.Empty()))
  }

  /** `add_connection`: creates missing airports and stores the length in both directions. */
  function AddConnection(g: Graph, a: string, b: string, d: nat): (r: Graph)
    requires g.Valid()
    ensures r.Valid()
    ensures forall x :: x in r.nodes.vals <==> x in g.nodes.vals || x == a || x == b
    ensures GetConnection(r, a, b) == Known(Fin(d)) && GetConnection(r, b, a) == Known(Fin(d))
    ensures forall u, v :: u in g.nodes.vals && v in g.nodes.vals && !((u == a && v == b) || (u == b && v == a)) ==>
                             GetConnection(r, u, v) == GetConnection(g, u, v)
  {
    StoreBoth(CheckExistenceOf(CheckExistenceOf(g, a), b), a, b, d)
  }

  /** The length stored in both directions between two existing airports. */
  function StoreBoth(g: Graph, a: string, b: string, d: nat): (r: Graph)
    requires g.Valid() && a in g.nodes.vals && b in g.nodes.vals
    ensures r.Valid() && r.nodes.vals.Keys == g.nodes.vals.Keys
    ensures GetConnection(r, a, b) == Known(Fin(d)) && GetConnection(r, b, a) == Known(Fin(d))
    ensures forall u, v :: !((u == a && v == b) || (u == b && v == a)) ==> GetConnection(r, u, v) == GetConnection(g, u, v)
  {
    var g2 := Store(g, a, b, d);
    var r := Store(g2, b, a, d);
    assert GetConnection(r, a, b) == Known(Fin(d)) by {
      if a != b {
        assert GetConnection(r, a, b) == GetConnection(g2, a, b);
      }
    }
    r
  }

  /** `@node_hash[a][b] = d` for two existing airports. */
  function Store(g: Graph, a: string, b: string, d: nat): (r: Graph)
    requires g.Valid() && a in g.nodes.vals && b in g.nodes.vals
    ensures r.Valid() && r.nodes.vals.Keys == g.nodes.vals.Keys
    ensures GetConnection(r, a, b) == Known(Fin(d))
    ensures forall u, v :: !(u == a && v == b) ==> GetConnection(r, u, v) == GetConnection(g, u, v)
  {
    Graph(Put(g.nodes, a, Put(g.nodes.vals[a], b, d)))
  }

  /** Two airports added by one connection read the same in both directions; others are unknown. */
  lemma AddConnectionExample()
    ensures var g := AddConnection(Empty(), "LIM", "SCL", 2453);
            && GetConnection(g, "LIM", "SCL") == Known(Fin(2453))
            && GetConnection(g, "SCL", "LIM") == Known(Fin(2453))
            && GetConnection(g, "LIM", "MEX") == Unknown
            && GetConnection(g, "LIM", "LIM") == Known(Inf)
  {
    var g := AddConnection(Empty(), "LIM", "SCL", 2453);
    assert "MEX" != "LIM" && "MEX" != "SCL";
    var g1 := CheckExistenceOf(CheckExistenceOf(Empty(), "LIM"), "SCL");
    assert g1.nodes.vals["LIM"].vals == map[];
    assert "LIM" != "SCL";
  }
}
