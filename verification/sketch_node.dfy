/**
 An airport of the first sketch, lib/graph/node.rb: its own code and an
 insertion-ordered hash of connections (code -> kilometres), queried by
 `distance_to` and printed by `to_s`.
 */
module SketchNode {
  import opened Distance
  import opened Hashes
  import opened Text

  datatype Node = Node(airport: string, connections: Hash<nat>) {
    ghost predicate Valid() {
      connections.Valid()
    }
  }

  /** `Node.new(name)`. */
  function New(name: string): (n: Node)
    ensures n.Valid() && n.airport == name && n.connections.keys == []
    ensures forall x :: x != name ==> DistanceTo(n, x) == Inf
  {
    Node(name, Hashes.Empty())
  }

  /**
   `distance_to`: 0 to the node itself (whatever was stored for it), the
   stored length to a connected airport, infinity otherwise.
   */
  function DistanceTo(n: Node, x: string): (r: Dist)
    ensures x == n.airport ==> r == Fin(0)
    ensures x != n.airport ==> (r.Fin? <==> x in n.connections.vals)
    ensures x != n.airport && x in n.connections.vals ==> r == Fin(n.connections.vals[x])
  {
    if x == n.airport then Fin(0)
    else if x !in n.connections.vals then Inf
    else Fin(n.connections.vals[x])
  }

  /** `add_connection`: stores (or overwrites) the length to `p`; no other distance changes. */
  function AddConnection(n: Node, p: string, d: nat): (r: Node)
    requires n.Valid()
    ensures r.Valid() && r.airport == n.airport
    ensures forall x :: DistanceTo(r, x) == if x == p && p != n.airport then Fin(d) else DistanceTo(n, x)
  {
    n.(connections := Put(n.connections, p, d))
  }

  /** One printed connection: ` {'P' => d}`. */
  function Item(port: string, d: nat): string {
    " {'" + port + "' => " + NatToString(d) + "}"
  }

  /** The printed connections in insertion order. */
  function Items(n: Node): (r: seq<string>)
    requires n.Valid()
    ensures |r| == |n.connections.keys|
    ensures forall i :: 0 <= i < |r| ==> r[i] == Item(n.connections.keys[i], n.connections.vals[n.connections.keys[i]])
  {
    seq(|n.connections.keys|, i requires 0 <= i < |n.connections.keys| =>
      Item(n.connections.keys[i], n.connections.vals[n.connections.keys[i]]))
  }

  /**
   `add_connections_to_string`: every item in order, with a comma written
   before each item but the first: the items joined by `,`.
   */
  method AddConnectionsToString(n: Node) returns (all: string)
    requires n.Valid()
    ensures all == Join(Items(n), ",")
  {
    var items := Items(n);
    all := "";
    var shouldAddComma := false;
    var i := 0;
    while i < |items|
      invariant 0 <= i <= |items|
      invariant shouldAddComma <==> i > 0
      invariant all == Join(items[..i], ",")
    {
      if shouldAddComma {
        all := all + ",";
      } else {
        shouldAddComma := true;
      }
      JoinSnoc(items[..i], items[i], ",");
      assert items[..i + 1] == items[..i] + [items[i]];
      all := all + items[i];
      i := i + 1;
    }
    assert items[..i] == items;
  }

  /** `to_s`: `Node{'X'}`, followed by `:` and the joined items when there are connections. */
  method ToString(n: Node) returns (s: string)
    requires n.Valid()
    ensures n.connections.keys == [] ==> s == "Node{'" + n.airport + "'}"
    ensures n.connections.keys != [] ==> s == "Node{'" + n.airport + "'}:" + Join(Items(n), ",")
  {
    s := "Node{'" + n.airport + "'}";
    if n.connections.keys != [] {
      var items := AddConnectionsToString(n);
      s := s + ":" + items;
    }
  }

  /** The Ruby three node tests. */
  lemma NodeExamples()
    ensures DistanceTo(AddConnection(New("MEX"), "SCL", 2453), "SCL") == Fin(2453)
    ensures DistanceTo(New("MEX"), "MEX") == Fin(0)
    ensures DistanceTo(New("MEX"), "SCL") == Inf
  {
    assert "SCL" != "MEX";
  }
}
