/**
 The shortest-path engine of lib/model/graph/dijkstra.rb (and its copy inside
 lib/csair_lib/graph.rb): a linear-scan Dijkstra over the graph's adjacency
 hash, reconstruction of a path from the predecessor map, and the encoding of
 a path as the `"A-B,+B-C"` string used in map URLs.
 */
module Dijkstra {
  import opened Distance
  import opened Hashes
  import opened Text
  import opened Optional

  /** The graph as the algorithm reads it: node -> row (neighbour -> length), both insertion ordered. */
  type Adjacency = Hash<Hash<Dist>>

  ghost predicate ValidAdjacency(g: Adjacency) {
    g.Valid() && forall n :: n in g.vals ==> g.vals[n].Valid()
  }

  /** The stored length of `u -> v`, infinity when the row has no key `v`. */
  function Weight(g: Adjacency, u: string, v: string): Dist
    requires u in g.vals
  {
    if v in g.vals[u].vals then g.vals[u].vals[v] else Inf
  }

  /** Every element is a node and every step uses a finite stored length. */
  ghost predicate Walkable(g: Adjacency, p: seq<string>) {
    && (forall i :: 0 <= i < |p| ==> p[i] in g.vals)
    && (forall i :: 0 <= i < |p| - 1 ==> Weight(g, p[i], p[i + 1]).Fin?)
  }

  /** `p` is a walk from `s` to `v`. */
  ghost predicate IsPath(g: Adjacency, p: seq<string>, s: string, v: string) {
    |p| >= 1 && p[0] == s && p[|p| - 1] == v && Walkable(g, p)
  }

  ghost predicate Reachable(g: Adjacency, s: string, v: string) {
    exists p :: IsPath(g, p, s, v)
  }

  /** Every node can be reached from `s`: what the algorithm needs to terminate. */
  ghost predicate AllReachable(g: Adjacency, s: string) {
    forall v :: v in g.vals ==> Reachable(g, s, v)
  }

  /** The total length of a walk. */
  ghost function Cost(g: Adjacency, p: seq<string>): nat
    requires Walkable(g, p)
  {
    if |p| <= 1 then 0
    else
      assert Walkable(g, p[..|p| - 1]);
      Cost(g, p[..|p| - 1]) + Weight(g, p[|p| - 2], p[|p| - 1]).n
  }

  lemma PrefixIsPath(g: Adjacency, p: seq<string>, s: string)
    requires |p| >= 2 && Walkable(g, p) && p[0] == s
    ensures IsPath(g, p[..|p| - 1], s, p[|p| - 2])
  {
  }

  /**
   A potential that never drops by more than an edge's length bounds every
   walk from below: a certificate that no shorter route exists.
   */
  lemma {:induction false} PotentialBoundsCost(g: Adjacency, p: seq<string>, phi: map<string, nat>)
    requires Walkable(g, p) && |p| >= 1
    requires forall u :: u in g.vals ==> u in phi
    requires forall u, v :: u in g.vals && v in g.vals && Weight(g, u, v).Fin? ==> phi[v] <= phi[u] + Weight(g, u, v).n
    ensures phi[p[|p| - 1]] <= phi[p[0]] + Cost(g, p)
  {
    if |p| >= 2 {
      var q := p[..|p| - 1];
      assert Walkable(g, q);
      PotentialBoundsCost(g, q, phi);
    }
  }

  /** The distance a `Hash.new(INFTY)` map answers for `v`. */
  function DistOf(dist: map<string, nat>, v: string): Dist {
    if v in dist then Fin(dist[v]) else Inf
  }

  /**
   `min_dist`: scans the queue in order, keeping the first node whose distance
   is strictly below the best so far; `""` when every queued node is infinite.
   */
  method MinDist(dist: map<string, nat>, queue: seq<string>) returns (u: string)
    ensures (forall q :: q in queue ==> q !in dist) ==> u == ""
    ensures (exists q :: q in queue && q in dist) ==>
              && u in dist
              && (forall q :: q in queue && q in dist ==> dist[u] <= dist[q])
              && (exists k :: 0 <= k < |queue| && queue[k] == u
                                && forall j :: 0 <= j < k && queue[j] in dist ==> dist[u] < dist[queue[j]])
  {
    var reference := Inf;
    u := "";
    var i := 0;
    ghost var k := 0;
    while i < |queue|
      invariant 0 <= i <= |queue|
      invariant reference.Inf? ==> u == "" && forall j :: 0 <= j < i ==> queue[j] !in dist
      invariant reference.Fin? ==>
                  && 0 <= k < i && queue[k] == u && u in dist && reference.n == dist[u]
                  && (forall j :: 0 <= j < i && queue[j] in dist ==> dist[u] <= dist[queue[j]])
                  && (forall j :: 0 <= j < k && queue[j] in dist ==> dist[u] < dist[queue[j]])
    {
      var q := queue[i];
      if Below(DistOf(dist, q), reference) {
        reference := DistOf(dist, q);
        u := q;
        k := i;
      }
      i := i + 1;
    }
  }

  /** Every settled node's distance is no more than the cost of any path to it. */
  ghost predicate Settled(g: Adjacency, source: string, dist: map<string, nat>, visited: set<string>) {
    && visited <= dist.Keys
    && forall x, q :: x in visited && IsPath(g, q, source, x) ==> x in dist && dist[x] <= Cost(g, q)
  }

  /** Every edge out of a settled node into the queue has been relaxed. */
  ghost predicate Relaxed(g: Adjacency, dist: map<string, nat>, visited: set<string>, remaining: seq<string>) {
    forall x, y :: x in visited && y in remaining && x in g.vals && x in dist && Weight(g, x, y).Fin? ==>
                     y in dist && dist[y] <= dist[x] + Weight(g, x, y).n
  }

  /** Every predecessor is settled and the last edge accounts exactly for the distance. */
  ghost predicate PrevSound(g: Adjacency, dist: map<string, nat>, prev: map<string, string>, visited: set<string>) {
    forall v :: v in prev ==> && v in dist && prev[v] in visited && prev[v] in dist && prev[v] in g.vals
                              && Weight(g, prev[v], v).Fin?
                              && dist[v] == dist[prev[v]] + Weight(g, prev[v], v).n
  }

  /** Settled nodes are numbered in settling order, and a predecessor was settled earlier. */
  ghost predicate Ranked(prev: map<string, string>, visited: set<string>, rank: map<string, nat>, count: nat) {
    && rank.Keys == visited
    && (forall x :: x in rank ==> rank[x] < count)
    && (forall v :: v in prev && v in visited && prev[v] in rank ==> rank[prev[v]] < rank[v])
  }

  /**
   While some node is still queued, the queued node that a walk from the
   source reaches first already has a finite tentative distance no larger than
   the walk's cost. This is why `min_dist` always finds a node when every node
   is reachable, and why the node it picks has its final distance.
   */
  lemma {:induction false} FrontierBound(g: Adjacency, source: string, dist: map<string, nat>,
                                         visited: set<string>, remaining: seq<string>, p: seq<string>, v: string)
    requires IsPath(g, p, source, v) && v in remaining
    requires source in dist && dist[source] == 0
    requires forall x :: x in g.vals ==> x in visited || x in remaining
    requires Settled(g, source, dist, visited) && Relaxed(g, dist, visited, remaining)
    ensures exists y :: y in remaining && y in dist && dist[y] <= Cost(g, p)
    decreases |p|
  {
    if |p| == 1 {
      assert p[0] == source;
    } else {
      var q := p[..|p| - 1];
      var x := p[|p| - 2];
      PrefixIsPath(g, p, source);
      assert Cost(g, p) == Cost(g, q) + Weight(g, x, v).n;
      if x in remaining {
        FrontierBound(g, source, dist, visited, remaining, q, x);
      } else {
        assert x in g.vals;
        assert dist[x] <= Cost(g, q);
      }
    }
  }

  /**
   The inner loop of `dijkstra`: for each neighbour `v` of `u` in row order
   that is still queued, lower `dist[v]` to `dist[u] + length` and record `u`
   as its predecessor, but only on a strict improvement. A stored infinite
   length never improves anything.
   */
  method RelaxNeighbours(g: Adjacency, u: string, dist0: map<string, nat>, prev0: map<string, string>,
                         remaining: seq<string>)
    returns (dist: map<string, nat>, prev: map<string, string>)
    requires ValidAdjacency(g) && u in g.vals && u in dist0 && u !in remaining
    ensures forall x :: x !in remaining ==> (x in dist <==> x in dist0) && (x in dist0 ==> dist[x] == dist0[x])
    ensures forall x :: x in dist0 ==> x in dist && dist[x] <= dist0[x]
    ensures forall y :: y in remaining && Weight(g, u, y).Fin? ==> y in dist && dist[y] <= dist0[u] + Weight(g, u, y).n
    ensures forall v :: v in prev0 ==> v in prev
    ensures forall v :: v in dist && (v !in dist0 || dist[v] != dist0[v]) ==>
                          v in remaining && v in prev && prev[v] == u && Weight(g, u, v).Fin?
                          && dist[v] == dist0[u] + Weight(g, u, v).n
    ensures forall v :: v in prev && (v !in prev0 || prev[v] != prev0[v]) ==>
                          v in remaining && prev[v] == u && v in dist && Weight(g, u, v).Fin?
                          && dist[v] == dist0[u] + Weight(g, u, v).n && (v !in dist0 || dist[v] < dist0[v])
  {
    dist, prev := dist0, prev0;
    var row := g.vals[u];
    var i := 0;
    while i < |row.keys|
      invariant 0 <= i <= |row.keys|
      invariant RelaxedUpTo(g, u, dist0, prev0, remaining, dist, prev, row.keys[..i])
    {
      var v := row.keys[i];
      var length := row.vals[v];
      assert row.keys[..i + 1] == row.keys[..i] + [v];
      if v in remaining {
        var alt := Plus(Fin(dist[u]), length);
        if Below(alt, DistOf(dist, v)) {
          RelaxImproves(g, u, dist0, prev0, remaining, dist, prev, row.keys[..i], v, alt.n);
          dist := dist[v := alt.n];
          prev := prev[v := u];
        } else {
          RelaxKeeps(g, u, dist0, prev0, remaining, dist, prev, row.keys[..i], v);
        }
      } else {
        RelaxKeeps(g, u, dist0, prev0, remaining, dist, prev, row.keys[..i], v);
      }
      i := i + 1;
    }
    assert row.keys[..i] == row.keys;
    forall y | y in remaining && Weight(g, u, y).Fin?
      ensures y in dist && dist[y] <= dist0[u] + Weight(g, u, y).n
    {
      assert y in row.keys;
    }
  }

  /** The relaxation round's invariant after the neighbours `done` of `u`. */
  ghost predicate RelaxedUpTo(g: Adjacency, u: string, dist0: map<string, nat>, prev0: map<string, string>,
                              remaining: seq<string>, dist: map<string, nat>, prev: map<string, string>,
                              done: seq<string>)
    requires u in g.vals && u in dist0
  {
    && (forall x :: x !in remaining ==> (x in dist <==> x in dist0) && (x in dist0 ==> dist[x] == dist0[x]))
    && (forall x :: x in dist0 ==> x in dist && dist[x] <= dist0[x])
    && (forall y :: y in done && y in remaining && Weight(g, u, y).Fin? ==>
                      y in dist && dist[y] <= dist0[u] + Weight(g, u, y).n)
    && (forall v :: v in prev0 ==> v in prev)
    && (forall v :: v in dist && (v !in dist0 || dist[v] != dist0[v]) ==>
                      v in remaining && v in prev && prev[v] == u && Weight(g, u, v).Fin?
                      && dist[v] == dist0[u] + Weight(g, u, v).n)
    && (forall v :: v in prev && (v !in prev0 || prev[v] != prev0[v]) ==>
                      v in remaining && prev[v] == u && v in dist && Weight(g, u, v).Fin?
                      && dist[v] == dist0[u] + Weight(g, u, v).n && (v !in dist0 || dist[v] < dist0[v]))
  }

  /** A queued neighbour whose distance strictly improves through `u`. */
  lemma RelaxImproves(g: Adjacency, u: string, dist0: map<string, nat>, prev0: map<string, string>,
                      remaining: seq<string>, dist: map<string, nat>, prev: map<string, string>,
                      done: seq<string>, v: string, d: nat)
    requires u in g.vals && u in dist0 && u !in remaining && v in remaining
    requires RelaxedUpTo(g, u, dist0, prev0, remaining, dist, prev, done)
    requires Weight(g, u, v).Fin? && d == dist0[u] + Weight(g, u, v).n
    requires v in dist ==> d < dist[v]
    ensures RelaxedUpTo(g, u, dist0, prev0, remaining, dist[v := d], prev[v := u], done + [v])
  {
  }

  /** A neighbour that is not queued, or whose distance does not improve, changes nothing. */
  lemma RelaxKeeps(g: Adjacency, u: string, dist0: map<string, nat>, prev0: map<string, string>,
                   remaining: seq<string>, dist: map<string, nat>, prev: map<string, string>,
                   done: seq<string>, v: string)
    requires u in g.vals && u in dist0 && u !in remaining
    requires RelaxedUpTo(g, u, dist0, prev0, remaining, dist, prev, done)
    requires v in remaining && Weight(g, u, v).Fin? ==> v in dist && dist[v] <= dist0[u] + Weight(g, u, v).n
    ensures RelaxedUpTo(g, u, dist0, prev0, remaining, dist, prev, done + [v])
  {
  }

  /** What a relaxation round guarantees, as the step lemmas below consume it. */
  ghost predicate RelaxedFrom(g: Adjacency, u: string, dist0: map<string, nat>, prev0: map<string, string>,
                              remaining: seq<string>, dist: map<string, nat>, prev: map<string, string>)
    requires u in g.vals && u in dist0
  {
    && (forall x :: x !in remaining ==> (x in dist <==> x in dist0) && (x in dist0 ==> dist[x] == dist0[x]))
    && (forall x :: x in dist0 ==> x in dist && dist[x] <= dist0[x])
    && (forall y :: y in remaining && Weight(g, u, y).Fin? ==> y in dist && dist[y] <= dist0[u] + Weight(g, u, y).n)
    && (forall v :: v in prev0 ==> v in prev)
    && (forall v :: v in dist && (v !in dist0 || dist[v] != dist0[v]) ==>
                      v in remaining && v in prev && prev[v] == u && Weight(g, u, v).Fin?
                      && dist[v] == dist0[u] + Weight(g, u, v).n)
    && (forall v :: v in prev && (v !in prev0 || prev[v] != prev0[v]) ==>
                      v in remaining && prev[v] == u && v in dist && Weight(g, u, v).Fin?
                      && dist[v] == dist0[u] + Weight(g, u, v).n && (v !in dist0 || dist[v] < dist0[v]))
  }

  lemma SettledStep(g: Adjacency, source: string, dist0: map<string, nat>, dist: map<string, nat>,
                    prev0: map<string, string>, prev: map<string, string>,
                    visited: set<string>, u: string, remaining: seq<string>)
    requires u in g.vals && u in dist0 && Settled(g, source, dist0, visited)
    requires forall x :: x in visited ==> x !in remaining
    requires u !in remaining
    requires forall p :: IsPath(g, p, source, u) ==> dist0[u] <= Cost(g, p)
    requires RelaxedFrom(g, u, dist0, prev0, remaining, dist, prev)
    ensures Settled(g, source, dist, visited + {u})
  {
  }

  lemma RelaxedStep(g: Adjacency, dist0: map<string, nat>, dist: map<string, nat>,
                    prev0: map<string, string>, prev: map<string, string>,
                    visited: set<string>, u: string, remaining0: seq<string>, remaining: seq<string>)
    requires u in g.vals && u in dist0 && visited <= dist0.Keys && Relaxed(g, dist0, visited, remaining0)
    requires forall x :: x in visited ==> x !in remaining
    requires forall y :: y in remaining ==> y in remaining0
    requires u !in remaining
    requires RelaxedFrom(g, u, dist0, prev0, remaining, dist, prev)
    ensures Relaxed(g, dist, visited + {u}, remaining)
  {
    forall x, y | x in visited + {u} && y in remaining && x in g.vals && x in dist && Weight(g, x, y).Fin?
      ensures y in dist && dist[y] <= dist[x] + Weight(g, x, y).n
    {
      if x != u {
        assert dist0[y] <= dist0[x] + Weight(g, x, y).n;
      }
    }
  }

  lemma PrevStep(g: Adjacency, dist0: map<string, nat>, dist: map<string, nat>,
                 prev0: map<string, string>, prev: map<string, string>,
                 visited: set<string>, u: string, remaining: seq<string>)
    requires u in g.vals && u in dist0 && PrevSound(g, dist0, prev0, visited)
    requires forall x :: x in visited ==> x !in remaining
    requires u !in remaining
    requires RelaxedFrom(g, u, dist0, prev0, remaining, dist, prev)
    ensures PrevSound(g, dist, prev, visited + {u})
  {
    forall v | v in prev
      ensures && v in dist && prev[v] in visited + {u} && prev[v] in dist && prev[v] in g.vals
              && Weight(g, prev[v], v).Fin?
              && dist[v] == dist[prev[v]] + Weight(g, prev[v], v).n
    {
      if v in prev0 && prev[v] == prev0[v] && v in dist && v in dist0 && dist[v] == dist0[v] {
        assert prev0[v] !in remaining;
      }
    }
  }

  lemma RankStep(prev0: map<string, string>, prev: map<string, string>, visited: set<string>,
                 rank: map<string, nat>, count: nat, u: string, remaining: seq<string>)
    requires Ranked(prev0, visited, rank, count) && u !in visited && u !in remaining
    requires forall v :: v in prev0 ==> prev0[v] in visited
    requires forall x :: x in visited ==> x !in remaining
    requires forall v :: v in prev && (v !in prev0 || prev[v] != prev0[v]) ==> v in remaining
    ensures Ranked(prev, visited + {u}, rank[u := count], count + 1)
  {
  }

  /** Every tentative distance is the cost of some walk from the source. */
  ghost predicate Achieved(g: Adjacency, source: string, dist: map<string, nat>) {
    forall v :: v in dist ==> exists p :: IsPath(g, p, source, v) && Cost(g, p) == dist[v]
  }

  lemma AchievedStep(g: Adjacency, source: string, dist0: map<string, nat>, dist: map<string, nat>,
                     prev0: map<string, string>, prev: map<string, string>, u: string, remaining: seq<string>)
    requires u in g.vals && u in dist0 && Achieved(g, source, dist0)
    requires forall y :: y in remaining ==> y in g.vals
    requires RelaxedFrom(g, u, dist0, prev0, remaining, dist, prev)
    ensures Achieved(g, source, dist)
  {
    forall v | v in dist
      ensures exists p :: IsPath(g, p, source, v) && Cost(g, p) == dist[v]
    {
      if v !in dist0 || dist[v] != dist0[v] {
        assert v in remaining && Weight(g, u, v).Fin? && dist[v] == dist0[u] + Weight(g, u, v).n;
        AchievedThrough(g, source, dist0, u, v);
      } else {
        assert exists p :: IsPath(g, p, source, v) && Cost(g, p) == dist0[v];
      }
    }
  }

  /** A distance achieved at `u` plus a finite edge `u -> v` is achieved at `v`. */
  lemma AchievedThrough(g: Adjacency, source: string, dist0: map<string, nat>, u: string, v: string)
    requires Achieved(g, source, dist0) && u in dist0 && v in g.vals && Weight(g, u, v).Fin?
    ensures exists p :: IsPath(g, p, source, v) && Cost(g, p) == dist0[u] + Weight(g, u, v).n
  {
    var p :| IsPath(g, p, source, u) && Cost(g, p) == dist0[u];
    ExtendPath(g, p, source, u, v);
    assert IsPath(g, p + [v], source, v);
  }

  /** A walk to `u` followed by a finite edge `u -> v` is a walk to `v` that costs the edge more. */
  lemma ExtendPath(g: Adjacency, p: seq<string>, source: string, u: string, v: string)
    requires IsPath(g, p, source, u) && v in g.vals && Weight(g, u, v).Fin?
    ensures IsPath(g, p + [v], source, v) && Cost(g, p + [v]) == Cost(g, p) + Weight(g, u, v).n
  {
    var p' := p + [v];
    assert p'[..|p'| - 1] == p;
    assert Walkable(g, p');
  }

  /** The queue holds each unvisited node once, and only nodes have distances. */
  ghost predicate Queued(g: Adjacency, dist: map<string, nat>, remaining: seq<string>, visited: set<string>) {
    && Distinct(remaining)
    && (forall x :: x in remaining <==> x in g.vals && x !in visited)
    && dist.Keys <= g.vals.Keys
  }

  /** The state the main loop keeps; `visited` are the nodes taken off the queue, `rank` their order. */
  ghost predicate Inv(g: Adjacency, source: string, dist: map<string, nat>, prev: map<string, string>,
                      remaining: seq<string>, visited: set<string>, rank: map<string, nat>, count: nat) {
    && Queued(g, dist, remaining, visited)
    && source in dist && dist[source] == 0 && source !in prev
    && (visited == {} ==> dist == map[source := 0])
    && (visited != {} ==> source in visited)
    && Settled(g, source, dist, visited) && Relaxed(g, dist, visited, remaining)
    && PrevSound(g, dist, prev, visited)
    && (forall v :: v in dist && v != source ==> v in prev)
    && Ranked(prev, visited, rank, count)
    && Achieved(g, source, dist)
  }

  /** One round of the main loop: settle the nearest queued node and relax its row. */
  method SettleNearest(g: Adjacency, source: string, dist0: map<string, nat>, prev0: map<string, string>,
                       remaining0: seq<string>, ghost visited0: set<string>, ghost rank0: map<string, nat>,
                       ghost count0: nat)
    returns (dist: map<string, nat>, prev: map<string, string>, remaining: seq<string>,
             ghost visited: set<string>, ghost rank: map<string, nat>, ghost count: nat)
    requires ValidAdjacency(g) && source in g.vals && AllReachable(g, source) && |remaining0| > 0
    requires Inv(g, source, dist0, prev0, remaining0, visited0, rank0, count0)
    ensures Inv(g, source, dist, prev, remaining, visited, rank, count)
    ensures |remaining| < |remaining0|
  {
    QueuedFinite(g, source, dist0, prev0, remaining0, visited0, rank0, count0);
    var u := MinDist(dist0, remaining0);
    NearestIsFinal(g, source, dist0, prev0, remaining0, visited0, rank0, count0, u);
    WithoutDistinct(remaining0, u);
    remaining := Without(remaining0, u);
    dist, prev := RelaxNeighbours(g, u, dist0, prev0, remaining);
    visited := visited0 + {u};
    rank := rank0[u := count0];
    count := count0 + 1;
    SettleKeepsInv(g, source, dist0, prev0, remaining0, visited0, rank0, count0, u, dist, prev, remaining);
  }

  /** While nodes are queued, some queued node has a finite distance, because every node is reachable. */
  lemma QueuedFinite(g: Adjacency, source: string, dist: map<string, nat>, prev: map<string, string>,
                     remaining: seq<string>, visited: set<string>, rank: map<string, nat>, count: nat)
    requires AllReachable(g, source) && |remaining| > 0
    requires Inv(g, source, dist, prev, remaining, visited, rank, count)
    ensures exists q :: q in remaining && q in dist
  {
    assert remaining[0] in g.vals && Reachable(g, source, remaining[0]);
    var p :| IsPath(g, p, source, remaining[0]);
    FrontierBound(g, source, dist, visited, remaining, p, remaining[0]);
  }

  /** The queued node of least distance already has its final distance. */
  lemma NearestIsFinal(g: Adjacency, source: string, dist: map<string, nat>, prev: map<string, string>,
                       remaining: seq<string>, visited: set<string>, rank: map<string, nat>, count: nat, u: string)
    requires Inv(g, source, dist, prev, remaining, visited, rank, count)
    requires u in remaining && u in dist && forall q :: q in remaining && q in dist ==> dist[u] <= dist[q]
    ensures forall p :: IsPath(g, p, source, u) ==> dist[u] <= Cost(g, p)
  {
    forall p | IsPath(g, p, source, u)
      ensures dist[u] <= Cost(g, p)
    {
      FrontierBound(g, source, dist, visited, remaining, p, u);
    }
  }

  /** Settling the nearest node `u` and relaxing its row keeps the main loop's state. */
  lemma SettleKeepsInv(g: Adjacency, source: string, dist0: map<string, nat>, prev0: map<string, string>,
                       remaining0: seq<string>, visited0: set<string>, rank0: map<string, nat>, count0: nat,
                       u: string, dist: map<string, nat>, prev: map<string, string>, remaining: seq<string>)
    requires Inv(g, source, dist0, prev0, remaining0, visited0, rank0, count0)
    requires u in remaining0 && u in dist0 && remaining == Without(remaining0, u) && Distinct(remaining)
    requires forall p :: IsPath(g, p, source, u) ==> dist0[u] <= Cost(g, p)
    requires u in g.vals && RelaxedFrom(g, u, dist0, prev0, remaining, dist, prev)
    ensures Inv(g, source, dist, prev, remaining, visited0 + {u}, rank0[u := count0], count0 + 1)
  {
    SettledStep(g, source, dist0, dist, prev0, prev, visited0, u, remaining);
    RelaxedStep(g, dist0, dist, prev0, prev, visited0, u, remaining0, remaining);
    PrevStep(g, dist0, dist, prev0, prev, visited0, u, remaining);
    RankStep(prev0, prev, visited0, rank0, count0, u, remaining);
    AchievedStep(g, source, dist0, dist, prev0, prev, u, remaining);
  }

  /**
   `dijkstra(source, node_hash)`: every node is queued in the hash's order;
   the queued node of least tentative distance is taken off and its
   neighbours relaxed, until the queue is empty. The Ruby fails once
   `min_dist` returns `""` (a queued node is unreachable), so every node must
   be reachable from the source.
   */
  method Dijkstra(source: string, g: Adjacency) returns (dist: map<string, nat>, prev: map<string, string>)
    requires ValidAdjacency(g) && source in g.vals && AllReachable(g, source)
    ensures dist.Keys == g.vals.Keys
    ensures dist[source] == 0 && source !in prev
    ensures forall v, p :: IsPath(g, p, source, v) ==> dist[v] <= Cost(g, p)
    ensures Achieved(g, source, dist)
    ensures forall v :: v in prev ==> (v in dist && prev[v] in g.vals && Weight(g, prev[v], v).Fin?
                                       && dist[v] == dist[prev[v]] + Weight(g, prev[v], v).n)
    ensures forall v :: v in dist && v != source ==> v in prev
    ensures forall v :: v in dist ==> ChainReaches(prev, v, source)
  {
    dist := map[source := 0];
    prev := map[];
    var remaining := g.keys;
    ghost var visited: set<string> := {};
    ghost var rank: map<string, nat> := map[];
    ghost var count: nat := 0;
    InitialState(g, source);
    while |remaining| > 0
      invariant Inv(g, source, dist, prev, remaining, visited, rank, count)
      decreases |remaining|
    {
      dist, prev, remaining, visited, rank, count :=
        SettleNearest(g, source, dist, prev, remaining, visited, rank, count);
    }
    FinalState(g, source, dist, prev, visited, rank, count);
  }

  lemma InitialState(g: Adjacency, source: string)
    requires ValidAdjacency(g) && source in g.vals
    ensures Inv(g, source, map[source := 0], map[], g.keys, {}, map[], 0)
  {
    assert IsPath(g, [source], source, source) && Cost(g, [source]) == 0;
  }

  /** Once the queue is empty every node is settled, which gives the algorithm's postcondition. */
  lemma FinalState(g: Adjacency, source: string, dist: map<string, nat>, prev: map<string, string>,
                   visited: set<string>, rank: map<string, nat>, count: nat)
    requires Inv(g, source, dist, prev, [], visited, rank, count)
    ensures dist.Keys == g.vals.Keys
    ensures dist[source] == 0 && source !in prev
    ensures forall v, p :: IsPath(g, p, source, v) ==> dist[v] <= Cost(g, p)
    ensures Achieved(g, source, dist)
    ensures forall v :: v in prev ==> (v in dist && prev[v] in g.vals && Weight(g, prev[v], v).Fin?
                                       && dist[v] == dist[prev[v]] + Weight(g, prev[v], v).n)
    ensures forall v :: v in dist && v != source ==> v in prev
    ensures forall v :: v in dist ==> ChainReaches(prev, v, source)
  {
    AllVisited(g, dist, visited);
    forall v | v in dist
      ensures ChainReaches(prev, v, source)
    {
      ChainToSource(prev, rank, source, v);
    }
  }

  /** With the queue empty, every node has been visited and has a distance. */
  lemma AllVisited(g: Adjacency, dist: map<string, nat>, visited: set<string>)
    requires Queued(g, dist, [], visited) && visited <= dist.Keys
    ensures visited == g.vals.Keys == dist.Keys
  {
    assert forall x :: x in g.vals ==> x in visited;
  }

  lemma {:induction false} ChainToSource(prev: map<string, string>, rank: map<string, nat>, source: string, v: string)
    requires v in rank
    requires forall x :: x in rank && x != source ==> x in prev && prev[x] in rank && rank[prev[x]] < rank[x]
    ensures ChainReaches(prev, v, source)
    decreases rank[v]
  {
    if v == source {
      assert Ancestor(prev, v, 0) == Some(source);
    } else {
      ChainToSource(prev, rank, source, prev[v]);
      var k: nat :| Ancestor(prev, prev[v], k) == Some(source);
      assert Ancestor(prev, v, k + 1) == Some(source);
    }
  }

  /** Following `prev` from `v` for `k` steps; `None` when the chain breaks first. */
  function Ancestor(prev: map<string, string>, v: string, k: nat): Option<string>
    decreases k
  {
    if k == 0 then Some(v)
    else if v in prev then Ancestor(prev, prev[v], k - 1)
    else None
  }

  /** The chain of predecessors from `v` reaches `s`. */
  ghost predicate ChainReaches(prev: map<string, string>, v: string, s: string) {
    exists k: nat :: Ancestor(prev, v, k) == Some(s)
  }

  lemma {:induction false} AncestorStep(prev: map<string, string>, v: string, i: nat, k: nat, c: string, s: string)
    requires Ancestor(prev, v, i) == Some(c) && Ancestor(prev, v, k) == Some(s) && i < k
    ensures c in prev && Ancestor(prev, v, i + 1) == Some(prev[c])
    decreases i
  {
    if i > 0 {
      AncestorStep(prev, prev[v], i - 1, k - 1, c, s);
    }
  }

  /**
   `create_shortest_path`: walks back from the destination through `prev`
   until the source, then puts the walk in source-to-destination order. The
   Ruby loops forever when the chain never reaches the source, hence
   the precondition.
   */
  method CreateShortestPath(source: string, destination: string, prev: map<string, string>)
    returns (path: seq<string>)
    requires source == destination || ChainReaches(prev, destination, source)
    ensures source == destination ==> path == [source]
    ensures |path| >= 1 && path[0] == source && path[|path| - 1] == destination
    ensures forall i :: 0 < i < |path| ==> path[i] != source
    ensures forall i :: 0 < i < |path| ==> path[i] in prev && prev[path[i]] == path[i - 1]
  {
    // The Ruby appends and reverses at the end; prepending builds the same sequence.
    var walk: seq<string> := [];
    if source != destination {
      ghost var k: nat :| Ancestor(prev, destination, k) == Some(source);
      ghost var i: nat := 0;
      var previous := destination;
      while previous != source
        invariant i <= k && Ancestor(prev, destination, i) == Some(previous)
        invariant |walk| == i
        invariant i > 0 ==> walk[|walk| - 1] == destination && walk[0] in prev && prev[walk[0]] == previous
        invariant i == 0 ==> previous == destination
        invariant forall j :: 0 <= j < |walk| ==> walk[j] != source
        invariant forall j :: 0 < j < |walk| ==> walk[j] in prev && prev[walk[j]] == walk[j - 1]
        decreases k - i
      {
        assert i < k;
        AncestorStep(prev, destination, i, k, previous, source);
        walk := [previous] + walk;
        previous := prev[previous];
        i := i + 1;
      }
    }
    path := [source] + walk;
  }

  /**
   A path read off a sound predecessor map is a walk of the graph whose cost
   is the recorded distance of its end.
   */
  lemma {:induction false} PrevChainCost(g: Adjacency, dist: map<string, nat>, prev: map<string, string>,
                                         source: string, path: seq<string>)
    requires source in g.vals && source in dist && dist[source] == 0 && dist.Keys <= g.vals.Keys
    requires forall v :: v in prev ==> (v in dist && prev[v] in dist && prev[v] in g.vals
                                        && Weight(g, prev[v], v).Fin? && dist[v] == dist[prev[v]] + Weight(g, prev[v], v).n)
    requires |path| >= 1 && path[0] == source
    requires forall i :: 0 < i < |path| ==> path[i] in prev && prev[path[i]] == path[i - 1]
    ensures IsPath(g, path, source, path[|path| - 1])
    ensures Cost(g, path) == dist[path[|path| - 1]]
  {
    if |path| >= 2 {
      var q := path[..|path| - 1];
      PrevChainCost(g, dist, prev, source, q);
      var v := path[|path| - 1];
      assert v in prev && prev[v] == q[|q| - 1];
      assert Walkable(g, path) by {
        assert forall i :: 0 <= i < |path| - 1 ==> path[i] == q[i];
      }
      assert path[..|path| - 1] == q;
    }
  }

  /**
   `evaluate_dijkstra` followed by `create_shortest_path`: the route returned
   is a walk from the source to the destination, and no walk is shorter.
   */
  method ShortestPath(g: Adjacency, source: string, destination: string) returns (path: seq<string>)
    requires ValidAdjacency(g) && source in g.vals && destination in g.vals && AllReachable(g, source)
    ensures IsPath(g, path, source, destination)
    ensures forall p :: IsPath(g, p, source, destination) ==> Cost(g, path) <= Cost(g, p)
    ensures source == destination ==> path == [source]
  {
    var dist, prev := Dijkstra(source, g);
    path := CreateShortestPath(source, destination, prev);
    PrevChainCost(g, dist, prev, source, path);
  }

  /** The four airport codes of the test network are distinct. */
  lemma TestCodesDistinct()
    ensures "ABC" != "DEF" && "ABC" != "GHI" && "ABC" != "JKL"
    ensures "DEF" != "GHI" && "DEF" != "JKL" && "GHI" != "JKL"
  {
    assert "ABC"[0] != "DEF"[0] && "ABC"[0] != "GHI"[0] && "ABC"[0] != "JKL"[0];
    assert "DEF"[0] != "GHI"[0] && "DEF"[0] != "JKL"[0] && "GHI"[0] != "JKL"[0];
  }

  /** The route lengths of the Ruby Dijkstra test network, in both directions. */
  function TestWeight(u: string, v: string): Dist {
    if (u == "ABC" && v == "DEF") || (u == "DEF" && v == "ABC") then Fin(20)
    else if (u == "DEF" && v == "GHI") || (u == "GHI" && v == "DEF") then Fin(20)
    else if (u == "GHI" && v == "JKL") || (u == "JKL" && v == "GHI") then Fin(20)
    else if (u == "ABC" && v == "GHI") || (u == "GHI" && v == "ABC") then Fin(50)
    else if (u == "ABC" && v == "JKL") || (u == "JKL" && v == "ABC") then Fin(50)
    else Inf
  }

  /** The four airports of the test network, each pair at its `TestWeight`. */
  ghost predicate ShapedLikeTest(g: Adjacency) {
    && ValidAdjacency(g)
    && g.vals.Keys == {"ABC", "DEF", "GHI", "JKL"}
    && forall u, v :: u in g.vals ==> Weight(g, u, v) == TestWeight(u, v)
  }

  /** `r` is a valid row holding exactly `u`'s routes of the test network. */
  ghost predicate TestRow(r: Hash<Dist>, u: string) {
    r.Valid() && forall v :: (if v in r.vals then r.vals[v] else Inf) == TestWeight(u, v)
  }

  function TestRowAbc(): (r: Hash<Dist>)
    ensures TestRow(r, "ABC")
  {
    TestCodesDistinct();
    Hash(["DEF", "GHI", "JKL"], map["DEF" := Fin(20), "GHI" := Fin(50), "JKL" := Fin(50)])
  }

  function TestRowDef(): (r: Hash<Dist>)
    ensures TestRow(r, "DEF")
  {
    TestCodesDistinct();
    Hash(["ABC", "GHI"], map["ABC" := Fin(20), "GHI" := Fin(20)])
  }

  function TestRowGhi(): (r: Hash<Dist>)
    ensures TestRow(r, "GHI")
  {
    TestCodesDistinct();
    Hash(["DEF", "JKL", "ABC"], map["DEF" := Fin(20), "JKL" := Fin(20), "ABC" := Fin(50)])
  }

  function TestRowJkl(): (r: Hash<Dist>)
    ensures TestRow(r, "JKL")
  {
    TestCodesDistinct();
    Hash(["GHI", "ABC"], map["GHI" := Fin(20), "ABC" := Fin(50)])
  }

  /**
   The network of the Ruby Dijkstra test, as the symmetric graph stores it
   after adding ABC-DEF 20, DEF-GHI 20, GHI-JKL 20, ABC-GHI 50 and ABC-JKL 50.
   */
  function TestNetwork(): (g: Adjacency)
    ensures ShapedLikeTest(g) && g.keys == ["ABC", "DEF", "GHI", "JKL"]
  {
    TestCodesDistinct();
    var g := Hash(["ABC", "DEF", "GHI", "JKL"],
                  map["ABC" := TestRowAbc(), "DEF" := TestRowDef(), "GHI" := TestRowGhi(), "JKL" := TestRowJkl()]);
    forall u | u in g.vals
      ensures TestRow(g.vals[u], u)
    {
      if u == "ABC" {
        assert g.vals[u] == TestRowAbc();
      } else if u == "DEF" {
        assert g.vals[u] == TestRowDef();
      } else if u == "GHI" {
        assert g.vals[u] == TestRowGhi();
      } else {
        assert g.vals[u] == TestRowJkl();
      }
    }
    assert g.Valid();
    RowsShapeNetwork(g);
    g
  }

  lemma RowsShapeNetwork(g: Adjacency)
    requires g.Valid() && g.vals.Keys == {"ABC", "DEF", "GHI", "JKL"}
    requires forall u :: u in g.vals ==> TestRow(g.vals[u], u)
    ensures ShapedLikeTest(g)
  {
  }

  /** Distances from ABC in the test network; also a potential no edge can undercut. */
  function TestDistances(): map<string, nat> {
    map["ABC" := 0, "DEF" := 20, "GHI" := 40, "JKL" := 50]
  }

  /** `dist` holds the distances from ABC that the Ruby test expects. */
  ghost predicate HasTestDistances(dist: map<string, nat>) {
    && dist.Keys == {"ABC", "DEF", "GHI", "JKL"}
    && dist["ABC"] == 0 && dist["DEF"] == 20 && dist["GHI"] == 40 && dist["JKL"] == 50
  }

  lemma TestDistancesValues()
    ensures TestDistances().Keys == {"ABC", "DEF", "GHI", "JKL"}
    ensures TestDistances()["ABC"] == 0 && TestDistances()["DEF"] == 20
    ensures TestDistances()["GHI"] == 40 && TestDistances()["JKL"] == 50
  {
    TestCodesDistinct();
  }

  lemma TestDistancesAreFeasible(g: Adjacency)
    requires ShapedLikeTest(g)
    ensures forall u, v :: u in g.vals && v in g.vals && Weight(g, u, v).Fin? ==>
                             TestDistances()[v] <= TestDistances()[u] + Weight(g, u, v).n
  {
    TestCodesDistinct();
  }

  lemma TestNetworkWalks(g: Adjacency)
    requires ShapedLikeTest(g)
    ensures IsPath(g, ["ABC"], "ABC", "ABC") && Cost(g, ["ABC"]) == 0
    ensures IsPath(g, ["ABC", "DEF"], "ABC", "DEF") && Cost(g, ["ABC", "DEF"]) == 20
    ensures IsPath(g, ["ABC", "DEF", "GHI"], "ABC", "GHI") && Cost(g, ["ABC", "DEF", "GHI"]) == 40
    ensures IsPath(g, ["ABC", "JKL"], "ABC", "JKL") && Cost(g, ["ABC", "JKL"]) == 50
  {
    TestCodesDistinct();
    assert ["ABC", "DEF", "GHI"][..2] == ["ABC", "DEF"];
    assert ["ABC", "DEF"][..1] == ["ABC"];
    assert ["ABC", "JKL"][..1] == ["ABC"];
  }

  lemma TestNetworkReachable(g: Adjacency)
    requires ShapedLikeTest(g)
    ensures AllReachable(g, "ABC")
  {
    TestNetworkWalks(g);
  }

  lemma TestNodeDistance(g: Adjacency, dist: map<string, nat>, v: string)
    requires ShapedLikeTest(g) && v in g.vals && v in dist
    requires forall p :: IsPath(g, p, "ABC", v) ==> dist[v] <= Cost(g, p)
    requires exists p :: IsPath(g, p, "ABC", v) && Cost(g, p) == dist[v]
    ensures v in TestDistances() && dist[v] == TestDistances()[v]
  {
    TestNodeAtLeast(g, dist, v);
    TestNodeAtMost(g, dist, v);
  }

  /** An achieved distance is at least the test's value: the test's distances form a potential. */
  lemma TestNodeAtLeast(g: Adjacency, dist: map<string, nat>, v: string)
    requires ShapedLikeTest(g) && v in g.vals && v in dist
    requires exists p :: IsPath(g, p, "ABC", v) && Cost(g, p) == dist[v]
    ensures v in TestDistances() && TestDistances()[v] <= dist[v]
  {
    var p :| IsPath(g, p, "ABC", v) && Cost(g, p) == dist[v];
    var phi := TestDistances();
    TestDistancesValues();
    TestDistancesAreFeasible(g);
    PotentialBoundsCost(g, p, phi);
    assert phi[v] <= phi["ABC"] + Cost(g, p);
  }

  /** An optimal distance is at most the test's value: one walk of the test's length exists. */
  lemma TestNodeAtMost(g: Adjacency, dist: map<string, nat>, v: string)
    requires ShapedLikeTest(g) && v in g.vals && v in dist
    requires forall p :: IsPath(g, p, "ABC", v) ==> dist[v] <= Cost(g, p)
    ensures v in TestDistances() && dist[v] <= TestDistances()[v]
  {
    TestDistancesValues();
    TestNetworkWalks(g);
    if v == "ABC" {
      assert dist[v] <= Cost(g, ["ABC"]);
    } else if v == "DEF" {
      assert dist[v] <= Cost(g, ["ABC", "DEF"]);
    } else if v == "GHI" {
      assert dist[v] <= Cost(g, ["ABC", "DEF", "GHI"]);
    } else {
      assert dist[v] <= Cost(g, ["ABC", "JKL"]);
    }
  }

  /** Optimal and achieved distances in the test network are exactly the test's values. */
  lemma TestNetworkDistances(g: Adjacency, dist: map<string, nat>)
    requires ShapedLikeTest(g) && dist.Keys == g.vals.Keys
    requires forall v, p :: IsPath(g, p, "ABC", v) ==> dist[v] <= Cost(g, p)
    requires Achieved(g, "ABC", dist)
    ensures HasTestDistances(dist)
  {
    TestDistancesValues();
    TestNodeDistance(g, dist, "ABC");
    TestNodeDistance(g, dist, "DEF");
    TestNodeDistance(g, dist, "GHI");
    TestNodeDistance(g, dist, "JKL");
  }

  /** The one node whose distance plus its edge gives `v`'s distance. */
  lemma TestPredecessorOf(g: Adjacency, dist: map<string, nat>, u: string, v: string)
    requires ShapedLikeTest(g) && HasTestDistances(dist) && u in g.vals && v in dist && v != "ABC"
    requires Weight(g, u, v).Fin? && dist[v] == dist[u] + Weight(g, u, v).n
    ensures u == if v == "GHI" then "DEF" else "ABC"
  {
    TestCodesDistinct();
  }

  /** With the test's distances, the only sound predecessor map is the test's. */
  lemma TestNetworkPredecessors(g: Adjacency, dist: map<string, nat>, prev: map<string, string>)
    requires ShapedLikeTest(g) && HasTestDistances(dist) && "ABC" !in prev
    requires forall v :: v in dist && v != "ABC" ==> v in prev
    requires forall v :: v in prev ==> (v in dist && prev[v] in g.vals && Weight(g, prev[v], v).Fin?
                                        && dist[v] == dist[prev[v]] + Weight(g, prev[v], v).n)
    ensures prev.Keys == {"DEF", "GHI", "JKL"}
    ensures prev["DEF"] == "ABC" && prev["GHI"] == "DEF" && prev["JKL"] == "ABC"
  {
    TestCodesDistinct();
    assert prev.Keys == {"DEF", "GHI", "JKL"};
    TestPredecessorOf(g, dist, prev["DEF"], "DEF");
    TestPredecessorOf(g, dist, prev["GHI"], "GHI");
    TestPredecessorOf(g, dist, prev["JKL"], "JKL");
  }

  /**
   The Ruby Dijkstra test: from ABC the distances are 0, 20, 40 and 50,
   GHI is reached through DEF (40 beats the direct 50), and JKL directly.
   */
  method TestNetworkFromAbc() returns (dist: map<string, nat>, prev: map<string, string>)
    ensures HasTestDistances(dist)
    ensures prev.Keys == {"DEF", "GHI", "JKL"}
    ensures prev["DEF"] == "ABC" && prev["GHI"] == "DEF" && prev["JKL"] == "ABC"
  {
    var g := TestNetwork();
    TestNetworkReachable(g);
    dist, prev := Dijkstra("ABC", g);
    TestNetworkDistances(g, dist);
    TestNetworkPredecessors(g, dist, prev);
  }

  /** One `"from-to"` piece per consecutive pair of the path. */
  function Pairs(path: seq<string>): (r: seq<string>)
    ensures |path| <= 1 ==> r == []
    ensures |path| >= 1 ==> |r| == |path| - 1
    ensures forall i :: 0 <= i < |r| ==> r[i] == path[i] + "-" + path[i + 1]
  {
    if |path| <= 1 then [] else seq(|path| - 1, i requires 0 <= i < |path| - 1 => path[i] + "-" + path[i + 1])
  }

  /**
   `create_url_from_path` as written: a one-element path gives `""` (the guard
   `(1 or 0)` is just 1); otherwise every index contributes `"x-y,+"`, the
   last one with an empty `y`, and the last 8 characters are cut.
   */
  function CreateUrlFromPath(path: seq<string>): (r: string)
    ensures |path| <= 1 ==> r == ""
    ensures |path| >= 2 ==> r == DropLast(PathUrl(path) + ",+" + path[|path| - 1] + "-", 6)
  {
    if |path| == 1 then ""
    else
      var pieces := seq(|path|, i requires 0 <= i < |path| => Piece(path, i));
      UrlAsWritten(path, pieces);
      DropLast(Terminated(pieces, ",+"), 8)
  }

  /**
   What the loop of `create_url_from_path` writes for `index` before its `,+`:
   the code, a dash and the next code, which Ruby interpolates as empty (`nil`)
   past the last code.
   */
  function Piece(path: seq<string>, i: int): string
    requires 0 <= i < |path|
  {
    path[i] + "-" + (if i + 1 < |path| then path[i + 1] else "")
  }

  /**
   The string `create_url_from_path` cuts: the intended URL, then `,+`, the
   last code and a dash, then the final `,+`. The fixed cut of 8 is exact
   only when the last code has three characters.
   */
  lemma UrlAsWritten(path: seq<string>, pieces: seq<string>)
    requires |path| != 1 && |pieces| == |path|
    requires forall i :: 0 <= i < |path| ==> pieces[i] == Piece(path, i)
    ensures |path| >= 2 ==> DropLast(Terminated(pieces, ",+"), 8) == DropLast(PathUrl(path) + ",+" + path[|path| - 1] + "-", 6)
  {
    if |path| >= 2 {
      var n := |path|;
      var last := path[n - 1] + "-";
      PiecesArePairs(path, pieces);
      TerminatedSnoc(Pairs(path), last, ",+");
      TerminatedIsJoinThenSep(Pairs(path), ",+");
      var j := PathUrl(path);
      assert Terminated(pieces, ",+") == (j + ",+") + last + ",+";
      var x := j + ",+" + path[n - 1] + "-";
      assert (j + ",+") + last == x;
      CutTwoMore(x, ",+", 6);
    }
  }

  /** The pieces the loop writes are the consecutive pairs and then the last code with an empty partner. */
  lemma PiecesArePairs(path: seq<string>, pieces: seq<string>)
    requires |path| >= 2 && |pieces| == |path|
    requires forall i :: 0 <= i < |path| ==> pieces[i] == Piece(path, i)
    ensures pieces == Pairs(path) + [path[|path| - 1] + "-"]
  {
    var n := |path|;
    var pairs := Pairs(path);
    var last := path[n - 1] + "-";
    forall i | 0 <= i < n
      ensures pieces[i] == (pairs + [last])[i]
    {
      if i < n - 1 {
        assert pieces[i] == path[i] + "-" + path[i + 1];
      } else {
        assert pieces[i] == Piece(path, i) == path[i] + "-" + "";
      }
    }
  }

  /** Cutting `n + |tail|` characters off `x + tail` is cutting `n` off `x`. */
  lemma CutTwoMore(x: string, tail: string, n: nat)
    ensures DropLast(x + tail, n + |tail|) == DropLast(x, n)
  {
    if |x| >= n {
      assert (x + tail)[..|x + tail| - (n + |tail|)] == x[..|x| - n];
    }
  }

  /** The intended encoding: the consecutive pairs in path order, joined by `,+`. */
  function PathUrl(path: seq<string>): (r: string)
    ensures |path| <= 1 ==> r == ""
  {
    Join(Pairs(path), ",+")
  }

  lemma {:induction false} TerminatedSnoc(xs: seq<string>, y: string, sep: string)
    ensures Terminated(xs + [y], sep) == Terminated(xs, sep) + y + sep
  {
    if |xs| > 0 {
      assert (xs + [y])[1..] == xs[1..] + [y];
      TerminatedSnoc(xs[1..], y, sep);
    } else {
      assert Terminated([y], sep) == y + sep + Terminated([], sep);
    }
  }

  /** For a path of two or more codes whose last code has three characters, the cut is exact. */
  lemma UrlMatchesForThreeLetterCodes(path: seq<string>)
    requires |path| >= 2 && |path[|path| - 1]| == 3
    ensures CreateUrlFromPath(path) == PathUrl(path)
  {
    var x := PathUrl(path) + ",+" + path[|path| - 1] + "-";
    assert x == PathUrl(path) + (",+" + path[|path| - 1] + "-");
  }

  /** With two-letter codes the fixed cut eats a character of the last code. */
  lemma UrlCutsShortCodes()
    ensures CreateUrlFromPath(["AB", "CD"]) == "AB-C"
    ensures PathUrl(["AB", "CD"]) == "AB-CD"
  {
    var path := ["AB", "CD"];
    var pieces := seq(2, i requires 0 <= i < 2 => path[i] + "-" + (if i + 1 < 2 then path[i + 1] else ""));
    assert pieces[0] == "AB" + "-" + "CD" == "AB-CD";
    assert pieces[1] == "CD" + "-" + "" == "CD-";
    assert pieces == ["AB-CD", "CD-"];
    assert Terminated(pieces[1..], ",+") == "CD-" + ",+" + Terminated([], ",+");
    assert Terminated(pieces, ",+") == "AB-CD,+CD-,+";
    assert Pairs(path) == ["AB-CD"];
  }

  /**
   A walk read back from the test's predecessor map: the chain from the
   destination is forced, so the route is the test's.
   */
  lemma TestRouteForced(prev: map<string, string>, destination: string, path: seq<string>)
    requires prev == map["DEF" := "ABC", "GHI" := "DEF", "JKL" := "ABC"]
    requires |path| >= 1 && path[0] == "ABC" && path[|path| - 1] == destination
    requires forall i :: 0 < i < |path| ==> path[i] != "ABC"
    requires forall i :: 0 < i < |path| ==> path[i] in prev && prev[path[i]] == path[i - 1]
    ensures destination == "ABC" ==> path == ["ABC"]
    ensures destination == "DEF" ==> path == ["ABC", "DEF"]
    ensures destination == "GHI" ==> path == ["ABC", "DEF", "GHI"]
    ensures destination == "JKL" ==> path == ["ABC", "JKL"]
  {
    TestCodesDistinct();
    var n := |path|;
    if destination != "ABC" {
      assert n >= 2;
      assert path[n - 2] == prev[destination];
      if destination == "GHI" {
        assert path[n - 2] == "DEF";
        assert n >= 3 && path[n - 3] == "ABC";
      }
    }
  }

  /** The map URLs the Ruby test expects for its four routes. */
  lemma TestUrls()
    ensures CreateUrlFromPath(["ABC"]) == ""
    ensures CreateUrlFromPath(["ABC", "DEF"]) == "ABC-DEF"
    ensures CreateUrlFromPath(["ABC", "DEF", "GHI"]) == "ABC-DEF,+DEF-GHI"
    ensures CreateUrlFromPath(["ABC", "JKL"]) == "ABC-JKL"
  {
    UrlMatchesForThreeLetterCodes(["ABC", "DEF"]);
    UrlMatchesForThreeLetterCodes(["ABC", "DEF", "GHI"]);
    UrlMatchesForThreeLetterCodes(["ABC", "JKL"]);
    assert Pairs(["ABC", "DEF"])[0] == "ABC" + "-" + "DEF" == "ABC-DEF";
    assert Pairs(["ABC", "DEF"]) == ["ABC-DEF"];
    assert Pairs(["ABC", "JKL"])[0] == "ABC" + "-" + "JKL" == "ABC-JKL";
    assert Pairs(["ABC", "JKL"]) == ["ABC-JKL"];
    assert Pairs(["ABC", "DEF", "GHI"])[0] == "ABC" + "-" + "DEF" == "ABC-DEF";
    assert Pairs(["ABC", "DEF", "GHI"])[1] == "DEF" + "-" + "GHI" == "DEF-GHI";
    assert Pairs(["ABC", "DEF", "GHI"]) == ["ABC-DEF", "DEF-GHI"];
    assert Join(["ABC-DEF", "DEF-GHI"], ",+") == "ABC-DEF" + ",+" + Join(["DEF-GHI"], ",+");
  }

  /** The routes and map URLs of the Ruby Dijkstra test. */
  method TestNetworkRoutes() returns (toAbc: seq<string>, toDef: seq<string>, toGhi: seq<string>, toJkl: seq<string>)
    ensures toAbc == ["ABC"] && CreateUrlFromPath(toAbc) == ""
    ensures toDef == ["ABC", "DEF"] && CreateUrlFromPath(toDef) == "ABC-DEF"
    ensures toGhi == ["ABC", "DEF", "GHI"] && CreateUrlFromPath(toGhi) == "ABC-DEF,+DEF-GHI"
    ensures toJkl == ["ABC", "JKL"] && CreateUrlFromPath(toJkl) == "ABC-JKL"
  {
    var dist, prev := TestNetworkFromAbc();
    assert prev == map["DEF" := "ABC", "GHI" := "DEF", "JKL" := "ABC"];
    toAbc := CreateShortestPath("ABC", "ABC", prev);
    assert Ancestor(prev, "DEF", 1) == Some("ABC");
    toDef := CreateShortestPath("ABC", "DEF", prev);
    TestRouteForced(prev, "DEF", toDef);
    assert Ancestor(prev, "GHI", 2) == Some("ABC");
    toGhi := CreateShortestPath("ABC", "GHI", prev);
    TestRouteForced(prev, "GHI", toGhi);
    assert Ancestor(prev, "JKL", 1) == Some("ABC");
    toJkl := CreateShortestPath("ABC", "JKL", prev);
    TestRouteForced(prev, "JKL", toJkl);
    TestUrls();
  }
}
