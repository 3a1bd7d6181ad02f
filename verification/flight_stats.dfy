/**
 The running network statistics both graph generations keep beside their
 adjacency storage (lib/model/graph/graph.rb and lib/csair_lib/graph.rb):
 the total distance, the number of flights, and the shortest and longest
 flight with their two ports. Every added flight is folded in by
 `make_statistics`; the extremes are replaced only on a strict improvement.
 */
module FlightStats {
  import opened Distance

  /** An extreme flight: its distance and its ports (`[]` before any update). */
  datatype Flight = Flight(distance: Dist, ports: seq<string>)

  datatype Stats = Stats(total: int, flights: int, shortest: Flight, longest: Flight)

  /** A route record as the loader supplies it. */
  datatype Record = Record(from: string, to: string, distance: nat)

  /** The statistics of a new graph: shortest starts at infinity, longest at 0. */
  function Initial(): Stats {
    Stats(0, 0, Flight(Inf, []), Flight(Fin(0), []))
  }

  /**
   `account_for_shortest_flight`: the result is the shorter of the two flights,
   and on a tie the recorded flight keeps its ports.
   */
  function AccountForShortest(f: Flight, a: string, b: string, d: nat): (r: Flight)
    ensures AtMost(r.distance, f.distance) && AtMost(r.distance, Fin(d))
    ensures r == f || r == Flight(Fin(d), [a, b])
    ensures r.distance == f.distance ==> r == f
  {
    if Below(Fin(d), f.distance) then Flight(Fin(d), [a, b]) else f
  }

  /**
   `account_for_longest_flight`: the result is the longer of the two flights,
   and on a tie the recorded flight keeps its ports.
   */
  function AccountForLongest(f: Flight, a: string, b: string, d: nat): (r: Flight)
    ensures AtMost(f.distance, r.distance) && AtMost(Fin(d), r.distance)
    ensures r == f || r == Flight(Fin(d), [a, b])
    ensures r.distance == f.distance ==> r == f
  {
    if Below(f.distance, Fin(d)) then Flight(Fin(d), [a, b]) else f
  }

  /** `make_statistics`: one more flight of distance `d` from `a` to `b`. */
  function MakeStatistics(s: Stats, a: string, b: string, d: nat): (r: Stats)
    ensures r.total == s.total + d && r.flights == s.flights + 1
    ensures AtMost(r.shortest.distance, Fin(d)) && AtMost(r.shortest.distance, s.shortest.distance)
    ensures AtMost(Fin(d), r.longest.distance) && AtMost(s.longest.distance, r.longest.distance)
  {
    Stats(s.total + d, s.flights + 1,
          AccountForShortest(s.shortest, a, b, d),
          AccountForLongest(s.longest, a, b, d))
  }

  /** The statistics after recording every flight of `rs` in order. */
  function Replay(s: Stats, rs: seq<Record>): Stats
  {
    if |rs| == 0 then s
    else
      var last := rs[|rs| - 1];
      MakeStatistics(Replay(s, rs[..|rs| - 1]), last.from, last.to, last.distance)
  }

  /** Folding `account_for_shortest_flight` over `rs` in order, from `start`. */
  function ScanShortest(start: Flight, rs: seq<Record>): Flight
  {
    if |rs| == 0 then start
    else
      var last := rs[|rs| - 1];
      AccountForShortest(ScanShortest(start, rs[..|rs| - 1]), last.from, last.to, last.distance)
  }

  /** Folding `account_for_longest_flight` over `rs` in order, from `start`. */
  function ScanLongest(start: Flight, rs: seq<Record>): Flight
  {
    if |rs| == 0 then start
    else
      var last := rs[|rs| - 1];
      AccountForLongest(ScanLongest(start, rs[..|rs| - 1]), last.from, last.to, last.distance)
  }

  function SumDistances(rs: seq<Record>): nat
  {
    if |rs| == 0 then 0 else SumDistances(rs[..|rs| - 1]) + rs[|rs| - 1].distance
  }

  /** `rs[i]` is a shortest record and no earlier record is as short. */
  ghost predicate FirstShortest(rs: seq<Record>, i: int) {
    && 0 <= i < |rs|
    && (forall j :: 0 <= j < |rs| ==> rs[i].distance <= rs[j].distance)
    && (forall j :: 0 <= j < i ==> rs[i].distance < rs[j].distance)
  }

  /** `rs[i]` is a longest record and no earlier record is as long. */
  ghost predicate FirstLongest(rs: seq<Record>, i: int) {
    && 0 <= i < |rs|
    && (forall j :: 0 <= j < |rs| ==> rs[j].distance <= rs[i].distance)
    && (forall j :: 0 <= j < i ==> rs[j].distance < rs[i].distance)
  }

  ghost predicate AllZero(rs: seq<Record>) {
    forall j :: 0 <= j < |rs| ==> rs[j].distance == 0
  }

  /** Replaying records folds each statistic separately. */
  lemma {:induction false} ReplayFolds(s: Stats, rs: seq<Record>)
    ensures Replay(s, rs).total == s.total + SumDistances(rs)
    ensures Replay(s, rs).flights == s.flights + |rs|
    ensures Replay(s, rs).shortest == ScanShortest(s.shortest, rs)
    ensures Replay(s, rs).longest == ScanLongest(s.longest, rs)
  {
    if |rs| > 0 {
      ReplayFolds(s, rs[..|rs| - 1]);
    }
  }

  /**
   A scan for the shortest flight that starts at infinity ends at the first
   record of least distance, or at its start when there are no records.
   */
  lemma {:induction false} ScanShortestFinds(ports: seq<string>, rs: seq<Record>)
    ensures var f := ScanShortest(Flight(Inf, ports), rs);
            || (|rs| == 0 && f == Flight(Inf, ports))
            || (exists i :: FirstShortest(rs, i) && f == Flight(Fin(rs[i].distance), [rs[i].from, rs[i].to]))
  {
    if |rs| > 0 {
      var n := |rs| - 1;
      var pre := rs[..n];
      ScanShortestFinds(ports, pre);
      var f0 := ScanShortest(Flight(Inf, ports), pre);
      var e := rs[n];
      assert ScanShortest(Flight(Inf, ports), rs) == AccountForShortest(f0, e.from, e.to, e.distance);
      if n == 0 {
        assert FirstShortest(rs, 0);
      } else {
        var i :| FirstShortest(pre, i) && f0 == Flight(Fin(pre[i].distance), [pre[i].from, pre[i].to]);
        assert pre[i] == rs[i];
        ShortestSnoc(rs, i);
      }
    }
  }

  /** The first shortest record of a prefix stays first unless the next record is strictly shorter. */
  lemma ShortestSnoc(rs: seq<Record>, i: int)
    requires |rs| > 0 && FirstShortest(rs[..|rs| - 1], i)
    ensures rs[|rs| - 1].distance < rs[i].distance ==> FirstShortest(rs, |rs| - 1)
    ensures rs[|rs| - 1].distance >= rs[i].distance ==> FirstShortest(rs, i)
  {
    var pre := rs[..|rs| - 1];
    assert forall j :: 0 <= j < |pre| ==> pre[j] == rs[j];
  }

  /**
   A scan for the longest flight that starts at 0 ends at the first record of
   greatest distance; it keeps its start while every record has length 0.
   */
  lemma {:induction false} ScanLongestFinds(ports: seq<string>, rs: seq<Record>)
    ensures var f := ScanLongest(Flight(Fin(0), ports), rs);
            || (f == Flight(Fin(0), ports) && AllZero(rs))
            || (exists i :: FirstLongest(rs, i) && rs[i].distance > 0
                  && f == Flight(Fin(rs[i].distance), [rs[i].from, rs[i].to]))
  {
    if |rs| > 0 {
      var n := |rs| - 1;
      var pre := rs[..n];
      ScanLongestFinds(ports, pre);
      var f0 := ScanLongest(Flight(Fin(0), ports), pre);
      var e := rs[n];
      assert ScanLongest(Flight(Fin(0), ports), rs) == AccountForLongest(f0, e.from, e.to, e.distance);
      if f0 == Flight(Fin(0), ports) && AllZero(pre) {
        ZeroSnoc(rs);
      } else {
        var i :| FirstLongest(pre, i) && pre[i].distance > 0
                 && f0 == Flight(Fin(pre[i].distance), [pre[i].from, pre[i].to]);
        assert pre[i] == rs[i];
        LongestSnoc(rs, i);
      }
    }
  }

  /** After records of length 0 only, the next record is the first longest one unless it has length 0 too. */
  lemma ZeroSnoc(rs: seq<Record>)
    requires |rs| > 0 && AllZero(rs[..|rs| - 1])
    ensures rs[|rs| - 1].distance > 0 ==> FirstLongest(rs, |rs| - 1)
    ensures rs[|rs| - 1].distance == 0 ==> AllZero(rs)
  {
    var pre := rs[..|rs| - 1];
    assert forall j :: 0 <= j < |pre| ==> pre[j] == rs[j];
  }

  /** The first longest record of a prefix stays first unless the next record is strictly longer. */
  lemma LongestSnoc(rs: seq<Record>, i: int)
    requires |rs| > 0 && FirstLongest(rs[..|rs| - 1], i)
    ensures rs[|rs| - 1].distance > rs[i].distance ==> FirstLongest(rs, |rs| - 1)
    ensures rs[|rs| - 1].distance <= rs[i].distance ==> FirstLongest(rs, i)
  {
    var pre := rs[..|rs| - 1];
    assert forall j :: 0 <= j < |pre| ==> pre[j] == rs[j];
  }

  /** Under additions only, the running totals are the sum and the count of the added flights. */
  lemma ReplayTotals(rs: seq<Record>)
    ensures Replay(Initial(), rs).total == SumDistances(rs)
    ensures Replay(Initial(), rs).flights == |rs|
  {
    ReplayFolds(Initial(), rs);
  }

  /**
   Under additions only, the shortest flight is the first record of least
   distance (infinity with no ports when nothing was added).
   */
  lemma ReplayShortest(rs: seq<Record>)
    ensures var f := Replay(Initial(), rs).shortest;
            || (|rs| == 0 && f == Flight(Inf, []))
            || (exists i :: FirstShortest(rs, i) && f == Flight(Fin(rs[i].distance), [rs[i].from, rs[i].to]))
  {
    ReplayFolds(Initial(), rs);
    ScanShortestFinds([], rs);
  }

  /**
   Under additions only, the longest flight is the first record of greatest
   distance; it keeps distance 0 and no ports while every record has length 0.
   */
  lemma ReplayLongest(rs: seq<Record>)
    ensures var f := Replay(Initial(), rs).longest;
            || (f == Flight(Fin(0), []) && AllZero(rs))
            || (exists i :: FirstLongest(rs, i) && rs[i].distance > 0
                  && f == Flight(Fin(rs[i].distance), [rs[i].from, rs[i].to]))
  {
    ReplayFolds(Initial(), rs);
    ScanLongestFinds([], rs);
  }
}
