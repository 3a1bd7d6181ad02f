/**
 The first connection index, lib/graph/connection.rb: the same sorted set of
 `"A-B"` tokens ordered ignoring case, but the codes keep the case they were
 given.
 */
module SketchConnection {
  import opened Text
  import opened SortedSet

  datatype Connection = Connection(tokens: seq<string>) {
    ghost predicate Valid() {
      Sorted(tokens)
    }
  }

  /** `dash_between`. */
  function DashBetween(two: string, words: string): (r: string)
    ensures |r| == |two| + 1 + |words| && r[|two|] == '-'
    ensures r[..|two|] == two && r[|two| + 1..] == words
  {
    two + "-" + words
  }

  /**
   `alphabetical_order`: smaller ignoring case first, original case kept.
   Codes equal ignoring case are not ordered, and the second comes first.
   */
  function AlphabeticalOrder(first: string, second: string): (r: string)
    ensures r == DashBetween(first, second) || r == DashBetween(second, first)
    ensures Less(Lower(first), Lower(second)) ==> r == DashBetween(first, second)
    ensures Less(Lower(second), Lower(first)) ==> r == DashBetween(second, first)
    ensures Lower(first) == Lower(second) ==> r == DashBetween(second, first)
  {
    if Less(Lower(first), Lower(second)) then
      LessAsymmetric(Lower(first), Lower(second));
      DashBetween(first, second)
    else
      LessIrreflexive(Lower(first));
      DashBetween(second, first)
  }

  /**
   The two argument orders give the same token exactly when the codes differ
   ignoring case or are identical; codes that differ only in case come out in
   the reverse of the order they were passed in.
   */
  lemma TokenSymmetricIff(a: string, b: string)
    ensures AlphabeticalOrder(a, b) == AlphabeticalOrder(b, a) <==> Lower(a) != Lower(b) || a == b
    ensures Lower(a) == Lower(b) ==> AlphabeticalOrder(a, b) == b + "-" + a
  {
    if Lower(a) == Lower(b) {
      LessIrreflexive(Lower(a));
      if a != b {
        assert |a| == |b|;
        assert (b + "-" + a)[..|b|] == b && (a + "-" + b)[..|a|] == a;
      }
    } else {
      LessTotal(Lower(a), Lower(b));
      if Less(Lower(a), Lower(b)) {
        LessAsymmetric(Lower(a), Lower(b));
      }
    }
  }

  /** `add_connection`: equal codes are ignored; otherwise the token joins the set once. */
  function AddConnection(c: Connection, first: string, second: string): (r: Connection)
    requires c.Valid()
    ensures r.Valid()
    ensures first == second ==> r == c
    ensures first != second ==> forall t :: t in r.tokens <==> t in c.tokens || t == AlphabeticalOrder(first, second)
  {
    if first == second then c else Connection(Insert(c.tokens, AlphabeticalOrder(first, second)))
  }

  /** The set deduplicates: adding the same pair again changes nothing. */
  lemma AddConnectionIdempotent(c: Connection, a: string, b: string)
    requires c.Valid()
    ensures AddConnection(AddConnection(c, a, b), a, b) == AddConnection(c, a, b)
  {
    var once := AddConnection(c, a, b);
    SameElementsSame(AddConnection(once, a, b).tokens, once.tokens);
  }

  /** Adding a pair in either direction gives the same set when the codes differ ignoring case. */
  lemma AddConnectionEitherDirection(c: Connection, a: string, b: string)
    requires c.Valid() && Lower(a) != Lower(b)
    ensures AddConnection(c, a, b) == AddConnection(c, b, a)
  {
    TokenSymmetricIff(a, b);
  }
}
