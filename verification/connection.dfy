/**
 The connection index of lib/csair_lib/connection.rb: a sorted set of
 canonical undirected tokens `"ABC-DEF"`, upper-cased, with the code that is
 smaller ignoring case first, rendered for the map URL joined by `,+`.
 */
module Connection {
  import opened Text
  import opened SortedSet

  datatype Connection = Connection(tokens: seq<string>) {
    ghost predicate Valid() {
      Sorted(tokens)
    }
  }

  function Empty(): (c: Connection)
    ensures c.Valid() && c.tokens == []
  {
    Connection([])
  }

  /** `u -> v` is one of the two directions between `a` and `b`. */
  predicate Pair(u: string, v: string, a: string, b: string) {
    (u == a && v == b) || (u == b && v == a)
  }

  /** `dash_between_uppercase`: splitting at the dash gives back both codes, upper-cased. */
  function DashBetweenUppercase(two: string, words: string): (r: string)
    ensures |r| == |two| + 1 + |words| && r[|two|] == '-'
    ensures r[..|two|] == Upper(two) && r[|two| + 1..] == Upper(words)
  {
    Upper(two) + "-" + Upper(words)
  }

  /**
   `alphabetical_order`: the canonical token of the pair, the code that is
   smaller ignoring case first; codes equal ignoring case give one token.
   */
  function AlphabeticalOrder(first: string, second: string): (r: string)
    ensures r == DashBetweenUppercase(first, second) || r == DashBetweenUppercase(second, first)
    ensures Less(Lower(first), Lower(second)) ==> r == DashBetweenUppercase(first, second)
    ensures Less(Lower(second), Lower(first)) ==> r == DashBetweenUppercase(second, first)
    ensures Lower(first) == Lower(second) ==> r == DashBetweenUppercase(first, second)
  {
    if Less(Lower(first), Lower(second)) then
      LessAsymmetric(Lower(first), Lower(second));
      DashBetweenUppercase(first, second)
    else
      assert Lower(first) == Lower(second) ==> Upper(first) == Upper(second) by {
        if Lower(first) == Lower(second) {
          SameLowerSameUpper(first, second);
        }
      }
      DashBetweenUppercase(second, first)
  }

  /**
   The token is the two codes upper-cased, joined by a dash, the one that is
   smaller ignoring case first.
   */
  lemma TokenIsOrdered(a: string, b: string)
    ensures exists x, y :: && {x, y} == {a, b}
                           && !Less(Lower(y), Lower(x))
                           && AlphabeticalOrder(a, b) == Upper(x) + "-" + Upper(y)
  {
    if Less(Lower(a), Lower(b)) {
      LessAsymmetric(Lower(a), Lower(b));
      assert {a, b} == {a, b} && !Less(Lower(b), Lower(a));
    } else {
      assert {b, a} == {a, b};
    }
  }

  /** Argument order never matters: the token of `(a, b)` is the token of `(b, a)`. */
  lemma TokenSymmetric(a: string, b: string)
    ensures AlphabeticalOrder(a, b) == AlphabeticalOrder(b, a)
  {
    if Lower(a) == Lower(b) {
      SameLowerSameUpper(a, b);
      LessIrreflexive(Lower(a));
    } else {
      LessTotal(Lower(a), Lower(b));
      if Less(Lower(a), Lower(b)) {
        LessAsymmetric(Lower(a), Lower(b));
      }
    }
  }

  /** `add_connection`: a pair of equal codes is ignored. */
  function AddConnection(c: Connection, first: string, second: string): (r: Connection)
    requires c.Valid()
    ensures r.Valid()
    ensures first == second ==> r == c
    ensures first != second ==> forall t :: t in r.tokens <==> t in c.tokens || t == AlphabeticalOrder(first, second)
  {
    if first == second then c else Connection(Insert(c.tokens, AlphabeticalOrder(first, second)))
  }

  /** Adding a connection that is already there changes nothing. */
  lemma AddConnectionIdempotent(c: Connection, a: string, b: string)
    requires c.Valid()
    ensures AddConnection(AddConnection(c, a, b), a, b) == AddConnection(c, a, b)
  {
    var once := AddConnection(c, a, b);
    SameElementsSame(AddConnection(once, a, b).tokens, once.tokens);
  }

  /** The index depends only on which pairs were added: order and direction do not matter. */
  lemma AddConnectionCommutes(c: Connection, a: string, b: string, x: string, y: string)
    requires c.Valid()
    ensures AddConnection(AddConnection(c, a, b), x, y) == AddConnection(AddConnection(c, y, x), b, a)
  {
    TokenSymmetric(a, b);
    TokenSymmetric(x, y);
    SameElementsSame(AddConnection(AddConnection(c, a, b), x, y).tokens,
                     AddConnection(AddConnection(c, y, x), b, a).tokens);
  }

  /** `get_connection_url`: the tokens in sorted order joined by `,+`, no trailing delimiter. */
  function GetConnectionUrl(c: Connection): (r: string)
    ensures r == Join(c.tokens, ",+")
    ensures c.tokens == [] ==> r == ""
  {
    DropTerminatorIsJoin(c.tokens, ",+");
    DropLast(Terminated(c.tokens, ",+"), 2)
  }

  /**
   `delete_connection` as written: it calls `add` on the set, so the token
   of the pair is present afterwards instead of absent.
   */
  function DeleteConnection(c: Connection, first: string, second: string): (r: Connection)
    requires c.Valid()
    ensures r.Valid()
    ensures forall t :: t in r.tokens <==> t in c.tokens || t == AlphabeticalOrder(first, second)
  {
    Connection(Insert(c.tokens, AlphabeticalOrder(first, second)))
  }

  /** Deleting a connection that was never added puts it into the URL. */
  lemma DeleteConnectionAddsToken()
    ensures GetConnectionUrl(DeleteConnection(Empty(), "abc", "def")) == "ABC-DEF"
  {
    assert AlphabeticalOrder("abc", "def") == "ABC-DEF";
  }

  /** The removal the doc-comment and the test describe: the pair's token is gone. */
  function RemoveConnection(c: Connection, first: string, second: string): (r: Connection)
    requires c.Valid()
    ensures r.Valid()
    ensures forall t :: t in r.tokens <==> t in c.tokens && t != AlphabeticalOrder(first, second)
  {
    Connection(Remove(c.tokens, AlphabeticalOrder(first, second)))
  }

  /** Removing undoes adding a connection that was not there before. */
  lemma RemoveUndoesAdd(c: Connection, a: string, b: string)
    requires c.Valid() && a != b
    requires AlphabeticalOrder(a, b) !in c.tokens
    ensures RemoveConnection(AddConnection(c, a, b), a, b) == c
  {
    SameElementsSame(RemoveConnection(AddConnection(c, a, b), a, b).tokens, c.tokens);
  }

  /** The three tokens of the Ruby URL-order test. */
  lemma ExampleTokens()
    ensures AlphabeticalOrder("def", "abc") == "ABC-DEF"
    ensures AlphabeticalOrder("geg", "abd") == "ABD-GEG"
    ensures AlphabeticalOrder("gef", "abd") == "ABD-GEF"
  {
    LowerCaseToken("abc", "def", "ABC-DEF");
    LowerCaseToken("abd", "geg", "ABD-GEG");
    LowerCaseToken("abd", "gef", "ABD-GEF");
  }

  /**
   Two distinct three-letter lower-case codes in order give the token of their
   upper-cased forms, whichever is passed first.
   */
  lemma LowerCaseToken(a: string, b: string, t: string)
    requires |a| == 3 && |b| == 3 && a[0] < b[0]
    requires forall i :: 0 <= i < 3 ==> 'a' <= a[i] <= 'z' && 'a' <= b[i] <= 'z'
    requires |t| == 7 && t[3] == '-'
    requires forall i :: 0 <= i < 3 ==> t[i] == UpperChar(a[i]) && t[i + 4] == UpperChar(b[i])
    ensures AlphabeticalOrder(b, a) == t
  {
    assert Lower(a) == a && Lower(b) == b;
    assert Less(a, b);
    LessAsymmetric(a, b);
    assert DashBetweenUppercase(a, b) == t;
  }

  /** The Ruby test of the URL order. */
  lemma UrlExample()
    ensures var c := AddConnection(AddConnection(AddConnection(Empty(), "def", "abc"), "geg", "abd"), "gef", "abd");
            GetConnectionUrl(c) == "ABC-DEF,+ABD-GEF,+ABD-GEG"
  {
    ExampleTokens();
    assert "def" != "abc" && "geg" != "abd" && "gef" != "abd" by {
      assert "def"[0] != "abc"[0] && "geg"[0] != "abd"[0] && "gef"[0] != "abd"[0];
    }
    var c1 := AddConnection(Empty(), "def", "abc");
    assert forall t :: t in c1.tokens <==> t == "ABC-DEF";
    var c2 := AddConnection(c1, "geg", "abd");
    assert forall t :: t in c2.tokens <==> t == "ABC-DEF" || t == "ABD-GEG";
    var c3 := AddConnection(c2, "gef", "abd");
    var expected := ["ABC-DEF", "ABD-GEF", "ABD-GEG"];
    assert forall t :: t in c3.tokens <==> t in expected;
    ExampleOrderSorted();
    SameElementsSame(c3.tokens, expected);
    ExampleUrlText();
  }

  lemma ExampleUrlText()
    ensures Join(["ABC-DEF", "ABD-GEF", "ABD-GEG"], ",+") == "ABC-DEF,+ABD-GEF,+ABD-GEG"
  {
    var xs := ["ABC-DEF", "ABD-GEF", "ABD-GEG"];
    assert xs[1..][1..] == ["ABD-GEG"];
    assert Join(xs[1..][1..], ",+") == "ABD-GEG";
    assert Join(xs[1..], ",+") == "ABD-GEF" + ",+" + "ABD-GEG";
    assert Join(xs, ",+") == "ABC-DEF" + ",+" + ("ABD-GEF" + ",+" + "ABD-GEG");
  }

  lemma ExampleOrderSorted()
    ensures Sorted(["ABC-DEF", "ABD-GEF", "ABD-GEG"])
  {
    assert Less("ABC-DEF", "ABD-GEF");
    assert Less("ABD-GEF", "ABD-GEG");
    LessTransitive("ABC-DEF", "ABD-GEF", "ABD-GEG");
  }
}
