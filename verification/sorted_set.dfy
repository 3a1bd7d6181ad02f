/**
 Ruby's `SortedSet` of strings, which both connection indexes keep their
 tokens in: a strictly increasing sequence under `String#<`. Being strictly
 increasing, it holds no duplicates, and the elements alone decide it.
 */
module SortedSet {
  import opened Text

  ghost predicate Sorted(s: seq<string>) {
    forall i, j :: 0 <= i < j < |s| ==> Less(s[i], s[j])
  }

  /** `set.add(t)`. */
  function Insert(s: seq<string>, t: string): (r: seq<string>)
    requires Sorted(s)
    ensures Sorted(r)
    ensures forall x :: x in r <==> x in s || x == t
  {
    if |s| == 0 then [t]
    else if t == s[0] then s
    else if Less(t, s[0]) then
      assert forall j :: 0 < j < |s| ==> Less(t, s[j]) by {
        forall j | 0 < j < |s| ensures Less(t, s[j]) {
          LessTransitive(t, s[0], s[j]);
        }
      }
      [t] + s
    else
      var rest := Insert(s[1..], t);
      LessTotal(t, s[0]);
      assert forall x :: x in rest ==> Less(s[0], x);
      [s[0]] + rest
  }

  /** `set.delete(t)`. */
  function Remove(s: seq<string>, t: string): (r: seq<string>)
    requires Sorted(s)
    ensures Sorted(r)
    ensures forall x :: x in r <==> x in s && x != t
  {
    if |s| == 0 then []
    else
      var rest := Remove(s[1..], t);
      if s[0] == t then rest
      else
        assert forall x :: x in rest ==> Less(s[0], x);
        [s[0]] + rest
  }

  /** Two sorted sequences with the same elements are the same sequence. */
  lemma {:induction false} SameElementsSame(s: seq<string>, t: seq<string>)
    requires Sorted(s) && Sorted(t)
    requires forall x :: x in s <==> x in t
    ensures s == t
  {
    assert |s| > 0 ==> s[0] in t;
    assert |t| > 0 ==> t[0] in s;
    if |s| > 0 && |t| > 0 {
      if s[0] != t[0] {
        assert s[0] in t && t[0] in s;
        LessTotal(s[0], t[0]);
        if Less(s[0], t[0]) {
          var j :| 0 <= j < |t| && t[j] == s[0];
          assert j > 0;
          LessAsymmetric(t[0], t[j]);
        }
      }
      forall x ensures x in s[1..] <==> x in t[1..] {
        if x in s[1..] {
          var i :| 1 <= i < |s| && s[i] == x;
          assert Less(s[0], x);
          LessIrreflexive(x);
          assert s[i] in s;
          var j :| 0 <= j < |t| && t[j] == x;
          assert j > 0;
          assert t[1..][j - 1] == x;
        }
        if x in t[1..] {
          var i :| 1 <= i < |t| && t[i] == x;
          assert Less(t[0], x);
          LessIrreflexive(x);
          assert t[i] in t;
          var j :| 0 <= j < |s| && s[j] == x;
          assert j > 0;
          assert s[1..][j - 1] == x;
        }
      }
      SameElementsSame(s[1..], t[1..]);
      assert s == [s[0]] + s[1..] && t == [t[0]] + t[1..];
    }
  }
}
