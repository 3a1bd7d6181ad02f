/**
 String helpers shared by the whole model: Ruby's `downcase`/`upcase` on the
 ASCII letters, Ruby's `String#<` (code-point lexicographic order), the
 "append a separator after every item, then cut the tail" idiom the Ruby code
 uses to build joined strings, and decimal rendering of integers (`to_s`).
 */
module Text {

  function LowerChar(c: char): char {
    if 'A' <= c <= 'Z' then (c as int + 32) as char else c
  }

  function UpperChar(c: char): char {
    if 'a' <= c <= 'z' then (c as int - 32) as char else c
  }

  /** Ruby's `downcase`, restricted to the ASCII letters. */
  function Lower(s: string): (r: string)
    ensures |r| == |s|
    ensures forall i :: 0 <= i < |s| ==> r[i] == LowerChar(s[i])
  {
    seq(|s|, i requires 0 <= i < |s| => LowerChar(s[i]))
  }

  /** Ruby's `upcase`, restricted to the ASCII letters. */
  function Upper(s: string): (r: string)
    ensures |r| == |s|
    ensures forall i :: 0 <= i < |s| ==> r[i] == UpperChar(s[i])
  {
    seq(|s|, i requires 0 <= i < |s| => UpperChar(s[i]))
  }

  /** Lower-casing is idempotent, so a lower-cased key is its own key. */
  lemma LowerIdempotent(s: string)
    ensures Lower(Lower(s)) == Lower(s)
  {
  }

  /** Two strings that agree ignoring case agree once upper-cased. */
  lemma SameLowerSameUpper(a: string, b: string)
    requires Lower(a) == Lower(b)
    ensures Upper(a) == Upper(b)
  {
    forall i | 0 <= i < |a|
      ensures Upper(a)[i] == Upper(b)[i]
    {
      assert Lower(a)[i] == Lower(b)[i];
    }
  }

  /** Ruby's `String#<`: lexicographic on code points, a proper prefix first. */
  predicate Less(a: string, b: string)
    decreases |a|
  {
    if |a| == 0 then |b| > 0
    else if |b| == 0 then false
    else if a[0] == b[0] then Less(a[1..], b[1..])
    else a[0] < b[0]
  }

  lemma {:induction false} LessIrreflexive(a: string)
    ensures !Less(a, a)
    decreases |a|
  {
    if |a| > 0 {
      LessIrreflexive(a[1..]);
    }
  }

  lemma {:induction false} LessTransitive(a: string, b: string, c: string)
    requires Less(a, b) && Less(b, c)
    ensures Less(a, c)
    decreases |a|
  {
    if |a| > 0 && a[0] == b[0] && b[0] == c[0] {
      LessTransitive(a[1..], b[1..], c[1..]);
    }
  }

  lemma {:induction false} LessTotal(a: string, b: string)
    requires a != b
    ensures Less(a, b) || Less(b, a)
    decreases |a|
  {
    if |a| > 0 && |b| > 0 && a[0] == b[0] {
      assert a == [a[0]] + a[1..] && b == [b[0]] + b[1..];
      LessTotal(a[1..], b[1..]);
    }
  }

  lemma {:induction false} LessAsymmetric(a: string, b: string)
    requires Less(a, b)
    ensures !Less(b, a)
  {
    if Less(b, a) {
      LessTransitive(a, b, a);
      LessIrreflexive(a);
    }
  }

  /** The items joined by `sep`, with no leading or trailing separator. */
  function Join(xs: seq<string>, sep: string): string
  {
    if |xs| == 0 then ""
    else if |xs| == 1 then xs[0]
    else xs[0] + sep + Join(xs[1..], sep)
  }

  /** Joining one more item appends the separator and the item (just the item to an empty list). */
  lemma {:induction false} JoinSnoc(xs: seq<string>, x: string, sep: string)
    ensures Join(xs + [x], sep) == if |xs| == 0 then x else Join(xs, sep) + sep + x
  {
    if |xs| == 1 {
      assert xs + [x] == [xs[0], x];
      assert [xs[0], x][1..] == [x];
    } else if |xs| > 1 {
      JoinSnoc(xs[1..], x, sep);
      assert (xs + [x])[1..] == xs[1..] + [x];
    }
  }

  /** Every item followed by `sep`: what the Ruby `each { s << x << sep }` loops build. */
  function Terminated(xs: seq<string>, sep: string): (r: string)
    ensures |xs| > 0 ==> |r| >= |sep|
  {
    if |xs| == 0 then "" else xs[0] + sep + Terminated(xs[1..], sep)
  }

  /** Ruby's `s[0..-(n+1)]`: everything but the last `n` characters, or "" when `s` is shorter. */
  function DropLast(s: string, n: nat): (r: string)
    ensures |s| >= n ==> r == s[..|s| - n]
    ensures |s| < n ==> r == ""
  {
    if |s| >= n then s[..|s| - n] else ""
  }

  /** Cutting one separator off a terminated list gives the joined list. */
  lemma {:induction false} DropTerminatorIsJoin(xs: seq<string>, sep: string)
    ensures DropLast(Terminated(xs, sep), |sep|) == Join(xs, sep)
  {
    if |xs| > 1 {
      DropTerminatorIsJoin(xs[1..], sep);
      var t := Terminated(xs[1..], sep);
      assert Terminated(xs, sep) == xs[0] + sep + t;
      assert (xs[0] + sep + t)[..|xs[0] + sep + t| - |sep|] == xs[0] + sep + t[..|t| - |sep|];
    } else if |xs| == 1 {
      assert Terminated(xs, sep) == xs[0] + sep + "";
      assert (xs[0] + sep)[..|xs[0] + sep| - |sep|] == xs[0];
    }
  }

  /** A non-empty terminated list is the joined list followed by one separator. */
  lemma {:induction false} TerminatedIsJoinThenSep(xs: seq<string>, sep: string)
    requires |xs| > 0
    ensures Terminated(xs, sep) == Join(xs, sep) + sep
  {
    if |xs| > 1 {
      TerminatedIsJoinThenSep(xs[1..], sep);
      assert Terminated(xs, sep) == xs[0] + sep + (Join(xs[1..], sep) + sep);
    } else {
      assert Terminated(xs, sep) == xs[0] + sep + "";
    }
  }

  function DigitChar(d: nat): char
    requires d < 10
  {
    ('0' as int + d) as char
  }

  predicate IsDigit(c: char) {
    '0' <= c <= '9'
  }

  function DigitValue(c: char): nat
    requires IsDigit(c)
  {
    c as int - '0' as int
  }

  /** Ruby's `Integer#to_s` on a non-negative value. */
  function NatToString(n: nat): (r: string)
    ensures |r| > 0
    ensures forall i :: 0 <= i < |r| ==> IsDigit(r[i])
    ensures r[0] == '0' ==> n == 0
  {
    if n < 10 then [DigitChar(n)] else NatToString(n / 10) + [DigitChar(n % 10)]
  }

  /** Reads a string of decimal digits back as a number. */
  function ParseNat(s: string): nat
    requires forall i :: 0 <= i < |s| ==> IsDigit(s[i])
  {
    if |s| == 0 then 0 else ParseNat(s[..|s| - 1]) * 10 + DigitValue(s[|s| - 1])
  }

  /** The decimal rendering is read back as the same number. */
  lemma {:induction false} ParseNatToString(n: nat)
    ensures ParseNat(NatToString(n)) == n
  {
    if n >= 10 {
      ParseNatToString(n / 10);
      var s := NatToString(n);
      assert s[..|s| - 1] == NatToString(n / 10);
    }
  }

  /** Decimal digits without a leading zero (except for `0` itself): the form Ruby prints. */
  predicate Numeral(s: string) {
    && |s| > 0
    && (forall i :: 0 <= i < |s| ==> IsDigit(s[i]))
    && (s[0] == '0' ==> |s| == 1)
  }

  /**
   Ruby's `Integer#to_s`: a minus sign exactly for a negative value, followed
   by the numeral of the magnitude.
   */
  function IntToString(i: int): (r: string)
    ensures |r| > 0 && (r[0] == '-' <==> i < 0)
    ensures i >= 0 ==> Numeral(r) && ParseNat(r) == i
    ensures i < 0 ==> Numeral(r[1..]) && ParseNat(r[1..]) == -i
  {
    var m: nat := if i >= 0 then i else -i;
    ParseNatToString(m);
    var s := NatToString(m);
    assert s[0] == '0' ==> |s| == 1;
    if i >= 0 then s
    else
      assert ("-" + s)[1..] == s;
      "-" + s
  }

  /** Distinct integers render as distinct strings. */
  lemma IntToStringInjective(i: int, j: int)
    requires IntToString(i) == IntToString(j)
    ensures i == j
  {
    if i >= 0 && j >= 0 {
      ParseNatToString(i);
      ParseNatToString(j);
    } else if i < 0 && j < 0 {
      var si, sj := NatToString(-i), NatToString(-j);
      assert ("-" + si)[1..] == si && ("-" + sj)[1..] == sj;
      ParseNatToString(-i);
      ParseNatToString(-j);
    }
  }
}
