/**
 Ruby's `Hash` keyed by strings (airport codes): a finite map that remembers the order in which its keys were
 first inserted. Assigning an existing key keeps its position, assigning a new
 key appends it, and deleting a key removes it from the order. Iteration order
 matters in this system, because ties in the shortest-path frontier and in the
 extreme-flight rescans are broken by it.
 */
module Hashes {

  datatype Hash<V> = Hash(keys: seq<string>, vals: map<string, V>) {

    /** The order lists every key exactly once. */
    ghost predicate Valid() {
      && Distinct(keys)
      && (forall k :: k in vals <==> k in keys)
    }

    predicate Has(k: string) {
      k in vals
    }
  }

  /** No key occurs twice. */
  ghost predicate Distinct(s: seq<string>) {
    forall i, j :: 0 <= i < j < |s| ==> s[i] != s[j]
  }

  function Empty<V>(): (h: Hash<V>)
    ensures h.Valid() && h.vals == map[]
  {
    Hash([], map[])
  }

  /** `h[k] = v`. */
  function Put<V>(h: Hash<V>, k: string, v: V): (r: Hash<V>)
    requires h.Valid()
    ensures r.Valid()
    ensures r.vals == h.vals[k := v]
    ensures k in h.vals ==> r.keys == h.keys
    ensures k !in h.vals ==> r.keys == h.keys + [k]
  {
    if k in h.vals then Hash(h.keys, h.vals[k := v]) else Hash(h.keys + [k], h.vals[k := v])
  }

  /** The sequence with every occurrence of `k` removed, order kept. */
  function Without(s: seq<string>, k: string): (r: seq<string>)
    ensures forall x :: x in r <==> x in s && x != k
    ensures k !in s ==> r == s
    ensures |r| <= |s| && (k in s ==> |r| < |s|)
  {
    if |s| == 0 then []
    else if s[0] == k then Without(s[1..], k)
    else [s[0]] + Without(s[1..], k)
  }

  lemma {:induction false} WithoutDistinct(s: seq<string>, k: string)
    requires Distinct(s)
    ensures Distinct(Without(s, k))
  {
    if |s| > 0 {
      WithoutDistinct(s[1..], k);
      if s[0] != k {
        var r := Without(s[1..], k);
        assert s[0] !in s[1..];
        assert s[0] !in r;
        var w := [s[0]] + r;
        assert w == Without(s, k);
        forall i, j | 0 <= i < j < |w|
          ensures w[i] != w[j]
        {
          if i == 0 {
            assert w[j] == r[j - 1] && w[j] in r;
          } else {
            assert w[i] == r[i - 1] && w[j] == r[j - 1];
          }
        }
      }
    }
  }

  /** `h.delete(k)`. */
  function Delete<V>(h: Hash<V>, k: string): (r: Hash<V>)
    requires h.Valid()
    ensures r.Valid()
    ensures r.vals == h.vals - {k}
    ensures r.keys == Without(h.keys, k)
  {
    WithoutDistinct(h.keys, k);
    Hash(Without(h.keys, k), h.vals - {k})
  }

  /** `f` summed over the values of `ks` in `m` (keys missing from `m` add nothing). */
  function SumBy<V>(ks: seq<string>, m: map<string, V>, f: V -> int): int
  {
    if |ks| == 0 then 0 else (if ks[0] in m then f(m[ks[0]]) else 0) + SumBy(ks[1..], m, f)
  }

  /** `f` summed over every value of the hash. */
  function Sum<V>(h: Hash<V>, f: V -> int): int {
    SumBy(h.keys, h.vals, f)
  }

  lemma {:induction false} SumByFrame<V>(ks: seq<string>, m: map<string, V>, m': map<string, V>, f: V -> int)
    requires forall k :: k in ks ==> (k in m <==> k in m') && (k in m ==> m[k] == m'[k])
    ensures SumBy(ks, m, f) == SumBy(ks, m', f)
  {
    if |ks| > 0 {
      SumByFrame(ks[1..], m, m', f);
    }
  }

  lemma {:induction false} SumByAppend<V>(ks: seq<string>, m: map<string, V>, k: string, v: V, f: V -> int)
    requires k !in ks
    ensures SumBy(ks + [k], m[k := v], f) == SumBy(ks, m, f) + f(v)
  {
    if |ks| == 0 {
      assert SumBy([k], m[k := v], f) == f(v) + SumBy([], m[k := v], f);
    } else {
      assert (ks + [k])[1..] == ks[1..] + [k];
      SumByAppend(ks[1..], m, k, v, f);
    }
  }

  lemma {:induction false} SumByReplace<V>(ks: seq<string>, m: map<string, V>, k: string, v: V, f: V -> int)
    requires Distinct(ks) && k in ks && k in m
    ensures SumBy(ks, m[k := v], f) == SumBy(ks, m, f) - f(m[k]) + f(v)
  {
    if ks[0] == k {
      assert k !in ks[1..] by {
        forall i | 1 <= i < |ks| ensures ks[i] != k { }
      }
      SumByFrame(ks[1..], m, m[k := v], f);
    } else {
      SumByReplace(ks[1..], m, k, v, f);
    }
  }

  lemma {:induction false} SumByRemove<V>(ks: seq<string>, m: map<string, V>, k: string, f: V -> int)
    requires Distinct(ks) && k in ks && k in m
    ensures SumBy(Without(ks, k), m - {k}, f) == SumBy(ks, m, f) - f(m[k])
  {
    if ks[0] == k {
      assert k !in ks[1..] by {
        forall i | 1 <= i < |ks| ensures ks[i] != k { }
      }
      assert Without(ks[1..], k) == ks[1..];
      SumByFrame(ks[1..], m, m - {k}, f);
    } else {
      SumByRemove(ks[1..], m, k, f);
      assert Without(ks, k) == [ks[0]] + Without(ks[1..], k);
    }
  }

  /** How `h[k] = v` changes a sum: the old value of `k` (if any) is traded for `v`. */
  lemma SumPut<V>(h: Hash<V>, k: string, v: V, f: V -> int)
    requires h.Valid()
    ensures Sum(Put(h, k, v), f) == Sum(h, f) - (if k in h.vals then f(h.vals[k]) else 0) + f(v)
  {
    if k in h.vals {
      SumByReplace(h.keys, h.vals, k, v, f);
    } else {
      SumByAppend(h.keys, h.vals, k, v, f);
    }
  }

  /** How `h.delete(k)` changes a sum: the value of `k` (if any) drops out. */
  lemma SumDelete<V>(h: Hash<V>, k: string, f: V -> int)
    requires h.Valid()
    ensures Sum(Delete(h, k), f) == Sum(h, f) - (if k in h.vals then f(h.vals[k]) else 0)
  {
    if k in h.vals {
      SumByRemove(h.keys, h.vals, k, f);
    } else {
      SumByFrame(h.keys, h.vals, h.vals - {k}, f);
    }
  }

  /** The number of keys drops by one when a present key is deleted. */
  lemma {:induction false} WithoutLength(s: seq<string>, k: string)
    requires Distinct(s) && k in s
    ensures |Without(s, k)| == |s| - 1
  {
    if s[0] == k {
      assert k !in s[1..] by {
        forall i | 1 <= i < |s| ensures s[i] != k { }
      }
    } else {
      WithoutLength(s[1..], k);
    }
  }
}
