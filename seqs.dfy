/** Sequence helpers for the ordered list of live characters. */
module Seqs {

  /** No element occurs twice. */
  ghost predicate Distinct<T>(s: seq<T>)
  {
    forall i, j :: 0 <= i < j < |s| ==> s[i] != s[j]
  }

  /** `s` with every occurrence of `x` filtered out, the others in their order. */
  function Without<T(==)>(s: seq<T>, x: T): (r: seq<T>)
    ensures x !in r
    ensures forall k :: 0 <= k < |r| ==> r[k] in s
    ensures |r| <= |s|
  {
    if s == [] then []
    else (if s[0] == x then [] else [s[0]]) + Without(s[1..], x)
  }

  /** Filtering out `x` keeps every element that differs from `x`. */
  lemma {:induction false} WithoutKeepsOthers<T>(s: seq<T>, x: T, y: T)
    requires y in s && y != x
    ensures y in Without(s, x)
  {
    if s[0] != y {
      WithoutKeepsOthers(s[1..], x, y);
    }
  }

  lemma DistinctTail<T>(s: seq<T>)
    requires Distinct(s) && s != []
    ensures Distinct(s[1..]) && s[0] !in s[1..]
  {
    var t := s[1..];
    forall a, b | 0 <= a < b < |t| ensures t[a] != t[b] {
      assert t[a] == s[a + 1] && t[b] == s[b + 1];
    }
    forall k | 0 <= k < |t| ensures t[k] != s[0] {
      assert t[k] == s[k + 1];
    }
  }

  /** Filtering out an element that does not occur changes nothing. */
  lemma {:induction false} WithoutAbsent<T>(s: seq<T>, x: T)
    requires x !in s
    ensures Without(s, x) == s
  {
    if s != [] {
      WithoutAbsent(s[1..], x);
      assert s == [s[0]] + s[1..];
    }
  }

  /** In a list without duplicates, filtering out the element at `i` removes exactly
      that position and keeps every other element in its place in the order. */
  lemma {:induction false} WithoutRemovesOne<T>(s: seq<T>, i: int)
    requires Distinct(s) && 0 <= i < |s|
    decreases |s|, 1
    ensures Without(s, s[i]) == s[..i] + s[i + 1..]
  {
    DistinctTail(s);
    if i == 0 {
      WithoutAbsent(s[1..], s[0]);
      assert Without(s, s[0]) == [] + Without(s[1..], s[0]);
    } else {
      WithoutRemovesLater(s, i);
    }
  }

  lemma {:induction false} WithoutRemovesLater<T>(s: seq<T>, i: int)
    requires Distinct(s) && 0 < i < |s|
    decreases |s|, 0
    ensures Without(s, s[i]) == s[..i] + s[i + 1..]
  {
    var x, t := s[i], s[1..];
    DistinctTail(s);
    assert t[i - 1] == x;
    WithoutRemovesOne(t, i - 1);
    assert s[0] != x;
    assert Without(s, x) == [s[0]] + Without(t, x);
  }

  /** Filtering keeps a list free of duplicates. */
  lemma {:induction false} WithoutKeepsDistinct<T>(s: seq<T>, x: T)
    requires Distinct(s)
    ensures Distinct(Without(s, x))
  {
    if s != [] {
      var t := s[1..];
      DistinctTail(s);
      WithoutKeepsDistinct(t, x);
      var rest := Without(t, x);
      if s[0] != x {
        assert s[0] !in rest by {
          forall k | 0 <= k < |rest| ensures rest[k] != s[0] {
            assert rest[k] in t;
          }
        }
        var r := [s[0]] + rest;
        forall a, b | 0 <= a < b < |r| ensures r[a] != r[b] {
          assert r[b] == rest[b - 1];
          if a > 0 {
            assert r[a] == rest[a - 1];
          }
        }
      } else {
        assert Without(s, x) == rest;
      }
    }
  }

  /** Appending an element that does not occur keeps a list free of duplicates. */
  lemma AppendKeepsDistinct<T>(s: seq<T>, x: T)
    requires Distinct(s) && x !in s
    ensures Distinct(s + [x])
  {
    var r := s + [x];
    forall a, b | 0 <= a < b < |r| ensures r[a] != r[b] {
      assert r[a] == s[a];
      if b < |s| {
        assert r[b] == s[b];
      }
    }
  }
}
