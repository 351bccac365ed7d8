/** Sizes of finite sets, duplicate-free lists and members of permuted lists. */
module Counting {

  ghost predicate Distinct<T>(s: seq<T>) {
    forall i, j :: 0 <= i < j < |s| ==> s[i] != s[j]
  }

  lemma DistinctAppend<T>(a: seq<T>, b: seq<T>)
    requires Distinct(a) && Distinct(b) && forall x :: x in a ==> x !in b
    ensures Distinct(a + b)
  {
    forall i, j | 0 <= i < j < |a + b| ensures (a + b)[i] != (a + b)[j] {
      if i < |a| <= j {
        assert a[i] in a && b[j - |a|] in b;
      }
    }
  }

  lemma {:induction false} DistinctCounts<T>(s: seq<T>)
    ensures Distinct(s) <==> forall x :: multiset(s)[x] <= 1
  {
    if s != [] {
      var n := |s| - 1;
      DistinctCounts(s[..n]);
      assert s == s[..n] + [s[n]];
      if !Distinct(s) && Distinct(s[..n]) {
        var i :| 0 <= i < n && s[i] == s[n];
        assert s[..n][i] == s[n] && s[n] in multiset(s[..n]);
        assert multiset(s)[s[n]] >= 2;
      }
      if Distinct(s) {
        assert s[n] !in s[..n];
        assert Distinct(s[..n]);
      } else if !Distinct(s[..n]) {
        var x :| multiset(s[..n])[x] > 1;
        assert multiset(s)[x] > 1;
      }
    }
  }

  lemma DistinctPermutes<T>(a: seq<T>, b: seq<T>)
    requires Distinct(a) && multiset(a) == multiset(b)
    ensures Distinct(b)
  {
    DistinctCounts(a);
    DistinctCounts(b);
  }

  lemma SameMembers<T>(a: seq<T>, b: seq<T>)
    requires multiset(a) == multiset(b)
    ensures |a| == |b| && forall x :: x in a <==> x in b
  {
    assert |multiset(a)| == |a| && |multiset(b)| == |b|;
    forall x ensures x in a <==> x in b {
      assert x in a <==> x in multiset(a);
      assert x in b <==> x in multiset(b);
    }
  }

  ghost predicate DistinctBy<T, K>(s: seq<T>, f: T -> K) {
    forall i, j :: 0 <= i < j < |s| ==> f(s[i]) != f(s[j])
  }

  lemma DistinctByPermutes<T, K>(a: seq<T>, b: seq<T>, f: T -> K)
    requires DistinctBy(a, f) && multiset(a) == multiset(b)
    ensures DistinctBy(b, f)
  {
    SameMembers(a, b);
    DistinctPermutes(a, b);
    forall i, j | 0 <= i < j < |b| ensures f(b[i]) != f(b[j]) {
      assert b[i] in b && b[j] in b;
      var k :| 0 <= k < |a| && a[k] == b[i];
      var l :| 0 <= l < |a| && a[l] == b[j];
    }
  }

  /** Two duplicate-free lists with the same members are permutations of each other. */
  lemma SameMembersPermute<T>(a: seq<T>, b: seq<T>)
    requires Distinct(a) && Distinct(b) && forall x :: x in a <==> x in b
    ensures multiset(a) == multiset(b)
  {
    DistinctCounts(a);
    DistinctCounts(b);
    forall x ensures multiset(a)[x] == multiset(b)[x] {
      assert x in a <==> x in multiset(a);
      assert x in b <==> x in multiset(b);
    }
  }

  lemma {:induction false} DistinctCount<T>(s: seq<T>)
    requires Distinct(s)
    ensures |set x | x in s| == |s|
  {
    if s != [] {
      var n := |s| - 1;
      DistinctCount(s[..n]);
      assert s == s[..n] + [s[n]];
      assert (set x | x in s) == (set x | x in s[..n]) + {s[n]};
      assert s[n] !in s[..n];
    }
  }

  lemma {:induction false} SubsetNoLarger<T>(a: set<T>, b: set<T>)
    requires a <= b
    ensures |a| <= |b|
  {
    if a != {} {
      var x :| x in a;
      SubsetNoLarger(a - {x}, b - {x});
    }
  }

  /** If everything in `from` has a partner in `to`, and no two share one, `to` is as large. */
  lemma {:induction false} PartnersNoFewer<T(!new), U(!new)>(from: set<T>, to: set<U>, partner: (T, U) -> bool)
    requires forall x :: x in from ==> exists y :: y in to && partner(x, y)
    requires forall x, z, y :: x in from && z in from && partner(x, y) && partner(z, y) ==> x == z
    ensures |from| <= |to|
  {
    if from != {} {
      var x :| x in from;
      var y :| y in to && partner(x, y);
      forall z | z in from - {x} ensures exists w :: w in to - {y} && partner(z, w) {
        var w :| w in to && partner(z, w);
        assert w in to - {y};
      }
      PartnersNoFewer(from - {x}, to - {y}, partner);
    }
  }

  lemma UnionNoLarger<T>(a: set<T>, b: set<T>)
    ensures |a + b| <= |a| + |b|
  {
    assert a + b == a + (b - a);
    SubsetNoLarger(b - a, b);
  }

  lemma OneMoreTimes(n: nat, x: real)
    ensures (n + 1) as real * x == n as real * x + x
  {
  }

  /** The dictionary `{key(x): x for x in s}`, with places for members: each key's last holder. */
  function LastPlaces<T, K(==)>(s: seq<T>, key: T -> K): (m: map<K, nat>)
    ensures forall d :: d in m ==> m[d] < |s| && key(s[m[d]]) == d
    ensures forall i :: 0 <= i < |s| ==> key(s[i]) in m && i <= m[key(s[i])]
  {
    if s == [] then map[] else
      var n := |s| - 1;
      var m := LastPlaces(s[..n], key);
      assert forall i :: 0 <= i < n ==> s[..n][i] == s[i];
      m[key(s[n]) := n]
  }

  lemma QuotientBack(part: real, whole: real)
    requires whole != 0.0
    ensures part / whole * whole == part
  {
  }

  lemma SquareIsNonNegative(x: real)
    ensures x * x >= 0.0
  {
  }
}
