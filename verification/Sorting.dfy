/** Python's `sorted`: a stable sort, characterised well enough to reason about runs
    that consume its result in order. */
module Sorting {

  ghost predicate TotalPreorder<T(!new)>(le: (T, T) -> bool) {
    && (forall x, y :: le(x, y) || le(y, x))
    && (forall x, y, z :: le(x, y) && le(y, z) ==> le(x, z))
  }

  ghost predicate Antisymmetric<T(!new)>(le: (T, T) -> bool) {
    forall x, y :: le(x, y) && le(y, x) ==> x == y
  }

  ghost predicate SortedBy<T>(s: seq<T>, le: (T, T) -> bool) {
    forall i, j :: 0 <= i < j < |s| ==> le(s[i], s[j])
  }

  function Insert<T>(x: T, s: seq<T>, le: (T, T) -> bool): seq<T> {
    if s == [] || le(x, s[0]) then [x] + s else [s[0]] + Insert(x, s[1..], le)
  }

  function Sort<T>(s: seq<T>, le: (T, T) -> bool): seq<T> {
    if s == [] then [] else Insert(s[0], Sort(s[1..], le), le)
  }

  lemma {:induction false} InsertPermutes<T>(x: T, s: seq<T>, le: (T, T) -> bool)
    ensures multiset(Insert(x, s, le)) == multiset(s) + multiset{x}
  {
    if !(s == [] || le(x, s[0])) {
      InsertPermutes(x, s[1..], le);
      assert s == [s[0]] + s[1..];
    }
  }

  lemma {:induction false} SortPermutes<T>(s: seq<T>, le: (T, T) -> bool)
    ensures multiset(Sort(s, le)) == multiset(s)
    ensures |Sort(s, le)| == |s|
  {
    if s != [] {
      hide Insert;
      SortPermutes(s[1..], le);
      InsertPermutes(s[0], Sort(s[1..], le), le);
      FirstAndRest(s);
    }
    SameSize(Sort(s, le), s);
  }

  lemma FirstAndRest<T>(s: seq<T>)
    requires s != []
    ensures multiset(s) == multiset(s[1..]) + multiset{s[0]}
    ensures multiset(s[1..]) == multiset(s) - multiset{s[0]}
  {
    assert s == [s[0]] + s[1..];
  }

  lemma SameSize<T>(a: seq<T>, b: seq<T>)
    requires multiset(a) == multiset(b)
    ensures |a| == |b|
  {
    assert |multiset(a)| == |a| && |multiset(b)| == |b|;
  }

  lemma {:induction false} InsertSorts<T(!new)>(x: T, s: seq<T>, le: (T, T) -> bool)
    requires TotalPreorder(le) && SortedBy(s, le)
    ensures SortedBy(Insert(x, s, le), le)
  {
    if s == [] {
    } else if le(x, s[0]) {
      assert forall j :: 0 <= j < |s| ==> le(x, s[j]) by {
        forall j | 0 <= j < |s| ensures le(x, s[j]) { assert j == 0 || le(s[0], s[j]); }
      }
    } else {
      var r := Insert(x, s[1..], le);
      InsertSorts(x, s[1..], le);
      InsertPermutes(x, s[1..], le);
      forall j | 0 <= j < |r| ensures le(s[0], r[j]) {
        assert r[j] in multiset(r);
        if r[j] != x {
          assert r[j] in multiset(s[1..]);
          assert r[j] in s[1..];
        }
      }
    }
  }

  lemma {:induction false} SortSorts<T(!new)>(s: seq<T>, le: (T, T) -> bool)
    requires TotalPreorder(le)
    ensures SortedBy(Sort(s, le), le)
  {
    if s != [] {
      SortSorts(s[1..], le);
      InsertSorts(s[0], Sort(s[1..], le), le);
    }
  }

  /** The sorted list has the same members. */
  lemma SortKeepsMembers<T>(s: seq<T>, le: (T, T) -> bool)
    ensures forall x :: x in Sort(s, le) <==> x in s
  {
    SortPermutes(s, le);
    forall x ensures x in Sort(s, le) <==> x in s {
      assert x in Sort(s, le) <==> x in multiset(Sort(s, le));
      assert x in s <==> x in multiset(s);
    }
  }

  /** Members of `s` that tie in the order are the same. */
  ghost predicate TiesAreEqual<T>(s: seq<T>, le: (T, T) -> bool) {
    forall i, j :: 0 <= i < |s| && 0 <= j < |s| && le(s[i], s[j]) && le(s[j], s[i]) ==> s[i] == s[j]
  }

  /** When ties are equal, the members decide their sorted arrangement. */
  lemma {:induction false} SortedArrangementUnique<T(!new)>(a: seq<T>, b: seq<T>, le: (T, T) -> bool)
    requires TotalPreorder(le) && TiesAreEqual(a, le)
    requires multiset(a) == multiset(b) && SortedBy(a, le) && SortedBy(b, le)
    ensures a == b
  {
    SameSize(a, b);
    if a != [] {
      SameFirst(a, b, le);
      FirstAndRest(a);
      FirstAndRest(b);
      SortedArrangementUnique(a[1..], b[1..], le);
      assert a == [a[0]] + a[1..] && b == [b[0]] + b[1..];
    }
  }

  lemma SameFirst<T(!new)>(a: seq<T>, b: seq<T>, le: (T, T) -> bool)
    requires TotalPreorder(le) && TiesAreEqual(a, le) && a != [] && b != []
    requires multiset(a) == multiset(b) && SortedBy(a, le) && SortedBy(b, le)
    ensures a[0] == b[0]
  {
    assert a[0] in multiset(a) && b[0] in multiset(b);
    var i :| 0 <= i < |b| && b[i] == a[0];
    var j :| 0 <= j < |a| && a[j] == b[0];
    assert le(a[0], a[j]) && le(b[0], b[i]);
  }

  lemma SortIgnoresOrder<T(!new)>(a: seq<T>, b: seq<T>, le: (T, T) -> bool)
    requires TotalPreorder(le) && TiesAreEqual(a, le) && multiset(a) == multiset(b)
    ensures Sort(a, le) == Sort(b, le)
  {
    hide Sort, TotalPreorder, TiesAreEqual, SortedBy;
    SortPermutes(a, le);
    SortPermutes(b, le);
    SortSorts(a, le);
    SortSorts(b, le);
    SortKeepsMembers(a, le);
    SameTies(a, Sort(a, le), le);
    SortedArrangementUnique(Sort(a, le), Sort(b, le), le);
  }

  lemma SameTies<T>(a: seq<T>, b: seq<T>, le: (T, T) -> bool)
    requires TiesAreEqual(a, le) && forall x :: x in b ==> x in a
    ensures TiesAreEqual(b, le)
  {
    forall i, j | 0 <= i < |b| && 0 <= j < |b| && le(b[i], b[j]) && le(b[j], b[i]) ensures b[i] == b[j] {
      assert b[i] in a && b[j] in a;
    }
  }

  lemma {:induction false} FindFirst<T(!new)>(s: set<T>, le: (T, T) -> bool) returns (first: T)
    requires s != {} && TotalPreorder(le)
    ensures first in s && forall y :: y in s ==> le(first, y)
  {
    var x :| x in s;
    if s == {x} {
      first := x;
    } else {
      var m := FindFirst(s - {x}, le);
      first := if le(m, x) then m else x;
      forall y | y in s ensures le(first, y) {
        if y != x { assert y in s - {x}; }
      }
    }
  }

  function First<T(!new)>(s: set<T>, le: (T, T) -> bool): (first: T)
    requires s != {} && TotalPreorder(le) && Antisymmetric(le)
    ensures first in s && forall y :: y in s ==> le(first, y)
  {
    assert exists x :: x in s && forall y | y in s :: le(x, y) by { var first := FindFirst(s, le); }
    var x :| x in s && forall y | y in s :: le(x, y);
    x
  }

  /** `sorted(s)` for a set under a total order. */
  function SortedSet<T(!new)>(s: set<T>, le: (T, T) -> bool): (r: seq<T>)
    requires TotalPreorder(le) && Antisymmetric(le)
    ensures forall x :: x in r <==> x in s
    ensures |r| == |s| && SortedBy(r, le)
    ensures forall i, j :: 0 <= i < j < |r| ==> r[i] != r[j]
    decreases |s|
  {
    if s == {} then [] else
      var x := First(s, le);
      var rest := SortedSet(s - {x}, le);
      LeastInFront(x, rest, s, le);
      [x] + rest
  }

  lemma LeastInFront<T(!new)>(x: T, rest: seq<T>, s: set<T>, le: (T, T) -> bool)
    requires x in s && (forall y :: y in s ==> le(x, y)) && (forall y :: y in rest <==> y in s - {x})
    requires SortedBy(rest, le) && forall i, j :: 0 <= i < j < |rest| ==> rest[i] != rest[j]
    ensures SortedBy([x] + rest, le) && forall y :: y in [x] + rest <==> y in s
    ensures forall i, j :: 0 <= i < j < |[x] + rest| ==> ([x] + rest)[i] != ([x] + rest)[j]
  {
    assert forall j :: 0 <= j < |rest| ==> rest[j] in rest;
  }

  function Filter<T>(s: seq<T>, p: T -> bool): seq<T> {
    if s == [] then []
    else if p(s[0]) then [s[0]] + Filter(s[1..], p)
    else Filter(s[1..], p)
  }

  lemma {:induction false} FilterMembers<T>(s: seq<T>, p: T -> bool)
    ensures forall x :: x in Filter(s, p) <==> x in s && p(x)
    ensures |Filter(s, p)| <= |s|
  {
    if s != [] {
      FilterMembers(s[1..], p);
      assert s == [s[0]] + s[1..];
    }
  }

  lemma {:induction false} FilterNone<T>(s: seq<T>, p: T -> bool)
    requires forall i :: 0 <= i < |s| ==> !p(s[i])
    ensures Filter(s, p) == []
  {
    if s != [] { FilterNone(s[1..], p); }
  }

  lemma {:induction false} FilterSame<T>(s: seq<T>, p: T -> bool, q: T -> bool)
    requires forall x :: x in s ==> p(x) == q(x)
    ensures Filter(s, p) == Filter(s, q)
  {
    if s != [] {
      assert s[0] in s && forall x :: x in s[1..] ==> x in s;
      FilterSame(s[1..], p, q);
    }
  }

  lemma {:induction false} FilterAppend<T>(a: seq<T>, b: seq<T>, p: T -> bool)
    ensures Filter(a + b, p) == Filter(a, p) + Filter(b, p)
  {
    if a == [] {
      assert a + b == b;
    } else {
      FilterAppend(a[1..], b, p);
      FilterCons(a[0], a[1..], p);
      FilterCons(a[0], a[1..] + b, p);
      assert a == [a[0]] + a[1..] && a + b == [a[0]] + (a[1..] + b);
    }
  }

  lemma FilterCons<T>(x: T, s: seq<T>, p: T -> bool)
    ensures Filter([x] + s, p) == (if p(x) then [x] else []) + Filter(s, p)
  {
    assert ([x] + s)[1..] == s;
  }

  lemma {:induction false} FilterInsert<T(!new)>(x: T, s: seq<T>, le: (T, T) -> bool, p: T -> bool)
    requires TotalPreorder(le) && SortedBy(s, le)
    ensures Filter(Insert(x, s, le), p) == if p(x) then Insert(x, Filter(s, p), le) else Filter(s, p)
  {
    var r := Insert(x, s, le);
    if s == [] || le(x, s[0]) {
      assert r[0] == x && r[1..] == s;
      var kept := Filter(s, p);
      FilterMembers(s, p);
      if kept != [] {
        assert kept[0] in s;
        var j :| 0 <= j < |s| && s[j] == kept[0];
        assert j == 0 || le(s[0], s[j]);
        assert le(x, kept[0]);
      }
    } else {
      assert r[0] == s[0] && r[1..] == Insert(x, s[1..], le);
      FilterInsert(x, s[1..], le, p);
      if p(s[0]) {
        var kept := Filter(s, p);
        assert kept[0] == s[0] && kept[1..] == Filter(s[1..], p);
      }
    }
  }

  /** Stability: filtering and sorting commute. */
  lemma {:induction false} FilterSort<T(!new)>(s: seq<T>, le: (T, T) -> bool, p: T -> bool)
    requires TotalPreorder(le)
    ensures Filter(Sort(s, le), p) == Sort(Filter(s, p), le)
  {
    if s != [] {
      FilterSort(s[1..], le, p);
      SortSorts(s[1..], le);
      FilterInsert(s[0], Sort(s[1..], le), le, p);
      var kept := Filter(s, p);
      if p(s[0]) { assert kept[0] == s[0] && kept[1..] == Filter(s[1..], p); }
    }
  }

  lemma {:induction false} FilterPermutes<T>(a: seq<T>, b: seq<T>, p: T -> bool)
    requires multiset(a) == multiset(b)
    ensures multiset(Filter(a, p)) == multiset(Filter(b, p))
  {
    if a == [] {
      assert |multiset(b)| == |b|;
    } else {
      var front, back := TakeOut(a, b);
      FilterPermutes(a[1..], front + back, p);
      FilterWithout(front, a[0], back, p);
    }
  }

  lemma TakeOut<T>(a: seq<T>, b: seq<T>) returns (front: seq<T>, back: seq<T>)
    requires a != [] && multiset(a) == multiset(b)
    ensures b == front + [a[0]] + back && multiset(a[1..]) == multiset(front + back)
  {
    assert a[0] in multiset(b);
    var j :| 0 <= j < |b| && b[j] == a[0];
    front, back := b[..j], b[j + 1..];
    FirstAndRest(a);
    Without(b, j);
  }

  lemma Without<T>(s: seq<T>, j: nat)
    requires j < |s|
    ensures s == s[..j] + [s[j]] + s[j + 1..]
    ensures multiset(s[..j] + s[j + 1..]) == multiset(s) - multiset{s[j]}
  {
    assert s == s[..j] + [s[j]] + s[j + 1..];
  }

  lemma FilterWithout<T>(front: seq<T>, x: T, back: seq<T>, p: T -> bool)
    ensures multiset(Filter(front + [x] + back, p))
         == multiset(Filter(front + back, p)) + if p(x) then multiset{x} else multiset{}
  {
    FilterAppend(front + [x], back, p);
    FilterAppend(front, [x], p);
    FilterAppend(front, back, p);
  }

  lemma TakeNext<T>(s: seq<T>, n: nat)
    requires n < |s|
    ensures s[..n + 1] == s[..n] + [s[n]] && s[n] in s
  {
  }

  /** `sum(1 for x in s if p(x))` */
  function Tally<T>(s: seq<T>, p: T -> bool): nat {
    |Filter(s, p)|
  }

  /** The positions of the elements with a property. */
  ghost function Places<T>(s: seq<T>, p: T -> bool): set<nat> {
    set i: nat | i < |s| && p(s[i])
  }

  /** Filtering keeps as many elements as have the property. */
  lemma {:induction false} TallyCountsPlaces<T>(s: seq<T>, p: T -> bool)
    ensures Tally(s, p) == |Places(s, p)|
  {
    if s != [] {
      var n := |s| - 1;
      TallyCountsPlaces(s[..n], p);
      PlacesNext(s, p);
      hide Places;
      assert s == s[..n] + [s[n]];
      FilterAppend(s[..n], [s[n]], p);
      FilterCons(s[n], [], p);
    }
  }

  lemma PlacesNext<T>(s: seq<T>, p: T -> bool)
    requires s != []
    ensures var n := |s| - 1;
      |Places(s, p)| == |Places(s[..n], p)| + if p(s[n]) then 1 else 0
  {
    var n := |s| - 1;
    var before := Places(s[..n], p);
    assert n !in before;
    assert Places(s, p) == if p(s[n]) then before + {n} else before;
  }

  lemma TallyIgnoresOrder<T>(a: seq<T>, b: seq<T>, p: T -> bool)
    requires multiset(a) == multiset(b)
    ensures Tally(a, p) == Tally(b, p)
  {
    FilterPermutes(a, b, p);
    assert |multiset(Filter(a, p))| == |Filter(a, p)| && |multiset(Filter(b, p))| == |Filter(b, p)|;
  }
}
