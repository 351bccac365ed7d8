/** Python compares strings by code point, left to right; Dafny's `<` on strings is
    the prefix relation.  This module defines the order the corpus code relies on
    when it calls `min`, `max` and `sorted` on split-group labels. */
module Labels {
  import opened Counting
  import opened Sorting

  predicate Less(a: string, b: string) {
    if b == [] then false
    else if a == [] then true
    else a[0] < b[0] || (a[0] == b[0] && Less(a[1..], b[1..]))
  }

  predicate Le(a: string, b: string) {
    a == b || Less(a, b)
  }

  function Min(a: string, b: string): string {
    if Less(b, a) then b else a
  }

  function Max(a: string, b: string): string {
    if Less(b, a) then a else b
  }

  /** The first `k` elements agree, and there is a next one on both sides. */
  ghost predicate AgreeBefore<T>(a: seq<T>, b: seq<T>, k: nat) {
    k < |a| && k < |b| && a[..k] == b[..k]
  }

  /** `a` comes first exactly when it is a proper prefix of `b`, or has the smaller code point
      at the first position where they differ. */
  lemma {:induction false} LessExactlyWhen(a: string, b: string)
    ensures Less(a, b) <==> (|a| < |b| && a == b[..|a|]) || exists k: nat :: AgreeBefore(a, b, k) && a[k] < b[k]
  {
    if a != [] && b != [] {
      var x, y := a[1..], b[1..];
      LessExactlyWhen(x, y);
      if |a| <= |b| { PrefixOfRest(a, b); }
      forall k: nat | k > 0 ensures AgreeBefore(a, b, k) <==> a[0] == b[0] && AgreeBefore(x, y, k - 1) {
        RestAgrees(a, b, k);
      }
      assert AgreeBefore(a, b, 0);
      if k: nat :| AgreeBefore(x, y, k) && x[k] < y[k] { assert a[0] == b[0] ==> AgreeBefore(a, b, k + 1); }
    }
  }

  lemma PrefixOfRest<T>(a: seq<T>, b: seq<T>)
    requires a != [] && b != [] && |a| <= |b|
    ensures a == b[..|a|] <==> a[0] == b[0] && a[1..] == b[1..][..|a[1..]|]
  {
    assert a == [a[0]] + a[1..] && b == [b[0]] + b[1..];
    assert b[1..][..|a| - 1] == b[..|a|][1..];
  }

  lemma RestAgrees<T>(a: seq<T>, b: seq<T>, k: nat)
    requires a != [] && b != [] && k > 0
    ensures AgreeBefore(a, b, k) <==> a[0] == b[0] && AgreeBefore(a[1..], b[1..], k - 1)
  {
    if k < |a| && k < |b| {
      assert a[..k][0] == a[0] && b[..k][0] == b[0];
      assert a[..k][1..] == a[1..][..k - 1] && b[..k][1..] == b[1..][..k - 1];
      assert a[..k] == [a[0]] + a[..k][1..] && b[..k] == [b[0]] + b[..k][1..];
    }
  }

  lemma {:induction false} LessIrreflexive(a: string)
    ensures !Less(a, a)
  {
    if a != [] { LessIrreflexive(a[1..]); }
  }

  lemma {:induction false} LessTransitive(a: string, b: string, c: string)
    requires Less(a, b) && Less(b, c)
    ensures Less(a, c)
  {
    if a != [] && a[0] == b[0] && b[0] == c[0] {
      LessTransitive(a[1..], b[1..], c[1..]);
    }
  }

  lemma {:induction false} LessTotal(a: string, b: string)
    ensures Less(a, b) || a == b || Less(b, a)
  {
    if a != [] && b != [] && a[0] == b[0] {
      LessTotal(a[1..], b[1..]);
      assert a == [a[0]] + a[1..] && b == [b[0]] + b[1..];
    }
  }

  /** `Le` is a total order on labels. */
  lemma LeTotalOrder(a: string, b: string, c: string)
    ensures Le(a, a)
    ensures Le(a, b) || Le(b, a)
    ensures Le(a, b) && Le(b, a) ==> a == b
    ensures Le(a, b) && Le(b, c) ==> Le(a, c)
  {
    LessTotal(a, b);
    if Less(a, b) && Less(b, a) {
      LessTransitive(a, b, a);
      LessIrreflexive(a);
    }
    if Less(a, b) && Less(b, c) {
      LessTransitive(a, b, c);
    }
  }

  lemma LeIsTotal()
    ensures TotalPreorder(Le) && Antisymmetric(Le)
  {
    forall a, b ensures Le(a, b) || Le(b, a) { LeTotalOrder(a, b, b); }
    forall a, b, c | Le(a, b) && Le(b, c) ensures Le(a, c) { LeTotalOrder(a, b, c); }
    forall a, b | Le(a, b) && Le(b, a) ensures a == b { LeTotalOrder(a, b, b); }
  }

  /** `min(labels)` for a set of labels. */
  function Least(s: set<string>): (least: string)
    requires s != {}
    ensures least in s && forall y :: y in s ==> Le(least, y)
  {
    LeIsTotal();
    First(s, Le)
  }

  /** Two strictly ascending lists with the same members are the same. */
  lemma SortedOnce(a: seq<string>, b: seq<string>)
    requires forall x :: x in a <==> x in b
    requires forall i, j :: 0 <= i < j < |a| ==> Less(a[i], a[j])
    requires forall i, j :: 0 <= i < j < |b| ==> Less(b[i], b[j])
    ensures a == b
  {
    LeIsTotal();
    AscendingIsDistinct(a);
    AscendingIsDistinct(b);
    SameMembersPermute(a, b);
    SortedArrangementUnique(a, b, Le);
  }

  lemma AscendingIsDistinct(a: seq<string>)
    requires forall i, j :: 0 <= i < j < |a| ==> Less(a[i], a[j])
    ensures Distinct(a)
  {
    forall i, j | 0 <= i < j < |a| ensures a[i] != a[j] { LessIrreflexive(a[i]); }
  }

  /** `sorted(labels)` for a set of labels. */
  function SortedLabels(s: set<string>): (r: seq<string>)
    ensures forall x :: x in r <==> x in s
    ensures |r| == |s|
    ensures forall i, j :: 0 <= i < j < |r| ==> Less(r[i], r[j])
  {
    LeIsTotal();
    SortedSet(s, Le)
  }
}
