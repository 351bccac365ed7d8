/** Greedy split balancing: each component goes to the split that is least full relative to its target. */
module SplitBalance {

  function Sum(s: seq<nat>): nat {
    if s == [] then 0 else Sum(s[..|s| - 1]) + s[|s| - 1]
  }

  function Total(s: seq<real>): real {
    if s == [] then 0.0 else Total(s[..|s| - 1]) + s[|s| - 1]
  }

  ghost predicate Positive(targets: seq<real>) {
    |targets| > 0 && forall k :: 0 <= k < |targets| ==> targets[k] > 0.0
  }

  function Fill(counts: seq<nat>, targets: seq<real>, k: nat): real
    requires k < |counts| == |targets| && targets[k] != 0.0
  {
    counts[k] as real / targets[k]
  }

  /** `min` over the first `n` splits by fill, ties to the earlier split. */
  function Emptiest(counts: seq<nat>, targets: seq<real>, n: nat): (e: nat)
    requires |counts| == |targets| && 0 < n <= |targets|
    requires forall k :: 0 <= k < |targets| ==> targets[k] > 0.0
    ensures e < n
    ensures forall k :: 0 <= k < n ==> Fill(counts, targets, e) <= Fill(counts, targets, k)
    ensures forall k :: 0 <= k < e ==> Fill(counts, targets, e) < Fill(counts, targets, k)
  {
    if n == 1 then 0 else
      var e := Emptiest(counts, targets, n - 1);
      if Fill(counts, targets, n - 1) < Fill(counts, targets, e) then n - 1 else e
  }

  /** The split each component went to, and the rows each split holds. */
  datatype Placement = Placement(choices: seq<nat>, counts: seq<nat>)

  function Place(sizes: seq<nat>, targets: seq<real>): (p: Placement)
    requires Positive(targets)
    ensures |p.choices| == |sizes| && |p.counts| == |targets|
    ensures forall i :: 0 <= i < |sizes| ==> p.choices[i] < |targets|
  {
    if sizes == [] then Placement([], seq(|targets|, _ => 0))
    else
      var last := |sizes| - 1;
      var p := Place(sizes[..last], targets);
      var e := Emptiest(p.counts, targets, |targets|);
      Placement(p.choices + [e], p.counts[e := p.counts[e] + sizes[last]])
  }

  /** Component `k` goes to the split that is emptiest once the components before it are placed. */
  lemma {:induction false} EachGoesToEmptiest(sizes: seq<nat>, targets: seq<real>, k: nat)
    requires Positive(targets) && k < |sizes|
    ensures var p, before := Place(sizes, targets), Place(sizes[..k], targets);
      p.choices[..k] == before.choices && p.choices[k] == Emptiest(before.counts, targets, |targets|)
  {
    hide Emptiest;
    var last := |sizes| - 1;
    var p := Place(sizes[..last], targets);
    assert Place(sizes, targets).choices[..last] == p.choices;
    if k < last {
      EachGoesToEmptiest(sizes[..last], targets, k);
      assert sizes[..last][..k] == sizes[..k];
      assert Place(sizes, targets).choices[..k] == p.choices[..k];
    }
  }

  /** The size of the last component placed in split `k`, 0 if there is none. */
  function LastIn(sizes: seq<nat>, choices: seq<nat>, k: nat): nat
    requires |sizes| == |choices|
  {
    if sizes == [] then 0
    else if choices[|choices| - 1] == k then sizes[|sizes| - 1]
    else LastIn(sizes[..|sizes| - 1], choices[..|choices| - 1], k)
  }

  lemma {:induction false} SumUpdate(s: seq<nat>, k: nat, d: nat)
    requires k < |s|
    ensures Sum(s[k := s[k] + d]) == Sum(s) + d
  {
    var n, t := |s| - 1, s[k := s[k] + d];
    if k == n {
      assert t[..n] == s[..n];
    } else {
      assert t[..n] == s[..n][k := s[..n][k] + d];
      SumUpdate(s[..n], k, d);
    }
  }

  lemma {:induction false} SumZero(n: nat)
    ensures Sum(seq(n, _ => 0)) == 0
  {
    if n > 0 {
      assert seq(n, _ => 0)[..n - 1] == seq(n - 1, _ => 0);
      SumZero(n - 1);
    }
  }

  /** If every split has reached its target, the rows cover the targets. */
  lemma {:induction false} FullMeansCovered(counts: seq<nat>, targets: seq<real>)
    requires |counts| == |targets|
    requires forall k :: 0 <= k < |targets| ==> counts[k] as real >= targets[k]
    ensures Sum(counts) as real >= Total(targets)
  {
    if counts != [] { FullMeansCovered(counts[..|counts| - 1], targets[..|targets| - 1]); }
  }

  lemma FillBelowOne(count: nat, target: real)
    requires target > 0.0
    ensures count as real / target < 1.0 <==> (count as real) < target
  {
    var q := count as real / target;
    assert q * target == count as real;
    if q < 1.0 { assert q * target < 1.0 * target; }
    if q >= 1.0 { assert q * target >= 1.0 * target; }
  }

  /** While rows remain, the chosen split is still below its target. */
  lemma ChosenIsBelowTarget(counts: seq<nat>, targets: seq<real>)
    requires Positive(targets) && |counts| == |targets| && Sum(counts) as real < Total(targets)
    ensures var e := Emptiest(counts, targets, |targets|);
      (counts[e] as real) < targets[e]
  {
    var e := Emptiest(counts, targets, |targets|);
    if counts[e] as real >= targets[e] {
      FillBelowOne(counts[e], targets[e]);
      forall k | 0 <= k < |targets| ensures counts[k] as real >= targets[k] {
        FillBelowOne(counts[k], targets[k]);
        assert Fill(counts, targets, e) <= Fill(counts, targets, k);
      }
      FullMeansCovered(counts, targets);
    }
  }

  /** A split that received components is strictly below target without its last one. */
  ghost predicate Bounded(count: nat, last: nat, target: real) {
    if last == 0 then count == 0 else last <= count && (count - last) as real < target
  }

  lemma {:induction false} RowsAreConserved(sizes: seq<nat>, targets: seq<real>)
    requires Positive(targets)
    ensures Sum(Place(sizes, targets).counts) == Sum(sizes)
  {
    hide Emptiest;
    if sizes == [] {
      SumZero(|targets|);
    } else {
      var last := |sizes| - 1;
      RowsAreConserved(sizes[..last], targets);
      var counts := Place(sizes[..last], targets).counts;
      SumUpdate(counts, Emptiest(counts, targets, |targets|), sizes[last]);
    }
  }

  /** The sizes of the components placed in split `k`, added up. */
  function SumChosen(sizes: seq<nat>, choices: seq<nat>, k: nat): nat
    requires |sizes| == |choices|
  {
    if sizes == [] then 0 else
      var n := |sizes| - 1;
      SumChosen(sizes[..n], choices[..n], k) + if choices[n] == k then sizes[n] else 0
  }

  lemma {:induction false} CountsAreSums(sizes: seq<nat>, targets: seq<real>, k: nat)
    requires Positive(targets) && k < |targets|
    ensures var p := Place(sizes, targets);
      p.counts[k] == SumChosen(sizes, p.choices, k)
  {
    if sizes != [] {
      var n := |sizes| - 1;
      CountsAreSums(sizes[..n], targets, k);
      var p := Place(sizes, targets);
      assert p.choices[..n] == Place(sizes[..n], targets).choices;
    }
  }

  lemma {:induction false} OvershootIsBounded(sizes: seq<nat>, targets: seq<real>, k: nat)
    requires Positive(targets) && k < |targets|
    requires (forall i :: 0 <= i < |sizes| ==> sizes[i] > 0) && Sum(sizes) as real <= Total(targets)
    ensures var p := Place(sizes, targets);
      Bounded(p.counts[k], LastIn(sizes, p.choices, k), targets[k])
  {
    if sizes != [] {
      var last := |sizes| - 1;
      var front := sizes[..last];
      var before := Place(front, targets);
      OvershootIsBounded(front, targets, k);
      RowsAreConserved(front, targets);
      ChosenIsBelowTarget(before.counts, targets);
      var e := Emptiest(before.counts, targets, |targets|);
      LastInExtends(front, before.choices, sizes[last], e, k);
      assert sizes == front + [sizes[last]];
    }
  }

  lemma LastInExtends(sizes: seq<nat>, choices: seq<nat>, size: nat, choice: nat, k: nat)
    requires |sizes| == |choices|
    ensures LastIn(sizes + [size], choices + [choice], k) == if choice == k then size else LastIn(sizes, choices, k)
  {
    assert (sizes + [size])[..|sizes|] == sizes && (choices + [choice])[..|choices|] == choices;
  }

  ghost predicate Descending(sizes: seq<nat>) {
    forall i, j :: 0 <= i < j < |sizes| ==> sizes[i] >= sizes[j]
  }

  /** Components come largest first, so the last one in a split is its smallest. */
  lemma {:induction false} LastIsSmallest(sizes: seq<nat>, choices: seq<nat>, k: nat)
    requires |sizes| == |choices| && Descending(sizes)
    ensures forall i :: 0 <= i < |sizes| && choices[i] == k ==> LastIn(sizes, choices, k) <= sizes[i]
    ensures sizes != [] ==> LastIn(sizes, choices, k) <= sizes[0]
  {
    if sizes != [] && choices[|choices| - 1] != k {
      var n := |sizes| - 1;
      LastIsSmallest(sizes[..n], choices[..n], k);
      forall i | 0 <= i < |sizes| && choices[i] == k ensures LastIn(sizes, choices, k) <= sizes[i] {
        assert sizes[..n][i] == sizes[i] && choices[..n][i] == k;
      }
    }
  }

  /** With three splits whose targets add up to the rows, no split falls short by twice the largest component. */
  lemma UndershootIsBounded(sizes: seq<nat>, targets: seq<real>, k: nat)
    requires Positive(targets) && |targets| == 3 && k < 3
    requires sizes != [] && Descending(sizes) && (forall i :: 0 <= i < |sizes| ==> sizes[i] > 0)
    requires Sum(sizes) as real == Total(targets)
    ensures targets[k] - Place(sizes, targets).counts[k] as real < 2.0 * sizes[0] as real
  {
    hide Place, Sum, Total;
    var p := Place(sizes, targets);
    RowsAreConserved(sizes, targets);
    SumOfThree(p.counts);
    TotalOfThree(targets);
    OverTargetByLess(sizes, targets, 0);
    OverTargetByLess(sizes, targets, 1);
    OverTargetByLess(sizes, targets, 2);
  }

  lemma OverTargetByLess(sizes: seq<nat>, targets: seq<real>, k: nat)
    requires Positive(targets) && k < |targets| && sizes != [] && Descending(sizes)
    requires (forall i :: 0 <= i < |sizes| ==> sizes[i] > 0) && Sum(sizes) as real <= Total(targets)
    ensures Place(sizes, targets).counts[k] as real - targets[k] < sizes[0] as real
  {
    OvershootIsBounded(sizes, targets, k);
    LastIsSmallest(sizes, Place(sizes, targets).choices, k);
  }

  lemma SumOfThree(s: seq<nat>)
    requires |s| == 3
    ensures Sum(s) == s[0] + s[1] + s[2]
  {
    var two, one := s[..2], s[..1];
    assert two[..1] == one && one[..0] == [];
    assert Sum(one) == Sum([]) + one[0];
    assert Sum(two) == Sum(one) + two[1];
  }

  lemma TotalOfThree(s: seq<real>)
    requires |s| == 3
    ensures Total(s) == s[0] + s[1] + s[2]
  {
    var two, one := s[..2], s[..1];
    assert two[..1] == one && one[..0] == [];
    assert Total(one) == Total([]) + one[0];
    assert Total(two) == Total(one) + two[1];
  }
}
