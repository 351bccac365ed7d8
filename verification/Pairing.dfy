/** Nearest-timestamp pairing of colour and thermal layers: a two-way scan finds the
    candidate pairs, and a greedy pass over them keeps a one-to-one selection. */
module Pairing {
  import opened Sorting
  import opened Counting

  datatype Layer = Layer(time: int, name: string)

  /** A possible pair: positions in the two time-sorted lists and the time between them. */
  datatype Candidate = Candidate(delta: int, eo: nat, ir: nat)

  predicate Earlier(a: Layer, b: Layer) {
    a.time <= b.time
  }

  function Gap(a: int, b: int): int {
    if a < b then b - a else a - b
  }

  /** Tuple order: nearest first, then by position. */
  predicate Before(a: Candidate, b: Candidate) {
    a.delta < b.delta || (a.delta == b.delta && (a.eo < b.eo || (a.eo == b.eo && a.ir <= b.ir)))
  }

  lemma BeforeIsTotalOrder()
    ensures TotalPreorder(Before) && Antisymmetric(Before)
  {
  }

  // ---- Candidates ----

  ghost predicate Fits(eo: seq<Layer>, ir: seq<Layer>, limit: int, c: Candidate) {
    && c.eo < |eo| && c.ir < |ir|
    && c.delta == Gap(eo[c.eo].time, ir[c.ir].time) <= limit
  }

  /** Every pair with `e`, in list order, without any scanning tricks. */
  function CandidatesOf(eo: seq<Layer>, ir: seq<Layer>, limit: int, e: nat, i: nat): seq<Candidate>
    requires e < |eo| && i <= |ir|
  {
    if i == 0 then [] else
      var gap := Gap(eo[e].time, ir[i - 1].time);
      CandidatesOf(eo, ir, limit, e, i - 1) + if gap <= limit then [Candidate(gap, e, i - 1)] else []
  }

  function AllCandidates(eo: seq<Layer>, ir: seq<Layer>, limit: int, n: nat): seq<Candidate>
    requires n <= |eo|
  {
    if n == 0 then [] else AllCandidates(eo, ir, limit, n - 1) + CandidatesOf(eo, ir, limit, n - 1, |ir|)
  }

  lemma {:induction false} CandidatesOfMembers(eo: seq<Layer>, ir: seq<Layer>, limit: int, e: nat, i: nat)
    requires e < |eo| && i <= |ir|
    ensures forall c :: c in CandidatesOf(eo, ir, limit, e, i) <==> Fits(eo, ir, limit, c) && c.eo == e && c.ir < i
    ensures Distinct(CandidatesOf(eo, ir, limit, e, i))
  {
    if i > 0 { CandidatesOfMembers(eo, ir, limit, e, i - 1); }
  }

  lemma {:induction false} AllCandidatesMembers(eo: seq<Layer>, ir: seq<Layer>, limit: int, n: nat)
    requires n <= |eo|
    ensures forall c :: c in AllCandidates(eo, ir, limit, n) <==> Fits(eo, ir, limit, c) && c.eo < n
    ensures Distinct(AllCandidates(eo, ir, limit, n))
  {
    if n > 0 {
      AllCandidatesMembers(eo, ir, limit, n - 1);
      CandidatesOfMembers(eo, ir, limit, n - 1, |ir|);
      DistinctAppend(AllCandidates(eo, ir, limit, n - 1), CandidatesOf(eo, ir, limit, n - 1, |ir|));
    }
  }

  /** `bisect.bisect_left` on the times of a sorted list. */
  method BisectLeft(layers: seq<Layer>, time: int) returns (at: nat)
    requires SortedBy(layers, Earlier)
    ensures at <= |layers|
    ensures forall i :: 0 <= i < at ==> layers[i].time < time
    ensures forall i :: at <= i < |layers| ==> layers[i].time >= time
  {
    var low, high := 0, |layers|;
    while low < high
      invariant 0 <= low <= high <= |layers|
      invariant forall i :: 0 <= i < low ==> layers[i].time < time
      invariant forall i :: high <= i < |layers| ==> layers[i].time >= time
    {
      var middle := (low + high) / 2;
      if layers[middle].time < time {
        forall i | 0 <= i < middle ensures layers[i].time < time { assert Earlier(layers[i], layers[middle]); }
        low := middle + 1;
      } else {
        forall i | middle < i < |layers| ensures layers[i].time >= time { assert Earlier(layers[middle], layers[i]); }
        high := middle;
      }
    }
    at := low;
  }

  /** The part of the result one `eo` layer adds: everything in range between the cursors. */
  ghost predicate Scanned(candidates: seq<Candidate>, before: seq<Candidate>, eo: seq<Layer>, ir: seq<Layer>,
                          limit: int, e: nat, left: int, right: int) {
    && Distinct(candidates)
    && forall c :: c in candidates <==> c in before || (Fits(eo, ir, limit, c) && c.eo == e && left < c.ir < right)
  }

  method ScanLeft(eo: seq<Layer>, ir: seq<Layer>, limit: int, e: nat, start: nat, before: seq<Candidate>)
      returns (candidates: seq<Candidate>)
    requires e < |eo| && start <= |ir| && SortedBy(ir, Earlier)
    requires Distinct(before) && forall c :: c in before ==> c.eo != e
    requires forall i :: 0 <= i < start ==> ir[i].time < eo[e].time
    ensures Scanned(candidates, before, eo, ir, limit, e, -1, start)
  {
    candidates := before;
    var left := start - 1;
    while left >= 0 && eo[e].time - ir[left].time <= limit
      invariant -1 <= left < start
      invariant Scanned(candidates, before, eo, ir, limit, e, left, start)
    {
      candidates := candidates + [Candidate(Gap(eo[e].time, ir[left].time), e, left)];
      left := left - 1;
    }
    forall c | Fits(eo, ir, limit, c) && c.eo == e && c.ir < start ensures left < c.ir {
      assert c.ir < left ==> Earlier(ir[c.ir], ir[left]);
    }
  }

  method ScanRight(eo: seq<Layer>, ir: seq<Layer>, limit: int, e: nat, start: nat, before: seq<Candidate>,
                   ghost earlier: seq<Candidate>)
      returns (candidates: seq<Candidate>)
    requires e < |eo| && start <= |ir| && SortedBy(ir, Earlier)
    requires Scanned(before, earlier, eo, ir, limit, e, -1, start) && forall c :: c in earlier ==> c.eo != e
    requires forall i :: start <= i < |ir| ==> ir[i].time >= eo[e].time
    ensures Scanned(candidates, earlier, eo, ir, limit, e, -1, |ir|)
  {
    candidates := before;
    var right := start;
    while right < |ir| && ir[right].time - eo[e].time <= limit
      invariant start <= right <= |ir|
      invariant Scanned(candidates, earlier, eo, ir, limit, e, -1, right)
    {
      candidates := candidates + [Candidate(Gap(eo[e].time, ir[right].time), e, right)];
      right := right + 1;
    }
    forall c | Fits(eo, ir, limit, c) && c.eo == e ensures c.ir < right {
      assert c.ir > right ==> Earlier(ir[right], ir[c.ir]);
    }
  }

  /** The bisect and two-way scan enumerate exactly the in-range pairs, each once. */
  method FindCandidates(eo: seq<Layer>, ir: seq<Layer>, limit: int) returns (candidates: seq<Candidate>)
    requires SortedBy(ir, Earlier)
    ensures Distinct(candidates) && forall c :: c in candidates <==> Fits(eo, ir, limit, c)
    ensures multiset(candidates) == multiset(AllCandidates(eo, ir, limit, |eo|))
  {
    candidates := [];
    for e := 0 to |eo|
      invariant Distinct(candidates)
      invariant forall c :: c in candidates <==> Fits(eo, ir, limit, c) && c.eo < e
    {
      var insertion := BisectLeft(ir, eo[e].time);
      var leftOf := ScanLeft(eo, ir, limit, e, insertion, candidates);
      candidates := ScanRight(eo, ir, limit, e, insertion, leftOf, candidates);
    }
    AllCandidatesMembers(eo, ir, limit, |eo|);
    SameMembersPermute(candidates, AllCandidates(eo, ir, limit, |eo|));
  }

  // ---- The greedy pass ----

  predicate Shares(a: Candidate, b: Candidate) {
    a.eo == b.eo || a.ir == b.ir
  }

  /** The candidates kept when scanning in order. */
  function Pick(candidates: seq<Candidate>): seq<Candidate> {
    if candidates == [] then [] else
      var n := |candidates| - 1;
      var kept := Pick(candidates[..n]);
      if exists k :: 0 <= k < |kept| && Shares(kept[k], candidates[n]) then kept else kept + [candidates[n]]
  }

  method SelectGreedily(candidates: seq<Candidate>) returns (selected: seq<Candidate>)
    ensures selected == Pick(candidates)
  {
    var usedEo: set<nat>, usedIr: set<nat> := {}, {};
    selected := [];
    for n := 0 to |candidates|
      invariant selected == Pick(candidates[..n])
      invariant forall e :: e in usedEo <==> exists k :: 0 <= k < |selected| && selected[k].eo == e
      invariant forall i :: i in usedIr <==> exists k :: 0 <= k < |selected| && selected[k].ir == i
    {
      var c := candidates[n];
      assert candidates[..n + 1][..n] == candidates[..n];
      if c.eo in usedEo || c.ir in usedIr {
        assert exists k :: 0 <= k < |selected| && Shares(selected[k], c);
      } else {
        forall k | 0 <= k < |selected| ensures !Shares(selected[k], c) {
          assert selected[k].eo in usedEo && selected[k].ir in usedIr;
        }
        var before := selected;
        usedEo, usedIr, selected := usedEo + {c.eo}, usedIr + {c.ir}, selected + [c];
        forall e ensures e in usedEo <==> exists k :: 0 <= k < |selected| && selected[k].eo == e {
          if e in usedEo && e != c.eo { var k :| 0 <= k < |before| && before[k].eo == e; assert selected[k].eo == e; }
          if e == c.eo { assert selected[|before|].eo == e; }
        }
        forall i ensures i in usedIr <==> exists k :: 0 <= k < |selected| && selected[k].ir == i {
          if i in usedIr && i != c.ir { var k :| 0 <= k < |before| && before[k].ir == i; assert selected[k].ir == i; }
          if i == c.ir { assert selected[|before|].ir == i; }
        }
      }
    }
    assert candidates[..|candidates|] == candidates;
  }

  ghost predicate OneToOne(pairs: set<Candidate>) {
    forall a, b :: a in pairs && b in pairs && Shares(a, b) ==> a == b
  }

  /** `c` lost to a kept candidate that comes before it and shares a layer with it. */
  ghost predicate Blocked(kept: set<Candidate>, c: Candidate) {
    exists k :: k in kept && Shares(k, c) && Before(k, c) && k != c
  }

  ghost predicate Stable(kept: set<Candidate>, candidates: seq<Candidate>) {
    && (forall c :: c in kept ==> c in candidates)
    && OneToOne(kept)
    && (forall c :: c in candidates && c !in kept ==> Blocked(kept, c))
  }

  ghost function Members<T(!new)>(s: seq<T>): set<T> {
    set x | x in s
  }

  lemma {:induction false} PickIsStable(candidates: seq<Candidate>)
    requires SortedBy(candidates, Before) && Distinct(candidates)
    ensures Stable(Members(Pick(candidates)), candidates) && Distinct(Pick(candidates))
  {
    if candidates != [] {
      var n := |candidates| - 1;
      var front, c := candidates[..n], candidates[n];
      PickIsStable(front);
      var was, kept := Pick(front), Pick(candidates);
      assert candidates == front + [c];
      forall d | d in candidates && d !in kept ensures Blocked(Members(kept), d) {
        if d == c {
          var k :| 0 <= k < |was| && Shares(was[k], c);
          assert was[k] in Members(was) && was[k] in front;
          assert Before(was[k], c);
        } else {
          assert d in front && Blocked(Members(was), d);
        }
      }
    }
  }

  /** Stability pins the selection down: nothing else is one-to-one with every rejected
      candidate blocked by an earlier kept one. */
  lemma {:induction false} StableIsUnique(kept: set<Candidate>, other: set<Candidate>, candidates: seq<Candidate>,
                                          n: nat)
    requires SortedBy(candidates, Before) && n <= |candidates|
    requires Stable(kept, candidates) && Stable(other, candidates)
    ensures forall j :: 0 <= j < n ==> (candidates[j] in kept <==> candidates[j] in other)
  {
    hide SortedBy, Stable;
    if n > 0 {
      StableIsUnique(kept, other, candidates, n - 1);
      if candidates[n - 1] !in kept { RejectedByBoth(kept, other, candidates, n - 1); }
      if candidates[n - 1] !in other { RejectedByBoth(other, kept, candidates, n - 1); }
    }
  }

  lemma RejectedByBoth(kept: set<Candidate>, other: set<Candidate>, candidates: seq<Candidate>, n: nat)
    requires SortedBy(candidates, Before) && n < |candidates| && candidates[n] !in kept
    requires Stable(kept, candidates) && Stable(other, candidates)
    requires forall j :: 0 <= j < n ==> (candidates[j] in kept <==> candidates[j] in other)
    ensures candidates[n] !in other
  {
    var c := candidates[n];
    var k :| k in kept && Shares(k, c) && Before(k, c) && k != c;
    EarlierPosition(candidates, n, k);
  }

  lemma EarlierPosition(candidates: seq<Candidate>, n: nat, k: Candidate)
    requires SortedBy(candidates, Before) && n < |candidates|
    requires k in candidates && Before(k, candidates[n]) && k != candidates[n]
    ensures exists j :: 0 <= j < n && candidates[j] == k
  {
    var j :| 0 <= j < |candidates| && candidates[j] == k;
    assert n < j ==> Before(candidates[n], k);
  }

  // ---- How good the greedy selection is ----

  lemma EoSharersNoMore(kept: set<Candidate>, sharers: set<Candidate>)
    requires OneToOne(sharers) && forall c :: c in sharers ==> exists k :: k in kept && k.eo == c.eo
    ensures |sharers| <= |kept|
  {
    PartnersNoFewer(sharers, kept, (c: Candidate, k: Candidate) => k.eo == c.eo);
  }

  lemma IrSharersNoMore(kept: set<Candidate>, sharers: set<Candidate>)
    requires OneToOne(sharers) && forall c :: c in sharers ==> exists k :: k in kept && k.ir == c.ir
    ensures |sharers| <= |kept|
  {
    PartnersNoFewer(sharers, kept, (c: Candidate, k: Candidate) => k.ir == c.ir);
  }

  /** Any one-to-one pairing whose members all touch kept candidates has at most twice as many. */
  lemma AtMostHalfAsMany(kept: set<Candidate>, other: set<Candidate>)
    requires OneToOne(other)
    requires forall c :: c in other ==> exists k :: k in kept && Shares(k, c)
    ensures |other| <= 2 * |kept|
  {
    var byEo := set c | c in other && exists k :: k in kept && k.eo == c.eo;
    forall c | c in other - byEo ensures exists k :: k in kept && k.ir == c.ir {
      var k :| k in kept && Shares(k, c);
      assert k.eo != c.eo;
    }
    EoSharersNoMore(kept, byEo);
    IrSharersNoMore(kept, other - byEo);
    assert other == byEo + (other - byEo);
  }

  // ---- The pairing ----

  datatype Pair = Pair(eo: Layer, ir: Layer, delta: int)

  predicate EarlierPair(a: Pair, b: Pair) {
    a.eo.time <= b.eo.time
  }

  ghost predicate Indexed(eo: seq<Layer>, ir: seq<Layer>, candidates: seq<Candidate>) {
    forall k :: 0 <= k < |candidates| ==> candidates[k].eo < |eo| && candidates[k].ir < |ir|
  }

  function Named(eo: seq<Layer>, ir: seq<Layer>, candidates: seq<Candidate>): (pairs: seq<Pair>)
    requires Indexed(eo, ir, candidates)
    ensures |pairs| == |candidates|
    ensures forall k :: 0 <= k < |pairs| ==>
      pairs[k] == Pair(eo[candidates[k].eo], ir[candidates[k].ir], candidates[k].delta)
  {
    seq(|candidates|, k requires 0 <= k < |candidates| =>
      Pair(eo[candidates[k].eo], ir[candidates[k].ir], candidates[k].delta))
  }

  /** The selected candidates, from the plain enumeration. */
  function Selection(eo: seq<Layer>, ir: seq<Layer>, limit: int): seq<Candidate> {
    Pick(Sort(AllCandidates(eo, ir, limit, |eo|), Before))
  }

  /** What the greedy pass promises of the pairs it keeps: all in range, one-to-one, and
      every other in-range pair lost to an earlier kept one. */
  ghost predicate Greedy(kept: set<Candidate>, eo: seq<Layer>, ir: seq<Layer>, limit: int) {
    && (forall c :: c in kept ==> Fits(eo, ir, limit, c))
    && OneToOne(kept)
    && (forall c :: Fits(eo, ir, limit, c) && c !in kept ==> Blocked(kept, c))
  }

  lemma SortedCandidates(eo: seq<Layer>, ir: seq<Layer>, limit: int) returns (sorted: seq<Candidate>)
    ensures sorted == Sort(AllCandidates(eo, ir, limit, |eo|), Before)
    ensures SortedBy(sorted, Before) && Distinct(sorted)
    ensures forall c :: c in sorted <==> Fits(eo, ir, limit, c)
  {
    var all := AllCandidates(eo, ir, limit, |eo|);
    sorted := Sort(all, Before);
    AllCandidatesMembers(eo, ir, limit, |eo|);
    BeforeIsTotalOrder();
    SortSorts(all, Before);
    SortKeepsMembers(all, Before);
    SortPermutes(all, Before);
    DistinctPermutes(all, sorted);
  }

  lemma SelectionIsGreedy(eo: seq<Layer>, ir: seq<Layer>, limit: int)
    ensures Greedy(Members(Selection(eo, ir, limit)), eo, ir, limit)
    ensures Distinct(Selection(eo, ir, limit)) && |Members(Selection(eo, ir, limit))| == |Selection(eo, ir, limit)|
    ensures Indexed(eo, ir, Selection(eo, ir, limit))
  {
    var sorted := SortedCandidates(eo, ir, limit);
    var kept := Pick(sorted);
    PickIsStable(sorted);
    DistinctCount(kept);
    assert forall k :: 0 <= k < |kept| ==> kept[k] in Members(kept);
  }

  /** The promise determines the selection. */
  lemma GreedyIsUnique(kept: set<Candidate>, other: set<Candidate>, eo: seq<Layer>, ir: seq<Layer>, limit: int)
    requires Greedy(kept, eo, ir, limit) && Greedy(other, eo, ir, limit)
    ensures kept == other
  {
    var sorted := SortedCandidates(eo, ir, limit);
    assert Stable(kept, sorted) && Stable(other, sorted);
    StableIsUnique(kept, other, sorted, |sorted|);
    assert forall c :: c in kept <==> c in other;
  }

  /** Any one-to-one pairing within the limit has at most twice as many pairs. */
  lemma GreedyIsHalfOptimal(eo: seq<Layer>, ir: seq<Layer>, limit: int, other: set<Candidate>)
    requires OneToOne(other) && forall c :: c in other ==> Fits(eo, ir, limit, c)
    ensures |other| <= 2 * |Selection(eo, ir, limit)|
  {
    SelectionIsGreedy(eo, ir, limit);
    var kept := Members(Selection(eo, ir, limit));
    forall c | c in other ensures exists k :: k in kept && Shares(k, c) {
      if c in kept { assert Shares(c, c); } else { assert Blocked(kept, c); }
    }
    AtMostHalfAsMany(kept, other);
  }

  /** The factor two is reached: two pairs of eleven lose to the single pair of nine between them. */
  lemma HalfIsReached()
    ensures var eo, ir := [Layer(0, "a"), Layer(20, "b")], [Layer(11, "c"), Layer(31, "d")];
      var other := {Candidate(11, 0, 0), Candidate(11, 1, 1)};
      && OneToOne(other) && (forall c :: c in other ==> Fits(eo, ir, 11, c))
      && |other| == 2 * |Selection(eo, ir, 11)|
  {
    var eo, ir := [Layer(0, "a"), Layer(20, "b")], [Layer(11, "c"), Layer(31, "d")];
    var middle := Candidate(9, 1, 0);
    forall c | Fits(eo, ir, 11, c) && c != middle ensures Blocked({middle}, c) {
      assert middle in {middle} && Shares(middle, c) && Before(middle, c);
    }
    assert Greedy({middle}, eo, ir, 11);
    SelectionIsGreedy(eo, ir, 11);
    GreedyIsUnique({middle}, Members(Selection(eo, ir, 11)), eo, ir, 11);
  }

  // ---- In terms of times ----

  ghost function TimeApart(a: Layer, b: Layer): int {
    if a.time >= b.time then a.time - b.time else b.time - a.time
  }

  /** `k` is of one of the layers of `c`, and its times are nearer, or as near and its layers come first. */
  ghost predicate BeatsInTimes(eo: seq<Layer>, ir: seq<Layer>, k: Candidate, c: Candidate) {
    && k.eo < |eo| && k.ir < |ir| && c.eo < |eo| && c.ir < |ir|
    && (k.eo == c.eo || k.ir == c.ir)
    && var mine, theirs := TimeApart(eo[k.eo], ir[k.ir]), TimeApart(eo[c.eo], ir[c.ir]);
      mine < theirs || (mine == theirs && (k.eo < c.eo || (k.eo == c.eo && k.ir < c.ir)))
  }

  lemma BlockedInTimes(eo: seq<Layer>, ir: seq<Layer>, limit: int, kept: set<Candidate>, c: Candidate)
    requires Fits(eo, ir, limit, c) && forall k :: k in kept ==> Fits(eo, ir, limit, k)
    ensures Blocked(kept, c) <==> exists k :: k in kept && BeatsInTimes(eo, ir, k, c)
  {
    forall k | k in kept ensures Shares(k, c) && Before(k, c) && k != c <==> BeatsInTimes(eo, ir, k, c) {
    }
  }

  /** Kept pairs are within the limit and share no layer; every other pair within the limit is beaten
      by a kept one. */
  lemma SelectionInTimes(eo: seq<Layer>, ir: seq<Layer>, limit: int, e: nat, i: nat)
    requires e < |eo| && i < |ir|
    ensures var kept, apart := Members(Selection(eo, ir, limit)), TimeApart(eo[e], ir[i]);
      var here := Candidate(apart, e, i);
      && (forall k :: k in kept ==> k.eo < |eo| && k.ir < |ir|)
      && (here in kept ==> apart <= limit)
      && (here in kept ==> forall k :: k in kept && (k.eo == e || k.ir == i) ==> k == here)
      && (here !in kept && apart <= limit ==> exists k :: k in kept && BeatsInTimes(eo, ir, k, here))
  {
    hide Selection, Before;
    SelectionIsGreedy(eo, ir, limit);
    var kept, here := Members(Selection(eo, ir, limit)), Candidate(TimeApart(eo[e], ir[i]), e, i);
    if here !in kept && here.delta <= limit { BlockedInTimes(eo, ir, limit, kept, here); }
  }

  /** The pairs returned are the selected ones, in the order of their first layers' times. */
  lemma PairsInTimeOrder(pairs: seq<Pair>)
    ensures multiset(Sort(pairs, EarlierPair)) == multiset(pairs)
    ensures var sorted := Sort(pairs, EarlierPair);
      forall a, b :: 0 <= a < b < |sorted| ==> sorted[a].eo.time <= sorted[b].eo.time
  {
    SortPermutes(pairs, EarlierPair);
    SortSorts(pairs, EarlierPair);
    var sorted := Sort(pairs, EarlierPair);
    forall a, b | 0 <= a < b < |sorted| ensures sorted[a].eo.time <= sorted[b].eo.time {
      assert EarlierPair(sorted[a], sorted[b]);
    }
  }

  /** `pair_nearest_layers` */
  method PairNearestLayers(eoLayers: seq<Layer>, irLayers: seq<Layer>, limit: int) returns (pairs: seq<Pair>)
    ensures var eo, ir := Sort(eoLayers, Earlier), Sort(irLayers, Earlier);
      && Indexed(eo, ir, Selection(eo, ir, limit))
      && pairs == Sort(Named(eo, ir, Selection(eo, ir, limit)), EarlierPair)
    ensures forall a, b :: 0 <= a < b < |pairs| ==> pairs[a].eo.time <= pairs[b].eo.time
  {
    var eo, ir := Sort(eoLayers, Earlier), Sort(irLayers, Earlier);
    SortSorts(irLayers, Earlier);
    var candidates := FindCandidates(eo, ir, limit);
    BeforeIsTotalOrder();
    SortIgnoresOrder(candidates, AllCandidates(eo, ir, limit, |eo|), Before);
    var selected := SelectGreedily(Sort(candidates, Before));
    SelectionIsGreedy(eo, ir, limit);
    PairsInTimeOrder(Named(eo, ir, selected));
    pairs := Sort(Named(eo, ir, selected), EarlierPair);
  }
}
