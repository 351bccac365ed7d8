/** Thinning timestamped observations so that the kept ones are a minimum interval apart. */
module Thinning {
  import opened Outcomes
  import opened Labels
  import opened Sorting
  import opened Counting

  /** `time` in whole seconds; `folder` is the part of the path the sort ignores. */
  datatype Observation = Observation(time: int, name: string, folder: string)

  predicate Before(a: Observation, b: Observation) {
    a.time < b.time || (a.time == b.time && Le(a.name, b.name))
  }

  lemma BeforeIsTotal()
    ensures TotalPreorder(Before)
  {
    forall x, y ensures Before(x, y) || Before(y, x) { LeTotalOrder(x.name, y.name, y.name); }
    forall x, y, z | Before(x, y) && Before(y, z) ensures Before(x, z) { LeTotalOrder(x.name, y.name, z.name); }
  }

  /** The observations kept from a list in time order. */
  function Thin(s: seq<Observation>, interval: int): seq<Observation> {
    if s == [] then [] else
      var kept, o := Thin(s[..|s| - 1], interval), s[|s| - 1];
      if kept == [] || o.time - kept[|kept| - 1].time >= interval then kept + [o] else kept
  }

  /** `select_by_interval` */
  method SelectByInterval(observations: seq<Observation>, interval: int) returns (r: Result<seq<Observation>>)
    ensures r.Success? <==> interval > 0
    ensures r.Success? ==> r.value == Thin(Sort(observations, Before), interval)
  {
    if interval <= 0 {
      return Failure("interval_seconds must be positive");
    }
    var sorted := Sort(observations, Before);
    var selected: seq<Observation> := [];
    var last: Option<int> := None;
    for i := 0 to |sorted|
      invariant selected == Thin(sorted[..i], interval)
      invariant last == if selected == [] then None else Some(selected[|selected| - 1].time)
    {
      assert sorted[..i + 1][..i] == sorted[..i];
      if last.None? || sorted[i].time - last.value >= interval {
        selected := selected + [sorted[i]];
        last := Some(sorted[i].time);
      }
    }
    assert sorted[..|sorted|] == sorted;
    return Success(selected);
  }

  ghost predicate Ascending(s: seq<Observation>) {
    forall i, j :: 0 <= i < j < |s| ==> s[i].time <= s[j].time
  }

  /** In order, and at least an interval apart. */
  ghost predicate Spaced(s: seq<Observation>, interval: int) {
    forall i, j :: 0 <= i < j < |s| ==> s[j].time - s[i].time >= interval
  }

  /** `k` stands for `o`: taken no later, and less than an interval before it. */
  predicate StandsFor(k: Observation, o: Observation, interval: int) {
    k.time <= o.time < k.time + interval
  }

  ghost predicate Covered(kept: seq<Observation>, o: Observation, interval: int) {
    exists i :: 0 <= i < |kept| && StandsFor(kept[i], o, interval)
  }

  /** What thinning promises of a list: a spaced choice from it that stands for all of it. */
  ghost predicate Thinned(kept: seq<Observation>, s: seq<Observation>, interval: int) {
    && (forall k :: k in kept ==> k in s)
    && Spaced(kept, interval)
    && (forall o {:trigger Covered(kept, o, interval)} :: o in s ==> Covered(kept, o, interval))
  }

  lemma {:induction false} ThinIsThinned(s: seq<Observation>, interval: int)
    requires interval > 0 && Ascending(s)
    ensures Thinned(Thin(s, interval), s, interval)
  {
    if s != [] {
      var n := |s| - 1;
      ThinIsThinned(s[..n], interval);
      assert s == s[..n] + [s[n]];
      assert forall k :: k in s[..n] ==> k.time <= s[n].time;
      if Thin(s, interval) == Thin(s[..n], interval) {
        SkipIsThinned(Thin(s[..n], interval), s[..n], s[n], interval);
      } else {
        TakeIsThinned(Thin(s[..n], interval), s[..n], s[n], interval);
      }
    }
  }

  lemma SkipIsThinned(kept: seq<Observation>, s: seq<Observation>, o: Observation, interval: int)
    requires Thinned(kept, s, interval) && kept != []
    requires kept[|kept| - 1].time <= o.time < kept[|kept| - 1].time + interval
    ensures Thinned(kept, s + [o], interval)
  {
    assert StandsFor(kept[|kept| - 1], o, interval) && Covered(kept, o, interval);
    forall p | p in s + [o] ensures Covered(kept, p, interval) {
      if p != o { assert Covered(kept, p, interval); }
    }
  }

  lemma TakeIsThinned(kept: seq<Observation>, s: seq<Observation>, o: Observation, interval: int)
    requires interval > 0 && Thinned(kept, s, interval)
    requires kept == [] || o.time - kept[|kept| - 1].time >= interval
    ensures Thinned(kept + [o], s + [o], interval)
  {
    var more := kept + [o];
    assert more[|kept|] == o && StandsFor(o, o, interval);
    forall p | p in s + [o] ensures Covered(more, p, interval) {
      if p in s {
        assert Covered(kept, p, interval);
        var i :| 0 <= i < |kept| && StandsFor(kept[i], p, interval);
        assert more[i] == kept[i];
      }
    }
    forall i, j | 0 <= i < j < |more| ensures more[j].time - more[i].time >= interval {
      if j == |kept| && i < |kept| - 1 { assert kept[|kept| - 1].time - kept[i].time >= interval; }
    }
  }

  lemma SortedIsAscending(observations: seq<Observation>)
    ensures Ascending(Sort(observations, Before))
  {
    BeforeIsTotal();
    SortSorts(observations, Before);
    var s := Sort(observations, Before);
    forall i, j | 0 <= i < j < |s| ensures s[i].time <= s[j].time { assert Before(s[i], s[j]); }
  }

  lemma {:induction false} EarlierStandsFor(s: seq<Observation>, interval: int, i: nat) returns (k: Observation)
    requires interval > 0 && SortedBy(s, Before) && i < |s|
    ensures k in Thin(s, interval) && StandsFor(k, s[i], interval) && Before(k, s[i])
  {
    var n := |s| - 1;
    var before, kept := Thin(s[..n], interval), Thin(s, interval);
    if i < n {
      k := EarlierStandsFor(s[..n], interval, i);
    } else if kept == before + [s[n]] {
      LeTotalOrder(s[n].name, s[n].name, s[n].name);
      k := s[n];
    } else {
      k := before[|before| - 1];
      ThinKeepsMembers(s[..n], interval);
      assert k in s[..n];
      var j :| 0 <= j < n && s[..n][j] == k;
      assert Before(s[j], s[n]);
    }
  }

  lemma {:induction false} ThinKeepsMembers(s: seq<Observation>, interval: int)
    ensures forall k :: k in Thin(s, interval) ==> k in s
  {
    if s != [] {
      ThinKeepsMembers(s[..|s| - 1], interval);
      assert s == s[..|s| - 1] + [s[|s| - 1]];
    }
  }

  /** Every observation has a kept one less than an interval before it, or at the same time and
      with the same name or one that comes first. */
  lemma FirstNamesAreKept(observations: seq<Observation>, interval: int, o: Observation)
    requires interval > 0 && o in observations
    ensures exists k ::
      && k in Thin(Sort(observations, Before), interval)
      && (o.time - interval < k.time < o.time || (k.time == o.time && (k.name == o.name || Less(k.name, o.name))))
  {
    var s := Sort(observations, Before);
    BeforeIsTotal();
    SortSorts(observations, Before);
    SortKeepsMembers(observations, Before);
    var i :| 0 <= i < |s| && s[i] == o;
    var k := EarlierStandsFor(s, interval, i);
  }

  ghost predicate Apart(a: Observation, b: Observation, interval: int) {
    a.time - b.time >= interval || b.time - a.time >= interval
  }

  ghost predicate PairwiseApart(chosen: set<Observation>, interval: int) {
    forall a, b :: a in chosen && b in chosen && a != b ==> Apart(a, b, interval)
  }

  /** Thinning the input in any order keeps a spaced choice standing for everything, and no
      spaced choice from the input is larger. */
  lemma ThinningIsOptimal(observations: seq<Observation>, interval: int, other: set<Observation>)
    requires interval > 0
    requires PairwiseApart(other, interval) && forall o :: o in other ==> o in observations
    ensures var kept := Thin(Sort(observations, Before), interval);
      Thinned(kept, observations, interval) && |other| <= |kept|
  {
    var sorted := Sort(observations, Before);
    SortedIsAscending(observations);
    SortKeepsMembers(observations, Before);
    ThinIsThinned(sorted, interval);
    var kept := Thin(sorted, interval);
    forall o | o in observations ensures Covered(kept, o, interval) { assert o in sorted; }
    forall o | o in other ensures Covered(kept, o, interval) {}
    CoverIsNoSmaller(kept, other, interval);
  }

  lemma CoverIsNoSmaller(kept: seq<Observation>, other: set<Observation>, interval: int)
    requires interval > 0 && Spaced(kept, interval) && PairwiseApart(other, interval)
    requires forall o :: o in other ==> Covered(kept, o, interval)
    ensures |other| <= |kept|
  {
    var members := set k | k in kept;
    forall o | o in other ensures exists k :: k in members && StandsFor(k, o, interval) {
      assert Covered(kept, o, interval);
      var i :| 0 <= i < |kept| && StandsFor(kept[i], o, interval);
      assert kept[i] in members;
    }
    PartnersNoFewer(other, members, (o: Observation, k: Observation) => StandsFor(k, o, interval));
    assert Distinct(kept);
    DistinctCount(kept);
  }

  // ---- Which times are kept ----

  /** The times of two thinnings of the same observations agree position by position. */
  lemma {:induction false} KeptTimesUnique(a: seq<Observation>, b: seq<Observation>, s: seq<Observation>,
                                           interval: int, n: nat)
    requires interval > 0 && Thinned(a, s, interval) && Thinned(b, s, interval)
    requires n <= |a|
    ensures n <= |b| && forall i :: 0 <= i < n ==> a[i].time == b[i].time
  {
    if n > 0 {
      KeptTimesUnique(a, b, s, interval, n - 1);
      NextNotLater(a, b, s, interval, n - 1);
      NextNotLater(b, a, s, interval, n - 1);
    }
  }

  lemma NextNotLater(a: seq<Observation>, b: seq<Observation>, s: seq<Observation>, interval: int, n: nat)
    requires interval > 0 && Thinned(a, s, interval) && Thinned(b, s, interval)
    requires n < |a| && n <= |b| && forall i :: 0 <= i < n ==> a[i].time == b[i].time
    ensures n < |b| && b[n].time <= a[n].time
  {
    var o := a[n];
    assert Covered(b, o, interval);
    var j :| 0 <= j < |b| && StandsFor(b[j], o, interval);
  }

  /** The kept times do not depend on the order of the input. */
  lemma KeptTimesIgnoreOrder(a: seq<Observation>, b: seq<Observation>, interval: int)
    requires interval > 0 && multiset(a) == multiset(b)
    ensures var keptA, keptB := Thin(Sort(a, Before), interval), Thin(Sort(b, Before), interval);
      |keptA| == |keptB| && forall i :: 0 <= i < |keptA| ==> keptA[i].time == keptB[i].time
  {
    var keptA, keptB := Thin(Sort(a, Before), interval), Thin(Sort(b, Before), interval);
    ThinningIsOptimal(a, interval, {});
    ThinningIsOptimal(b, interval, {});
    SameMembers(a, b);
    KeptTimesUnique(keptA, keptB, a, interval, |keptA|);
    KeptTimesUnique(keptB, keptA, a, interval, |keptB|);
  }
}
