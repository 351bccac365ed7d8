/** Taking one element of every group in turn until a limit is reached. */
module RoundRobin {
  import opened Sorting

  /** What one round takes from the first `g` groups: their elements at `index`. */
  function Column<T>(groups: seq<seq<T>>, g: nat, index: nat): seq<T>
    requires g <= |groups|
  {
    if g == 0 then [] else
      Column(groups, g - 1, index) + if index < |groups[g - 1]| then [groups[g - 1][index]] else []
  }

  function Rounds<T>(groups: seq<seq<T>>, n: nat): seq<T> {
    if n == 0 then [] else Rounds(groups, n - 1) + Column(groups, |groups|, n - 1)
  }

  function Longest<T>(groups: seq<seq<T>>): (n: nat)
    ensures forall g :: 0 <= g < |groups| ==> |groups[g]| <= n
    ensures n == 0 || exists g :: 0 <= g < |groups| && |groups[g]| == n
  {
    if groups == [] then 0 else
      var front, last := Longest(groups[..|groups| - 1]), |groups[|groups| - 1]|;
      assert forall g :: 0 <= g < |groups| - 1 ==> groups[..|groups| - 1][g] == groups[g];
      if front < last then last else front
  }

  /** Every element, in the order rounds take them. */
  function Everything<T>(groups: seq<seq<T>>): seq<T> {
    Rounds(groups, Longest(groups))
  }

  function Take<T>(s: seq<T>, limit: nat): seq<T> {
    if limit < |s| then s[..limit] else s
  }

  lemma {:induction false} ColumnsNest<T>(groups: seq<seq<T>>, g: nat, h: nat, index: nat)
    requires g <= h <= |groups|
    ensures Column(groups, g, index) <= Column(groups, h, index)
  {
    if g < h { ColumnsNest(groups, g, h - 1, index); }
  }

  lemma {:induction false} RoundsNest<T>(groups: seq<seq<T>>, m: nat, n: nat)
    requires m <= n
    ensures Rounds(groups, m) <= Rounds(groups, n)
    ensures Longest(groups) <= m ==> Rounds(groups, m) == Rounds(groups, n)
    decreases n
  {
    hide Column, Longest;
    if m < n {
      RoundsNest(groups, m, n - 1);
      if Longest(groups) <= m { ColumnIsEmpty(groups, |groups|, n - 1); }
    }
  }

  lemma {:induction false} ColumnIsEmpty<T>(groups: seq<seq<T>>, g: nat, index: nat)
    requires g <= |groups|
    ensures Column(groups, g, index) == [] <==> forall h :: 0 <= h < g ==> |groups[h]| <= index
  {
    if g > 0 { ColumnIsEmpty(groups, g - 1, index); }
  }

  /** The two nested loops: rounds over the groups until the limit or an empty round. */
  method Interleave<T>(groups: seq<seq<T>>, limit: nat) returns (selected: seq<T>)
    ensures selected == Take(Everything(groups), limit)
  {
    hide Column;
    var all := Everything(groups);
    selected := [];
    var index := 0;
    while |selected| < limit
      invariant selected <= all && |selected| <= limit
      invariant |selected| < limit ==> selected == Rounds(groups, index)
      decreases Longest(groups) - index
    {
      var added;
      selected, added := Round(groups, index, selected, limit);
      RoundFits(groups, index);
      ColumnIsEmpty(groups, |groups|, index);
      if !added {
        RoundsNest(groups, Longest(groups), index);
        break;
      }
      index := index + 1;
    }
  }

  lemma RoundFits<T>(groups: seq<seq<T>>, index: nat)
    ensures Rounds(groups, index) + Column(groups, |groups|, index) <= Everything(groups)
  {
    assert Rounds(groups, index + 1) == Rounds(groups, index) + Column(groups, |groups|, index);
    if index + 1 <= Longest(groups) {
      RoundsNest(groups, index + 1, Longest(groups));
    } else {
      RoundsNest(groups, Longest(groups), index + 1);
    }
  }

  method Round<T>(groups: seq<seq<T>>, index: nat, before: seq<T>, limit: nat) returns (selected: seq<T>, added: bool)
    requires |before| < limit
    ensures selected <= before + Column(groups, |groups|, index) && |selected| <= limit
    ensures |selected| < limit ==> selected == before + Column(groups, |groups|, index)
    ensures added <==> selected != before
    ensures before <= selected
  {
    selected, added := before, false;
    for g := 0 to |groups|
      invariant selected == before + Column(groups, g, index) && |selected| < limit
      invariant added <==> selected != before
    {
      ColumnsNest(groups, g + 1, |groups|, index);
      if index >= |groups[g]| {
        continue;
      }
      selected, added := selected + [groups[g][index]], true;
      if |selected| == limit {
        break;
      }
    }
  }

  // ---- How much there is to take ----

  function Shares<T>(groups: seq<seq<T>>, g: nat, rounds: nat): nat
    requires g <= |groups|
  {
    if g == 0 then 0 else Shares(groups, g - 1, rounds) + Smaller(|groups[g - 1]|, rounds)
  }

  function Smaller(a: nat, b: nat): nat {
    if a < b then a else b
  }

  lemma {:induction false} ColumnSize<T>(groups: seq<seq<T>>, g: nat, index: nat)
    requires g <= |groups|
    ensures Shares(groups, g, index + 1) == Shares(groups, g, index) + |Column(groups, g, index)|
  {
    if g > 0 { ColumnSize(groups, g - 1, index); }
  }

  lemma {:induction false} RoundsSize<T>(groups: seq<seq<T>>, n: nat)
    ensures |Rounds(groups, n)| == Shares(groups, |groups|, n)
  {
    if n > 0 {
      RoundsSize(groups, n - 1);
      ColumnSize(groups, |groups|, n - 1);
    } else {
      NoShares(groups, |groups|);
    }
  }

  lemma {:induction false} NoShares<T>(groups: seq<seq<T>>, g: nat)
    requires g <= |groups|
    ensures Shares(groups, g, 0) == 0
  {
    if g > 0 { NoShares(groups, g - 1); }
  }

  function Available<T>(groups: seq<seq<T>>, g: nat): nat
    requires g <= |groups|
  {
    if g == 0 then 0 else Available(groups, g - 1) + |groups[g - 1]|
  }

  /** Nothing is left out: the rounds take as many elements as the groups hold. */
  lemma EverythingIsAvailable<T>(groups: seq<seq<T>>)
    ensures |Everything(groups)| == Available(groups, |groups|)
  {
    RoundsSize(groups, Longest(groups));
    FullShares(groups, |groups|);
  }

  lemma {:induction false} FullShares<T>(groups: seq<seq<T>>, g: nat)
    requires g <= |groups|
    ensures Shares(groups, g, Longest(groups)) == Available(groups, g)
  {
    if g > 0 { FullShares(groups, g - 1); }
  }

  // ---- Order ----

  /** How many of the first `g` groups have an element at `index`. */
  function Reaching<T>(groups: seq<seq<T>>, g: nat, index: nat): nat
    requires g <= |groups|
  {
    if g == 0 then 0 else Reaching(groups, g - 1, index) + if index < |groups[g - 1]| then 1 else 0
  }

  lemma {:induction false} ColumnReaches<T>(groups: seq<seq<T>>, g: nat, index: nat)
    requires g <= |groups|
    ensures |Column(groups, g, index)| == Reaching(groups, g, index)
  {
    if g > 0 { ColumnReaches(groups, g - 1, index); }
  }

  /** Element `index` of group `g` comes after what every group gives to earlier rounds and
      earlier groups give to its own. */
  lemma PlaceOfElement<T>(groups: seq<seq<T>>, g: nat, index: nat)
    requires g < |groups| && index < |groups[g]|
    ensures var place := Shares(groups, |groups|, index) + Reaching(groups, g, index);
      place < |Everything(groups)| && Everything(groups)[place] == groups[g][index]
  {
    hide Longest;
    RoundsSize(groups, index);
    ColumnReaches(groups, g, index);
    ColumnsNest(groups, g + 1, |groups|, index);
    RoundsNest(groups, index + 1, Longest(groups));
    var front := Rounds(groups, index) + Column(groups, g, index);
    assert Column(groups, g + 1, index) == Column(groups, g, index) + [groups[g][index]];
    assert front + [groups[g][index]] <= Rounds(groups, index + 1);
  }

  // ---- Fairness ----

  /** Where a limit cuts the rounds: `r` full rounds and the first `g` groups of the next. */
  lemma {:induction false} CutPoint<T>(groups: seq<seq<T>>, n: nat, limit: nat) returns (r: nat, g: nat)
    requires limit <= |Rounds(groups, n)|
    ensures g <= |groups| && Rounds(groups, n)[..limit] == Rounds(groups, r) + Column(groups, g, r)
  {
    if n == 0 {
      r, g := 0, 0;
    } else if limit <= |Rounds(groups, n - 1)| {
      r, g := CutPoint(groups, n - 1, limit);
    } else {
      r := n - 1;
      var rest := limit - |Rounds(groups, r)|;
      g := CutColumn(groups, |groups|, r, rest);
      ColumnsNest(groups, g, |groups|, r);
    }
  }

  lemma {:induction false} CutColumn<T>(groups: seq<seq<T>>, h: nat, index: nat, size: nat) returns (g: nat)
    requires h <= |groups| && size <= |Column(groups, h, index)|
    ensures g <= h && |Column(groups, g, index)| == size
  {
    if size == |Column(groups, h, index)| {
      g := h;
    } else {
      g := CutColumn(groups, h - 1, index, size);
    }
  }

  /** Groups are told apart by a key their elements carry. */
  ghost predicate Keyed<T, K>(groups: seq<seq<T>>, keys: seq<K>, key: T -> K) {
    && |keys| == |groups|
    && (forall i, j :: 0 <= i < j < |keys| ==> keys[i] != keys[j])
    && (forall g, i :: 0 <= g < |groups| && 0 <= i < |groups[g]| ==> key(groups[g][i]) == keys[g])
  }

  ghost function KeyIs<T, K>(key: T -> K, k: K): T -> bool {
    x => key(x) == k
  }

  lemma {:induction false} ColumnByKey<T, K>(groups: seq<seq<T>>, keys: seq<K>, key: T -> K, g: nat, index: nat, k: nat)
    requires Keyed(groups, keys, key) && g <= |groups| && k < |groups|
    ensures Filter(Column(groups, g, index), KeyIs(key, keys[k]))
         == if k < g && index < |groups[k]| then [groups[k][index]] else []
  {
    hide Filter, KeyIs;
    if g == 0 {
      FilterEmpty(KeyIs(key, keys[k]));
    } else {
      ColumnByKey(groups, keys, key, g - 1, index, k);
      OneMoreColumn(groups, keys, key, g - 1, index, k);
    }
  }

  lemma OneMoreColumn<T, K>(groups: seq<seq<T>>, keys: seq<K>, key: T -> K, g: nat, index: nat, k: nat)
    requires Keyed(groups, keys, key) && g < |groups| && k < |groups|
    ensures Filter(Column(groups, g + 1, index), KeyIs(key, keys[k]))
      == Filter(Column(groups, g, index), KeyIs(key, keys[k]))
      + if k == g && index < |groups[g]| then [groups[g][index]] else []
  {
    hide Filter;
    var p := KeyIs(key, keys[k]);
    FilterAppend(Column(groups, g, index), if index < |groups[g]| then [groups[g][index]] else [], p);
    FilterEmpty(p);
    if index < |groups[g]| { FilterOne(groups[g][index], p); }
  }

  lemma FilterEmpty<T>(p: T -> bool)
    ensures Filter([], p) == []
  {
  }

  lemma FilterOne<T>(x: T, p: T -> bool)
    ensures Filter([x], p) == if p(x) then [x] else []
  {
    FilterCons(x, [], p);
  }

  lemma OneMore<T>(s: seq<T>, n: nat)
    ensures s[..Smaller(|s|, n)] + (if n < |s| then [s[n]] else []) == s[..Smaller(|s|, n + 1)]
  {
  }

  lemma {:induction false} RoundsByKey<T, K>(groups: seq<seq<T>>, keys: seq<K>, key: T -> K, n: nat, k: nat)
    requires Keyed(groups, keys, key) && k < |groups|
    ensures Filter(Rounds(groups, n), KeyIs(key, keys[k])) == groups[k][..Smaller(|groups[k]|, n)]
  {
    var p := KeyIs(key, keys[k]);
    if n > 0 {
      RoundsByKey(groups, keys, key, n - 1, k);
      ColumnByKey(groups, keys, key, |groups|, n - 1, k);
      hide Column, Filter, Keyed, KeyIs;
      OneMoreRound(Rounds(groups, n - 1), Column(groups, |groups|, n - 1), p, groups[k], n - 1);
    }
  }

  lemma OneMoreRound<T>(front: seq<T>, column: seq<T>, p: T -> bool, group: seq<T>, n: nat)
    requires Filter(front, p) == group[..Smaller(|group|, n)]
    requires Filter(column, p) == if n < |group| then [group[n]] else []
    ensures Filter(front + column, p) == group[..Smaller(|group|, n + 1)]
  {
    hide Filter;
    FilterAppend(front, column, p);
    OneMore(group, n);
  }

  /** Every group contributes the front of its order, cut after `r` or `r + 1` elements for one
      common `r`; the longer shares go to the leading groups. */
  lemma SharesAreFair<T, K>(groups: seq<seq<T>>, keys: seq<K>, key: T -> K, limit: nat) returns (r: nat, g: nat)
    requires Keyed(groups, keys, key)
    ensures g <= |groups|
    ensures forall k {:trigger groups[k]} :: 0 <= k < |groups| ==>
      Filter(Take(Everything(groups), limit), KeyIs(key, keys[k]))
      == groups[k][..Smaller(|groups[k]|, if k < g then r + 1 else r)]
  {
    hide Everything, Rounds, Column;
    var all := Everything(groups);
    var size := if limit < |all| then limit else |all|;
    EverythingIsRounds(groups);
    r, g := CutPoint(groups, Longest(groups), size);
    assert Take(all, limit) == Rounds(groups, r) + Column(groups, g, r);
    forall k | 0 <= k < |groups|
      ensures Filter(Take(all, limit), KeyIs(key, keys[k]))
           == groups[k][..Smaller(|groups[k]|, if k < g then r + 1 else r)]
    {
      ShareOf(groups, keys, key, r, g, k);
    }
  }

  lemma EverythingIsRounds<T>(groups: seq<seq<T>>)
    ensures Everything(groups) == Rounds(groups, Longest(groups))
  {
  }

  lemma ShareOf<T, K>(groups: seq<seq<T>>, keys: seq<K>, key: T -> K, r: nat, g: nat, k: nat)
    requires Keyed(groups, keys, key) && g <= |groups| && k < |groups|
    ensures Filter(Rounds(groups, r) + Column(groups, g, r), KeyIs(key, keys[k]))
         == groups[k][..Smaller(|groups[k]|, if k < g then r + 1 else r)]
  {
    hide Rounds, Column, Filter, KeyIs;
    RoundsByKey(groups, keys, key, r, k);
    ColumnByKey(groups, keys, key, g, r, k);
    FilterAppend(Rounds(groups, r), Column(groups, g, r), KeyIs(key, keys[k]));
  }
}
