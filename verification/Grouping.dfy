/** Rows collected into lists by key, as a dictionary of lists does it. Rows without a key
    are skipped. */
module Grouping {
  import opened Counting
  import opened Outcomes
  import opened Sorting

  function Keys<T(==, !new), K(==, !new)>(rows: seq<T>, key: T -> Option<K>): set<K> {
    set r | r in rows && key(r).Some? :: key(r).value
  }

  function HasKey<T, K(==)>(key: T -> Option<K>, k: K): T -> bool {
    r => key(r) == Some(k)
  }

  /** The rows with a key, in their order. */
  function GroupOf<T, K(==)>(rows: seq<T>, key: T -> Option<K>, k: K): seq<T> {
    Filter(rows, HasKey(key, k))
  }

  function OneIf<T>(condition: bool, x: T): seq<T> {
    if condition then [x] else []
  }

  /** The grouping loop. */
  method BuildGroups<T(==, !new), K(==, !new)>(rows: seq<T>, key: T -> Option<K>) returns (groups: map<K, seq<T>>)
    ensures groups.Keys == Keys(rows, key)
    ensures forall k :: k in groups ==> groups[k] == GroupOf(rows, key, k)
  {
    hide GroupOf, Keys;
    groups := map[];
    NoRows(key);
    for i := 0 to |rows|
      invariant groups.Keys == Keys(rows[..i], key)
      invariant forall k :: k in groups ==> groups[k] == GroupOf(rows[..i], key, k)
    {
      NextRow(rows[..i], key, rows[i]);
      assert rows[..i + 1] == rows[..i] + [rows[i]];
      var k := key(rows[i]);
      if k.None? {
        continue;
      }
      var before := if k.value in groups then groups[k.value] else [];
      groups := groups[k.value := before + [rows[i]]];
    }
    assert rows[..|rows|] == rows;
  }

  lemma NoRows<T(!new), K(!new)>(key: T -> Option<K>)
    ensures Keys([], key) == {}
  {
  }

  lemma NextRow<T(!new), K(!new)>(front: seq<T>, key: T -> Option<K>, r: T)
    ensures Keys(front + [r], key) == Keys(front, key) + match key(r) case None => {} case Some(k) => {k}
    ensures forall k :: GroupOf(front + [r], key, k) == GroupOf(front, key, k) + OneIf(key(r) == Some(k), r)
    ensures forall k :: k !in Keys(front, key) ==> GroupOf(front, key, k) == []
  {
    hide GroupOf;
    forall k ensures GroupOf(front + [r], key, k) == GroupOf(front, key, k) + OneIf(key(r) == Some(k), r) {
      GroupGrows(front, key, r, k);
    }
    forall k | k !in Keys(front, key) ensures GroupOf(front, key, k) == [] {
      GroupMembers(front, key, k);
      assert forall x :: x in front && key(x) == Some(k) ==> k in Keys(front, key);
    }
  }

  lemma GroupGrows<T, K>(front: seq<T>, key: T -> Option<K>, r: T, k: K)
    ensures GroupOf(front + [r], key, k) == GroupOf(front, key, k) + OneIf(key(r) == Some(k), r)
  {
    FilterAppend(front, [r], HasKey(key, k));
    FilterCons(r, [], HasKey(key, k));
  }

  lemma GroupMembers<T, K>(rows: seq<T>, key: T -> Option<K>, k: K)
    ensures forall x :: x in GroupOf(rows, key, k) <==> x in rows && key(x) == Some(k)
    ensures GroupOf(rows, key, k) == [] || exists x :: x in GroupOf(rows, key, k)
  {
    hide Filter;
    FilterMembers(rows, HasKey(key, k));
    var group := GroupOf(rows, key, k);
    assert group == [] || group[0] in group;
  }

  /** Reordering the rows changes neither the keys nor any sorted group without ties. */
  lemma GroupsIgnoreOrder<T(!new), K(!new)>(a: seq<T>, b: seq<T>, key: T -> Option<K>, le: (T, T) -> bool, k: K)
    requires multiset(a) == multiset(b) && TotalPreorder(le)
    requires forall x, y :: x in a && y in a && le(x, y) && le(y, x) ==> x == y
    ensures Keys(a, key) == Keys(b, key)
    ensures Sort(GroupOf(a, key, k), le) == Sort(GroupOf(b, key, k), le)
  {
    SameMembers(a, b);
    var group := GroupOf(a, key, k);
    FilterPermutes(a, b, HasKey(key, k));
    GroupMembers(a, key, k);
    forall i, j | 0 <= i < |group| && 0 <= j < |group| && le(group[i], group[j]) && le(group[j], group[i])
      ensures group[i] == group[j]
    {
      assert group[i] in group && group[j] in group;
    }
    SortIgnoresOrder(group, GroupOf(b, key, k), le);
  }
}
