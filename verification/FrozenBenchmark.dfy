/** What freezing a benchmark promises: fair shares, stability under longer limits and
    reordered manifests, and resolving back to the records it froze. */
module FrozenBenchmark {
  import opened Counting
  import opened Outcomes
  import opened Sorting
  import opened RoundRobin
  import opened Benchmark
  import G = Grouping

  // ---- Shares ----

  ghost function Wrapped(keys: seq<Key>): (r: seq<Option<Key>>)
    ensures |r| == |keys| && forall i :: 0 <= i < |keys| ==> r[i] == Some(keys[i])
  {
    seq(|keys|, i requires 0 <= i < |keys| => Some(keys[i]))
  }

  lemma GroupsAreKeyed(records: seq<Record>, allowed: set<int>)
    ensures Keyed(OrderedGroups(records, allowed), Wrapped(SortedKeys(Keys(records, allowed))), KeyBy(allowed))
  {
    hide KeyOf, G.GroupOf;
    var groups, keys := OrderedGroups(records, allowed), SortedKeys(Keys(records, allowed));
    forall g, i | 0 <= g < |groups| && 0 <= i < |groups[g]| ensures KeyOf(groups[g][i], allowed) == Some(keys[g]) {
      SortKeepsMembers(GroupOf(records, allowed, keys[g]), ByDigest);
      G.GroupMembers(records, KeyBy(allowed), keys[g]);
      assert groups[g][i] in groups[g];
    }
  }

  /** Every group contributes the front of its digest order, `r` or `r + 1` records for one
      common `r` (or all it has), the leading groups the longer share. */
  lemma FreezeIsFair(records: seq<Record>, allowed: set<int>, limit: nat) returns (r: nat, g: nat)
    ensures var groups, keys := OrderedGroups(records, allowed), SortedKeys(Keys(records, allowed));
      forall k {:trigger groups[k]} :: 0 <= k < |groups| ==>
        GroupOf(Chosen(records, allowed, limit), allowed, keys[k])
        == groups[k][..Smaller(|groups[k]|, if k < g then r + 1 else r)]
  {
    hide Everything, KeyOf;
    var groups, keys := OrderedGroups(records, allowed), SortedKeys(Keys(records, allowed));
    GroupsAreKeyed(records, allowed);
    r, g := SharesAreFair(groups, Wrapped(keys), KeyBy(allowed), limit);
    forall k | 0 <= k < |groups|
      ensures GroupOf(Chosen(records, allowed, limit), allowed, keys[k])
        == groups[k][..Smaller(|groups[k]|, if k < g then r + 1 else r)]
    {
      FilterSame(Chosen(records, allowed, limit), G.HasKey(KeyBy(allowed), keys[k]),
        KeyIs(KeyBy(allowed), Wrapped(keys)[k]));
    }
  }

  function GroupSizes(records: seq<Record>, allowed: set<int>, keys: seq<Key>): nat {
    if keys == [] then 0 else
      GroupSizes(records, allowed, keys[..|keys| - 1]) + |GroupOf(records, allowed, keys[|keys| - 1])|
  }

  /** Critical test images, and training images held out for validation or testing. */
  predicate Eligible(r: Record) {
    || r.role == "detector_critical_test"
    || (r.role == "detector_training" && (r.split == "validation" || r.split == "test"))
  }

  lemma {:induction false} SizesGrow(front: seq<Record>, r: Record, allowed: set<int>, keys: seq<Key>)
    requires forall i, j :: 0 <= i < j < |keys| ==> keys[i] != keys[j]
    ensures GroupSizes(front + [r], allowed, keys) == GroupSizes(front, allowed, keys)
      + if KeyOf(r, allowed).Some? && KeyOf(r, allowed).value in keys then 1 else 0
  {
    hide KeyOf, G.GroupOf;
    if keys != [] {
      var n := |keys| - 1;
      SizesGrow(front, r, allowed, keys[..n]);
      G.GroupGrows(front, KeyBy(allowed), r, keys[n]);
      assert keys == keys[..n] + [keys[n]];
    }
  }

  lemma {:induction false} SizesCountEligible(records: seq<Record>, allowed: set<int>, keys: seq<Key>)
    requires forall i, j :: 0 <= i < j < |keys| ==> keys[i] != keys[j]
    requires forall r :: r in records && Eligible(r) ==> KeyOf(r, allowed).value in keys
    ensures GroupSizes(records, allowed, keys) == Tally(records, Eligible)
  {
    if records == [] {
      NoSizes(allowed, keys);
    } else {
      var n := |records| - 1;
      assert records == records[..n] + [records[n]];
      SizesCountEligible(records[..n], allowed, keys);
      SizesGrow(records[..n], records[n], allowed, keys);
      FilterAppend(records[..n], [records[n]], Eligible);
      FilterCons(records[n], [], Eligible);
    }
  }

  lemma {:induction false} NoSizes(allowed: set<int>, keys: seq<Key>)
    ensures GroupSizes([], allowed, keys) == 0
  {
    if keys != [] { NoSizes(allowed, keys[..|keys| - 1]); }
  }

  lemma {:induction false} AvailableIsSizes(records: seq<Record>, allowed: set<int>, n: nat)
    requires n <= |Keys(records, allowed)|
    ensures Available(OrderedGroups(records, allowed), n)
         == GroupSizes(records, allowed, SortedKeys(Keys(records, allowed))[..n])
  {
    hide Keys, GroupOf, OrderedGroups, SortedKeys;
    if n > 0 {
      AvailableIsSizes(records, allowed, n - 1);
      var keys := SortedKeys(Keys(records, allowed));
      assert keys[..n][..n - 1] == keys[..n - 1];
      SizeOfGroup(records, allowed, n - 1);
    }
  }

  lemma SizeOfGroup(records: seq<Record>, allowed: set<int>, i: nat)
    requires i < |Keys(records, allowed)|
    ensures |OrderedGroups(records, allowed)[i]| == |GroupOf(records, allowed, SortedKeys(Keys(records, allowed))[i])|
  {
    hide Keys, GroupOf;
    SortPermutes(GroupOf(records, allowed, SortedKeys(Keys(records, allowed))[i]), ByDigest);
  }

  /** The selection has as many records as the limit allows and the eligible ones provide,
      and a larger limit only extends it. */
  lemma SizeOfChoice(records: seq<Record>, allowed: set<int>, limit: nat, larger: nat)
    requires limit <= larger
    ensures |Chosen(records, allowed, limit)| == Smaller(limit, Tally(records, Eligible))
    ensures Chosen(records, allowed, limit) <= Chosen(records, allowed, larger)
  {
    EverythingIsEligible(records, allowed);
    hide Everything, OrderedGroups;
  }

  lemma EverythingIsEligible(records: seq<Record>, allowed: set<int>)
    ensures |Everything(OrderedGroups(records, allowed))| == Tally(records, Eligible)
  {
    var keys, groups := SortedKeys(Keys(records, allowed)), OrderedGroups(records, allowed);
    hide Everything, GroupOf, SortedKeys, OrderedGroups;
    EverythingIsAvailable(groups);
    AvailableIsSizes(records, allowed, |groups|);
    assert keys[..|keys|] == keys;
    forall r | r in records && Eligible(r) ensures KeyOf(r, allowed).value in keys {
      assert KeyOf(r, allowed).value in Keys(records, allowed);
    }
    SizesCountEligible(records, allowed, keys);
  }

  // ---- Order of the manifest ----

  ghost predicate UniqueDigests(records: seq<Record>) {
    forall i, j :: 0 <= i < j < |records| ==> records[i].sha != records[j].sha
  }

  /** The selection does not depend on the order the records come in. */
  lemma FreezeIgnoresOrder(a: seq<Record>, b: seq<Record>, allowed: set<int>, limit: nat)
    requires UniqueDigests(a) && multiset(a) == multiset(b)
    ensures Chosen(a, allowed, limit) == Chosen(b, allowed, limit)
  {
    hide KeyOf, G.GroupOf;
    var keys := SortedKeys(Keys(a, allowed));
    ByDigestIsTotal();
    forall x, y | x in a && y in a && ByDigest(x, y) && ByDigest(y, x) ensures x == y {
      SameDigestSameRecord(a, x, y);
    }
    forall k ensures Keys(a, allowed) == Keys(b, allowed)
      && Sort(GroupOf(a, allowed, k), ByDigest) == Sort(GroupOf(b, allowed, k), ByDigest)
    {
      G.GroupsIgnoreOrder(a, b, KeyBy(allowed), ByDigest, k);
    }
    SameMembers(a, b);
    assert Keys(a, allowed) == Keys(b, allowed);
    assert OrderedGroups(a, allowed) == OrderedGroups(b, allowed);
  }

  lemma SameDigestSameRecord(records: seq<Record>, x: Record, y: Record)
    requires UniqueDigests(records) && x in records && y in records && x.sha == y.sha
    ensures x == y
  {
    var i :| 0 <= i < |records| && records[i] == x;
    var j :| 0 <= j < |records| && records[j] == y;
  }

  // ---- Resolving ----

  /** Resolving succeeds exactly when every entry does, entry by entry. */
  lemma {:induction false} ResolveIsEntrywise(entries: seq<Entry>, ids: set<int>, records: seq<Record>)
    ensures Resolve(entries, ids, records).Success? <==>
      forall i :: 0 <= i < |entries| ==> ResolveEntry(entries[i], ids, records).Success?
    ensures Resolve(entries, ids, records).Success? ==>
      forall i :: 0 <= i < |entries| ==>
        Success(Resolve(entries, ids, records).value[i]) == ResolveEntry(entries[i], ids, records)
  {
    hide ResolveEntry;
    if entries != [] {
      var n := |entries| - 1;
      ResolveIsEntrywise(entries[..n], ids, records);
      assert forall i :: 0 <= i < n ==> entries[..n][i] == entries[i];
    }
  }

  lemma SortedIdsBack(allowed: set<int>)
    ensures IdSet(SortedIds(allowed)) == allowed
    ensures SortedIds(allowed) == [] <==> allowed == {}
  {
  }

  ghost predicate AllLast(chosen: seq<Record>, records: seq<Record>) {
    forall r :: r in chosen ==> LastWith(records, r.sha) == Some(r)
  }

  /** Validating a fresh freeze returns exactly the frozen records if and only if its class
      ids are a non-empty set of known classes and each frozen record is the last one in the
      manifests with its digest. */
  lemma FreezeRevalidates<D>(records: seq<Record>, allowed: set<int>, limit: int, digest: seq<Entry> -> D)
    requires Frozen(records, allowed, limit, digest).Success?
    ensures Validated(Frozen(records, allowed, limit, digest).value, records, digest)
        == Success(Chosen(records, allowed, limit))
      <==> (allowed != {} && allowed <= {0, 1, 2, 3} && AllLast(Chosen(records, allowed, limit), records))
  {
    hide Frozen, Chosen, Validated, Resolve;
    FrozenShape(records, allowed, limit, digest);
    var chosen := Chosen(records, allowed, limit);
    ValidatedShape(chosen, allowed, records, digest);
    ResolvesToChosen(chosen, allowed, records);
  }

  lemma FrozenShape<D>(records: seq<Record>, allowed: set<int>, limit: int, digest: seq<Entry> -> D)
    requires Frozen(records, allowed, limit, digest).Success?
    ensures limit > 0 && Chosen(records, allowed, limit) != []
    ensures Frozen(records, allowed, limit, digest).value
         == SelectionOf(Chosen(records, allowed, limit), allowed, digest)
  {
    hide Chosen, SortedIds;
    NonemptyWithNegative(Chosen(records, allowed, limit));
  }

  ghost function SelectionOf<D>(chosen: seq<Record>, allowed: set<int>, digest: seq<Entry> -> D): Selection<D> {
    Selection(SCHEMA_VERSION, SortedIds(allowed), digest(EntriesOf(chosen, allowed)), EntriesOf(chosen, allowed))
  }

  lemma ValidatedShape<D>(chosen: seq<Record>, allowed: set<int>, records: seq<Record>, digest: seq<Entry> -> D)
    requires chosen != []
    ensures var validated := Validated(SelectionOf(chosen, allowed, digest), records, digest);
      && (allowed != {} && allowed <= CLASS_NAMES ==>
        validated == Resolve(EntriesOf(chosen, allowed), allowed, records))
      && (!(allowed != {} && allowed <= CLASS_NAMES) ==> validated.Failure?)
  {
    hide SortedIds, Resolve;
    SortedIdsBack(allowed);
  }

  lemma ResolvesToChosen(chosen: seq<Record>, allowed: set<int>, records: seq<Record>)
    ensures Resolve(EntriesOf(chosen, allowed), allowed, records) == Success(chosen) <==> AllLast(chosen, records)
  {
    hide Kept, Resolve;
    var entries := EntriesOf(chosen, allowed);
    ResolveIsEntrywise(entries, allowed, records);
    if AllLast(chosen, records) {
      forall i | 0 <= i < |entries| ensures ResolveEntry(entries[i], allowed, records) == Success(chosen[i]) {
        assert chosen[i] in chosen;
      }
      var resolved := Resolve(entries, allowed, records).value;
      assert forall i :: 0 <= i < |entries| ==> Success(resolved[i]) == Success(chosen[i]);
      assert resolved == chosen;
    }
    if Resolve(entries, allowed, records) == Success(chosen) {
      forall r | r in chosen ensures LastWith(records, r.sha) == Some(r) {
        var i :| 0 <= i < |chosen| && chosen[i] == r;
        assert ResolveEntry(entries[i], allowed, records) == Success(chosen[i]);
      }
    }
  }

  lemma NonemptyWithNegative(chosen: seq<Record>)
    requires HasNegative(chosen)
    ensures chosen != []
  {
  }

  /** With unique digests the second half of the condition always holds. */
  lemma UniqueDigestsRevalidate<D>(records: seq<Record>, allowed: set<int>, limit: int, digest: seq<Entry> -> D)
    requires Frozen(records, allowed, limit, digest).Success? && UniqueDigests(records)
    ensures Validated(Frozen(records, allowed, limit, digest).value, records, digest)
        == Success(Chosen(records, allowed, limit))
      <==> allowed != {} && allowed <= {0, 1, 2, 3}
  {
    hide Chosen, Frozen, Validated;
    FrozenShape(records, allowed, limit, digest);
    FreezeRevalidates(records, allowed, limit, digest);
    forall r | r in Chosen(records, allowed, limit) ensures LastWith(records, r.sha) == Some(r) {
      ChosenAreRecords(records, allowed, limit, r);
      SameDigestSameRecord(records, r, LastWith(records, r.sha).value);
    }
  }

  lemma {:induction false} RoundsMembers<T>(groups: seq<seq<T>>, n: nat, x: T)
    requires x in Rounds(groups, n)
    ensures exists g :: 0 <= g < |groups| && x in groups[g]
  {
    hide Column;
    if x in Rounds(groups, n - 1) {
      RoundsMembers(groups, n - 1, x);
    } else {
      ColumnMembers(groups, |groups|, n - 1, x);
    }
  }

  lemma {:induction false} ColumnMembers<T>(groups: seq<seq<T>>, g: nat, index: nat, x: T)
    requires g <= |groups| && x in Column(groups, g, index)
    ensures exists h :: 0 <= h < |groups| && x in groups[h]
  {
    if x in Column(groups, g - 1, index) {
      ColumnMembers(groups, g - 1, index, x);
    } else {
      assert x in groups[g - 1];
    }
  }

  lemma ChosenAreRecords(records: seq<Record>, allowed: set<int>, limit: nat, r: Record)
    requires r in Chosen(records, allowed, limit)
    ensures r in records && Eligible(r)
  {
    var groups, keys := OrderedGroups(records, allowed), SortedKeys(Keys(records, allowed));
    assert r in Everything(groups);
    RoundsMembers(groups, Longest(groups), r);
    var g :| 0 <= g < |groups| && r in groups[g];
    SortKeepsMembers(GroupOf(records, allowed, keys[g]), ByDigest);
    G.GroupMembers(records, KeyBy(allowed), keys[g]);
  }

  /** A frozen entry carries the split its record was grouped by, and its group's classes are
      exactly those of the annotations the entry keeps. */
  lemma EntriesMatchTheirGroup(records: seq<Record>, allowed: set<int>, limit: nat, r: Record)
    requires r in Chosen(records, allowed, limit)
    ensures var key := KeyOf(r, allowed);
      && key.Some? && EntryOf(r, allowed).split == key.value.split
      && forall c :: c in key.value.classes <==> exists a :: a in EntryOf(r, allowed).annotations && a.classId == c
  {
    hide Chosen;
    ChosenAreRecords(records, allowed, limit, r);
    FilterMembers(r.annotations, (a: Annotation) => a.classId in allowed);
  }

  /** Against any manifests, a successful validation resolves each frozen record to one with
      the same digest, sample id and allowed annotations. */
  lemma ValidationDetectsDrift<D>(records: seq<Record>, allowed: set<int>, limit: int, digest: seq<Entry> -> D,
                                  later: seq<Record>, i: nat)
    requires Frozen(records, allowed, limit, digest).Success?
    requires i < |Chosen(records, allowed, limit)|
    requires Validated(Frozen(records, allowed, limit, digest).value, later, digest).Success?
    ensures var resolved := Validated(Frozen(records, allowed, limit, digest).value, later, digest).value;
      var chosen := Chosen(records, allowed, limit);
      && |resolved| == |chosen| && resolved[i] in later
      && resolved[i].sha == chosen[i].sha && resolved[i].sampleId == chosen[i].sampleId
      && Kept(resolved[i].annotations, allowed) == Kept(chosen[i].annotations, allowed)
  {
    hide Frozen, Chosen, Validated, Resolve, Kept;
    FrozenShape(records, allowed, limit, digest);
    var chosen := Chosen(records, allowed, limit);
    ValidatedShape(chosen, allowed, later, digest);
    ResolveIsEntrywise(EntriesOf(chosen, allowed), allowed, later);
  }
}
