/** The frozen benchmark in fields of the records: which are eligible, which come first, and when
    freezing and validating succeed. */
module BenchmarkRecords {
  import opened Labels
  import opened Outcomes
  import opened Sorting
  import opened RoundRobin
  import opened Benchmark
  import opened FrozenBenchmark
  import G = Grouping

  /** Two held-out records of one split show the same of the allowed classes. */
  ghost predicate GroupedTogether(r: Record, x: Record, allowed: set<int>) {
    && Eligible(r) && Eligible(x)
    && ((r.role == "detector_critical_test") <==> (x.role == "detector_critical_test"))
    && (r.role == "detector_training" ==> r.split == x.split)
    && (forall c :: c in allowed ==> (Shows(r, c) <==> Shows(x, c)))
  }

  ghost predicate Shows(r: Record, c: int) {
    exists a :: a in r.annotations && a.classId == c
  }

  /** The first digest, or of equal digests the first sample id, comes first. */
  ghost predicate ComesFirst(r: Record, x: Record) {
    Less(r.sha, x.sha) || (r.sha == x.sha && (Less(r.sampleId, x.sampleId) || r.sampleId == x.sampleId))
  }

  lemma GroupedTogetherMeansSameKey(r: Record, x: Record, allowed: set<int>)
    ensures GroupedTogether(r, x, allowed) <==> KeyOf(r, allowed).Some? && KeyOf(r, allowed) == KeyOf(x, allowed)
  {
    SamePresentClasses(r, x, allowed);
    SameSortedIds(PresentClasses(r.annotations, allowed), PresentClasses(x.annotations, allowed));
    SameBenchmarkSplit(r, x);
    hide SortedIds, PresentClasses, BenchmarkSplit, Eligible;
  }

  lemma SameBenchmarkSplit(r: Record, x: Record)
    ensures Eligible(r) <==> BenchmarkSplit(r).Some?
    ensures Eligible(x) <==> BenchmarkSplit(x).Some?
    ensures Eligible(r) && Eligible(x) ==>
      (BenchmarkSplit(r) == BenchmarkSplit(x) <==>
        ((r.role == "detector_critical_test") <==> (x.role == "detector_critical_test"))
        && (r.role == "detector_training" ==> r.split == x.split))
  {
    assert |"critical_test"| == 13 && |"validation"| == 10 && |"test"| == 4;
    assert "detector_critical_test" != "detector_training";
  }

  lemma SamePresentClasses(r: Record, x: Record, allowed: set<int>)
    ensures PresentClasses(r.annotations, allowed) == PresentClasses(x.annotations, allowed)
      <==> forall c :: c in allowed ==> (Shows(r, c) <==> Shows(x, c))
  {
    ShownClasses(r, allowed);
    ShownClasses(x, allowed);
    var rs, xs := PresentClasses(r.annotations, allowed), PresentClasses(x.annotations, allowed);
    hide Shows, PresentClasses;
    if forall c :: c in allowed ==> (Shows(r, c) <==> Shows(x, c)) {
      forall c ensures c in rs <==> c in xs { assert c in allowed ==> (Shows(r, c) <==> Shows(x, c)); }
    }
    if rs == xs { forall c | c in allowed ensures Shows(r, c) <==> Shows(x, c) { assert c in rs <==> c in xs; } }
  }

  lemma ShownClasses(r: Record, allowed: set<int>)
    ensures forall c :: c in PresentClasses(r.annotations, allowed) <==> c in allowed && Shows(r, c)
  {
  }

  lemma SameSortedIds(a: set<int>, b: set<int>)
    ensures SortedIds(a) == SortedIds(b) <==> a == b
  {
    if SortedIds(a) == SortedIds(b) {
      assert forall c :: c in a <==> c in SortedIds(a);
      assert forall c :: c in b <==> c in SortedIds(b);
    }
  }

  /** What a freeze lists: held-out records, with their fields, their split or "critical_test",
      and their annotations of allowed classes in order. */
  lemma EntriesCopyHeldOutRecords<D>(records: seq<Record>, allowed: set<int>, limit: int, digest: seq<Entry> -> D,
                                     i: nat)
    requires Frozen(records, allowed, limit, digest).Success?
    requires i < |Frozen(records, allowed, limit, digest).value.entries|
    ensures var e, r := Frozen(records, allowed, limit, digest).value.entries[i], Chosen(records, allowed, limit)[i];
      && Frozen(records, allowed, limit, digest).value.schemaVersion == 1
      && r in records && Eligible(r)
      && e.sampleId == r.sampleId && e.sha == r.sha && e.width == r.width && e.height == r.height
      && e.split == (if r.role == "detector_critical_test" then "critical_test" else r.split)
      && e.annotations == Filter(r.annotations, (a: Annotation) => a.classId in allowed)
  {
    hide Chosen, Frozen;
    FrozenShape(records, allowed, limit, digest);
    ChosenAreRecords(records, allowed, limit, Chosen(records, allowed, limit)[i]);
  }

  /** Of records grouped together, those with the first digests are chosen. */
  lemma FirstDigestsAreChosen(records: seq<Record>, allowed: set<int>, limit: nat, r: Record, x: Record)
    requires r in Chosen(records, allowed, limit) && x in records && x !in Chosen(records, allowed, limit)
    requires GroupedTogether(r, x, allowed)
    ensures ComesFirst(r, x)
  {
    hide Chosen, KeyOf, GroupedTogether, Keys, GroupOf, Less;
    var groups, keys := OrderedGroups(records, allowed), SortedKeys(Keys(records, allowed));
    GroupedTogetherMeansSameKey(r, x, allowed);
    var rounds, g := FreezeIsFair(records, allowed, limit);
    var k := GroupPlace(records, allowed, x);
    var size := Smaller(|groups[k]|, if k < g then rounds + 1 else rounds);
    ChosenShare(records, allowed, limit, r, keys[k]);
    ChosenShare(records, allowed, limit, x, keys[k]);
    assert r in groups[k][..size] && x !in groups[k][..size];
    AfterPrefix(groups[k], size, r, x);
    GroupIsSorted(records, allowed, k);
  }

  lemma GroupPlace(records: seq<Record>, allowed: set<int>, x: Record) returns (k: nat)
    requires x in records && KeyOf(x, allowed).Some?
    ensures k < |Keys(records, allowed)| && SortedKeys(Keys(records, allowed))[k] == KeyOf(x, allowed).value
    ensures x in OrderedGroups(records, allowed)[k]
  {
    hide KeyOf;
    var keys := SortedKeys(Keys(records, allowed));
    assert KeyOf(x, allowed).value in Keys(records, allowed);
    k :| 0 <= k < |keys| && keys[k] == KeyOf(x, allowed).value;
    SortKeepsMembers(GroupOf(records, allowed, keys[k]), ByDigest);
    G.GroupMembers(records, KeyBy(allowed), keys[k]);
  }

  lemma ChosenShare(records: seq<Record>, allowed: set<int>, limit: nat, r: Record, key: Key)
    requires KeyOf(r, allowed) == Some(key)
    ensures r in GroupOf(Chosen(records, allowed, limit), allowed, key) <==> r in Chosen(records, allowed, limit)
  {
    hide Chosen, KeyOf;
    G.GroupMembers(Chosen(records, allowed, limit), KeyBy(allowed), key);
  }

  lemma GroupIsSorted(records: seq<Record>, allowed: set<int>, k: nat)
    requires k < |Keys(records, allowed)|
    ensures SortedBy(OrderedGroups(records, allowed)[k], ByDigest)
  {
    hide Keys, GroupOf;
    ByDigestIsTotal();
    SortSorts(GroupOf(records, allowed, SortedKeys(Keys(records, allowed))[k]), ByDigest);
  }

  lemma AfterPrefix<T>(s: seq<T>, n: nat, r: T, x: T)
    requires n <= |s| && r in s[..n] && x in s && x !in s[..n]
    ensures forall le: (T, T) -> bool :: SortedBy(s, le) ==> le(r, x)
  {
    var i :| 0 <= i < n && s[..n][i] == r;
    assert s == s[..n] + s[n..];
    var j :| 0 <= j < |s| - n && s[n..][j] == x;
  }

  /** Groups are dealt with in the order of their splits, then of their class lists. */
  lemma GroupsComeInOrder(records: seq<Record>, allowed: set<int>, i: nat, j: nat)
    requires i < j < |Keys(records, allowed)|
    ensures var a, b := SortedKeys(Keys(records, allowed))[i], SortedKeys(Keys(records, allowed))[j];
      || Less(a.split, b.split)
      || (a.split == b.split && a.classes != b.classes
          && (a.classes <= b.classes
              || exists k: nat :: AgreeBefore(a.classes, b.classes, k) && a.classes[k] < b.classes[k]))
  {
    hide Keys;
    KeyLeIsTotalOrder();
    var keys := SortedSet(Keys(records, allowed), KeyLe);
    assert KeyLe(keys[i], keys[j]) && keys[i] != keys[j];
    IntsLeExactlyWhen(keys[i].classes, keys[j].classes);
  }

  // ---- When freezing and validating succeed ----

  lemma EligibleHaveKeys(records: seq<Record>, allowed: set<int>)
    ensures Keys(records, allowed) != {} <==> exists r :: r in records && Eligible(r)
  {
    if key :| key in Keys(records, allowed) {
      var r :| r in records && KeyOf(r, allowed) == Some(key);
      assert Eligible(r);
    }
    if r :| r in records && Eligible(r) { assert KeyOf(r, allowed).value in Keys(records, allowed); }
  }

  /** A benchmark is frozen exactly when the limit is positive, there is an eligible record, and
      the chosen ones show every allowed class and one of them nothing at all. */
  lemma FreezesExactlyWhen<D>(records: seq<Record>, allowed: set<int>, limit: int, digest: seq<Entry> -> D)
    ensures Frozen(records, allowed, limit, digest).Success? <==>
      && limit > 0
      && (exists r :: r in records && Eligible(r))
      && (forall c :: c in allowed ==> exists r :: r in Chosen(records, allowed, limit) && Shows(r, c))
      && (exists r :: r in Chosen(records, allowed, limit) && r.annotations == [])
  {
    hide Keys, Chosen, Shows, PresentClasses, SortedIds, EntriesOf, Eligible;
    EligibleHaveKeys(records, allowed);
    if limit > 0 { CoversMeansShows(Chosen(records, allowed, limit), allowed); }
  }

  lemma CoversMeansShows(chosen: seq<Record>, allowed: set<int>)
    ensures CoversClasses(chosen, allowed) <==> forall c :: c in allowed ==> exists r :: r in chosen && Shows(r, c)
  {
    hide Shows, PresentClasses;
    forall r: Record ensures forall c :: c in PresentClasses(r.annotations, allowed) <==> c in allowed && Shows(r, c) {
      ShownClasses(r, allowed);
    }
  }

  /** The last of the records with the entry's digest has its sample id, and its annotations of the
      benchmark's classes are the entry's. */
  ghost predicate Found(e: Entry, ids: set<int>, records: seq<Record>) {
    exists i :: 0 <= i < |records| && IsLast(records, i) && FitsEntry(records[i], e, ids)
  }

  ghost predicate IsLast(records: seq<Record>, i: nat)
    requires i < |records|
  {
    forall j :: i < j < |records| ==> records[j].sha != records[i].sha
  }

  ghost predicate FitsEntry(r: Record, e: Entry, ids: set<int>) {
    && r.sha == e.sha && r.sampleId == e.sampleId
    && Filter(r.annotations, (a: Annotation) => a.classId in ids) == e.annotations
  }

  lemma {:induction false} LastWithIsLast(records: seq<Record>, sha: string) returns (i: nat)
    requires LastWith(records, sha).Some?
    ensures i < |records| && records[i] == LastWith(records, sha).value && IsLast(records, i)
  {
    var n := |records| - 1;
    if records[n].sha == sha {
      i := n;
    } else {
      i := LastWithIsLast(records[..n], sha);
      assert records[..n][i] == records[i];
      forall j | i < j < |records| ensures records[j].sha != records[i].sha {
        if j < n { assert records[..n][j] == records[j]; }
      }
    }
  }

  lemma ResolvesExactlyWhenFound(e: Entry, ids: set<int>, records: seq<Record>)
    ensures ResolveEntry(e, ids, records).Success? <==> Found(e, ids, records)
  {
    hide Filter, LastWith;
    var last := LastWith(records, e.sha);
    if last.Some? {
      var k := LastWithIsLast(records, e.sha);
      if i :| 0 <= i < |records| && IsLast(records, i) && FitsEntry(records[i], e, ids) { assert i == k; }
      if ResolveEntry(e, ids, records).Success? { assert FitsEntry(records[k], e, ids); }
    } else {
      forall i | 0 <= i < |records| ensures !FitsEntry(records[i], e, ids) { assert records[i] in records; }
    }
  }

  lemma KnownIds(ids: seq<int>)
    ensures IdSet(ids) <= CLASS_NAMES <==> forall c :: c in ids ==> c in {0, 1, 2, 3}
  {
    assert forall c :: c in ids <==> c in IdSet(ids);
    if IdSet(ids) <= CLASS_NAMES {
      forall c | c in ids ensures c in {0, 1, 2, 3} { assert c in IdSet(ids); }
    }
    if forall c :: c in ids ==> c in {0, 1, 2, 3} {
      forall c | c in IdSet(ids) ensures c in CLASS_NAMES { assert c in ids; }
    }
  }

  /** A selection validates exactly when it is of schema 1, has entries and known class ids, carries
      the digest of its entries, and every entry is found in the manifests. */
  lemma ValidatesExactlyWhen<D>(selection: Selection<D>, records: seq<Record>, digest: seq<Entry> -> D)
    ensures Validated(selection, records, digest).Success? <==>
      && selection.schemaVersion == 1 && selection.entries != []
      && selection.classIds != [] && (forall c :: c in selection.classIds ==> c in {0, 1, 2, 3})
      && selection.digest == digest(selection.entries)
      && forall i :: 0 <= i < |selection.entries| ==> Found(selection.entries[i], IdSet(selection.classIds), records)
  {
    hide Resolve, ResolveEntry, Found;
    var ids := IdSet(selection.classIds);
    KnownIds(selection.classIds);
    ResolveIsEntrywise(selection.entries, ids, records);
    forall i | 0 <= i < |selection.entries|
      ensures ResolveEntry(selection.entries[i], ids, records).Success? <==> Found(selection.entries[i], ids, records)
    {
      ResolvesExactlyWhenFound(selection.entries[i], ids, records);
    }
  }
}
