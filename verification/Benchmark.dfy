/** Freezing a detector benchmark from manifest records, and resolving it again later. */
module Benchmark {
  import opened Outcomes
  import opened Labels
  import opened Sorting
  import opened RoundRobin
  import G = Grouping

  const SCHEMA_VERSION := 1
  /** The keys of `CLASS_NAMES`. */
  const CLASS_NAMES: set<int> := {0, 1, 2, 3}

  datatype Annotation = Annotation(classId: int, className: string, bbox: seq<real>)
  datatype Record = Record(sampleId: string, sha: string, role: string, split: string,
                           width: int, height: int, annotations: seq<Annotation>)
  datatype Entry = Entry(sampleId: string, sha: string, split: string,
                         width: int, height: int, annotations: seq<Annotation>)
  datatype Selection<+D> = Selection(schemaVersion: int, classIds: seq<int>, digest: D, entries: seq<Entry>)

  // ---- Groups ----

  function BenchmarkSplit(r: Record): Option<string> {
    if r.role == "detector_critical_test" then Some("critical_test")
    else if r.role == "detector_training" && (r.split == "validation" || r.split == "test") then Some(r.split)
    else None
  }

  predicate Ascending(a: int, b: int) {
    a <= b
  }

  lemma AscendingIsTotalOrder()
    ensures TotalPreorder(Ascending) && Antisymmetric(Ascending)
  {
  }

  function SortedIds(ids: set<int>): (r: seq<int>)
    ensures forall x :: x in r <==> x in ids
    ensures |r| == |ids|
  {
    AscendingIsTotalOrder();
    SortedSet(ids, Ascending)
  }

  function PresentClasses(annotations: seq<Annotation>, allowed: set<int>): set<int> {
    set a | a in annotations && a.classId in allowed :: a.classId
  }

  datatype Key = Key(split: string, classes: seq<int>)

  function KeyOf(r: Record, allowed: set<int>): Option<Key> {
    var split := BenchmarkSplit(r);
    if split.None? then None else Some(Key(split.value, SortedIds(PresentClasses(r.annotations, allowed))))
  }

  /** Tuple order on integers. */
  predicate IntsLe(a: seq<int>, b: seq<int>) {
    if a == [] then true
    else if b == [] then false
    else a[0] < b[0] || (a[0] == b[0] && IntsLe(a[1..], b[1..]))
  }

  lemma {:induction false} IntsLeTotal(a: seq<int>, b: seq<int>)
    ensures IntsLe(a, b) || IntsLe(b, a)
    ensures IntsLe(a, b) && IntsLe(b, a) ==> a == b
  {
    if a != [] && b != [] && a[0] == b[0] {
      IntsLeTotal(a[1..], b[1..]);
      assert a == [a[0]] + a[1..] && b == [b[0]] + b[1..];
    }
  }

  lemma {:induction false} IntsLeTransitive(a: seq<int>, b: seq<int>, c: seq<int>)
    requires IntsLe(a, b) && IntsLe(b, c)
    ensures IntsLe(a, c)
  {
    if a != [] && a[0] == b[0] == c[0] { IntsLeTransitive(a[1..], b[1..], c[1..]); }
  }

  /** The order is lexicographic: a prefix first, else the smaller number at the first difference. */
  lemma {:induction false} IntsLeExactlyWhen(a: seq<int>, b: seq<int>)
    ensures IntsLe(a, b) <==> a <= b || exists k: nat :: AgreeBefore(a, b, k) && a[k] < b[k]
  {
    if a != [] && b != [] {
      var x, y := a[1..], b[1..];
      IntsLeExactlyWhen(x, y);
      if |a| <= |b| { PrefixOfRest(a, b); }
      forall k: nat | k > 0 ensures AgreeBefore(a, b, k) <==> a[0] == b[0] && AgreeBefore(x, y, k - 1) {
        RestAgrees(a, b, k);
      }
      assert AgreeBefore(a, b, 0);
      if k: nat :| AgreeBefore(x, y, k) && x[k] < y[k] { assert a[0] == b[0] ==> AgreeBefore(a, b, k + 1); }
    }
  }

  predicate KeyLe(a: Key, b: Key) {
    Less(a.split, b.split) || (a.split == b.split && IntsLe(a.classes, b.classes))
  }

  lemma KeyLeIsTotalOrder()
    ensures TotalPreorder(KeyLe) && Antisymmetric(KeyLe)
  {
    forall x, y ensures KeyLe(x, y) || KeyLe(y, x) { PairOrder(x, y, y); }
    forall x, y | KeyLe(x, y) && KeyLe(y, x) ensures x == y { PairOrder(x, y, y); }
    forall x, y, z | KeyLe(x, y) && KeyLe(y, z) ensures KeyLe(x, z) { PairOrder(x, y, z); }
  }

  lemma PairOrder(x: Key, y: Key, z: Key)
    ensures KeyLe(x, y) || KeyLe(y, x)
    ensures KeyLe(x, y) && KeyLe(y, x) ==> x == y
    ensures KeyLe(x, y) && KeyLe(y, z) ==> KeyLe(x, z)
  {
    hide Less, IntsLe;
    LessTotal(x.split, y.split);
    LessIrreflexive(x.split);
    if Less(x.split, y.split) && Less(y.split, x.split) { LessTransitive(x.split, y.split, x.split); }
    if Less(x.split, y.split) && Less(y.split, z.split) { LessTransitive(x.split, y.split, z.split); }
    IntsLeTotal(x.classes, y.classes);
    if IntsLe(x.classes, y.classes) && IntsLe(y.classes, z.classes) {
      IntsLeTransitive(x.classes, y.classes, z.classes);
    }
  }

  /** The order inside a group: by digest, then by sample id. */
  predicate ByDigest(a: Record, b: Record) {
    Less(a.sha, b.sha) || (a.sha == b.sha && Le(a.sampleId, b.sampleId))
  }

  lemma ByDigestIsTotal()
    ensures TotalPreorder(ByDigest)
    ensures forall x, y :: ByDigest(x, y) && ByDigest(y, x) ==> x.sha == y.sha
  {
    forall x, y ensures ByDigest(x, y) || ByDigest(y, x) { DigestOrder(x, y, y); }
    forall x, y | ByDigest(x, y) && ByDigest(y, x) ensures x.sha == y.sha { DigestOrder(x, y, y); }
    forall x, y, z | ByDigest(x, y) && ByDigest(y, z) ensures ByDigest(x, z) { DigestOrder(x, y, z); }
  }

  lemma DigestOrder(x: Record, y: Record, z: Record)
    ensures ByDigest(x, y) || ByDigest(y, x)
    ensures ByDigest(x, y) && ByDigest(y, x) ==> x.sha == y.sha
    ensures ByDigest(x, y) && ByDigest(y, z) ==> ByDigest(x, z)
  {
    hide Less, Le;
    LessTotal(x.sha, y.sha);
    LessIrreflexive(x.sha);
    LeTotalOrder(x.sampleId, y.sampleId, z.sampleId);
    if Less(x.sha, y.sha) && Less(y.sha, x.sha) { LessTransitive(x.sha, y.sha, x.sha); }
    if Less(x.sha, y.sha) && Less(y.sha, z.sha) { LessTransitive(x.sha, y.sha, z.sha); }
  }

  function KeyBy(allowed: set<int>): Record -> Option<Key> {
    (r: Record) => KeyOf(r, allowed)
  }

  function Keys(records: seq<Record>, allowed: set<int>): set<Key> {
    G.Keys(records, KeyBy(allowed))
  }

  function GroupOf(records: seq<Record>, allowed: set<int>, key: Key): seq<Record> {
    G.GroupOf(records, KeyBy(allowed), key)
  }

  function SortedKeys(keys: set<Key>): (r: seq<Key>)
    ensures forall x :: x in r <==> x in keys
    ensures |r| == |keys|
    ensures forall i, j :: 0 <= i < j < |r| ==> r[i] != r[j]
  {
    KeyLeIsTotalOrder();
    SortedSet(keys, KeyLe)
  }

  /** The groups in key order, each in digest order. */
  function OrderedGroups(records: seq<Record>, allowed: set<int>): (groups: seq<seq<Record>>)
    ensures |groups| == |Keys(records, allowed)|
  {
    var keys := SortedKeys(Keys(records, allowed));
    seq(|keys|, i requires 0 <= i < |keys| => Sort(GroupOf(records, allowed, keys[i]), ByDigest))
  }

  function Chosen(records: seq<Record>, allowed: set<int>, limit: nat): seq<Record> {
    Take(Everything(OrderedGroups(records, allowed)), limit)
  }

  // ---- Freezing ----

  function Kept(annotations: seq<Annotation>, allowed: set<int>): seq<Annotation> {
    Filter(annotations, (a: Annotation) => a.classId in allowed)
  }

  function EntryOf(r: Record, allowed: set<int>): Entry {
    Entry(r.sampleId, r.sha, if r.role == "detector_critical_test" then "critical_test" else r.split,
          r.width, r.height, Kept(r.annotations, allowed))
  }

  function EntriesOf(chosen: seq<Record>, allowed: set<int>): (entries: seq<Entry>)
    ensures |entries| == |chosen| && forall i :: 0 <= i < |chosen| ==> entries[i] == EntryOf(chosen[i], allowed)
  {
    seq(|chosen|, i requires 0 <= i < |chosen| => EntryOf(chosen[i], allowed))
  }

  predicate CoversClasses(chosen: seq<Record>, allowed: set<int>) {
    forall c :: c in allowed ==> exists r :: r in chosen && c in PresentClasses(r.annotations, allowed)
  }

  predicate HasNegative(chosen: seq<Record>) {
    exists r :: r in chosen && r.annotations == []
  }

  function Frozen<D>(records: seq<Record>, allowed: set<int>, limit: int,
                     digest: seq<Entry> -> D): Result<Selection<D>> {
    if limit <= 0 then Failure("benchmark selection limit must be positive")
    else if Keys(records, allowed) == {} then Failure("no validation, test or critical-test records")
    else
      var chosen := Chosen(records, allowed, limit);
      if !CoversClasses(chosen, allowed) then Failure("frozen benchmark is missing classes")
      else if !HasNegative(chosen) then Failure("frozen benchmark must include a negative image")
      else
        var entries := EntriesOf(chosen, allowed);
        Success(Selection(SCHEMA_VERSION, SortedIds(allowed), digest(entries), entries))
  }

  /** `freeze_selection` */
  method FreezeSelection<D>(records: seq<Record>, allowed: set<int>, limit: int, digest: seq<Entry> -> D)
      returns (r: Result<Selection<D>>)
    ensures r == Frozen(records, allowed, limit, digest)
  {
    hide G.Keys, G.GroupOf, KeyOf, Everything, EntriesOf, SortedIds, SortedKeys;
    if limit <= 0 {
      return Failure("benchmark selection limit must be positive");
    }
    var groups := G.BuildGroups(records, KeyBy(allowed));
    if groups.Keys == {} {
      return Failure("no validation, test or critical-test records");
    }
    var keys := SortedKeys(groups.Keys);
    var ordered: seq<seq<Record>> := [];
    for i := 0 to |keys|
      invariant ordered == OrderedGroups(records, allowed)[..i]
    {
      ordered := ordered + [Sort(groups[keys[i]], ByDigest)];
    }
    assert ordered == OrderedGroups(records, allowed);
    var selected := Interleave(ordered, limit);
    if !CoversClasses(selected, allowed) {
      return Failure("frozen benchmark is missing classes");
    }
    if !HasNegative(selected) {
      return Failure("frozen benchmark must include a negative image");
    }
    var entries := EntriesOf(selected, allowed);
    return Success(Selection(SCHEMA_VERSION, SortedIds(allowed), digest(entries), entries));
  }

  // ---- Resolving ----

  /** `by_digest.get(sha)`: the last record with the digest. */
  function LastWith(records: seq<Record>, sha: string): (r: Option<Record>)
    ensures r.Some? <==> exists x :: x in records && x.sha == sha
    ensures r.Some? ==> r.value in records && r.value.sha == sha
  {
    if records == [] then None
    else if records[|records| - 1].sha == sha then Some(records[|records| - 1])
    else
      assert records == records[..|records| - 1] + [records[|records| - 1]];
      LastWith(records[..|records| - 1], sha)
  }

  function ResolveEntry(e: Entry, ids: set<int>, records: seq<Record>): Result<Record> {
    var found := LastWith(records, e.sha);
    if found.None? then Failure("benchmark image is absent from supplied manifests")
    else if found.value.sampleId != e.sampleId then Failure("benchmark sample identity drift")
    else if Kept(found.value.annotations, ids) != e.annotations then Failure("benchmark annotation drift")
    else Success(found.value)
  }

  function Resolve(entries: seq<Entry>, ids: set<int>, records: seq<Record>): (r: Result<seq<Record>>)
    ensures r.Success? ==> |r.value| == |entries|
  {
    if entries == [] then Success([]) else
      var front := Resolve(entries[..|entries| - 1], ids, records);
      if front.Failure? then front else
        var last := ResolveEntry(entries[|entries| - 1], ids, records);
        if last.Failure? then Failure(last.message) else Success(front.value + [last.value])
  }

  function IdSet(ids: seq<int>): set<int> {
    set c | c in ids
  }

  function Validated<D(==)>(selection: Selection<D>, records: seq<Record>,
                             digest: seq<Entry> -> D): Result<seq<Record>> {
    if selection.schemaVersion != SCHEMA_VERSION then Failure("unsupported selection schema")
    else if selection.entries == [] then Failure("selection is empty")
    else if selection.classIds == [] then Failure("selection class_ids are missing or invalid")
    else if !(IdSet(selection.classIds) <= CLASS_NAMES) then Failure("selection contains unsupported class_ids")
    else if selection.digest != digest(selection.entries) then Failure("selection digest mismatch")
    else Resolve(selection.entries, IdSet(selection.classIds), records)
  }

  lemma {:induction false} FailureSticks(entries: seq<Entry>, ids: set<int>, records: seq<Record>, k: nat)
    requires k <= |entries| && Resolve(entries[..k], ids, records).Failure?
    ensures Resolve(entries, ids, records) == Resolve(entries[..k], ids, records)
  {
    if k < |entries| {
      assert entries[..|entries| - 1][..k] == entries[..k];
      FailureSticks(entries[..|entries| - 1], ids, records, k);
    } else {
      assert entries[..k] == entries;
    }
  }

  /** `validate_selection` */
  method ValidateSelection<D(==)>(selection: Selection<D>, records: seq<Record>, digest: seq<Entry> -> D)
      returns (r: Result<seq<Record>>)
    ensures r == Validated(selection, records, digest)
  {
    if selection.schemaVersion != SCHEMA_VERSION {
      return Failure("unsupported selection schema");
    }
    if selection.entries == [] {
      return Failure("selection is empty");
    }
    if selection.classIds == [] {
      return Failure("selection class_ids are missing or invalid");
    }
    var ids := IdSet(selection.classIds);
    if !(ids <= CLASS_NAMES) {
      return Failure("selection contains unsupported class_ids");
    }
    if selection.digest != digest(selection.entries) {
      return Failure("selection digest mismatch");
    }
    r := ResolveEntries(selection.entries, ids, records);
  }

  method ResolveEntries(entries: seq<Entry>, ids: set<int>, records: seq<Record>) returns (r: Result<seq<Record>>)
    ensures r == Resolve(entries, ids, records)
  {
    hide LastWith, Kept;
    var byDigest := IndexByDigest(records);
    var resolved: seq<Record> := [];
    for i := 0 to |entries|
      invariant Resolve(entries[..i], ids, records) == Success(resolved)
    {
      var e := entries[i];
      assert entries[..i + 1][..i] == entries[..i];
      var found := if e.sha in byDigest then Some(byDigest[e.sha]) else None;
      assert found == LastWith(records, e.sha);
      if found.None? || found.value.sampleId != e.sampleId || Kept(found.value.annotations, ids) != e.annotations {
        FailureSticks(entries, ids, records, i + 1);
        return Failure(if found.None? then "benchmark image is absent from supplied manifests"
                       else if found.value.sampleId != e.sampleId then "benchmark sample identity drift"
                       else "benchmark annotation drift");
      }
      resolved := resolved + [found.value];
    }
    assert entries[..|entries|] == entries;
    return Success(resolved);
  }

  method IndexByDigest(records: seq<Record>) returns (byDigest: map<string, Record>)
    ensures ByDigestOf(byDigest, records)
  {
    hide LastWith;
    byDigest := map[];
    for i := 0 to |records|
      invariant ByDigestOf(byDigest, records[..i])
    {
      NextDigest(byDigest, records[..i], records[i]);
      assert records[..i + 1] == records[..i] + [records[i]];
      byDigest := byDigest[records[i].sha := records[i]];
    }
    assert records[..|records|] == records;
  }

  ghost predicate ByDigestOf(m: map<string, Record>, records: seq<Record>) {
    forall sha :: LastWith(records, sha) == if sha in m then Some(m[sha]) else None
  }

  lemma NextDigest(m: map<string, Record>, front: seq<Record>, r: Record)
    requires ByDigestOf(m, front)
    ensures ByDigestOf(m[r.sha := r], front + [r])
  {
    assert (front + [r])[..|front|] == front;
  }
}
