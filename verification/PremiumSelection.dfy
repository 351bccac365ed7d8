/** Choosing the best, mutually distinct rows of a split for the premium ground corpus. */
module PremiumSelection {
  import opened Outcomes
  import opened Labels
  import opened Sorting
  import Hamming
  import G = Grouping

  const MAX_PHASH_DISTANCE := 3
  const CLASSES: set<string> := {"flame_visible", "smoke_visible"}
  const SEQUENCE_CAPS: map<string, int> := map["train" := 8, "validation" := 6, "test" := 6]

  /** `phash` is the value of a 16-character hash, `score` the quality score; empty strings
      stand for missing fields. */
  datatype Row = Row(sampleId: string, split: string, source: string, sequence: string, splitGroup: string,
                     classNames: seq<string>, sha: string, fingerprint: string,
                     phash: Option<nat>, score: Option<real>)

  datatype Key = Key(source: string, sequence: string, labels: string)

  function OrElse(a: string, b: string): string {
    if a == "" then b else a
  }

  function Join(labels: seq<string>): string {
    if labels == [] then "" else if |labels| == 1 then labels[0] else labels[0] + "+" + Join(labels[1..])
  }

  /** `_label_signature` */
  function LabelSignature(names: seq<string>): string {
    var labels := SortedLabels(set n | n in names && n in CLASSES);
    if labels == [] then "negative" else Join(labels)
  }

  function KeyOf(r: Row): Key {
    Key(OrElse(r.source, "unknown"), OrElse(r.sequence, OrElse(r.splitGroup, r.sampleId)), LabelSignature(r.classNames))
  }

  /** Rows that can be selected, by group. */
  function KeyIn(split: string): Row -> Option<Key> {
    (r: Row) => if r.split != split || r.score.None? || r.phash.None? then None else Some(KeyOf(r))
  }

  // ---- Orders ----

  predicate KeyLe(a: Key, b: Key) {
    || Less(a.source, b.source)
    || (a.source == b.source && (Less(a.sequence, b.sequence) || (a.sequence == b.sequence && Le(a.labels, b.labels))))
  }

  function ScoreOf(r: Row): real {
    if r.score.None? then 0.0 else r.score.value
  }

  /** Best score first, ties by sample id. */
  predicate ByRank(a: Row, b: Row) {
    ScoreOf(a) > ScoreOf(b) || (ScoreOf(a) == ScoreOf(b) && Le(a.sampleId, b.sampleId))
  }

  predicate BySampleId(a: Row, b: Row) {
    Le(a.sampleId, b.sampleId)
  }

  lemma LessFacts(x: string, y: string, z: string)
    ensures !Less(x, x) && (Less(x, y) || x == y || Less(y, x)) && !(Less(x, y) && Less(y, x))
    ensures Less(x, y) && Less(y, z) ==> Less(x, z)
  {
    LessIrreflexive(x);
    LessTotal(x, y);
    if Less(x, y) && Less(y, x) { LessTransitive(x, y, x); }
    if Less(x, y) && Less(y, z) { LessTransitive(x, y, z); }
  }

  lemma KeyOrder(x: Key, y: Key, z: Key)
    ensures KeyLe(x, y) || KeyLe(y, x)
    ensures KeyLe(x, y) && KeyLe(y, x) ==> x == y
    ensures KeyLe(x, y) && KeyLe(y, z) ==> KeyLe(x, z)
  {
    hide Less;
    LessFacts(x.source, y.source, z.source);
    LessFacts(x.sequence, y.sequence, z.sequence);
    LessFacts(x.labels, y.labels, z.labels);
  }

  lemma KeyLeIsTotalOrder()
    ensures TotalPreorder(KeyLe) && Antisymmetric(KeyLe)
  {
    forall x, y ensures KeyLe(x, y) || KeyLe(y, x) { KeyOrder(x, y, y); }
    forall x, y | KeyLe(x, y) && KeyLe(y, x) ensures x == y { KeyOrder(x, y, y); }
    forall x, y, z | KeyLe(x, y) && KeyLe(y, z) ensures KeyLe(x, z) { KeyOrder(x, y, z); }
  }

  lemma RowOrdersAreTotal()
    ensures TotalPreorder(ByRank) && TotalPreorder(BySampleId)
    ensures forall x, y :: ByRank(x, y) && ByRank(y, x) ==> x.sampleId == y.sampleId
    ensures forall x, y :: BySampleId(x, y) && BySampleId(y, x) ==> x.sampleId == y.sampleId
  {
    hide Le;
    forall x: Row, y: Row
      ensures Le(x.sampleId, y.sampleId) || Le(y.sampleId, x.sampleId)
      ensures Le(x.sampleId, y.sampleId) && Le(y.sampleId, x.sampleId) ==> x.sampleId == y.sampleId
    {
      LeTotalOrder(x.sampleId, y.sampleId, y.sampleId);
    }
    forall x: Row, y: Row, z: Row | Le(x.sampleId, y.sampleId) && Le(y.sampleId, z.sampleId)
      ensures Le(x.sampleId, z.sampleId)
    {
      LeTotalOrder(x.sampleId, y.sampleId, z.sampleId);
    }
  }

  function SortedKeys(keys: set<Key>): (r: seq<Key>)
    ensures forall x :: x in r <==> x in keys
    ensures |r| == |keys| && SortedBy(r, KeyLe)
    ensures forall i, j :: 0 <= i < j < |r| ==> r[i] != r[j]
  {
    KeyLeIsTotalOrder();
    SortedSet(keys, KeyLe)
  }

  // ---- The candidates, in the order they are considered ----

  function Candidates(rows: seq<Row>, split: string, keys: seq<Key>): seq<Row> {
    if keys == [] then [] else
      Candidates(rows, split, keys[..|keys| - 1]) + Sort(G.GroupOf(rows, KeyIn(split), keys[|keys| - 1]), ByRank)
  }

  function AllCandidates(rows: seq<Row>, split: string): seq<Row> {
    Candidates(rows, split, SortedKeys(G.Keys(rows, KeyIn(split))))
  }

  // ---- The greedy rule ----

  function InGroup(kept: seq<Row>, key: Key): nat {
    Tally(kept, (r: Row) => KeyOf(r) == key)
  }

  predicate Close(a: Row, b: Row) {
    a.phash.Some? && b.phash.Some? && Hamming.Distance(a.phash.value, b.phash.value) <= MAX_PHASH_DISTANCE
  }

  predicate SameImage(a: Row, b: Row) {
    a.sha == b.sha || (b.fingerprint != "" && a.fingerprint == b.fingerprint)
  }

  /** `kept` holds something that rules `row` out. */
  predicate Clashes(kept: seq<Row>, row: Row) {
    exists k :: k in kept && (SameImage(k, row) || (KeyOf(k) == KeyOf(row) && Close(k, row)))
  }

  predicate Full(kept: seq<Row>, key: Key, cap: int) {
    InGroup(kept, key) > 0 && InGroup(kept, key) >= cap
  }

  function SelectFrom(kept: seq<Row>, candidates: seq<Row>, cap: int): seq<Row> {
    if candidates == [] then kept else
      var before, row := SelectFrom(kept, candidates[..|candidates| - 1], cap), candidates[|candidates| - 1];
      if Clashes(before, row) || Full(before, KeyOf(row), cap) then before else before + [row]
  }

  function Select(rows: seq<Row>, split: string, cap: int): seq<Row> {
    SelectFrom([], AllCandidates(rows, split), cap)
  }

  lemma {:induction false} SelectFromAppend(kept: seq<Row>, a: seq<Row>, b: seq<Row>, cap: int)
    ensures SelectFrom(kept, a + b, cap) == SelectFrom(SelectFrom(kept, a, cap), b, cap)
  {
    hide Clashes, Full;
    if b == [] {
      assert a + b == a;
    } else {
      var n := |b| - 1;
      SelectFromAppend(kept, a, b[..n], cap);
      assert (a + b)[..|a + b| - 1] == a + b[..n];
    }
  }

  // ---- The loops ----

  lemma {:induction false} InGroupAppend(a: seq<Row>, b: seq<Row>, key: Key)
    ensures InGroup(a + b, key) == InGroup(a, key) + InGroup(b, key)
  {
    FilterAppend(a, b, (r: Row) => KeyOf(r) == key);
  }

  lemma {:induction false} InGroupAll(s: seq<Row>, key: Key)
    ensures (forall r :: r in s ==> KeyOf(r) == key) ==> InGroup(s, key) == |s|
    ensures (forall r :: r in s ==> KeyOf(r) != key) ==> InGroup(s, key) == 0
  {
    if s != [] {
      hide KeyOf;
      InGroupAll(s[1..], key);
      assert s[0] in s && forall r :: r in s[1..] ==> r in s;
    }
  }

  /** Once a group is full, the rest of it is skipped. */
  lemma {:induction false} FullGroupStops(kept: seq<Row>, candidates: seq<Row>, key: Key, cap: int)
    requires Full(kept, key, cap) && forall r :: r in candidates ==> KeyOf(r) == key
    ensures SelectFrom(kept, candidates, cap) == kept
  {
    hide Clashes, Full, KeyOf;
    if candidates != [] {
      var n := |candidates| - 1;
      forall r | r in candidates[..n] ensures KeyOf(r) == key { assert r in candidates; }
      assert KeyOf(candidates[n]) == key;
      FullGroupStops(kept, candidates[..n], key, cap);
    }
  }

  /** What the loops have recorded of the rows kept so far. */
  ghost predicate Recorded(selected: seq<Row>, seenSha: set<string>, seenFingerprint: set<string>) {
    && (forall x :: x in seenSha <==> exists k :: k in selected && k.sha == x)
    && (forall x :: x in seenFingerprint <==> x != "" && exists k :: k in selected && k.fingerprint == x)
  }

  lemma RecordedNext(selected: seq<Row>, seenSha: set<string>, seenFingerprint: set<string>, row: Row)
    requires Recorded(selected, seenSha, seenFingerprint)
    ensures Recorded(selected + [row], seenSha + {row.sha},
                     if row.fingerprint == "" then seenFingerprint else seenFingerprint + {row.fingerprint})
  {
    var more := selected + [row];
    assert row in more && forall k :: k in more <==> k in selected || k == row;
  }

  /** The hashes kept in the current group are those of the rows added since it began. */
  ghost predicate GroupHashes(before: seq<Row>, selected: seq<Row>, key: Key, hashes: seq<nat>) {
    && before <= selected && |hashes| == |selected| - |before|
    && (forall k :: k in before ==> KeyOf(k) != key)
    && forall j :: |before| <= j < |selected| ==>
      KeyOf(selected[j]) == key && selected[j].phash == Some(hashes[j - |before|])
  }

  predicate AnyClose(hashes: seq<nat>, phash: nat) {
    exists i :: 0 <= i < |hashes| && Hamming.Distance(phash, hashes[i]) <= MAX_PHASH_DISTANCE
  }

  lemma NoHashes(before: seq<Row>, key: Key)
    requires forall k :: k in before ==> KeyOf(k) != key
    ensures GroupHashes(before, before, key, [])
  {
  }

  lemma GroupHashesNext(before: seq<Row>, selected: seq<Row>, key: Key, hashes: seq<nat>, row: Row)
    requires GroupHashes(before, selected, key, hashes) && KeyOf(row) == key && row.phash.Some?
    ensures GroupHashes(before, selected + [row], key, hashes + [row.phash.value])
  {
    hide KeyOf;
    var more, moreHashes := selected + [row], hashes + [row.phash.value];
    forall j | |before| <= j < |more| ensures KeyOf(more[j]) == key && more[j].phash == Some(moreHashes[j - |before|]) {
      if j < |selected| { assert more[j] == selected[j]; }
    }
  }

  lemma CountInGroup(before: seq<Row>, selected: seq<Row>, key: Key, hashes: seq<nat>)
    requires GroupHashes(before, selected, key, hashes)
    ensures InGroup(selected, key) == |hashes|
  {
    hide KeyOf, InGroup;
    var added := selected[|before|..];
    assert selected == before + added;
    InGroupAppend(before, added, key);
    InGroupAll(before, key);
    forall r | r in added ensures KeyOf(r) == key {
      var i :| 0 <= i < |added| && added[i] == r;
      assert r == selected[|before| + i];
    }
    InGroupAll(added, key);
  }

  ghost predicate CloseInGroup(selected: seq<Row>, row: Row) {
    exists k :: k in selected && KeyOf(k) == KeyOf(row) && Close(k, row)
  }

  lemma CloseTest(before: seq<Row>, selected: seq<Row>, hashes: seq<nat>, row: Row)
    requires GroupHashes(before, selected, KeyOf(row), hashes) && row.phash.Some?
    ensures CloseInGroup(selected, row) <==> AnyClose(hashes, row.phash.value)
  {
    hide KeyOf, Hamming.Distance;
    if AnyClose(hashes, row.phash.value) {
      var i :| 0 <= i < |hashes| && Hamming.Distance(row.phash.value, hashes[i]) <= MAX_PHASH_DISTANCE;
      Hamming.DistanceSymmetric(row.phash.value, hashes[i]);
      assert selected[|before| + i] in selected && Close(selected[|before| + i], row);
    }
    if CloseInGroup(selected, row) {
      var k :| k in selected && KeyOf(k) == KeyOf(row) && Close(k, row);
      var j :| 0 <= j < |selected| && selected[j] == k;
      NotBefore(before, selected, row, k, j);
      Hamming.DistanceSymmetric(row.phash.value, hashes[j - |before|]);
    }
  }

  lemma NotBefore(before: seq<Row>, selected: seq<Row>, row: Row, k: Row, j: nat)
    requires before <= selected && (forall b :: b in before ==> KeyOf(b) != KeyOf(row))
    requires j < |selected| && selected[j] == k && KeyOf(k) == KeyOf(row)
    ensures j >= |before|
  {
    hide KeyOf;
    assert forall i :: 0 <= i < |before| ==> before[i] in before && before[i] == selected[i];
  }

  /** The two tests the loop makes decide the greedy rule. */
  lemma LoopTest(before: seq<Row>, selected: seq<Row>, seenSha: set<string>, seenFingerprint: set<string>,
                 hashes: seq<nat>, row: Row)
    requires Recorded(selected, seenSha, seenFingerprint) && GroupHashes(before, selected, KeyOf(row), hashes)
    requires row.phash.Some?
    ensures Clashes(selected, row) <==>
      row.sha in seenSha || row.fingerprint in seenFingerprint || AnyClose(hashes, row.phash.value)
    ensures InGroup(selected, KeyOf(row)) == |hashes|
  {
    hide KeyOf, Close, AnyClose, GroupHashes, InGroup;
    CountInGroup(before, selected, KeyOf(row), hashes);
    CloseTest(before, selected, hashes, row);
    assert Clashes(selected, row) <==> CloseInGroup(selected, row) || exists k :: k in selected && SameImage(k, row);
  }

  /** The greedy rule at candidate `i`, in terms of what the loop has recorded. */
  lemma LoopStep(before: seq<Row>, candidates: seq<Row>, i: nat, cap: int, selected: seq<Row>,
                 seenSha: set<string>, seenFingerprint: set<string>, hashes: seq<nat>)
    requires i < |candidates| && candidates[i].phash.Some? && selected == SelectFrom(before, candidates[..i], cap)
    requires Recorded(selected, seenSha, seenFingerprint) && GroupHashes(before, selected, KeyOf(candidates[i]), hashes)
    requires |hashes| == 0 || |hashes| < cap
    ensures var row := candidates[i];
      SelectFrom(before, candidates[..i + 1], cap) ==
        if row.sha in seenSha || row.fingerprint in seenFingerprint || AnyClose(hashes, row.phash.value)
        then selected else selected + [row]
  {
    hide Clashes, KeyOf, Recorded, AnyClose, InGroup, GroupHashes;
    LoopTest(before, selected, seenSha, seenFingerprint, hashes, candidates[i]);
    assert candidates[..i + 1][..i] == candidates[..i];
  }

  /** Once the group is full the rest of its candidates change nothing. */
  lemma LoopEnds(before: seq<Row>, candidates: seq<Row>, key: Key, cap: int, i: nat, selected: seq<Row>,
                 hashes: seq<nat>)
    requires i <= |candidates| && selected == SelectFrom(before, candidates[..i], cap)
    requires GroupHashes(before, selected, key, hashes) && |hashes| > 0 && |hashes| >= cap
    requires forall r :: r in candidates ==> KeyOf(r) == key
    ensures selected == SelectFrom(before, candidates, cap)
  {
    hide SelectFrom, GroupHashes, KeyOf, InGroup;
    CountInGroup(before, selected, key, hashes);
    forall r | r in candidates[i..] ensures KeyOf(r) == key { assert r in candidates; }
    FullGroupStops(selected, candidates[i..], key, cap);
    SelectFromAppend(before, candidates[..i], candidates[i..], cap);
    assert candidates[..i] + candidates[i..] == candidates;
  }

  method SelectGroup(candidates: seq<Row>, key: Key, cap: int, before: seq<Row>, shaBefore: set<string>,
                     fingerprintBefore: set<string>)
      returns (selected: seq<Row>, seenSha: set<string>, seenFingerprint: set<string>)
    requires Recorded(before, shaBefore, fingerprintBefore)
    requires forall k :: k in before ==> KeyOf(k) != key
    requires forall r :: r in candidates ==> r.phash.Some? && KeyOf(r) == key
    ensures selected == SelectFrom(before, candidates, cap)
    ensures Recorded(selected, seenSha, seenFingerprint)
  {
    hide KeyOf, Recorded, AnyClose, GroupHashes;
    assert GroupHashes(before, before, key, []) by { NoHashes(before, key); }
    assert SelectFrom(before, candidates[..0], cap) == before;
    hide SelectFrom;
    selected, seenSha, seenFingerprint := before, shaBefore, fingerprintBefore;
    var keptHashes: seq<nat> := [];
    for i := 0 to |candidates|
      invariant selected == SelectFrom(before, candidates[..i], cap)
      invariant Recorded(selected, seenSha, seenFingerprint) && GroupHashes(before, selected, key, keptHashes)
      invariant |keptHashes| == 0 || |keptHashes| < cap
    {
      var row := candidates[i];
      assert row in candidates;
      LoopStep(before, candidates, i, cap, selected, seenSha, seenFingerprint, keptHashes);
      if row.sha in seenSha || row.fingerprint in seenFingerprint || AnyClose(keptHashes, row.phash.value) {
        continue;
      }
      RecordedNext(selected, seenSha, seenFingerprint, row);
      GroupHashesNext(before, selected, key, keptHashes, row);
      selected, seenSha := selected + [row], seenSha + {row.sha};
      if row.fingerprint != "" {
        seenFingerprint := seenFingerprint + {row.fingerprint};
      }
      keptHashes := keptHashes + [row.phash.value];
      if |keptHashes| >= cap {
        LoopEnds(before, candidates, key, cap, i + 1, selected, keptHashes);
        return;
      }
    }
    assert candidates[..|candidates|] == candidates;
  }

  lemma {:induction false} CandidateKeys(rows: seq<Row>, split: string, keys: seq<Key>)
    ensures forall r :: r in Candidates(rows, split, keys) <==>
      r in rows && KeyIn(split)(r).Some? && KeyIn(split)(r).value in keys
  {
    hide KeyOf;
    if keys != [] {
      var n := |keys| - 1;
      CandidateKeys(rows, split, keys[..n]);
      G.GroupMembers(rows, KeyIn(split), keys[n]);
      SortKeepsMembers(G.GroupOf(rows, KeyIn(split), keys[n]), ByRank);
      assert keys == keys[..n] + [keys[n]];
    }
  }

  lemma {:induction false} SelectedAreCandidates(kept: seq<Row>, candidates: seq<Row>, cap: int)
    ensures forall r :: r in SelectFrom(kept, candidates, cap) ==> r in kept || r in candidates
    ensures kept <= SelectFrom(kept, candidates, cap)
  {
    hide Clashes, Full;
    if candidates != [] {
      var n := |candidates| - 1;
      SelectedAreCandidates(kept, candidates[..n], cap);
      assert candidates == candidates[..n] + [candidates[n]];
    }
  }

  /** `select_rows`; an empty table of caps means the default one. */
  method SelectRows(rows: seq<Row>, split: string, sequenceCaps: map<string, int>) returns (r: Result<seq<Row>>)
    ensures var caps :=
        if sequenceCaps == map[] then map["train" := 8, "validation" := 6, "test" := 6] else sequenceCaps;
      && (r.Success? <==> split in caps)
      && (r.Success? ==> r.value == Sort(Select(rows, split, caps[split]), BySampleId))
  {
    hide KeyOf, SortedKeys, KeyIn, G.GroupOf, G.Keys, SelectFrom;
    var caps := if sequenceCaps == map[] then SEQUENCE_CAPS else sequenceCaps;
    if split !in caps {
      return Failure("unknown split");
    }
    var cap := caps[split];
    var groups := G.BuildGroups(rows, KeyIn(split));
    var keys := SortedKeys(groups.Keys);
    var selected: seq<Row>, seenSha: set<string>, seenFingerprint: set<string> := [], {}, {};
    NothingSelected(cap);
    for i := 0 to |keys|
      invariant selected == SelectFrom([], Candidates(rows, split, keys[..i]), cap)
      invariant Recorded(selected, seenSha, seenFingerprint)
    {
      var candidates := Sort(groups[keys[i]], ByRank);
      NextGroup(rows, split, keys, i, cap);
      selected, seenSha, seenFingerprint := SelectGroup(candidates, keys[i], cap, selected, seenSha, seenFingerprint);
    }
    assert keys[..|keys|] == keys;
    return Success(Sort(selected, BySampleId));
  }

  lemma NothingSelected(cap: int)
    ensures SelectFrom([], [], cap) == [] && Recorded([], {}, {})
  {
  }

  lemma NextGroup(rows: seq<Row>, split: string, keys: seq<Key>, i: nat, cap: int)
    requires i < |keys| && forall a, b :: 0 <= a < b < |keys| ==> keys[a] != keys[b]
    ensures var group := Sort(G.GroupOf(rows, KeyIn(split), keys[i]), ByRank);
      var earlier := SelectFrom([], Candidates(rows, split, keys[..i]), cap);
      && (forall r :: r in group ==> r.phash.Some? && KeyOf(r) == keys[i])
      && (forall k :: k in earlier ==> KeyOf(k) != keys[i])
      && SelectFrom([], Candidates(rows, split, keys[..i + 1]), cap) == SelectFrom(earlier, group, cap)
  {
    hide KeyOf, SelectFrom;
    var group := Sort(G.GroupOf(rows, KeyIn(split), keys[i]), ByRank);
    SortKeepsMembers(G.GroupOf(rows, KeyIn(split), keys[i]), ByRank);
    G.GroupMembers(rows, KeyIn(split), keys[i]);
    CandidateKeys(rows, split, keys[..i]);
    SelectedAreCandidates([], Candidates(rows, split, keys[..i]), cap);
    assert keys[..i + 1][..i] == keys[..i];
    SelectFromAppend([], Candidates(rows, split, keys[..i]), group, cap);
  }
}
