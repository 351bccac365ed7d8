/** What the premium selection promises: distinct images, bounded groups, a better-ranked
    reason for every rejection, and independence from the order of the rows. */
module PremiumLaws {
  import opened Labels
  import opened Sorting
  import opened PremiumSelection
  import Hamming
  import G = Grouping

  function AtLeastOne(cap: int): nat {
    if cap < 1 then 1 else cap
  }

  ghost predicate Diverse(kept: seq<Row>, cap: int) {
    && (forall i, j :: 0 <= i < j < |kept| ==>
        && kept[i].sha != kept[j].sha
        && (kept[i].fingerprint == kept[j].fingerprint ==> kept[j].fingerprint == "")
        && (KeyOf(kept[i]) == KeyOf(kept[j]) ==> !Close(kept[i], kept[j])))
    && (forall key :: InGroup(kept, key) <= AtLeastOne(cap))
  }

  /** Kept rows are distinct images, those of one group differ by more than three bits, and
      no group exceeds its cap (or one row, for a cap below one). */
  lemma {:induction false} SelectionIsDiverse(candidates: seq<Row>, cap: int)
    ensures Diverse(SelectFrom([], candidates, cap), cap)
  {
    if candidates == [] {
      forall key ensures InGroup([], key) == 0 { InGroupAll([], key); }
    } else {
      var n := |candidates| - 1;
      SelectionIsDiverse(candidates[..n], cap);
      var before, row := SelectFrom([], candidates[..n], cap), candidates[n];
      if !Clashes(before, row) && !Full(before, KeyOf(row), cap) {
        KeepingIsDiverse(before, row, cap);
      }
    }
  }

  lemma KeepingIsDiverse(before: seq<Row>, row: Row, cap: int)
    requires Diverse(before, cap) && !Clashes(before, row) && !Full(before, KeyOf(row), cap)
    ensures Diverse(before + [row], cap)
  {
    hide KeyOf, Close, InGroup;
    var more := before + [row];
    forall key ensures InGroup(more, key) <= AtLeastOne(cap) {
      InGroupAppend(before, [row], key);
      InGroupAll([row], key);
    }
    forall i, j | 0 <= i < j < |more|
      ensures more[i].sha != more[j].sha
      ensures more[i].fingerprint == more[j].fingerprint ==> more[j].fingerprint == ""
      ensures KeyOf(more[i]) == KeyOf(more[j]) ==> !Close(more[i], more[j])
    {
      assert more[i] == before[i] && before[i] in before;
      assert j < |before| ==> more[j] == before[j];
    }
  }

  // ---- Groups ----

  ghost function LabelsOf(names: seq<string>): set<string> {
    set n | n in names && n in CLASSES
  }

  lemma SignatureOfLabels(names: seq<string>)
    ensures LabelSignature(names) ==
      if LabelsOf(names) == {} then "negative"
      else if LabelsOf(names) == {"flame_visible"} then "flame_visible"
      else if LabelsOf(names) == {"smoke_visible"} then "smoke_visible"
      else "flame_visible+smoke_visible"
  {
    var labels := LabelsOf(names);
    LabelsAreClasses(names);
    SubsetSizes(labels);
    assert LabelSignature(names) == if SortedLabels(labels) == [] then "negative" else Join(SortedLabels(labels));
    hide LabelSignature, LabelsOf, SortedLabels;
    if labels == {} {
      assert |SortedLabels(labels)| == 0;
    } else if labels == {"flame_visible"} {
      SortedOne("flame_visible");
    } else if labels == {"smoke_visible"} {
      SortedOne("smoke_visible");
    } else {
      SortedPair();
    }
  }

  lemma SortedOne(x: string)
    ensures SortedLabels({x}) == [x] && Join([x]) == x
  {
    hide SortedLabels;
    var sorted := SortedLabels({x});
    assert sorted[0] in sorted;
  }

  lemma SortedPair()
    ensures SortedLabels({"flame_visible", "smoke_visible"}) == ["flame_visible", "smoke_visible"]
    ensures Join(["flame_visible", "smoke_visible"]) == "flame_visible+smoke_visible"
  {
    hide SortedLabels;
    var flame, smoke := "flame_visible", "smoke_visible";
    assert flame[0] == 'f' && smoke[0] == 's' && Less(flame, smoke);
    var sorted := SortedLabels({flame, smoke});
    TwoLabels(flame, smoke, sorted);
    JoinTwo(flame, smoke);
  }

  lemma JoinTwo(a: string, b: string)
    ensures Join([a, b]) == a + "+" + b
  {
    assert [a, b][1..] == [b];
  }

  lemma TwoLabels(a: string, b: string, sorted: seq<string>)
    requires Less(a, b) && |sorted| == |{a, b}| && forall x :: x in sorted <==> x in {a, b}
    requires forall i, j :: 0 <= i < j < |sorted| ==> Less(sorted[i], sorted[j])
    ensures sorted == [a, b]
  {
    hide Less;
    LessFacts(a, b, b);
    assert a in sorted && b in sorted;
    assert |{a, b}| == 2;
    assert sorted[0] in sorted && sorted[1] in sorted;
    LessFacts(sorted[0], sorted[1], sorted[1]);
  }

  lemma SubsetSizes(labels: set<string>)
    requires labels <= {"flame_visible", "smoke_visible"}
    ensures labels == {} || labels == {"flame_visible"} || labels == {"smoke_visible"}
      || labels == {"flame_visible", "smoke_visible"}
    ensures labels == {"flame_visible", "smoke_visible"} ==> |labels| == 2
  {
    assert "flame_visible"[0] != "smoke_visible"[0];
    if "flame_visible" in labels && "smoke_visible" in labels { assert labels == {"flame_visible", "smoke_visible"}; }
    if "flame_visible" in labels && "smoke_visible" !in labels { assert labels == {"flame_visible"}; }
    if "flame_visible" !in labels && "smoke_visible" in labels { assert labels == {"smoke_visible"}; }
  }

  /** Rows share a signature exactly when they show the same of the two classes. */
  lemma SignatureIsFaithful(a: seq<string>, b: seq<string>)
    ensures LabelSignature(a) == LabelSignature(b) <==> LabelsOf(a) == LabelsOf(b)
  {
    hide LabelSignature, LabelsOf;
    SignatureOfLabels(a);
    SignatureOfLabels(b);
    assert forall x :: x in LabelsOf(a) || x in LabelsOf(b) ==> x in CLASSES by {
      LabelsAreClasses(a);
      LabelsAreClasses(b);
    }
    SubsetSizes(LabelsOf(a));
    SubsetSizes(LabelsOf(b));
    assert |"negative"| == 8 && |"flame_visible"| == 13 && |"flame_visible+smoke_visible"| == 27;
    assert "flame_visible"[0] != "smoke_visible"[0];
  }

  lemma LabelsAreClasses(names: seq<string>)
    ensures LabelsOf(names) <= CLASSES
  {
  }

  // ---- Rejections ----

  /** `w` is considered before `r`. */
  predicate Outranks(w: Row, r: Row) {
    || (KeyLe(KeyOf(w), KeyOf(r)) && KeyOf(w) != KeyOf(r))
    || (KeyOf(w) == KeyOf(r) && ByRank(w, r))
  }

  lemma {:induction false} CandidatesInOrder(rows: seq<Row>, split: string, keys: seq<Key>)
    requires SortedBy(keys, KeyLe) && forall i, j :: 0 <= i < j < |keys| ==> keys[i] != keys[j]
    ensures SortedBy(Candidates(rows, split, keys), Outranks)
  {
    hide KeyOf, ByRank, KeyLe;
    if keys != [] {
      var n := |keys| - 1;
      CandidatesInOrder(rows, split, keys[..n]);
      CandidateKeys(rows, split, keys[..n]);
      var front, group := Candidates(rows, split, keys[..n]), G.GroupOf(rows, KeyIn(split), keys[n]);
      RowOrdersAreTotal();
      SortSorts(group, ByRank);
      SortKeepsMembers(group, ByRank);
      G.GroupMembers(rows, KeyIn(split), keys[n]);
      JoinInOrder(front, Sort(group, ByRank), keys[n]);
    }
  }

  lemma JoinInOrder(front: seq<Row>, group: seq<Row>, key: Key)
    requires SortedBy(front, Outranks) && SortedBy(group, ByRank)
    requires forall r :: r in front ==> KeyLe(KeyOf(r), key) && KeyOf(r) != key
    requires forall r :: r in group ==> KeyOf(r) == key
    ensures SortedBy(front + group, Outranks)
  {
    hide KeyOf, ByRank, KeyLe;
    var all := front + group;
    forall i, j | 0 <= i < j < |all| ensures Outranks(all[i], all[j]) {
      assert i < |front| ==> all[i] == front[i] && front[i] in front;
      assert i >= |front| ==> all[i] == group[i - |front|] && group[i - |front|] in group;
      assert j < |front| ==> all[j] == front[j];
      assert j >= |front| ==> all[j] == group[j - |front|] && group[j - |front|] in group;
    }
  }

  /** `w` is a kept, earlier row that explains why `r` was not kept. */
  ghost predicate Explains(kept: seq<Row>, w: Row, r: Row, cap: int) {
    && w in kept && Outranks(w, r)
    && (|| SameImage(w, r)
        || (KeyOf(w) == KeyOf(r) && (Close(w, r) || InGroup(kept, KeyOf(r)) == AtLeastOne(cap))))
  }

  lemma RejectedAt(candidates: seq<Row>, cap: int, i: nat)
    requires SortedBy(candidates, Outranks) && i < |candidates|
    ensures var kept := SelectFrom([], candidates, cap);
      candidates[i] in kept || exists w :: Explains(kept, w, candidates[i], cap)
  {
    hide SelectFrom, Clashes, Full, KeyOf, Outranks, InGroup, Explains;
    var kept, row, before := SelectFrom([], candidates, cap), candidates[i], SelectFrom([], candidates[..i], cap);
    SelectInThree(candidates, cap, i);
    SelectedAreCandidates(before, [row], cap);
    SelectedAreCandidates(SelectFrom(before, [row], cap), candidates[i + 1..], cap);
    SelectedAreCandidates([], candidates[..i], cap);
    if Clashes(before, row) || Full(before, KeyOf(row), cap) {
      SelectionIsDiverse(candidates, cap);
      WitnessFor(candidates, before, kept, i, cap);
    } else {
      OneKept(before, row, cap);
    }
  }

  lemma SelectInThree(candidates: seq<Row>, cap: int, i: nat)
    requires i < |candidates|
    ensures SelectFrom([], candidates, cap)
         == SelectFrom(SelectFrom(SelectFrom([], candidates[..i], cap), [candidates[i]], cap), candidates[i + 1..], cap)
  {
    hide SelectFrom;
    assert candidates == candidates[..i] + candidates[i..] && candidates[i..] == [candidates[i]] + candidates[i + 1..];
    SelectFromAppend([], candidates[..i], candidates[i..], cap);
    SelectFromAppend(SelectFrom([], candidates[..i], cap), [candidates[i]], candidates[i + 1..], cap);
  }

  lemma OneKept(before: seq<Row>, row: Row, cap: int)
    requires !(Clashes(before, row) || Full(before, KeyOf(row), cap))
    ensures row in SelectFrom(before, [row], cap)
  {
    assert [row][..0] == [];
    assert SelectFrom(before, [row][..0], cap) == before;
  }

  lemma WitnessFor(candidates: seq<Row>, before: seq<Row>, kept: seq<Row>, i: nat, cap: int)
    requires SortedBy(candidates, Outranks) && i < |candidates|
    requires before <= kept && Diverse(kept, cap)
    requires forall w :: w in before ==> w in candidates[..i]
    requires Clashes(before, candidates[i]) || Full(before, KeyOf(candidates[i]), cap)
    ensures exists w :: Explains(kept, w, candidates[i], cap)
  {
    hide KeyOf, Close, InGroup, SameImage, Outranks;
    var row := candidates[i];
    if Clashes(before, row) {
      var w :| w in before && (SameImage(w, row) || (KeyOf(w) == KeyOf(row) && Close(w, row)));
      EarlierOutranks(candidates, i, w);
      assert Explains(kept, w, row, cap);
    } else {
      var w := FirstInGroup(before, KeyOf(row));
      EarlierOutranks(candidates, i, w);
      assert kept == before + kept[|before|..];
      InGroupAppend(before, kept[|before|..], KeyOf(row));
      assert Explains(kept, w, row, cap);
    }
  }

  lemma EarlierOutranks(candidates: seq<Row>, i: nat, w: Row)
    requires SortedBy(candidates, Outranks) && i < |candidates| && w in candidates[..i]
    ensures Outranks(w, candidates[i])
  {
    hide Outranks;
    var j :| 0 <= j < i && candidates[..i][j] == w;
    assert Outranks(candidates[j], candidates[i]);
  }

  lemma FirstInGroup(kept: seq<Row>, key: Key) returns (w: Row)
    requires InGroup(kept, key) > 0
    ensures w in kept && KeyOf(w) == key
  {
    hide KeyOf;
    var p := (r: Row) => KeyOf(r) == key;
    FilterMembers(kept, p);
    w := Filter(kept, p)[0];
    assert w in Filter(kept, p);
  }

  /** Every eligible row is kept, or a kept row considered before it explains why not: the same
      image, a near-identical hash in its group, or a group already at its cap. */
  lemma RejectionsAreExplained(rows: seq<Row>, split: string, cap: int, r: Row)
    requires r in rows && KeyIn(split)(r).Some?
    ensures var kept := Select(rows, split, cap);
      r in kept || exists w :: Explains(kept, w, r, cap)
  {
    hide SelectFrom, KeyOf;
    var keys := SortedKeys(G.Keys(rows, KeyIn(split)));
    var candidates := AllCandidates(rows, split);
    CandidateKeys(rows, split, keys);
    assert KeyIn(split)(r).value in G.Keys(rows, KeyIn(split));
    assert r in candidates;
    CandidatesInOrder(rows, split, keys);
    var i :| 0 <= i < |candidates| && candidates[i] == r;
    RejectedAt(candidates, cap, i);
  }

  // ---- Caps ----

  /** Groups stay within the configured cap exactly when it is at least one or nothing is
      eligible: with a smaller cap the first row of a group is kept before it is checked. */
  lemma CapsAreKept(rows: seq<Row>, split: string, cap: int)
    ensures (forall key :: InGroup(Select(rows, split, cap), key) <= cap)
      <==> cap >= 1 || (cap == 0 && AllCandidates(rows, split) == [])
  {
    hide KeyOf, InGroup;
    var candidates, kept := AllCandidates(rows, split), Select(rows, split, cap);
    SelectionIsDiverse(candidates, cap);
    if cap < 1 {
      if candidates == [] {
        forall key ensures InGroup(kept, key) == 0 { InGroupAll(kept, key); }
        assert InGroup(kept, Key("", "", "")) == 0;
      } else {
        FirstIsKept(candidates, cap);
        SomeInGroup(kept, candidates[0]);
      }
    }
  }

  lemma SomeInGroup(kept: seq<Row>, r: Row)
    requires r in kept
    ensures InGroup(kept, KeyOf(r)) >= 1
  {
    hide KeyOf;
    FilterMembers(kept, (x: Row) => KeyOf(x) == KeyOf(r));
  }

  /** The first candidate is always kept. */
  lemma {:induction false} FirstIsKept(candidates: seq<Row>, cap: int)
    requires candidates != []
    ensures candidates[0] in SelectFrom([], candidates, cap)
  {
    if |candidates| == 1 {
      assert candidates[..0] == [] && !Clashes([], candidates[0]);
      InGroupAll([], KeyOf(candidates[0]));
    } else {
      FirstIsKept(candidates[..|candidates| - 1], cap);
    }
  }

  // ---- Order of the rows ----

  ghost predicate UniqueIds(rows: seq<Row>) {
    forall x, y :: x in rows && y in rows && x.sampleId == y.sampleId ==> x == y
  }

  lemma {:induction false} CandidatesIgnoreOrder(a: seq<Row>, b: seq<Row>, split: string, keys: seq<Key>)
    requires multiset(a) == multiset(b) && UniqueIds(a)
    ensures Candidates(a, split, keys) == Candidates(b, split, keys)
  {
    hide KeyOf;
    if keys != [] {
      CandidatesIgnoreOrder(a, b, split, keys[..|keys| - 1]);
      RowOrdersAreTotal();
      G.GroupsIgnoreOrder(a, b, KeyIn(split), ByRank, keys[|keys| - 1]);
    }
  }

  /** With unique sample ids, reordering the rows leaves the selection unchanged. */
  lemma SelectionIgnoresOrder(a: seq<Row>, b: seq<Row>, split: string, cap: int)
    requires multiset(a) == multiset(b) && UniqueIds(a)
    ensures Select(a, split, cap) == Select(b, split, cap)
    ensures Sort(Select(a, split, cap), BySampleId) == Sort(Select(b, split, cap), BySampleId)
  {
    RowOrdersAreTotal();
    G.GroupsIgnoreOrder(a, b, KeyIn(split), ByRank, Key("", "", ""));
    CandidatesIgnoreOrder(a, b, split, SortedKeys(G.Keys(a, KeyIn(split))));
  }

  // ---- In fields of the rows ----

  ghost function SourceName(r: Row): string {
    if r.source != "" then r.source else "unknown"
  }

  ghost function SequenceName(r: Row): string {
    if r.sequence != "" then r.sequence else if r.splitGroup != "" then r.splitGroup else r.sampleId
  }

  ghost function LabelName(r: Row): string {
    var flame, smoke := "flame_visible" in r.classNames, "smoke_visible" in r.classNames;
    if flame && smoke then "flame_visible+smoke_visible"
    else if flame then "flame_visible"
    else if smoke then "smoke_visible"
    else "negative"
  }

  lemma KeyInFields(r: Row)
    ensures KeyOf(r) == Key(SourceName(r), SequenceName(r), LabelName(r))
  {
    hide LabelSignature, LabelName;
    SignatureInFields(r);
  }

  lemma SignatureInFields(r: Row)
    ensures LabelSignature(r.classNames) == LabelName(r)
  {
    var labels := LabelsOf(r.classNames);
    SignatureOfLabels(r.classNames);
    LabelsAreClasses(r.classNames);
    SubsetSizes(labels);
    LabelsShown(r.classNames);
    hide LabelSignature, LabelsOf;
    assert "flame_visible"[0] != "smoke_visible"[0];
    assert "flame_visible" !in {"smoke_visible"} && "smoke_visible" !in {"flame_visible"};
  }

  lemma LabelsShown(names: seq<string>)
    ensures "flame_visible" in LabelsOf(names) <==> "flame_visible" in names
    ensures "smoke_visible" in LabelsOf(names) <==> "smoke_visible" in names
  {
  }

  ghost predicate SameSource(a: Row, b: Row) {
    SourceName(a) == SourceName(b) && SequenceName(a) == SequenceName(b) && LabelName(a) == LabelName(b)
  }

  /** Groups by source, sequence and labels; inside a group the higher score, then the first id. */
  ghost predicate ConsideredBefore(w: Row, r: Row) {
    || Less(SourceName(w), SourceName(r))
    || (SourceName(w) == SourceName(r) && Less(SequenceName(w), SequenceName(r)))
    || (SourceName(w) == SourceName(r) && SequenceName(w) == SequenceName(r) && Less(LabelName(w), LabelName(r)))
    || (SameSource(w, r) && w.score.Some? && r.score.Some?
        && (w.score.value > r.score.value
            || (w.score.value == r.score.value && (Less(w.sampleId, r.sampleId) || w.sampleId == r.sampleId))))
  }

  ghost function KeptWith(kept: seq<Row>, r: Row): seq<Row> {
    Filter(kept, (k: Row) => SameSource(k, r))
  }

  /** Why `r` is not kept: `w`, considered before it, is the same image, or is in its group with a
      hash at most three bits away or the group full. */
  ghost predicate Reason(kept: seq<Row>, w: Row, r: Row, cap: int) {
    && w in kept && ConsideredBefore(w, r)
    && (|| w.sha == r.sha
        || (w.fingerprint == r.fingerprint && r.fingerprint != "")
        || (SameSource(w, r) && w.phash.Some? && r.phash.Some?
            && Hamming.Distance(w.phash.value, r.phash.value) <= 3)
        || (SameSource(w, r) && |KeptWith(kept, r)| == if cap < 1 then 1 else cap))
  }

  lemma OutranksInFields(w: Row, r: Row)
    requires w.score.Some? && r.score.Some?
    ensures Outranks(w, r) ==> ConsideredBefore(w, r)
    ensures KeyOf(w) == KeyOf(r) <==> SameSource(w, r)
  {
    KeyInFields(w);
    KeyInFields(r);
    hide KeyOf, SourceName, SequenceName, LabelName, Less;
  }

  lemma KeptWithIsGroup(kept: seq<Row>, r: Row)
    ensures |KeptWith(kept, r)| == InGroup(kept, KeyOf(r))
  {
    forall k ensures KeyOf(k) == KeyOf(r) <==> SameSource(k, r) {
      KeyInFields(k);
      KeyInFields(r);
    }
    FilterSame(kept, (k: Row) => KeyOf(k) == KeyOf(r), (k: Row) => SameSource(k, r));
  }

  /** Rows of the split with a score and a hash. */
  ghost predicate Eligible(r: Row, split: string) {
    r.split == split && r.score.Some? && r.phash.Some?
  }

  lemma SelectedAreEligible(rows: seq<Row>, split: string, cap: int, r: Row)
    requires r in Select(rows, split, cap)
    ensures r in rows && Eligible(r, split)
  {
    hide SelectFrom, KeyOf;
    SelectedAreCandidates([], AllCandidates(rows, split), cap);
    CandidateKeys(rows, split, SortedKeys(G.Keys(rows, KeyIn(split))));
  }

  lemma RejectionsHaveReasons(rows: seq<Row>, split: string, cap: int, r: Row)
    requires r in rows && Eligible(r, split)
    ensures var kept := Select(rows, split, cap);
      r in kept || exists w :: Reason(kept, w, r, cap)
  {
    hide Select, KeyOf, InGroup, Outranks, ConsideredBefore, KeptWith, SameSource;
    var kept := Select(rows, split, cap);
    RejectionsAreExplained(rows, split, cap, r);
    if r !in kept {
      var w :| Explains(kept, w, r, cap);
      SelectedAreEligible(rows, split, cap, w);
      OutranksInFields(w, r);
      KeptWithIsGroup(kept, r);
      assert Reason(kept, w, r, cap);
    }
  }

  /** What is kept: eligible rows, no image twice, none of a group within three bits of another,
      and of a group at most the cap, or one row. */
  lemma SelectionIsDistinct(rows: seq<Row>, split: string, cap: int, i: nat, j: nat)
    requires i < j < |Select(rows, split, cap)|
    ensures var kept := Select(rows, split, cap);
      var a, b := kept[i], kept[j];
      && a in rows && Eligible(a, split) && b in rows && Eligible(b, split)
      && a.sha != b.sha && (a.fingerprint == b.fingerprint ==> a.fingerprint == "")
      && (SameSource(a, b) ==> Hamming.Distance(a.phash.value, b.phash.value) > 3)
      && |KeptWith(kept, a)| <= if cap < 1 then 1 else cap
  {
    hide Select, KeyOf, InGroup, Outranks, KeptWith, SameSource;
    var kept := Select(rows, split, cap);
    SelectionIsDiverseIn(rows, split, cap);
    assert kept[i] in kept && kept[j] in kept;
    SelectedAreEligible(rows, split, cap, kept[i]);
    SelectedAreEligible(rows, split, cap, kept[j]);
    OutranksInFields(kept[i], kept[j]);
    KeptWithIsGroup(kept, kept[i]);
  }

  lemma SelectionIsDiverseIn(rows: seq<Row>, split: string, cap: int)
    ensures Diverse(Select(rows, split, cap), cap)
  {
    SelectionIsDiverse(AllCandidates(rows, split), cap);
  }
}
