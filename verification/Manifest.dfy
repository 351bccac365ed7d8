/** The leakage checks of `validate_manifest`, and what reconciliation owes them. */
module Manifest {
  import opened Corpus
  import opened Outcomes
  import opened NearDuplicateSplits

  datatype LeakReport = LeakReport(rows: nat, crossSplit: nat, missingReferences: nat)

  ghost predicate UniqueSampleIds(rs: seq<Record>) {
    forall i, j :: 0 <= i < j < |rs| ==> rs[i].sampleId != rs[j].sampleId
  }

  ghost predicate GroupsStayTogether(rs: seq<Record>) {
    forall i, j :: 0 <= i < |rs| && 0 <= j < |rs| && rs[i].splitGroup == rs[j].splitGroup ==> rs[i].split == rs[j].split
  }

  const LEAKAGE := "Split leakage detected"

  /** A reconciled manifest passes exactly when its identifiers are unique, and then has no cross-split link. */
  lemma ReconciledPassesLeakCheck(choose: Chooser, rs: seq<Record>)
    ensures var ss := Reconciled(choose, rs);
      && GroupsStayTogether(ss)
      && (UniqueSampleIds(ss) <==> UniqueSampleIds(rs))
      && (UniqueDigests(ss) <==> UniqueDigests(rs))
      && CrossingUpTo(ss, |ss|) == 0
  {
    ReconciledIsLeakFree(choose, rs);
    var ss := Reconciled(choose, rs);
    NoCrossingsCountZero(ss, |ss|);
    assert forall i :: 0 <= i < |ss| ==> ss[i].sampleId == rs[i].sampleId && ss[i].sha256 == rs[i].sha256;
  }

  /** What the scan of the manifest accumulates. */
  datatype Scan = Scan(
    seenIds: set<string>,
    digestSplits: map<string, string>,
    links: seq<(string, string)>,
    groupSplits: map<string, set<string>>)

  function ScanRecord(scan: Scan, r: Record): Result<Scan> {
    if r.sampleId in scan.seenIds then Failure("Duplicate sample_id")
    else if r.sha256 in scan.digestSplits then Failure("Duplicate image SHA-256")
    else
      var splits := if r.splitGroup in scan.groupSplits then scan.groupSplits[r.splitGroup] else {};
      Success(Scan(
        scan.seenIds + {r.sampleId},
        scan.digestSplits[r.sha256 := r.split],
        scan.links + (if HasLink(r) then [(r.nearDuplicateOf.value, r.split)] else []),
        scan.groupSplits[r.splitGroup := splits + {r.split}]))
  }

  function LinkedSplits(rs: seq<Record>): seq<(string, string)> {
    if rs == [] then [] else
      var n := |rs| - 1;
      LinkedSplits(rs[..n]) + if HasLink(rs[n]) then [(rs[n].nearDuplicateOf.value, rs[n].split)] else []
  }

  /** `m` holds exactly the splits each group's records have. */
  ghost predicate FilesSplits(rs: seq<Record>, m: map<string, set<string>>) {
    && (forall r :: r in rs ==> r.splitGroup in m && r.split in m[r.splitGroup])
    && (forall g :: g in m ==> m[g] != {})
    && (forall g, s :: g in m && s in m[g] ==> FiledBy(rs, g, s))
  }

  ghost predicate FiledBy(rs: seq<Record>, g: string, s: string) {
    exists r :: r in rs && r.splitGroup == g && r.split == s
  }

  ghost predicate FilesIds(rs: seq<Record>, ids: set<string>) {
    forall x :: x in ids <==> exists r :: r in rs && r.sampleId == x
  }

  ghost predicate FilesDigests(rs: seq<Record>, m: map<string, string>) {
    && m.Keys == DigestRecords(rs).Keys
    && (forall d :: d in m ==> m[d] == rs[DigestRecords(rs)[d]].split)
  }

  ghost predicate Summarises(scan: Scan, rs: seq<Record>) {
    && FilesIds(rs, scan.seenIds)
    && FilesDigests(rs, scan.digestSplits)
    && scan.links == LinkedSplits(rs)
    && FilesSplits(rs, scan.groupSplits)
  }

  /** A scan of `rs` may fail only on a repeated identifier, and must then. */
  ghost predicate Decides(scanned: Result<Scan>, rs: seq<Record>) {
    match scanned
    case Success(scan) => Summarises(scan, rs) && UniqueSampleIds(rs) && UniqueDigests(rs)
    case Failure(message) => message != LEAKAGE && !(UniqueSampleIds(rs) && UniqueDigests(rs))
  }

  lemma ScanKeepsDigests(rs: seq<Record>, m: map<string, string>, r: Record)
    requires FilesDigests(rs, m)
    ensures (exists i :: 0 <= i < |rs| && rs[i].sha256 == r.sha256) <==> r.sha256 in m
    ensures FilesDigests(rs + [r], m[r.sha256 := r.split])
  {
    DigestRecordsNext(rs, r);
    hide DigestRecords;
    var more, holders := rs + [r], DigestRecords(rs);
    forall d | d in holders ensures more[holders[d]] == rs[holders[d]] {}
    if r.sha256 in m { assert rs[holders[r.sha256]].sha256 == r.sha256; }
  }

  lemma DigestRecordsNext(rs: seq<Record>, r: Record)
    ensures DigestRecords(rs + [r]) == DigestRecords(rs)[r.sha256 := |rs|]
  {
    assert (rs + [r])[..|rs|] == rs;
  }

  lemma ScanKeepsLinks(rs: seq<Record>, r: Record)
    ensures LinkedSplits(rs + [r])
         == LinkedSplits(rs) + if HasLink(r) then [(r.nearDuplicateOf.value, r.split)] else []
  {
    assert (rs + [r])[..|rs|] == rs;
  }

  lemma ScanKeepsGroups(rs: seq<Record>, m: map<string, set<string>>, r: Record)
    requires FilesSplits(rs, m)
    ensures FilesSplits(rs + [r], m[r.splitGroup := (if r.splitGroup in m then m[r.splitGroup] else {}) + {r.split}])
  {
    var more := rs + [r];
    var after := m[r.splitGroup := (if r.splitGroup in m then m[r.splitGroup] else {}) + {r.split}];
    assert r in more;
    forall g, s | g in after && s in after[g] ensures FiledBy(more, g, s) {
      if g in m && s in m[g] {
        assert FiledBy(rs, g, s);
        var q :| q in rs && q.splitGroup == g && q.split == s;
        assert q in more;
      }
    }
  }

  lemma ScanKeepsIds(rs: seq<Record>, ids: set<string>, r: Record)
    requires FilesIds(rs, ids) && UniqueSampleIds(rs)
    ensures var more := rs + [r];
      && FilesIds(more, ids + {r.sampleId})
      && (UniqueSampleIds(more) <==> r.sampleId !in ids)
  {
    var more := rs + [r];
    assert forall q :: q in more <==> q in rs || q == r;
    if r.sampleId in ids {
      var q :| q in rs && q.sampleId == r.sampleId;
      var i :| 0 <= i < |rs| && rs[i] == q;
      assert more[i].sampleId == more[|rs|].sampleId;
    } else {
      assert forall i :: 0 <= i < |rs| ==> rs[i] in rs && more[i] == rs[i];
    }
  }

  lemma ScanKeepsUniqueDigests(rs: seq<Record>, m: map<string, string>, r: Record)
    requires FilesDigests(rs, m) && UniqueDigests(rs)
    ensures UniqueDigests(rs + [r]) <==> r.sha256 !in m
  {
    var more := rs + [r];
    ScanKeepsDigests(rs, m, r);
    if r.sha256 in m {
      var i :| 0 <= i < |rs| && rs[i].sha256 == r.sha256;
      assert more[i].sha256 == more[|rs|].sha256;
    }
  }

  lemma ScanAccepts(rs: seq<Record>, scan: Scan, r: Record)
    requires Summarises(scan, rs) && UniqueSampleIds(rs) && ScanRecord(scan, r).Success?
    ensures Summarises(ScanRecord(scan, r).value, rs + [r])
  {
    ScanKeepsIds(rs, scan.seenIds, r);
    ScanKeepsDigests(rs, scan.digestSplits, r);
    ScanKeepsLinks(rs, r);
    ScanKeepsGroups(rs, scan.groupSplits, r);
  }

  lemma ScanStep(rs: seq<Record>, scan: Scan, r: Record, more: seq<Record>)
    requires Summarises(scan, rs) && UniqueSampleIds(rs) && UniqueDigests(rs) && more == rs + [r]
    ensures Decides(ScanRecord(scan, r), more)
  {
    ScanKeepsIds(rs, scan.seenIds, r);
    ScanKeepsUniqueDigests(rs, scan.digestSplits, r);
    if ScanRecord(scan, r).Success? { ScanAccepts(rs, scan, r); }
    assert |"Duplicate sample_id"| != |LEAKAGE|;
    assert |"Duplicate image SHA-256"| != |LEAKAGE|;
  }

  function Dangling(links: seq<(string, string)>, splits: map<string, string>): nat {
    if links == [] then 0 else
      var n := |links| - 1;
      Dangling(links[..n], splits) + if links[n].0 in splits then 0 else 1
  }

  function Crossing(links: seq<(string, string)>, splits: map<string, string>): nat {
    if links == [] then 0 else
      var n := |links| - 1;
      Crossing(links[..n], splits) + if links[n].0 in splits && splits[links[n].0] != links[n].1 then 1 else 0
  }

  lemma LinkAgrees(rs: seq<Record>, scan: Scan, i: nat)
    requires Summarises(scan, rs) && i < |rs|
    ensures Dangles(rs, i) <==> HasLink(rs[i]) && rs[i].nearDuplicateOf.value !in scan.digestSplits
    ensures Crosses(rs, i) <==>
      && HasLink(rs[i]) && rs[i].nearDuplicateOf.value in scan.digestSplits
      && scan.digestSplits[rs[i].nearDuplicateOf.value] != rs[i].split
  {
  }

  lemma CountsGrow(links: seq<(string, string)>, l: (string, string), splits: map<string, string>)
    ensures Dangling(links + [l], splits) == Dangling(links, splits) + if l.0 in splits then 0 else 1
    ensures Crossing(links + [l], splits)
         == Crossing(links, splits) + if l.0 in splits && splits[l.0] != l.1 then 1 else 0
  {
    assert (links + [l])[..|links|] == links;
  }

  lemma LinkCountStep(rs: seq<Record>, scan: Scan, i: nat)
    requires Summarises(scan, rs) && i < |rs|
    ensures Dangling(LinkedSplits(rs[..i + 1]), scan.digestSplits) - Dangling(LinkedSplits(rs[..i]), scan.digestSplits)
         == DanglingUpTo(rs, i + 1) - DanglingUpTo(rs, i)
    ensures Crossing(LinkedSplits(rs[..i + 1]), scan.digestSplits) - Crossing(LinkedSplits(rs[..i]), scan.digestSplits)
         == CrossingUpTo(rs, i + 1) - CrossingUpTo(rs, i)
  {
    assert rs[..i + 1][..i] == rs[..i];
    CountsExtend(rs, i);
    LinkAgrees(rs, scan, i);
    var front := LinkedSplits(rs[..i]);
    if HasLink(rs[i]) {
      var last := (rs[i].nearDuplicateOf.value, rs[i].split);
      assert LinkedSplits(rs[..i + 1]) == front + [last];
      CountsGrow(front, last, scan.digestSplits);
    } else {
      assert LinkedSplits(rs[..i + 1]) == front + [] == front;
    }
  }

  /** Counting over the collected links is counting over the records. */
  lemma {:induction false} LinkCountsAgree(rs: seq<Record>, scan: Scan, k: nat)
    requires Summarises(scan, rs) && k <= |rs|
    ensures Dangling(LinkedSplits(rs[..k]), scan.digestSplits) == DanglingUpTo(rs, k)
    ensures Crossing(LinkedSplits(rs[..k]), scan.digestSplits) == CrossingUpTo(rs, k)
  {
    if k > 0 {
      LinkCountsAgree(rs, scan, k - 1);
      LinkCountStep(rs, scan, k - 1);
    }
  }

  lemma LeakingGroups(rs: seq<Record>, m: map<string, set<string>>)
    requires FilesSplits(rs, m)
    ensures GroupsStayTogether(rs) <==> forall g :: g in m ==> |m[g]| == 1
  {
    if GroupsStayTogether(rs) {
      forall g | g in m ensures |m[g]| == 1 {
        var s :| s in m[g];
        forall t | t in m[g] ensures t == s {
          assert FiledBy(rs, g, s) && FiledBy(rs, g, t);
        }
        assert m[g] == {s};
      }
    }
    if forall g :: g in m ==> |m[g]| == 1 {
      forall i, j | 0 <= i < |rs| && 0 <= j < |rs| && rs[i].splitGroup == rs[j].splitGroup
        ensures rs[i].split == rs[j].split
      {
        assert rs[i] in rs && rs[j] in rs;
        SingletonMembers(m[rs[i].splitGroup], rs[i].split, rs[j].split);
      }
    }
  }

  lemma SingletonMembers(s: set<string>, a: string, b: string)
    requires |s| == 1 && a in s && b in s
    ensures a == b
  {
    var rest := s - {a};
    assert |rest| == 0 && b !in rest;
  }

  method ValidateManifest(rs: seq<Record>) returns (r: Result<LeakReport>)
    ensures r.Success? <==> UniqueSampleIds(rs) && UniqueDigests(rs) && GroupsStayTogether(rs)
    ensures r == Failure(LEAKAGE) <==> UniqueSampleIds(rs) && UniqueDigests(rs) && !GroupsStayTogether(rs)
    ensures r.Success? ==> r.value == LeakReport(|rs|, CrossingUpTo(rs, |rs|), DanglingUpTo(rs, |rs|))
  {
    var scanned := ScanManifest(rs);
    ScanDecidesUniqueness(rs);
    if scanned.Failure? {
      return Failure(scanned.message);
    }
    var scan := scanned.value;
    LeakingGroups(rs, scan.groupSplits);
    LinkCountsAgree(rs, scan, |rs|);
    assert rs[..|rs|] == rs;
    if exists g :: g in scan.groupSplits && |scan.groupSplits[g]| > 1 {
      return Failure(LEAKAGE);
    }
    return Success(LeakReport(|rs|, Crossing(scan.links, scan.digestSplits), Dangling(scan.links, scan.digestSplits)));
  }

  function ScanAll(rs: seq<Record>): Result<Scan> {
    if rs == [] then Success(Scan({}, map[], [], map[])) else
      var n := |rs| - 1;
      match ScanAll(rs[..n])
      case Failure(message) => Failure(message)
      case Success(scan) => ScanRecord(scan, rs[n])
  }

  lemma {:induction false} ScanDecidesUniqueness(rs: seq<Record>)
    ensures Decides(ScanAll(rs), rs)
  {
    if rs != [] {
      var n := |rs| - 1;
      var front := rs[..n];
      ScanDecidesUniqueness(front);
      ScanExtends(front, rs[n], rs);
    }
  }

  lemma ScanExtends(front: seq<Record>, last: Record, rs: seq<Record>)
    requires rs == front + [last] && Decides(ScanAll(front), front)
    ensures Decides(ScanAll(rs), rs)
  {
    assert rs[..|rs| - 1] == front;
    match ScanAll(front)
    case Failure(message) => PrefixesInheritUniqueness(rs, |front|);
    case Success(scan) => ScanStep(front, scan, last, rs);
  }

  lemma {:induction false} ScanFailureSticks(rs: seq<Record>, k: nat)
    requires k <= |rs| && ScanAll(rs[..k]).Failure?
    ensures ScanAll(rs) == ScanAll(rs[..k])
  {
    if k == |rs| {
      assert rs[..k] == rs;
    } else {
      assert rs[..|rs| - 1][..k] == rs[..k];
      ScanFailureSticks(rs[..|rs| - 1], k);
    }
  }

  method ScanManifest(rs: seq<Record>) returns (r: Result<Scan>)
    ensures r == ScanAll(rs)
  {
    var scan := Scan({}, map[], [], map[]);
    for i := 0 to |rs|
      invariant ScanAll(rs[..i]) == Success(scan)
    {
      assert rs[..i + 1][..i] == rs[..i];
      match ScanRecord(scan, rs[i])
      case Failure(message) =>
        ScanFailureSticks(rs, i + 1);
        return Failure(message);
      case Success(next) =>
        scan := next;
    }
    assert rs[..|rs|] == rs;
    return Success(scan);
  }

  lemma PrefixesInheritUniqueness(rs: seq<Record>, k: nat)
    requires k <= |rs|
    ensures UniqueSampleIds(rs) && UniqueDigests(rs) ==> UniqueSampleIds(rs[..k]) && UniqueDigests(rs[..k])
  {
    assert forall i :: 0 <= i < k ==> rs[..k][i] == rs[i];
  }
}
