/** Manifest records and the vocabulary both split reconcilers share. */
module Corpus {
  import opened Connectivity
  import opened Counting
  import opened Outcomes

  /** The fields of a manifest record that splitting and deduplication look at. */
  datatype Record = Record(
    sampleId: string,
    sourceRecordId: string,
    sha256: string,
    phash: nat,
    nearDuplicateOf: Option<string>,
    splitGroup: string,
    split: string)

  /** `if record.get("near_duplicate_of")`: neither absent nor empty. */
  predicate HasLink(r: Record) {
    r.nearDuplicateOf.Some? && r.nearDuplicateOf.value != ""
  }

  function DigestOf(r: Record): string {
    r.sha256
  }

  /** `digest_records`: each digest's last holder in the list. */
  function DigestRecords(rs: seq<Record>): (m: map<string, nat>)
    ensures forall d :: d in m ==> m[d] < |rs| && rs[m[d]].sha256 == d
    ensures forall i :: 0 <= i < |rs| ==> rs[i].sha256 in m && i <= m[rs[i].sha256]
  {
    LastPlaces(rs, DigestOf)
  }

  /** The record a record's near-duplicate reference resolves to, or -1. */
  function Target(rs: seq<Record>, i: nat): (t: int)
    requires i < |rs|
    ensures -1 <= t < |rs|
  {
    var m := DigestRecords(rs);
    if HasLink(rs[i]) && rs[i].nearDuplicateOf.value in m then m[rs[i].nearDuplicateOf.value] else -1
  }

  ghost function Groups(rs: seq<Record>): set<string> {
    set i | 0 <= i < |rs| :: rs[i].splitGroup
  }

  /** The group-to-group links of the near-duplicate references among the first `k` records. */
  ghost function LinksUpTo(rs: seq<Record>, k: nat): Links
    requires k <= |rs|
  {
    set i | 0 <= i < k && Target(rs, i) >= 0 :: LinkAt(rs, i)
  }

  ghost function LinkAt(rs: seq<Record>, i: nat): (string, string)
    requires i < |rs| && Target(rs, i) >= 0
  {
    (rs[i].splitGroup, rs[Target(rs, i)].splitGroup)
  }

  ghost function LinksOf(rs: seq<Record>): Links {
    LinksUpTo(rs, |rs|)
  }

  /** Record `i` names record `t`, the last holder of the digest it refers to. */
  ghost predicate Names(rs: seq<Record>, i: nat, t: nat) {
    && i < |rs| && t < |rs| && rs[t].sha256 != "" && rs[i].nearDuplicateOf == Some(rs[t].sha256)
    && forall u :: t < u < |rs| ==> rs[u].sha256 != rs[t].sha256
  }

  lemma TargetIsNamed(rs: seq<Record>, i: nat, t: nat)
    requires i < |rs|
    ensures Target(rs, i) == t <==> Names(rs, i, t)
  {
    hide DigestRecords;
    var m := DigestRecords(rs);
    if Names(rs, i, t) {
      assert t <= m[rs[t].sha256];
    }
    if Target(rs, i) == t {
      forall u | t < u < |rs| ensures rs[u].sha256 != rs[t].sha256 { assert u <= m[rs[u].sha256]; }
    }
  }

  /** The groups of records that name each other are linked, and no others. */
  lemma NamedGroupsAreLinked(rs: seq<Record>, g: string, h: string)
    ensures (g, h) in LinksOf(rs) <==>
      exists i: nat, t: nat :: Names(rs, i, t) && rs[i].splitGroup == g && rs[t].splitGroup == h
  {
    hide Target;
    if (g, h) in LinksOf(rs) {
      var i :| 0 <= i < |rs| && Target(rs, i) >= 0 && (g, h) == LinkAt(rs, i);
      TargetIsNamed(rs, i, Target(rs, i));
    }
    if i: nat, t: nat :| Names(rs, i, t) && rs[i].splitGroup == g && rs[t].splitGroup == h {
      TargetIsNamed(rs, i, t);
      assert (g, h) == LinkAt(rs, i);
    }
  }

  /** No field but `split` differs. */
  ghost predicate OnlySplitsDiffer(rs: seq<Record>, ss: seq<Record>) {
    |rs| == |ss| && forall i :: 0 <= i < |rs| ==> ss[i] == rs[i].(split := ss[i].split)
  }

  lemma {:induction false} DigestRecordsIgnoreSplits(rs: seq<Record>, ss: seq<Record>)
    requires OnlySplitsDiffer(rs, ss)
    ensures DigestRecords(rs) == DigestRecords(ss)
  {
    if rs != [] {
      DigestRecordsIgnoreSplits(rs[..|rs| - 1], ss[..|ss| - 1]);
    }
  }

  lemma TargetIgnoresSplits(rs: seq<Record>, ss: seq<Record>, i: nat)
    requires OnlySplitsDiffer(rs, ss) && i < |rs|
    ensures Target(rs, i) == Target(ss, i)
    ensures Target(rs, i) >= 0 ==> LinkAt(rs, i) == LinkAt(ss, i)
  {
    DigestRecordsIgnoreSplits(rs, ss);
    assert ss[i] == rs[i].(split := ss[i].split);
    var t := Target(rs, i);
    if t >= 0 { assert ss[t] == rs[t].(split := ss[t].split); }
  }

  lemma LinksIgnoreSplits(rs: seq<Record>, ss: seq<Record>)
    requires OnlySplitsDiffer(rs, ss)
    ensures LinksOf(rs) <= LinksOf(ss)
  {
    forall l | l in LinksOf(rs) ensures l in LinksOf(ss) {
      var i :| 0 <= i < |rs| && Target(rs, i) >= 0 && l == LinkAt(rs, i);
      TargetIgnoresSplits(rs, ss, i);
    }
  }

  /** The grouping problem does not depend on the splits a run starts from. */
  lemma ProblemIgnoresSplits(rs: seq<Record>, ss: seq<Record>)
    requires OnlySplitsDiffer(rs, ss)
    ensures Groups(rs) == Groups(ss) && LinksOf(rs) == LinksOf(ss)
  {
    assert forall i :: 0 <= i < |rs| ==> rs[i] == ss[i].(split := rs[i].split);
    LinksIgnoreSplits(rs, ss);
    LinksIgnoreSplits(ss, rs);
    assert forall i :: 0 <= i < |rs| ==> rs[i].splitGroup == ss[i].splitGroup;
  }

  ghost predicate UniqueDigests(rs: seq<Record>) {
    forall i, j :: 0 <= i < j < |rs| ==> rs[i].sha256 != rs[j].sha256
  }

  lemma GroupsIgnoreOrder(rs: seq<Record>, ss: seq<Record>)
    requires forall r :: r in rs ==> r in ss
    ensures Groups(rs) <= Groups(ss)
  {
    forall g | g in Groups(rs) ensures g in Groups(ss) {
      var i :| 0 <= i < |rs| && rs[i].splitGroup == g;
      assert rs[i] in ss;
    }
  }

  lemma UniquenessIgnoresOrder(rs: seq<Record>, ss: seq<Record>)
    requires multiset(rs) == multiset(ss) && UniqueDigests(rs)
    ensures UniqueDigests(ss)
  {
    DistinctByPermutes(rs, ss, (r: Record) => r.sha256);
  }
}
