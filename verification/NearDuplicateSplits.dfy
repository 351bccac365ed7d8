/** `reconcile_near_duplicate_splits`: every camera group and every near-duplicate
    component ends in exactly one split, chosen by hashing the component's name. */
module NearDuplicateSplits {
  import opened Labels
  import opened Outcomes
  import opened Connectivity
  import opened Counting
  import opened UnionFind
  import opened Corpus

  /** The first four bytes of the seeded SHA-256 of a label, as an integer. */
  type Digest = string -> nat

  function DeterministicSplit(digest: Digest, group: string): string {
    var bucket := digest(group) % 10000;
    if bucket < 7000 then "train" else if bucket < 8500 then "validation" else "test"
  }

  function Join(labels: seq<string>): string {
    if labels == [] then ""
    else if |labels| == 1 then labels[0]
    else labels[0] + "|" + Join(labels[1..])
  }

  function ComponentKey(groups: set<string>): string {
    var sorted := SortedLabels(groups);
    if |sorted| == 1 then sorted[0] else "near:" + Join(sorted)
  }

  /** How a component is turned into a split; the reconciler below hashes its key. */
  type Chooser = set<string> -> string

  function HashedChoice(digest: Digest): Chooser {
    (groups: set<string>) => DeterministicSplit(digest, ComponentKey(groups))
  }

  /** The split of a group, from the grouping problem alone. */
  ghost function AssignedSplit(choose: Chooser, rs: seq<Record>, g: string): string {
    choose(Component(Groups(rs), LinksOf(rs), g))
  }

  ghost function Reconciled(choose: Chooser, rs: seq<Record>): (ss: seq<Record>)
    ensures |ss| == |rs|
  {
    seq(|rs|, i requires 0 <= i < |rs| => rs[i].(split := AssignedSplit(choose, rs, rs[i].splitGroup)))
  }

  /** Record `i` refers to a record of another split. */
  predicate Crosses(rs: seq<Record>, i: nat)
    requires i < |rs|
  {
    var t := Target(rs, i);
    t >= 0 && rs[i].split != rs[t].split
  }

  predicate Dangles(rs: seq<Record>, i: nat)
    requires i < |rs|
  {
    HasLink(rs[i]) && Target(rs, i) < 0
  }

  function CrossingUpTo(rs: seq<Record>, k: nat): nat
    requires k <= |rs|
  {
    if k == 0 then 0 else CrossingUpTo(rs, k - 1) + if Crosses(rs, k - 1) then 1 else 0
  }

  function DanglingUpTo(rs: seq<Record>, k: nat): nat
    requires k <= |rs|
  {
    if k == 0 then 0 else DanglingUpTo(rs, k - 1) + if Dangles(rs, k - 1) then 1 else 0
  }

  /** How many of the first `k` records have different splits in the two lists. */
  function MovedUpTo(rs: seq<Record>, ss: seq<Record>, k: nat): nat
    requires k <= |rs| && k <= |ss|
  {
    if k == 0 then 0 else MovedUpTo(rs, ss, k - 1) + if rs[k - 1].split != ss[k - 1].split then 1 else 0
  }

  // ---- What the assignment guarantees ----

  lemma AssignmentFollowsLinks(choose: Chooser, rs: seq<Record>, a: string, b: string)
    requires Connected(LinksOf(rs), a, b)
    ensures AssignedSplit(choose, rs, a) == AssignedSplit(choose, rs, b)
  {
    ComponentsCoincide(Groups(rs), LinksOf(rs), a, b);
  }

  /** A group no link joins to another keeps the split its own label hashes to. */
  lemma UnlinkedGroupsKeepTheirSplit(digest: Digest, rs: seq<Record>, g: string)
    requires g in Groups(rs) && forall l :: l in LinksOf(rs) ==> (l.0 == g <==> l.1 == g)
    ensures AssignedSplit(HashedChoice(digest), rs, g) == DeterministicSplit(digest, g)
  {
    var component := Component(Groups(rs), LinksOf(rs), g);
    ConnectedToSelf(LinksOf(rs), g);
    forall h | h in component ensures h == g {
      ConstantOnComponents(LinksOf(rs), x => x == g, g, h);
    }
    assert component == {g};
    assert SortedLabels(component)[0] in SortedLabels(component);
  }

  /** The labels in a row, a bar between any two. */
  function Barred(labels: seq<string>): string {
    if labels == [] then "" else
      var n := |labels| - 1;
      if n == 0 then labels[0] else Barred(labels[..n]) + "|" + labels[n]
  }

  lemma {:induction false} JoinBars(labels: seq<string>)
    ensures Join(labels) == Barred(labels)
  {
    var n := |labels| - 1;
    if n > 0 {
      JoinBars(labels[..n]);
      JoinNext(labels[..n], labels[n]);
      assert labels == labels[..n] + [labels[n]];
    }
  }

  lemma {:induction false} JoinNext(labels: seq<string>, x: string)
    requires labels != []
    ensures Join(labels + [x]) == Join(labels) + "|" + x
  {
    if |labels| > 1 {
      JoinNext(labels[1..], x);
      assert (labels + [x])[1..] == labels[1..] + [x];
    } else {
      assert (labels + [x])[1..] == [x];
    }
  }

  /** The labels of a group's component, in ascending order. */
  ghost predicate ListsComponent(rs: seq<Record>, g: string, labels: seq<string>) {
    && (forall h :: h in labels <==>
        (exists j :: 0 <= j < |rs| && rs[j].splitGroup == h) && Connected(LinksOf(rs), g, h))
    && (forall i, j :: 0 <= i < j < |labels| ==> Less(labels[i], labels[j]))
  }

  lemma ListedComponent(rs: seq<Record>, g: string, labels: seq<string>)
    requires ListsComponent(rs, g, labels)
    ensures SortedLabels(Component(Groups(rs), LinksOf(rs), g)) == labels
  {
    hide Connected, LinksOf;
    var component := Component(Groups(rs), LinksOf(rs), g);
    forall h ensures h in labels <==> h in component {
      if h in component { assert h in Groups(rs); }
    }
    SortedOnce(SortedLabels(component), labels);
  }

  /** A record's split is drawn from the hash of its component's name: the label of the only
      group, or "near:" and the labels in ascending order with bars between them. */
  lemma ComponentsAreHashedByName(digest: Digest, rs: seq<Record>, i: nat, labels: seq<string>)
    requires i < |rs| && ListsComponent(rs, rs[i].splitGroup, labels)
    ensures var name := if |labels| == 1 then labels[0] else "near:" + Barred(labels);
      var bucket := digest(name) % 10000;
      Reconciled(HashedChoice(digest), rs)[i].split
        == if bucket < 7000 then "train" else if bucket < 8500 then "validation" else "test"
  {
    ListedComponent(rs, rs[i].splitGroup, labels);
    JoinBars(labels);
    hide Connected, LinksOf, Join, Component, SortedLabels, ListsComponent;
  }

  /** After reconciliation no group spans two splits and no reference crosses splits. */
  lemma ReconciledIsLeakFree(choose: Chooser, rs: seq<Record>)
    ensures var ss := Reconciled(choose, rs);
      && OnlySplitsDiffer(rs, ss)
      && (forall i, j :: 0 <= i < |ss| && 0 <= j < |ss| && ss[i].splitGroup == ss[j].splitGroup ==>
        ss[i].split == ss[j].split)
      && (forall i :: 0 <= i < |ss| ==> !Crosses(ss, i))
  {
    var ss := Reconciled(choose, rs);
    forall i | 0 <= i < |ss| ensures !Crosses(ss, i) {
      TargetIgnoresSplits(rs, ss, i);
      var t := Target(ss, i);
      if t >= 0 {
        assert LinkAt(rs, i) in LinksOf(rs);
        ConnectedByLink(LinksOf(rs), rs[i].splitGroup, rs[t].splitGroup);
        AssignmentFollowsLinks(choose, rs, rs[i].splitGroup, rs[t].splitGroup);
      }
    }
  }

  lemma {:induction false} NoCrossingsCountZero(rs: seq<Record>, k: nat)
    requires k <= |rs| && forall i :: 0 <= i < k ==> !Crosses(rs, i)
    ensures CrossingUpTo(rs, k) == 0
  {
    hide Crosses, Target;
    if k > 0 { NoCrossingsCountZero(rs, k - 1); }
  }

  /** A second run assigns every group the split it already has. */
  lemma ReconciledIsIdempotent(choose: Chooser, rs: seq<Record>)
    ensures var ss := Reconciled(choose, rs);
      Reconciled(choose, ss) == ss && MovedUpTo(ss, Reconciled(choose, ss), |ss|) == 0
  {
    var ss := Reconciled(choose, rs);
    ProblemIgnoresSplits(rs, ss);
    assert Reconciled(choose, ss) == ss;
    NothingMoved(ss, |ss|);
  }

  lemma {:induction false} NothingMoved(rs: seq<Record>, k: nat)
    requires k <= |rs|
    ensures MovedUpTo(rs, rs, k) == 0
  {
    if k > 0 { NothingMoved(rs, k - 1); }
  }

  lemma LinkIgnoresOrder(rs: seq<Record>, ss: seq<Record>, i: nat)
    requires UniqueDigests(ss) && forall r :: r in rs ==> r in ss
    requires i < |rs| && Target(rs, i) >= 0
    ensures LinkAt(rs, i) in LinksOf(ss)
  {
    var t := Target(rs, i);
    assert rs[i] in rs && rs[t] in rs;
    var j :| 0 <= j < |ss| && ss[j] == rs[i];
    var u :| 0 <= u < |ss| && ss[u] == rs[t];
    assert Target(ss, j) == u;
    assert LinkAt(ss, j) == LinkAt(rs, i);
  }

  lemma LinksIgnoreOrder(rs: seq<Record>, ss: seq<Record>)
    requires UniqueDigests(ss) && forall r :: r in rs ==> r in ss
    ensures LinksOf(rs) <= LinksOf(ss)
  {
    forall l | l in LinksOf(rs) ensures l in LinksOf(ss) {
      var i :| 0 <= i < |rs| && Target(rs, i) >= 0 && l == LinkAt(rs, i);
      LinkIgnoresOrder(rs, ss, i);
    }
  }

  /** With unique digests, a group's split does not depend on the order of the records. */
  lemma SplitsIgnoreOrder(choose: Chooser, rs: seq<Record>, ss: seq<Record>, g: string)
    requires multiset(rs) == multiset(ss) && UniqueDigests(rs)
    ensures AssignedSplit(choose, rs, g) == AssignedSplit(choose, ss, g)
  {
    SameMembers(rs, ss);
    UniquenessIgnoresOrder(rs, ss);
    LinksIgnoreOrder(rs, ss);
    LinksIgnoreOrder(ss, rs);
    GroupsIgnoreOrder(rs, ss);
    GroupsIgnoreOrder(ss, rs);
    assert Groups(rs) == Groups(ss) && LinksOf(rs) == LinksOf(ss);
  }

  // ---- The algorithm ----

  datatype Report = Report(
    crossSplitBefore: nat,
    crossSplitAfter: nat,
    missingReferences: nat,
    mergedComponents: nat,
    reassignedRows: nat)

  /** The least labels of the components that join two groups or more. */
  ghost function MergedLeaders(groups: set<string>, links: Links): set<string> {
    set g | g in groups && |Component(groups, links, g)| > 1
            && forall h :: h in Component(groups, links, g) ==> Le(g, h)
  }

  ghost function ReportOf(choose: Chooser, rs: seq<Record>): Report {
    Report(CrossingUpTo(rs, |rs|), 0, DanglingUpTo(rs, |rs|), |MergedLeaders(Groups(rs), LinksOf(rs))|,
           MovedUpTo(rs, Reconciled(choose, rs), |rs|))
  }

  method ReconcileNearDuplicateSplits(digest: Digest, records: array<Record>) returns (r: Result<Report>)
    modifies records
    ensures records[..] == Reconciled(HashedChoice(digest), old(records[..]))
    ensures r == Success(ReportOf(HashedChoice(digest), old(records[..])))
  {
    r := Reconcile(HashedChoice(digest), records);
  }

  method Reconcile(choose: Chooser, records: array<Record>) returns (r: Result<Report>)
    modifies records
    ensures records[..] == Reconciled(choose, old(records[..]))
    ensures r == Success(ReportOf(choose, old(records[..])))
  {
    ghost var before := records[..];
    var forest := RegisterGroups(records[..]);
    var missing, crossBefore := LinkGroups(records[..], forest);
    var componentSplits, merged := SplitComponents(choose, forest);
    var reassigned := AssignSplits(choose, records, forest, componentSplits);
    var crossAfter := CountCrossings(records[..]);
    ReconciledIsLeakFree(choose, before);
    NoCrossingsCountZero(records[..], records.Length);
    if crossAfter > 0 {
      return Failure("Near-duplicate split reconciliation did not converge");
    }
    return Success(Report(crossBefore, crossAfter, missing, merged, reassigned));
  }

  method RegisterGroups(rs: seq<Record>) returns (forest: Components)
    ensures fresh(forest) && forest.Valid() && forest.links == {}
    ensures forest.parents.Keys == Groups(rs)
  {
    forest := new Components();
    for i := 0 to |rs|
      invariant fresh(forest) && forest.Valid() && forest.links == {}
      invariant forest.parents.Keys == Groups(rs[..i])
    {
      var _ := forest.Find(rs[i].splitGroup);
      GroupsExtend(rs, i);
    }
    assert rs[..|rs|] == rs;
  }

  method LinkGroups(rs: seq<Record>, forest: Components) returns (missing: nat, crossing: nat)
    requires forest.Valid() && forest.links == {} && forest.parents.Keys == Groups(rs)
    modifies forest
    ensures forest.Valid() && forest.links == LinksOf(rs) && forest.parents.Keys == Groups(rs)
    ensures missing == DanglingUpTo(rs, |rs|) && crossing == CrossingUpTo(rs, |rs|)
  {
    var digestRecords := DigestRecords(rs);
    missing, crossing := 0, 0;
    for i := 0 to |rs|
      invariant forest.Valid()
      invariant forest.links == LinksUpTo(rs, i) && forest.parents.Keys == Groups(rs)
      invariant missing == DanglingUpTo(rs, i) && crossing == CrossingUpTo(rs, i)
    {
      missing, crossing := LinkRecord(rs, i, digestRecords, forest, missing, crossing);
    }
  }

  lemma CountsExtend(rs: seq<Record>, i: nat)
    requires i < |rs|
    ensures DanglingUpTo(rs, i + 1) == DanglingUpTo(rs, i) + if Dangles(rs, i) then 1 else 0
    ensures CrossingUpTo(rs, i + 1) == CrossingUpTo(rs, i) + if Crosses(rs, i) then 1 else 0
  {
  }

  /** What the tests on the reference of record `i` decide. */
  lemma ReferenceDecides(rs: seq<Record>, i: nat)
    requires i < |rs|
    ensures var m, r := DigestRecords(rs), rs[i];
      && (Dangles(rs, i) <==> HasLink(r) && r.nearDuplicateOf.value !in m)
      && (Target(rs, i) >= 0 <==> HasLink(r) && r.nearDuplicateOf.value in m)
      && (Target(rs, i) >= 0 ==> LinkAt(rs, i) == (r.splitGroup, rs[m[r.nearDuplicateOf.value]].splitGroup))
      && (Crosses(rs, i) <==> Target(rs, i) >= 0 && r.split != rs[m[r.nearDuplicateOf.value]].split)
  {
    hide DigestRecords;
  }

  /** What record `i` adds to the links and the counts. */
  lemma RecordLinked(rs: seq<Record>, i: nat)
    requires i < |rs|
    ensures var m, r := DigestRecords(rs), rs[i];
      if !HasLink(r) then
        && LinksUpTo(rs, i + 1) == LinksUpTo(rs, i)
        && DanglingUpTo(rs, i + 1) == DanglingUpTo(rs, i) && CrossingUpTo(rs, i + 1) == CrossingUpTo(rs, i)
      else if r.nearDuplicateOf.value !in m then
        && LinksUpTo(rs, i + 1) == LinksUpTo(rs, i)
        && DanglingUpTo(rs, i + 1) == DanglingUpTo(rs, i) + 1 && CrossingUpTo(rs, i + 1) == CrossingUpTo(rs, i)
      else
        var t := rs[m[r.nearDuplicateOf.value]];
        && LinksUpTo(rs, i + 1) == LinksUpTo(rs, i) + {(r.splitGroup, t.splitGroup)}
        && Groups(rs) + {r.splitGroup, t.splitGroup} == Groups(rs)
        && DanglingUpTo(rs, i + 1) == DanglingUpTo(rs, i)
        && CrossingUpTo(rs, i + 1) == CrossingUpTo(rs, i) + if r.split != t.split then 1 else 0
  {
    LinksExtend(rs, i);
    CountsExtend(rs, i);
    ReferenceDecides(rs, i);
    hide LinksUpTo, DanglingUpTo, CrossingUpTo, DigestRecords, Target, Dangles, Crosses, LinkAt, Groups;
  }

  method LinkRecord(rs: seq<Record>, i: nat, digestRecords: map<string, nat>, forest: Components,
                    missingBefore: nat, crossingBefore: nat)
    returns (missing: nat, crossing: nat)
    requires i < |rs| && digestRecords == DigestRecords(rs)
    requires forest.Valid() && forest.links == LinksUpTo(rs, i) && forest.parents.Keys == Groups(rs)
    requires missingBefore == DanglingUpTo(rs, i) && crossingBefore == CrossingUpTo(rs, i)
    modifies forest
    ensures forest.Valid() && forest.links == LinksUpTo(rs, i + 1) && forest.parents.Keys == Groups(rs)
    ensures missing == DanglingUpTo(rs, i + 1) && crossing == CrossingUpTo(rs, i + 1)
  {
    hide LinksUpTo, DanglingUpTo, CrossingUpTo, DigestRecords, Groups, Represents;
    RecordLinked(rs, i);
    missing, crossing := missingBefore, crossingBefore;
    if HasLink(rs[i]) {
      var reference := rs[i].nearDuplicateOf.value;
      if reference !in digestRecords {
        missing := missing + 1;
      } else {
        var referenced := rs[digestRecords[reference]];
        if rs[i].split != referenced.split {
          crossing := crossing + 1;
        }
        forest.Union(rs[i].splitGroup, referenced.splitGroup);
      }
    }
  }

  lemma GroupsExtend(rs: seq<Record>, i: nat)
    requires i < |rs|
    ensures Groups(rs[..i + 1]) == Groups(rs[..i]) + {rs[i].splitGroup}
  {
    var more := rs[..i + 1];
    assert forall j :: 0 <= j < i ==> more[j] == rs[..i][j];
    forall g | g in Groups(rs[..i]) ensures g in Groups(more) {
      var j :| 0 <= j < i && rs[..i][j].splitGroup == g;
      assert more[j].splitGroup == g;
    }
    assert more[i].splitGroup in Groups(more);
  }

  lemma LinksExtend(rs: seq<Record>, i: nat)
    requires i < |rs|
    ensures LinksUpTo(rs, i + 1) == if Target(rs, i) >= 0 then LinksUpTo(rs, i) + {LinkAt(rs, i)} else LinksUpTo(rs, i)
    ensures Target(rs, i) >= 0 ==> Groups(rs) == Groups(rs) + {LinkAt(rs, i).0, LinkAt(rs, i).1}
  {
    hide Target;
    var more := LinksUpTo(rs, i) + if Target(rs, i) >= 0 then {LinkAt(rs, i)} else {};
    forall l | l in LinksUpTo(rs, i + 1) ensures l in more {
      var j :| 0 <= j < i + 1 && Target(rs, j) >= 0 && l == LinkAt(rs, j);
    }
    forall l | l in more ensures l in LinksUpTo(rs, i + 1) {
      if l in LinksUpTo(rs, i) {
        var j :| 0 <= j < i && Target(rs, j) >= 0 && l == LinkAt(rs, j);
        assert l == LinkAt(rs, j);
      }
    }
  }

  method CountCrossings(rs: seq<Record>) returns (crossing: nat)
    ensures crossing == CrossingUpTo(rs, |rs|)
  {
    var digestRecords := DigestRecords(rs);
    crossing := 0;
    hide DigestRecords, CrossingUpTo, DanglingUpTo, Target, Crosses, Dangles, LinkAt;
    for i := 0 to |rs|
      invariant crossing == CrossingUpTo(rs, i)
    {
      CountsExtend(rs, i);
      ReferenceDecides(rs, i);
      if HasLink(rs[i]) && rs[i].nearDuplicateOf.value in digestRecords {
        var referenced := rs[digestRecords[rs[i].nearDuplicateOf.value]];
        if rs[i].split != referenced.split {
          crossing := crossing + 1;
        }
      }
    }
  }

  /** `splits` gives each root of `p` the split its component is hashed to. */
  ghost predicate SplitsByRoot(choose: Chooser, p: Forest, links: Links, splits: map<string, string>)
    requires Ordered(p)
  {
    forall g {:trigger Root(p, g)} :: g in p ==>
      && Root(p, g) in splits
      && splits[Root(p, g)] == choose(Component(p.Keys, links, g))
  }

  ghost function RootClass(p: Forest, r: string): set<string>
    requires Ordered(p)
  {
    set g | g in p && Root(p, g) == r
  }

  /** The labels that share a root with `g` are `g`'s component. */
  lemma RootClassIsComponent(p: Forest, links: Links, g: string)
    requires Represents(p, links) && g in p
    ensures RootClass(p, Root(p, g)) == Component(p.Keys, links, g)
  {
    forall h | h in p ensures Root(p, h) == Root(p, g) <==> Connected(links, g, h) {
      RootsDecideConnectivity(p, links, g, h);
    }
  }

  /** A label leads its component exactly when it is its own root. */
  lemma LeaderIsRoot(p: Forest, links: Links, g: string)
    requires Represents(p, links) && g in p
    ensures Root(p, g) == g <==> forall h :: h in Component(p.Keys, links, g) ==> Le(g, h)
  {
    if Root(p, g) == g {
      forall h | h in Component(p.Keys, links, g) ensures Le(g, h) {
        RootsDecideConnectivity(p, links, g, h);
      }
    } else {
      RootsDecideConnectivity(p, links, g, Root(p, g));
      LeTotalOrder(g, Root(p, g), g);
    }
  }

  /** `m` files every label done so far under its root. */
  ghost predicate GroupsByRoot(p: Forest, done: set<string>, m: map<string, set<string>>)
    requires Ordered(p) && done <= p.Keys
  {
    && (forall g {:trigger Root(p, g)} :: g in done ==> Root(p, g) in m)
    && (forall r :: r in m ==> r in p && Root(p, r) == r)
    && (forall r, h {:trigger h in m[r]} :: r in m ==> (h in m[r] <==> h in done && Root(p, h) == r))
  }

  lemma CollectStep(p: Forest, done: set<string>, m: map<string, set<string>>, g: string)
    requires Ordered(p) && done <= p.Keys && g in p && GroupsByRoot(p, done, m)
    ensures var root := Root(p, g);
      GroupsByRoot(p, done + {g}, m[root := (if root in m then m[root] else {}) + {g}])
  {
    var root := Root(p, g);
    var after := m[root := (if root in m then m[root] else {}) + {g}];
    hide Ordered;
    forall r, h | r in after ensures h in after[r] <==> h in done + {g} && Root(p, h) == r {
      HeldBefore(p, done, m, r, h);
    }
  }

  lemma HeldBefore(p: Forest, done: set<string>, m: map<string, set<string>>, r: string, h: string)
    requires Ordered(p) && done <= p.Keys && GroupsByRoot(p, done, m)
    ensures h in (if r in m then m[r] else {}) <==> h in done && Root(p, h) == r
  {
    hide Ordered;
    if r in m {
      assert h in m[r] <==> h in done && Root(p, h) == r;
    } else if h in done {
      assert Root(p, h) in m;
    }
  }

  lemma GroupsTransfer(p: Forest, q: Forest, m: map<string, set<string>>)
    requires SameRoots(p, q) && p.Keys == q.Keys && GroupsByRoot(p, p.Keys, m)
    ensures GroupsByRoot(q, q.Keys, m)
  {
    assert forall h :: h in p ==> Root(q, h) == Root(p, h);
  }

  lemma CollectedSplits(choose: Chooser, p: Forest, links: Links, m: map<string, set<string>>)
    requires Represents(p, links) && GroupsByRoot(p, p.Keys, m)
    ensures SplitsByRoot(choose, p, links, map root | root in m :: choose(m[root]))
  {
    forall g | g in p
      ensures Root(p, g) in m && m[Root(p, g)] == Component(p.Keys, links, g)
    {
      RootClassIsComponent(p, links, g);
      assert m[Root(p, g)] == RootClass(p, Root(p, g));
    }
  }

  lemma CollectedLeaders(p: Forest, links: Links, m: map<string, set<string>>)
    requires Represents(p, links) && GroupsByRoot(p, p.Keys, m)
    ensures (set root | root in m && |m[root]| > 1) == MergedLeaders(p.Keys, links)
  {
    forall g | g in p ensures g in m && |m[g]| > 1 <==> g in MergedLeaders(p.Keys, links) {
      RootClassIsComponent(p, links, g);
      LeaderIsRoot(p, links, g);
      if g in m { assert m[g] == RootClass(p, g); }
    }
  }

  method CollectComponents(forest: Components) returns (m: map<string, set<string>>)
    requires forest.Valid()
    modifies forest
    ensures forest.Valid() && forest.links == old(forest.links) && forest.parents.Keys == old(forest.parents.Keys)
    ensures GroupsByRoot(forest.parents, forest.parents.Keys, m)
  {
    m := map[];
    var todo := forest.parents.Keys;
    ghost var p, done := forest.parents, {};
    while todo != {}
      invariant forest.Valid() && forest.links == old(forest.links) && SameRoots(p, forest.parents)
      invariant done + todo == p.Keys == forest.parents.Keys
      invariant GroupsByRoot(p, done, m)
    {
      var group :| group in todo;
      m := FileUnderRoot(forest, p, done, m, group);
      todo, done := todo - {group}, done + {group};
    }
    assert done == p.Keys;
    GroupsTransfer(p, forest.parents, m);
  }

  method FileUnderRoot(forest: Components, ghost p: Forest, ghost done: set<string>, m: map<string, set<string>>,
                       group: string)
    returns (after: map<string, set<string>>)
    requires forest.Valid() && SameRoots(p, forest.parents) && group in p && p.Keys == forest.parents.Keys
    requires done <= p.Keys && GroupsByRoot(p, done, m)
    modifies forest
    ensures forest.Valid() && forest.links == old(forest.links) && SameRoots(p, forest.parents)
    ensures forest.parents.Keys == p.Keys && GroupsByRoot(p, done + {group}, after)
  {
    ghost var q := forest.parents;
    var root := forest.Find(group);
    SameRootsCompose(p, q, forest.parents);
    CollectStep(p, done, m, group);
    after := m[root := (if root in m then m[root] else {}) + {group}];
  }

  method SplitComponents(choose: Chooser, forest: Components) returns (splits: map<string, string>, merged: nat)
    requires forest.Valid()
    modifies forest
    ensures forest.Valid() && forest.links == old(forest.links) && forest.parents.Keys == old(forest.parents.Keys)
    ensures SplitsByRoot(choose, forest.parents, forest.links, splits)
    ensures merged == |MergedLeaders(forest.parents.Keys, forest.links)|
  {
    var componentGroups := CollectComponents(forest);
    splits := map root | root in componentGroups :: choose(componentGroups[root]);
    merged := |set root | root in componentGroups && |componentGroups[root]| > 1|;
    CollectedSplits(choose, forest.parents, forest.links, componentGroups);
    CollectedLeaders(forest.parents, forest.links, componentGroups);
  }

  method AssignSplits(choose: Chooser, records: array<Record>, forest: Components, splits: map<string, string>)
    returns (reassigned: nat)
    requires forest.Valid() && forest.links == LinksOf(records[..]) && forest.parents.Keys == Groups(records[..])
    requires SplitsByRoot(choose, forest.parents, forest.links, splits)
    modifies records, forest
    ensures records[..] == Reconciled(choose, old(records[..]))
    ensures reassigned == MovedUpTo(old(records[..]), records[..], records.Length)
  {
    hide Reconciled, LinksOf, Groups, SplitsByRoot;
    ghost var rs, ss := records[..], Reconciled(choose, records[..]);
    reassigned := 0;
    for i := 0 to records.Length
      invariant forest.Valid() && forest.links == LinksOf(rs) && forest.parents.Keys == Groups(rs)
      invariant SplitsByRoot(choose, forest.parents, forest.links, splits)
      invariant forall k :: 0 <= k < records.Length ==> records[k] == if k < i then ss[k] else rs[k]
      invariant reassigned == MovedUpTo(rs, ss, i)
    {
      var newSplit := SplitOf(choose, rs, ss, i, records[i].splitGroup, forest, splits);
      if records[i].split != newSplit {
        reassigned := reassigned + 1;
        records[i] := records[i].(split := newSplit);
      }
    }
  }

  /** `component_splits[find(group)]` */
  method SplitOf(choose: Chooser, ghost rs: seq<Record>, ghost ss: seq<Record>, ghost i: nat,
                 group: string, forest: Components, splits: map<string, string>)
    returns (split: string)
    requires ss == Reconciled(choose, rs) && i < |rs| && group == rs[i].splitGroup
    requires forest.Valid() && forest.links == LinksOf(rs) && forest.parents.Keys == Groups(rs)
    requires SplitsByRoot(choose, forest.parents, forest.links, splits)
    modifies forest
    ensures forest.Valid() && forest.links == LinksOf(rs) && forest.parents.Keys == Groups(rs)
    ensures SplitsByRoot(choose, forest.parents, forest.links, splits)
    ensures ss[i] == rs[i].(split := split)
  {
    ghost var p := forest.parents;
    var root := forest.Find(group);
    SplitsTransfer(choose, p, forest.parents, forest.links, splits);
    split := splits[root];
  }

  lemma SplitsTransfer(choose: Chooser, p: Forest, q: Forest, links: Links, splits: map<string, string>)
    requires SameRoots(p, q) && p.Keys == q.Keys && SplitsByRoot(choose, p, links, splits)
    ensures SplitsByRoot(choose, q, links, splits)
  {
    forall g | g in q ensures Root(q, g) in splits && splits[Root(q, g)] == choose(Component(q.Keys, links, g)) {
      assert Root(q, g) == Root(p, g);
    }
  }
}
