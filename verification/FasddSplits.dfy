/** `reconcile_fasdd_visual_splits`: records that look alike pull their groups together,
    and whole components are dealt to splits so that each stays close to its target. */
module FasddSplits {
  import opened Labels
  import opened Outcomes
  import opened Connectivity
  import opened Counting
  import opened Sorting
  import opened SplitBalance

  datatype VisualRecord = VisualRecord(
    sha256: string,
    phash: string,
    width: int,
    height: int,
    fingerprint: string,
    nearDuplicateOf: Option<string>,
    splitGroup: string,
    split: string)

  type VisualKey = (string, int, int, string)

  function Key(r: VisualRecord): VisualKey {
    (r.phash, r.width, r.height, r.fingerprint)
  }

  /** The two records have the same perceptual hash, size and fingerprint. */
  ghost predicate LookAlike(a: VisualRecord, b: VisualRecord) {
    a.phash == b.phash && a.width == b.width && a.height == b.height && a.fingerprint == b.fingerprint
  }

  const SPLIT_ORDER: seq<string> := ["train", "validation", "test"]

  function Targets(rows: nat): seq<real> {
    [rows as real * 0.70, rows as real * 0.15, rows as real * 0.15]
  }

  lemma TargetsArePositive(rows: nat)
    requires rows > 0
    ensures Positive(Targets(rows)) && Total(Targets(rows)) == rows as real
  {
    TotalOfThree(Targets(rows));
  }

  // ---- Linking ----

  /** The first record among `rs[k..]` that looks like `key`. */
  function FirstFrom(rs: seq<VisualRecord>, key: VisualKey, k: nat): (f: nat)
    requires k <= |rs| && exists i :: k <= i < |rs| && Key(rs[i]) == key
    ensures k <= f < |rs| && Key(rs[f]) == key
    ensures forall j :: k <= j < f ==> Key(rs[j]) != key
    decreases |rs| - k
  {
    if Key(rs[k]) == key then k else FirstFrom(rs, key, k + 1)
  }

  /** The first record that looks like record `i`. */
  function FirstLike(rs: seq<VisualRecord>, i: nat): (f: nat)
    requires i < |rs|
    ensures f <= i && Key(rs[f]) == Key(rs[i])
    ensures forall j :: 0 <= j < f ==> Key(rs[j]) != Key(rs[i])
  {
    FirstFrom(rs, Key(rs[i]), 0)
  }

  function LinkOf(rs: seq<VisualRecord>, i: nat): Option<string>
    requires i < |rs|
  {
    var f := FirstLike(rs, i);
    if f < i then Some(rs[f].sha256) else None
  }

  ghost function LinkAt(rs: seq<VisualRecord>, i: nat): (string, string)
    requires i < |rs|
  {
    (rs[i].splitGroup, rs[FirstLike(rs, i)].splitGroup)
  }

  ghost function LinksUpTo(rs: seq<VisualRecord>, k: nat): Links
    requires k <= |rs|
  {
    set i | 0 <= i < k && FirstLike(rs, i) < i :: LinkAt(rs, i)
  }

  ghost function Groups(rs: seq<VisualRecord>): set<string> {
    set i | 0 <= i < |rs| :: rs[i].splitGroup
  }

  ghost function AllLinks(rs: seq<VisualRecord>): Links {
    LinksUpTo(rs, |rs|)
  }

  lemma InOwnComponent(rs: seq<VisualRecord>, g: string)
    requires g in Groups(rs)
    ensures g in Component(Groups(rs), AllLinks(rs), g)
  {
    ConnectedToSelf(AllLinks(rs), g);
  }

  /** Each group's leader: the least label of its component. */
  ghost function Leaders(rs: seq<VisualRecord>): map<string, string> {
    map g | g in Groups(rs) :: Leader(rs, g)
  }

  ghost function Leader(rs: seq<VisualRecord>, g: string): string
    requires g in Groups(rs)
  {
    InOwnComponent(rs, g);
    Least(Component(Groups(rs), AllLinks(rs), g))
  }

  // ---- Placing components ----

  /** The rows whose group is led by `leader`. */
  ghost function Led(rs: seq<VisualRecord>, lead: map<string, string>, leader: string): set<nat>
    requires forall i :: 0 <= i < |rs| ==> rs[i].splitGroup in lead
  {
    set i: nat | i < |rs| && lead[rs[i].splitGroup] == leader
  }

  ghost function Sizes(rs: seq<VisualRecord>): map<string, nat> {
    var lead := Leaders(rs);
    map leader | leader in lead.Values :: |Led(rs, lead, leader)|
  }

  function SizeIn(sizes: map<string, nat>, c: string): nat {
    if c in sizes then sizes[c] else 0
  }

  /** The key `(-size, root)`. */
  function LargestFirst(sizes: map<string, nat>): (string, string) -> bool {
    (a: string, b: string) =>
      SizeIn(sizes, a) > SizeIn(sizes, b) || (SizeIn(sizes, a) == SizeIn(sizes, b) && Le(a, b))
  }

  function Ordered(sizes: map<string, nat>): (order: seq<string>)
    ensures forall x :: x in order <==> x in sizes
  {
    SortKeepsMembers(SortedLabels(sizes.Keys), LargestFirst(sizes));
    Sort(SortedLabels(sizes.Keys), LargestFirst(sizes))
  }

  function SizesAlong(sizes: map<string, nat>, order: seq<string>): (s: seq<nat>)
    ensures |s| == |order|
  {
    seq(|order|, i requires 0 <= i < |order| => SizeIn(sizes, order[i]))
  }

  function PlacementOf(sizes: map<string, nat>, rows: nat): (p: Placement)
    requires rows > 0
    ensures |p.choices| == |Ordered(sizes)| && |p.counts| == 3
    ensures forall i :: 0 <= i < |p.choices| ==> p.choices[i] < 3
  {
    TargetsArePositive(rows);
    Place(SizesAlong(sizes, Ordered(sizes)), Targets(rows))
  }

  /** `component_splits` */
  ghost function ComponentSplits(sizes: map<string, nat>, rows: nat): (m: map<string, string>)
    requires rows > 0
    ensures m.Keys == sizes.Keys
  {
    SplitsAlong(Ordered(sizes), PlacementOf(sizes, rows).choices)
  }

  function SplitsAlong(order: seq<string>, choices: seq<nat>): (m: map<string, string>)
    requires |order| == |choices| && forall i :: 0 <= i < |choices| ==> choices[i] < 3
    ensures forall x :: x in m <==> x in order
  {
    if order == [] then map[] else
      var n := |order| - 1;
      assert order == order[..n] + [order[n]];
      SplitsAlong(order[..n], choices[..n])[order[n] := SPLIT_ORDER[choices[n]]]
  }

  /** The split of every record of group `g`. */
  ghost function AssignedSplit(rs: seq<VisualRecord>, g: string): string
    requires g in Groups(rs)
  {
    assert Leaders(rs)[g] in Leaders(rs).Values;
    ComponentSplits(Sizes(rs), |rs|)[Leader(rs, g)]
  }

  ghost function Balanced(rs: seq<VisualRecord>): (ss: seq<VisualRecord>)
    ensures |ss| == |rs|
  {
    seq(|rs|, i requires 0 <= i < |rs| => BalancedRecord(rs, i))
  }

  ghost function BalancedRecord(rs: seq<VisualRecord>, i: nat): VisualRecord
    requires i < |rs|
  {
    rs[i].(nearDuplicateOf := LinkOf(rs, i), split := AssignedSplit(rs, rs[i].splitGroup))
  }

  // ---- No leaks ----

  lemma LinkedGroupsShareLeader(rs: seq<VisualRecord>, i: nat)
    requires i < |rs|
    ensures Leader(rs, rs[i].splitGroup) == Leader(rs, rs[FirstLike(rs, i)].splitGroup)
  {
    var f := FirstLike(rs, i);
    if f < i {
      assert LinkAt(rs, i) in AllLinks(rs);
      ConnectedByLink(AllLinks(rs), rs[i].splitGroup, rs[f].splitGroup);
      ComponentsCoincide(Groups(rs), AllLinks(rs), rs[i].splitGroup, rs[f].splitGroup);
    }
  }

  lemma LinkedGroupsShareSplit(rs: seq<VisualRecord>, i: nat)
    requires i < |rs|
    ensures AssignedSplit(rs, rs[i].splitGroup) == AssignedSplit(rs, rs[FirstLike(rs, i)].splitGroup)
  {
    LinkedGroupsShareLeader(rs, i);
  }

  /** The reference of record `i` resolves to record `t`, the last holder of its digest. */
  ghost predicate ResolvesTo(rs: seq<VisualRecord>, i: nat, t: nat)
    requires i < |rs|
  {
    && rs[i].nearDuplicateOf.Some? && rs[i].nearDuplicateOf.value != ""
    && t < |rs| && rs[t].sha256 == rs[i].nearDuplicateOf.value
    && forall u :: t < u < |rs| ==> rs[u].sha256 != rs[t].sha256
  }

  ghost predicate CrossesByDigest(rs: seq<VisualRecord>, i: nat)
    requires i < |rs|
  {
    exists t: nat :: ResolvesTo(rs, i, t) && rs[i].split != rs[t].split
  }

  /** Records with the same digest look alike, as copies of one image do. */
  ghost predicate DigestsNameLooks(rs: seq<VisualRecord>) {
    forall i, j :: 0 <= i < j < |rs| && rs[i].sha256 == rs[j].sha256 ==> LookAlike(rs[i], rs[j])
  }

  lemma LookAlikesShareSplit(rs: seq<VisualRecord>, i: nat, j: nat)
    requires i < |rs| && j < |rs| && LookAlike(rs[i], rs[j])
    ensures AssignedSplit(rs, rs[i].splitGroup) == AssignedSplit(rs, rs[j].splitGroup)
  {
    LinkedGroupsShareSplit(rs, i);
    LinkedGroupsShareSplit(rs, j);
    assert FirstLike(rs, i) == FirstLike(rs, j);
  }

  /** A record is given a reference exactly when an earlier one looks like it, to the first such. */
  lemma ReferencesNameFirstLookAlike(rs: seq<VisualRecord>, j: nat)
    requires j < |rs|
    ensures var reference := Balanced(rs)[j].nearDuplicateOf;
      if forall i: nat :: i < j ==> !LookAlike(rs[i], rs[j]) then reference == None
      else exists i: nat ::
        && i < j && LookAlike(rs[i], rs[j]) && reference == Some(rs[i].sha256)
        && forall k: nat :: k < i ==> !LookAlike(rs[k], rs[j])
  {
    hide AssignedSplit;
    assert Balanced(rs)[j] == BalancedRecord(rs, j);
    var f := FirstLike(rs, j);
    assert LookAlike(rs[f], rs[j]);
    assert forall k: nat :: k < f ==> Key(rs[k]) != Key(rs[j]);
  }

  /** Records of one group, and records that look alike, end in one split. */
  lemma BalancedIsLeakFree(rs: seq<VisualRecord>, i: nat, j: nat)
    requires i < |rs| && j < |rs| && (rs[i].splitGroup == rs[j].splitGroup || LookAlike(rs[i], rs[j]))
    ensures Balanced(rs)[i].split == Balanced(rs)[j].split
  {
    if LookAlike(rs[i], rs[j]) { LookAlikesShareSplit(rs, i, j); }
  }

  /** The reference record `i` is given resolves to record `t`, the last holder of its digest. */
  ghost predicate RefersTo(rs: seq<VisualRecord>, i: nat, t: nat)
    requires i < |rs|
  {
    && FirstLike(rs, i) < i && t < |rs| && rs[FirstLike(rs, i)].sha256 == rs[t].sha256 != ""
    && forall u :: t < u < |rs| ==> rs[u].sha256 != rs[t].sha256
  }

  lemma ReferenceResolves(rs: seq<VisualRecord>, i: nat, t: nat)
    requires i < |rs|
    ensures RefersTo(rs, i, t) <==> ResolvesTo(Balanced(rs), i, t)
    ensures RefersTo(rs, i, t) ==> t < |rs|
  {
    hide AssignedSplit;
    var ss := Balanced(rs);
    forall u | 0 <= u < |rs| ensures ss[u].sha256 == rs[u].sha256 { assert ss[u] == BalancedRecord(rs, u); }
    assert ss[i].nearDuplicateOf == LinkOf(rs, i);
  }

  /** The final check trips over a record exactly when the groups of the record and of what it
      refers to are dealt to different splits. */
  lemma CrossesExactlyWhen(rs: seq<VisualRecord>, i: nat)
    requires i < |rs|
    ensures CrossesByDigest(Balanced(rs), i) <==>
      exists t: nat :: RefersTo(rs, i, t) && AssignedSplit(rs, rs[i].splitGroup) != AssignedSplit(rs, rs[t].splitGroup)
  {
    hide AssignedSplit, RefersTo, ResolvesTo;
    var ss := Balanced(rs);
    forall t: nat
      ensures (RefersTo(rs, i, t) <==> ResolvesTo(ss, i, t)) && (RefersTo(rs, i, t) ==> t < |rs|)
    {
      ReferenceResolves(rs, i, t);
    }
    forall t: nat | t < |rs| ensures ss[t].split == AssignedSplit(rs, rs[t].splitGroup) {
      assert ss[t] == BalancedRecord(rs, t);
    }
  }

  lemma ConnectedGroupsShareSplit(rs: seq<VisualRecord>, g: string, h: string)
    requires g in Groups(rs) && h in Groups(rs) && Connected(AllLinks(rs), g, h)
    ensures AssignedSplit(rs, g) == AssignedSplit(rs, h)
  {
    ComponentsCoincide(Groups(rs), AllLinks(rs), g, h);
    hide Sizes, ComponentSplits;
  }

  /** A record whose group is connected to that of the record it refers to passes the check. */
  lemma BalancedConverges(rs: seq<VisualRecord>, i: nat)
    requires i < |rs|
    requires forall t: nat :: RefersTo(rs, i, t) ==> Connected(AllLinks(rs), rs[i].splitGroup, rs[t].splitGroup)
    ensures !CrossesByDigest(Balanced(rs), i)
  {
    hide AssignedSplit, Connected, Balanced, CrossesByDigest;
    CrossesExactlyWhen(rs, i);
    forall t: nat | RefersTo(rs, i, t)
      ensures AssignedSplit(rs, rs[i].splitGroup) == AssignedSplit(rs, rs[t].splitGroup)
    {
      ConnectedGroupsShareSplit(rs, rs[i].splitGroup, rs[t].splitGroup);
    }
  }

  /** That is so for all records when a digest determines the looks. */
  lemma LooksDecideReferences(rs: seq<VisualRecord>, i: nat, t: nat)
    requires DigestsNameLooks(rs) && i < |rs| && RefersTo(rs, i, t)
    ensures Connected(AllLinks(rs), rs[i].splitGroup, rs[t].splitGroup)
  {
    var f := FirstLike(rs, i);
    assert t < f || t == f || f < t;
    LookAlikesConnected(rs, i, t);
  }

  // ---- Independence of earlier splits, and of order ----

  /** The two lists pose the same grouping problem. */
  ghost predicate SameProblem(rs: seq<VisualRecord>, ss: seq<VisualRecord>) {
    && |rs| == |ss|
    && Groups(rs) == Groups(ss)
    && (forall g, h :: Connected(AllLinks(rs), g, h) <==> Connected(AllLinks(ss), g, h))
  }

  lemma SameProblemSameLeaders(rs: seq<VisualRecord>, ss: seq<VisualRecord>)
    requires SameProblem(rs, ss)
    ensures Leaders(rs) == Leaders(ss)
  {
    hide Groups, AllLinks, Connected;
    forall g | g in Groups(rs) ensures Leader(rs, g) == Leader(ss, g) {
      assert Component(Groups(rs), AllLinks(rs), g) == Component(Groups(ss), AllLinks(ss), g);
    }
  }

  lemma SameRowsSameSizes(rs: seq<VisualRecord>, ss: seq<VisualRecord>)
    requires SameProblem(rs, ss)
    requires forall c :: |Led(rs, Leaders(rs), c)| == |Led(ss, Leaders(ss), c)|
    ensures Sizes(rs) == Sizes(ss)
  {
    SameProblemSameLeaders(rs, ss);
  }

  /** Same problem, same number of rows per component: every group gets the same split. */
  lemma SameSizesSameSplit(rs: seq<VisualRecord>, ss: seq<VisualRecord>, g: string)
    requires SameProblem(rs, ss) && g in Groups(rs)
    requires forall c :: |Led(rs, Leaders(rs), c)| == |Led(ss, Leaders(ss), c)|
    ensures AssignedSplit(rs, g) == AssignedSplit(ss, g)
  {
    SameProblemSameLeaders(rs, ss);
    assert Leader(rs, g) == Leaders(rs)[g] == Leaders(ss)[g] == Leader(ss, g);
    SameRowsSameSizes(rs, ss);
  }

  lemma FirstLikeAgrees(rs: seq<VisualRecord>, ss: seq<VisualRecord>, i: nat)
    requires |rs| == |ss| && i < |rs|
    requires forall j :: 0 <= j < |rs| ==> Key(rs[j]) == Key(ss[j])
    ensures FirstLike(rs, i) == FirstLike(ss, i)
  {
    var f, e := FirstLike(rs, i), FirstLike(ss, i);
    assert Key(rs[f]) == Key(ss[f]) && Key(rs[e]) == Key(ss[e]);
  }

  lemma LinksAgree(rs: seq<VisualRecord>, ss: seq<VisualRecord>)
    requires |rs| == |ss|
    requires forall j :: 0 <= j < |rs| ==> Key(rs[j]) == Key(ss[j]) && rs[j].splitGroup == ss[j].splitGroup
    ensures AllLinks(rs) <= AllLinks(ss) && Groups(rs) <= Groups(ss)
  {
    forall l | l in AllLinks(rs) ensures l in AllLinks(ss) {
      var i :| 0 <= i < |rs| && FirstLike(rs, i) < i && l == LinkAt(rs, i);
      FirstLikeAgrees(rs, ss, i);
      assert l == LinkAt(ss, i);
    }
    forall g | g in Groups(rs) ensures g in Groups(ss) {
      var i :| 0 <= i < |rs| && rs[i].splitGroup == g;
      assert ss[i].splitGroup == g;
    }
  }

  lemma SameKeysSameProblem(rs: seq<VisualRecord>, ss: seq<VisualRecord>)
    requires |rs| == |ss|
    requires forall j :: 0 <= j < |rs| ==> Key(rs[j]) == Key(ss[j]) && rs[j].splitGroup == ss[j].splitGroup
    ensures SameProblem(rs, ss)
    ensures forall c :: Led(rs, Leaders(rs), c) == Led(ss, Leaders(ss), c)
  {
    LinksAgree(rs, ss);
    LinksAgree(ss, rs);
    assert AllLinks(rs) == AllLinks(ss);
    SameProblemSameLeaders(rs, ss);
  }

  /** Neither earlier splits nor earlier references influence a run. */
  lemma OnlyKeysAndGroupsMatter(rs: seq<VisualRecord>, ss: seq<VisualRecord>, i: nat)
    requires |rs| == |ss| && i < |rs|
    requires forall j :: 0 <= j < |rs| ==>
      ss[j] == rs[j].(nearDuplicateOf := ss[j].nearDuplicateOf, split := ss[j].split)
    ensures BalancedRecord(ss, i) == BalancedRecord(rs, i)
  {
    SameKeysSameProblem(rs, ss);
    FirstLikeAgrees(rs, ss, i);
    assert ss[FirstLike(rs, i)].sha256 == rs[FirstLike(rs, i)].sha256;
    SameSizesSameSplit(rs, ss, rs[i].splitGroup);
  }

  /** A second run changes nothing. */
  lemma BalancedIsIdempotent(rs: seq<VisualRecord>)
    ensures Balanced(Balanced(rs)) == Balanced(rs)
  {
    var ss := Balanced(rs);
    forall j | 0 <= j < |rs| ensures ss[j] == rs[j].(nearDuplicateOf := ss[j].nearDuplicateOf, split := ss[j].split) {
      assert ss[j] == BalancedRecord(rs, j);
    }
    forall i | 0 <= i < |rs| ensures Balanced(ss)[i] == ss[i] {
      OnlyKeysAndGroupsMatter(rs, ss, i);
    }
  }

  lemma LookAlikesConnected(rs: seq<VisualRecord>, i: nat, j: nat)
    requires i < |rs| && j < |rs| && LookAlike(rs[i], rs[j])
    ensures Connected(AllLinks(rs), rs[i].splitGroup, rs[j].splitGroup)
  {
    assert FirstLike(rs, i) == FirstLike(rs, j);
    ConnectedToFirst(rs, i);
    ConnectedToFirst(rs, j);
    var first := rs[FirstLike(rs, i)].splitGroup;
    ConnectedSymmetric(AllLinks(rs), rs[j].splitGroup, first);
    ConnectedTransitive(AllLinks(rs), rs[i].splitGroup, first, rs[j].splitGroup);
  }

  /** The groups of any two records that look alike, linked. */
  ghost function LookLinks(rs: seq<VisualRecord>): Links {
    set i, j | 0 <= i < |rs| && 0 <= j < |rs| && LookAlike(rs[i], rs[j]) :: (rs[i].splitGroup, rs[j].splitGroup)
  }

  /** Linking only to the first look-alike connects the same groups as linking all of them. */
  lemma LooksConnect(rs: seq<VisualRecord>, g: string, h: string)
    ensures Connected(AllLinks(rs), g, h) <==> Connected(LookLinks(rs), g, h)
  {
    if Connected(AllLinks(rs), g, h) {
      forall l | l in AllLinks(rs) ensures l in LookLinks(rs) {
        var i :| 0 <= i < |rs| && FirstLike(rs, i) < i && l == LinkAt(rs, i);
        assert LookAlike(rs[i], rs[FirstLike(rs, i)]);
      }
      ConnectedMonotone(AllLinks(rs), LookLinks(rs), g, h);
    }
    if Connected(LookLinks(rs), g, h) {
      forall l | l in LookLinks(rs) ensures Connected(AllLinks(rs), l.0, l.1) {
        var i, j :| 0 <= i < |rs| && 0 <= j < |rs| && LookAlike(rs[i], rs[j])
          && l == (rs[i].splitGroup, rs[j].splitGroup);
        LookAlikesConnected(rs, i, j);
      }
      ConnectionRefines(LookLinks(rs), AllLinks(rs), g, h);
    }
  }

  lemma ConnectedToFirst(rs: seq<VisualRecord>, i: nat)
    requires i < |rs|
    ensures Connected(AllLinks(rs), rs[i].splitGroup, rs[FirstLike(rs, i)].splitGroup)
  {
    if FirstLike(rs, i) < i {
      assert LinkAt(rs, i) in AllLinks(rs);
      ConnectedByLink(AllLinks(rs), rs[i].splitGroup, rs[FirstLike(rs, i)].splitGroup);
    } else {
      ConnectedToSelf(AllLinks(rs), rs[i].splitGroup);
    }
  }

  lemma ReorderedLinksConnect(rs: seq<VisualRecord>, ss: seq<VisualRecord>, a: string, b: string)
    requires forall r :: r in rs ==> r in ss
    requires Connected(AllLinks(rs), a, b)
    ensures Connected(AllLinks(ss), a, b)
  {
    forall l | l in AllLinks(rs) ensures Connected(AllLinks(ss), l.0, l.1) {
      var i :| 0 <= i < |rs| && FirstLike(rs, i) < i && l == LinkAt(rs, i);
      assert rs[i] in ss && rs[FirstLike(rs, i)] in ss;
      var j :| 0 <= j < |ss| && ss[j] == rs[i];
      var u :| 0 <= u < |ss| && ss[u] == rs[FirstLike(rs, i)];
      LookAlikesConnected(ss, j, u);
    }
    ConnectionRefines(AllLinks(rs), AllLinks(ss), a, b);
  }

  lemma ReorderedSameProblem(rs: seq<VisualRecord>, ss: seq<VisualRecord>)
    requires multiset(rs) == multiset(ss)
    ensures SameProblem(rs, ss)
  {
    SameMembers(rs, ss);
    ReorderedGroups(rs, ss);
    ReorderedGroups(ss, rs);
    forall a, b ensures Connected(AllLinks(rs), a, b) <==> Connected(AllLinks(ss), a, b) {
      if Connected(AllLinks(rs), a, b) { ReorderedLinksConnect(rs, ss, a, b); }
      if Connected(AllLinks(ss), a, b) { ReorderedLinksConnect(ss, rs, a, b); }
    }
  }

  lemma ReorderedGroups(rs: seq<VisualRecord>, ss: seq<VisualRecord>)
    requires forall r :: r in rs ==> r in ss
    ensures Groups(rs) <= Groups(ss)
  {
    forall g | g in Groups(rs) ensures g in Groups(ss) {
      var i :| 0 <= i < |rs| && rs[i].splitGroup == g;
      assert rs[i] in ss;
    }
  }

  function LedBy(lead: map<string, string>, c: string): VisualRecord -> bool {
    (r: VisualRecord) => r.splitGroup in lead && lead[r.splitGroup] == c
  }

  lemma LedIsTally(rs: seq<VisualRecord>, lead: map<string, string>, c: string)
    requires forall i :: 0 <= i < |rs| ==> rs[i].splitGroup in lead
    ensures |Led(rs, lead, c)| == Tally(rs, LedBy(lead, c))
  {
    TallyCountsPlaces(rs, LedBy(lead, c));
    assert Led(rs, lead, c) == Places(rs, LedBy(lead, c));
  }

  /** Every group gets the same split whatever the order of the records. */
  lemma SplitsIgnoreOrder(rs: seq<VisualRecord>, ss: seq<VisualRecord>, g: string)
    requires multiset(rs) == multiset(ss) && g in Groups(rs)
    ensures g in Groups(ss) && AssignedSplit(rs, g) == AssignedSplit(ss, g)
  {
    hide AssignedSplit, Led, Connected, Leader;
    ReorderedSameProblem(rs, ss);
    SameProblemSameLeaders(rs, ss);
    var lead := Leaders(rs);
    forall c ensures |Led(rs, lead, c)| == |Led(ss, lead, c)| { LedIgnoresOrder(rs, ss, lead, c); }
    SameSizesSameSplit(rs, ss, g);
  }

  lemma LedIgnoresOrder(rs: seq<VisualRecord>, ss: seq<VisualRecord>, lead: map<string, string>, c: string)
    requires multiset(rs) == multiset(ss)
    requires forall i :: 0 <= i < |rs| ==> rs[i].splitGroup in lead
    requires forall i :: 0 <= i < |ss| ==> ss[i].splitGroup in lead
    ensures |Led(rs, lead, c)| == |Led(ss, lead, c)|
  {
    hide Led, Tally;
    LedIsTally(rs, lead, c);
    LedIsTally(ss, lead, c);
    TallyIgnoresOrder(rs, ss, LedBy(lead, c));
  }
}
