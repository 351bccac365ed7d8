/** The in-place algorithm of `reconcile_fasdd_visual_splits`, proved against `FasddSplits`. */
module FasddReconcile {
  import opened Counting
  import opened Labels
  import opened Outcomes
  import opened Connectivity
  import UF = UnionFind
  import opened SplitBalance
  import opened FasddSplits

  const MISSING := "FASDD record is missing visual_fingerprint"
  const DIVERGED := "FASDD visual split reconciliation did not converge"

  datatype Report = Report(duplicateLinks: nat, componentCount: nat, reassignedRows: nat, splitRows: seq<nat>)

  ghost predicate Fingerprinted(rs: seq<VisualRecord>) {
    forall i :: 0 <= i < |rs| ==> rs[i].fingerprint != ""
  }

  /** What an aborted run leaves behind: references rewritten up to and including the bad record. */
  ghost predicate AbortedAt(rs: seq<VisualRecord>, ss: seq<VisualRecord>, bad: nat) {
    && bad < |rs| == |ss| && rs[bad].fingerprint == ""
    && (forall i :: 0 <= i < bad ==> rs[i].fingerprint != "" && ss[i] == rs[i].(nearDuplicateOf := LinkOf(rs, i)))
    && ss[bad] == rs[bad].(nearDuplicateOf := None)
    && (forall i :: bad < i < |rs| ==> ss[i] == rs[i])
  }

  function MovedUpTo(rs: seq<VisualRecord>, ss: seq<VisualRecord>, k: nat): nat
    requires k <= |rs| && k <= |ss|
  {
    if k == 0 then 0 else MovedUpTo(rs, ss, k - 1) + if rs[k - 1].split != ss[k - 1].split then 1 else 0
  }

  function RepeatsUpTo(rs: seq<VisualRecord>, k: nat): nat
    requires k <= |rs|
  {
    if k == 0 then 0 else RepeatsUpTo(rs, k - 1) + if FirstLike(rs, k - 1) < k - 1 then 1 else 0
  }

  ghost function GroupsUpTo(rs: seq<VisualRecord>, k: nat): set<string>
    requires k <= |rs|
  {
    set i | 0 <= i < k :: rs[i].splitGroup
  }

  /** `first_by_visual_key` after `k` records. */
  ghost function Firsts(rs: seq<VisualRecord>, k: nat): map<VisualKey, nat>
    requires k <= |rs|
  {
    if k == 0 then map[] else
      var m := Firsts(rs, k - 1);
      if Key(rs[k - 1]) in m then m else m[Key(rs[k - 1]) := k - 1]
  }

  /** The forest a linking pass over `k` records builds. */
  ghost predicate Joined(rs: seq<VisualRecord>, k: nat, forest: UF.Components)
    requires k <= |rs|
    reads forest
  {
    forest.Valid() && forest.links == LinksUpTo(rs, k) && forest.parents.Keys == GroupsUpTo(rs, k)
  }

  // ---- Linking ----

  lemma {:induction false} FirstsHold(rs: seq<VisualRecord>, k: nat, key: VisualKey)
    requires k <= |rs|
    ensures var m := Firsts(rs, k);
      if key in m then m[key] < k && Key(rs[m[key]]) == key && (forall j :: 0 <= j < m[key] ==> Key(rs[j]) != key)
      else forall j :: 0 <= j < k ==> Key(rs[j]) != key
  {
    if k > 0 { FirstsHold(rs, k - 1, key); }
  }

  lemma FirstsDecide(rs: seq<VisualRecord>, k: nat)
    requires k < |rs|
    ensures Key(rs[k]) in Firsts(rs, k) <==> FirstLike(rs, k) < k
    ensures Key(rs[k]) in Firsts(rs, k) ==> Firsts(rs, k)[Key(rs[k])] == FirstLike(rs, k)
  {
    FirstsHold(rs, k, Key(rs[k]));
    assert Key(rs[FirstLike(rs, k)]) == Key(rs[k]);
  }

  lemma FirstsNext(rs: seq<VisualRecord>, k: nat)
    requires k < |rs|
    ensures Firsts(rs, k + 1) == if Key(rs[k]) in Firsts(rs, k) then Firsts(rs, k) else Firsts(rs, k)[Key(rs[k]) := k]
  {
  }

  lemma JoinedExtends(rs: seq<VisualRecord>, k: nat)
    requires k < |rs|
    ensures GroupsUpTo(rs, k + 1) == GroupsUpTo(rs, k) + {rs[k].splitGroup}
    ensures GroupsUpTo(rs, k + 1) == GroupsUpTo(rs, k) + {rs[k].splitGroup}
      + {rs[k].splitGroup, rs[FirstLike(rs, k)].splitGroup}
    ensures LinksUpTo(rs, k + 1) ==
      if FirstLike(rs, k) < k then LinksUpTo(rs, k) + {LinkAt(rs, k)} else LinksUpTo(rs, k)
  {
    forall l | l in LinksUpTo(rs, k + 1)
      ensures l in LinksUpTo(rs, k) || (FirstLike(rs, k) < k && l == LinkAt(rs, k))
    {
      var i :| 0 <= i < k + 1 && FirstLike(rs, i) < i && l == LinkAt(rs, i);
    }
    forall l | l in LinksUpTo(rs, k) ensures l in LinksUpTo(rs, k + 1) {
      var i :| 0 <= i < k && FirstLike(rs, i) < i && l == LinkAt(rs, i);
      assert l == LinkAt(rs, i);
    }
  }

  function WithoutReference(r: VisualRecord): VisualRecord {
    r.(nearDuplicateOf := None)
  }

  function Linked(rs: seq<VisualRecord>, i: nat): VisualRecord
    requires i < |rs|
  {
    rs[i].(nearDuplicateOf := LinkOf(rs, i))
  }

  /** Looks record `i` up by its visual key, joining its group to the first record's; `links`
      is the reference to write. */
  method LinkRecord(rs: seq<VisualRecord>, i: nat, firsts: map<VisualKey, nat>, forest: UF.Components)
    returns (firstsAfter: map<VisualKey, nat>, link: Option<string>, repeated: bool)
    requires i < |rs| && Joined(rs, i, forest) && firsts == Firsts(rs, i)
    modifies forest
    ensures Joined(rs, i + 1, forest) && firstsAfter == Firsts(rs, i + 1)
    ensures link == LinkOf(rs, i) && repeated == (FirstLike(rs, i) < i)
  {
    FirstsDecide(rs, i);
    JoinedExtends(rs, i);
    FirstsNext(rs, i);
    hide Firsts, LinksUpTo, GroupsUpTo, FirstLike, UF.Represents, UF.SameRoots, UF.Root;
    var group, key := rs[i].splitGroup, Key(rs[i]);
    var _ := forest.Find(group);
    if key !in firsts {
      return firsts[key := i], None, false;
    }
    var first := rs[firsts[key]];
    forest.Union(group, first.splitGroup);
    return firsts, Some(first.sha256), true;
  }

  /** The list once the linking pass has rewritten its first `k` records. */
  ghost predicate LinkedUpTo(rs: seq<VisualRecord>, ss: seq<VisualRecord>, k: nat) {
    && k <= |rs| == |ss|
    && (forall j :: 0 <= j < k ==> rs[j].fingerprint != "" && ss[j] == Linked(rs, j))
    && (forall j :: k <= j < |rs| ==> ss[j] == rs[j])
  }

  method LinkVisualDuplicates(records: array<VisualRecord>)
    returns (ok: bool, forest: UF.Components, repeats: nat)
    modifies records
    ensures fresh(forest)
    ensures ok ==> LinkedUpTo(old(records[..]), records[..], records.Length)
    ensures ok ==> Joined(old(records[..]), records.Length, forest)
    ensures ok ==> repeats == RepeatsUpTo(old(records[..]), records.Length)
    ensures !ok ==> exists bad :: AbortedAt(old(records[..]), records[..], bad)
  {
    var rs := records[..];
    forest := new UF.Components();
    var firsts: map<VisualKey, nat> := map[];
    repeats := 0;
    for i := 0 to records.Length
      invariant fresh(forest) && Joined(rs, i, forest) && firsts == Firsts(rs, i)
      invariant repeats == RepeatsUpTo(rs, i)
      invariant LinkedUpTo(rs, records[..], i)
    {
      ok, firsts, repeats := LinkOne(rs, records, i, firsts, forest, repeats);
      if !ok {
        return;
      }
    }
    ok := true;
  }

  method LinkOne(rs: seq<VisualRecord>, records: array<VisualRecord>, i: nat,
                 firsts: map<VisualKey, nat>, forest: UF.Components, repeats: nat)
    returns (ok: bool, firstsAfter: map<VisualKey, nat>, repeatsAfter: nat)
    requires i < records.Length && LinkedUpTo(rs, records[..], i)
    requires Joined(rs, i, forest) && firsts == Firsts(rs, i) && repeats == RepeatsUpTo(rs, i)
    modifies records, forest
    ensures ok ==> Joined(rs, i + 1, forest) && firstsAfter == Firsts(rs, i + 1)
    ensures ok ==> repeatsAfter == RepeatsUpTo(rs, i + 1)
    ensures ok ==> LinkedUpTo(rs, records[..], i + 1)
    ensures !ok ==> AbortedAt(rs, records[..], i)
  {
    assert forall j :: 0 <= j < |rs| ==> records[j] == records[..][j];
    records[i] := WithoutReference(records[i]);
    if records[i].fingerprint == "" {
      return false, firsts, repeats;
    }
    var link, repeated;
    firstsAfter, link, repeated := LinkRecord(rs, i, firsts, forest);
    records[i] := records[i].(nearDuplicateOf := link);
    assert records[i] == Linked(rs, i);
    return true, firstsAfter, repeats + if repeated then 1 else 0;
  }

  // ---- Measuring components ----

  lemma RootIsLeader(rs: seq<VisualRecord>, p: UF.Forest, g: string)
    requires UF.Represents(p, AllLinks(rs)) && p.Keys == Groups(rs) && g in p
    ensures UF.Root(p, g) == Leaders(rs)[g]
  {
    var r, c := UF.Root(p, g), Component(Groups(rs), AllLinks(rs), g);
    InOwnComponent(rs, g);
    UF.RootsDecideConnectivity(p, AllLinks(rs), g, r);
    assert UF.Root(p, r) == r && r in c;
    var least := Least(c);
    UF.RootsDecideConnectivity(p, AllLinks(rs), g, least);
    LeTotalOrder(r, least, r);
  }

  ghost function LedUpTo(rs: seq<VisualRecord>, lead: map<string, string>, c: string, k: nat): set<nat>
    requires k <= |rs| && forall i :: 0 <= i < |rs| ==> rs[i].splitGroup in lead
  {
    set i: nat | i < k && lead[rs[i].splitGroup] == c
  }

  /** `component_records`, by size, after `k` records. */
  ghost predicate SizedUpTo(rs: seq<VisualRecord>, lead: map<string, string>, k: nat, sizes: map<string, nat>)
    requires k <= |rs| && forall i :: 0 <= i < |rs| ==> rs[i].splitGroup in lead
  {
    && (forall c :: c in sizes ==> sizes[c] == |LedUpTo(rs, lead, c, k)| && sizes[c] > 0)
    && (forall i :: 0 <= i < k ==> lead[rs[i].splitGroup] in sizes)
  }

  lemma SizesExtend(rs: seq<VisualRecord>, lead: map<string, string>, k: nat, sizes: map<string, nat>, c: string)
    requires k < |rs| && forall i :: 0 <= i < |rs| ==> rs[i].splitGroup in lead
    requires SizedUpTo(rs, lead, k, sizes) && c == lead[rs[k].splitGroup]
    ensures SizedUpTo(rs, lead, k + 1, sizes[c := SizeIn(sizes, c) + 1])
  {
    if c !in sizes {
      assert LedUpTo(rs, lead, c, k) == {};
    }
    assert LedUpTo(rs, lead, c, k + 1) == LedUpTo(rs, lead, c, k) + {k};
    forall d | d in sizes && d != c ensures LedUpTo(rs, lead, d, k + 1) == LedUpTo(rs, lead, d, k) {
    }
  }

  lemma SizedIsSizes(rs: seq<VisualRecord>, lead: map<string, string>, sizes: map<string, nat>)
    requires lead.Keys == Groups(rs) && SizedUpTo(rs, lead, |rs|, sizes)
    ensures sizes == map leader | leader in lead.Values :: |Led(rs, lead, leader)|
  {
    forall c ensures c in sizes <==> c in lead.Values {
      if c in sizes {
        var i :| i in LedUpTo(rs, lead, c, |rs|);
        assert rs[i].splitGroup in lead && lead[rs[i].splitGroup] == c;
      }
      if c in lead.Values {
        var g :| g in lead && lead[g] == c;
        var i :| 0 <= i < |rs| && rs[i].splitGroup == g;
        assert lead[rs[i].splitGroup] in sizes;
      }
    }
    forall c | c in sizes ensures sizes[c] == |Led(rs, lead, c)| {
      assert LedUpTo(rs, lead, c, |rs|) == Led(rs, lead, c);
    }
  }

  /** The forest's roots are the leaders `lead` names. */
  ghost predicate Follows(forest: UF.Components, lead: map<string, string>)
    reads forest
  {
    && forest.Valid() && forest.parents.Keys == lead.Keys
    && forall g {:trigger UF.Root(forest.parents, g)} :: g in lead ==> UF.Root(forest.parents, g) == lead[g]
  }

  lemma JoinedFollowsLeaders(rs: seq<VisualRecord>, forest: UF.Components)
    requires Joined(rs, |rs|, forest)
    ensures Follows(forest, Leaders(rs))
  {
    assert GroupsUpTo(rs, |rs|) == Groups(rs);
    forall g | g in Leaders(rs) ensures UF.Root(forest.parents, g) == Leaders(rs)[g] {
      RootIsLeader(rs, forest.parents, g);
    }
  }

  method FindLeader(ghost lead: map<string, string>, group: string, forest: UF.Components) returns (root: string)
    requires Follows(forest, lead) && group in lead
    modifies forest
    ensures Follows(forest, lead) && root == lead[group]
  {
    root := forest.Find(group);
  }

  method MeasureComponents(rs: seq<VisualRecord>, ghost lead: map<string, string>, forest: UF.Components)
    returns (sizes: map<string, nat>)
    requires Follows(forest, lead) && forall i :: 0 <= i < |rs| ==> rs[i].splitGroup in lead
    modifies forest
    ensures Follows(forest, lead) && SizedUpTo(rs, lead, |rs|, sizes)
  {
    sizes := map[];
    for i := 0 to |rs|
      invariant Follows(forest, lead) && SizedUpTo(rs, lead, i, sizes)
    {
      var root := FindLeader(lead, rs[i].splitGroup, forest);
      SizesExtend(rs, lead, i, sizes, root);
      sizes := sizes[root := SizeIn(sizes, root) + 1];
    }
  }

  // ---- Dealing components to splits ----

  lemma SplitsExtend(order: seq<string>, choices: seq<nat>, c: string, e: nat)
    requires |order| == |choices| && (forall i :: 0 <= i < |choices| ==> choices[i] < 3) && e < 3
    ensures SplitsAlong(order + [c], choices + [e]) == SplitsAlong(order, choices)[c := SPLIT_ORDER[e]]
  {
    assert (order + [c])[..|order|] == order && (choices + [e])[..|choices|] == choices;
  }

  method DealComponents(sizes: map<string, nat>, rows: nat) returns (splits: map<string, string>, counts: seq<nat>)
    requires rows == 0 ==> sizes == map[]
    ensures rows > 0 ==> splits == ComponentSplits(sizes, rows) && counts == PlacementOf(sizes, rows).counts
    ensures rows == 0 ==> splits == map[] && counts == [0, 0, 0]
  {
    if rows == 0 {
      return map[], [0, 0, 0];
    }
    var order := Ordered(sizes);
    splits, counts := DealInOrder(order, SizesAlong(sizes, order), Targets(rows));
  }

  lemma PlaceStep(along: seq<nat>, targets: seq<real>, i: nat)
    requires Positive(targets) && i < |along|
    ensures var p := Place(along[..i], targets);
      var e := Emptiest(p.counts, targets, |targets|);
      Place(along[..i + 1], targets) == Placement(p.choices + [e], p.counts[e := p.counts[e] + along[i]])
  {
    hide Emptiest, Fill;
    var more := along[..i + 1];
    assert more[..|more| - 1] == along[..i] && more[|more| - 1] == along[i];
    hide Positive;
  }

  lemma SplitsStep(order: seq<string>, choices: seq<nat>, i: nat, e: nat)
    requires i == |choices| < |order| && (forall k :: 0 <= k < i ==> choices[k] < 3) && e < 3
    ensures SplitsAlong(order[..i + 1], choices + [e]) == SplitsAlong(order[..i], choices)[order[i] := SPLIT_ORDER[e]]
  {
    assert order[..i] + [order[i]] == order[..i + 1];
    SplitsExtend(order[..i], choices, order[i], e);
  }

  /** The splits and counts after dealing the first `i` components. */
  ghost predicate DealtUpTo(order: seq<string>, along: seq<nat>, targets: seq<real>, i: nat,
                            splits: map<string, string>, counts: seq<nat>)
    requires i <= |order| == |along| && |targets| == 3 && Positive(targets)
  {
    |counts| == 3 && counts == Place(along[..i], targets).counts
    && splits == SplitsAlong(order[..i], Place(along[..i], targets).choices)
  }

  lemma NothingDealt(order: seq<string>, along: seq<nat>, targets: seq<real>)
    requires |order| == |along| && |targets| == 3 && Positive(targets)
    ensures DealtUpTo(order, along, targets, 0, map[], [0, 0, 0])
  {
    assert order[..0] == [] && along[..0] == [];
  }

  lemma DealtNext(order: seq<string>, along: seq<nat>, targets: seq<real>, i: nat, splits: map<string, string>,
                  counts: seq<nat>)
    requires i < |order| == |along| && |targets| == 3 && Positive(targets)
    requires DealtUpTo(order, along, targets, i, splits, counts)
    ensures |counts| == 3
    ensures var e := Emptiest(counts, targets, 3);
      DealtUpTo(order, along, targets, i + 1, splits[order[i] := SPLIT_ORDER[e]], counts[e := counts[e] + along[i]])
  {
    hide Place, SplitsAlong, Emptiest;
    var p := Place(along[..i], targets);
    PlaceStep(along, targets, i);
    SplitsStep(order, p.choices, i, Emptiest(p.counts, targets, 3));
  }

  lemma AllDealt(order: seq<string>, along: seq<nat>, targets: seq<real>, splits: map<string, string>, counts: seq<nat>)
    requires |order| == |along| && |targets| == 3 && Positive(targets)
    requires DealtUpTo(order, along, targets, |order|, splits, counts)
    ensures splits == SplitsAlong(order, Place(along, targets).choices) && counts == Place(along, targets).counts
  {
    hide Place, SplitsAlong;
    assert along[..|order|] == along && order[..|order|] == order;
  }

  method DealInOrder(order: seq<string>, along: seq<nat>, targets: seq<real>)
    returns (splits: map<string, string>, counts: seq<nat>)
    requires |order| == |along| && |targets| == 3 && Positive(targets)
    ensures splits == SplitsAlong(order, Place(along, targets).choices) && counts == Place(along, targets).counts
  {
    hide DealtUpTo, Place, SplitsAlong, Emptiest;
    splits, counts := map[], [0, 0, 0];
    NothingDealt(order, along, targets);
    for i := 0 to |order|
      invariant DealtUpTo(order, along, targets, i, splits, counts)
    {
      DealtNext(order, along, targets, i, splits, counts);
      var chosen := Emptiest(counts, targets, 3);
      splits := splits[order[i] := SPLIT_ORDER[chosen]];
      counts := counts[chosen := counts[chosen] + along[i]];
    }
    AllDealt(order, along, targets, splits, counts);
  }

  // ---- Assigning and checking ----

  /** `splits`, looked up by a group's leader, is `target`. */
  ghost predicate SplitsByLeader(lead: map<string, string>, splits: map<string, string>, target: map<string, string>) {
    && target.Keys == lead.Keys
    && forall g :: g in lead ==> lead[g] in splits && splits[lead[g]] == target[g]
  }

  ghost function Assigned(ls: seq<VisualRecord>, target: map<string, string>): (ss: seq<VisualRecord>)
    requires forall j :: 0 <= j < |ls| ==> ls[j].splitGroup in target
    ensures |ss| == |ls|
  {
    seq(|ls|, j requires 0 <= j < |ls| => ls[j].(split := target[ls[j].splitGroup]))
  }

  method AssignSplits(ghost lead: map<string, string>, ghost target: map<string, string>,
                      records: array<VisualRecord>, forest: UF.Components, splits: map<string, string>)
    returns (reassigned: nat)
    requires Follows(forest, lead) && SplitsByLeader(lead, splits, target)
    requires forall j :: 0 <= j < |records[..]| ==> records[..][j].splitGroup in target
    modifies records, forest
    ensures records[..] == Assigned(old(records[..]), target)
    ensures reassigned == MovedUpTo(old(records[..]), records[..], records.Length)
  {
    hide Follows;
    ghost var ls := records[..];
    ghost var ss := Assigned(ls, target);
    reassigned := 0;
    for i := 0 to records.Length
      invariant Follows(forest, lead)
      invariant forall j :: 0 <= j < records.Length ==> records[j] == if j < i then ss[j] else ls[j]
      invariant reassigned == MovedUpTo(ls, ss, i)
    {
      assert ls[i].splitGroup in target;
      var root := FindLeader(lead, records[i].splitGroup, forest);
      if records[i].split != splits[root] {
        reassigned := reassigned + 1;
        records[i] := records[i].(split := splits[root]);
      }
    }
    assert records[..] == ss;
  }

  ghost function Target(rs: seq<VisualRecord>): map<string, string> {
    map g | g in Groups(rs) :: AssignedSplit(rs, g)
  }

  lemma DealtSplitsMeetTarget(rs: seq<VisualRecord>, splits: map<string, string>)
    requires rs != [] && splits == ComponentSplits(Sizes(rs), |rs|)
    ensures SplitsByLeader(Leaders(rs), splits, Target(rs))
  {
    var lead := Leaders(rs);
    forall g | g in lead ensures lead[g] in splits && splits[lead[g]] == Target(rs)[g] {
      assert lead[g] in lead.Values;
    }
  }

  lemma AssignedIsBalanced(rs: seq<VisualRecord>, ls: seq<VisualRecord>, target: map<string, string>)
    requires LinkedUpTo(rs, ls, |rs|) && target == Target(rs)
    ensures forall j :: 0 <= j < |ls| ==> ls[j].splitGroup in target
    ensures Assigned(ls, target) == Balanced(rs)
  {
    hide AssignedSplit, FirstLike, Groups;
    forall j | 0 <= j < |ls|
      ensures ls[j].splitGroup in target && ls[j].(split := target[ls[j].splitGroup]) == BalancedRecord(rs, j)
    {
      AssignedRecord(rs, ls, j);
    }
  }

  lemma AssignedRecord(rs: seq<VisualRecord>, ls: seq<VisualRecord>, j: nat)
    requires j < |rs| && LinkedUpTo(rs, ls, |rs|)
    ensures ls[j].splitGroup in Target(rs)
    ensures ls[j].(split := Target(rs)[ls[j].splitGroup]) == BalancedRecord(rs, j)
  {
    assert ls[j] == Linked(rs, j);
  }

  lemma {:induction false} SameMoves(rs: seq<VisualRecord>, ls: seq<VisualRecord>, ss: seq<VisualRecord>, k: nat)
    requires |rs| == |ls| == |ss| && k <= |rs| && forall j :: 0 <= j < |rs| ==> rs[j].split == ls[j].split
    ensures MovedUpTo(rs, ss, k) == MovedUpTo(ls, ss, k)
  {
    if k > 0 { SameMoves(rs, ls, ss, k - 1); }
  }

  /** The convergence check; `digest_records[...]` never misses because every reference was copied from a record. */
  method Converged(rs: seq<VisualRecord>) returns (ok: bool)
    requires forall i :: 0 <= i < |rs| && rs[i].nearDuplicateOf.Some? ==>
      exists t :: 0 <= t < |rs| && rs[t].sha256 == rs[i].nearDuplicateOf.value
    ensures ok <==> NothingCrosses(rs)
  {
    hide LastPlaces, CrossesByDigest;
    var holders := LastPlaces(rs, (r: VisualRecord) => r.sha256);
    ok := true;
    for i := 0 to |rs|
      invariant ok <==> forall k :: 0 <= k < i ==> !CrossesByDigest(rs, k)
    {
      if rs[i].nearDuplicateOf.Some? && rs[i].nearDuplicateOf.value != "" {
        var t := holders[rs[i].nearDuplicateOf.value];
        LastHolderDecides(rs, i, t);
        if rs[i].split != rs[t].split {
          ok := false;
        }
      } else {
        NoReferenceNoCrossing(rs, i);
      }
    }
  }

  lemma NoReferenceNoCrossing(rs: seq<VisualRecord>, i: nat)
    requires i < |rs| && (rs[i].nearDuplicateOf.None? || rs[i].nearDuplicateOf.value == "")
    ensures !CrossesByDigest(rs, i)
  {
  }

  lemma LastHolderDecides(rs: seq<VisualRecord>, i: nat, t: nat)
    requires i < |rs| && t < |rs| && rs[i].nearDuplicateOf == Some(rs[t].sha256) && rs[t].sha256 != ""
    requires forall u :: t < u < |rs| ==> rs[u].sha256 != rs[t].sha256
    ensures CrossesByDigest(rs, i) <==> rs[i].split != rs[t].split
  {
  }

  method ReconcileFasddVisualSplits(records: array<VisualRecord>) returns (r: Result<Report>)
    modifies records
    ensures !Fingerprinted(old(records[..])) ==>
      r == Failure(MISSING) && exists bad :: AbortedAt(old(records[..]), records[..], bad)
    ensures Fingerprinted(old(records[..])) ==> records[..] == Balanced(old(records[..]))
    ensures Fingerprinted(old(records[..])) ==>
      r == (if NothingCrosses(records[..]) then Success(ReportOf(old(records[..]))) else Failure(DIVERGED))
  {
    ghost var rs := records[..];
    var ok, forest, repeats := LinkVisualDuplicates(records);
    if !ok {
      return Failure(MISSING);
    }
    r := BalanceLinked(rs, records, forest, repeats);
  }

  method BalanceLinked(ghost rs: seq<VisualRecord>, records: array<VisualRecord>, forest: UF.Components, repeats: nat)
    returns (r: Result<Report>)
    requires LinkedUpTo(rs, records[..], |rs|) && Joined(rs, |rs|, forest) && repeats == RepeatsUpTo(rs, |rs|)
    modifies records, forest
    ensures records[..] == Balanced(rs)
    ensures r == if NothingCrosses(records[..]) then Success(ReportOf(rs)) else Failure(DIVERGED)
  {
    hide ComponentSplits, PlacementOf, Sizes, Balanced;
    JoinedFollowsLeaders(rs, forest);
    var sizes, splits, counts := MeasureAndDeal(rs, records, forest);
    var reassigned := AssignBalanced(rs, records, forest, splits);
    ReferencesResolve(rs);
    var converged := Converged(records[..]);
    if !converged {
      return Failure(DIVERGED);
    }
    return Success(Report(repeats, |sizes|, reassigned, counts));
  }

  method AssignBalanced(ghost rs: seq<VisualRecord>, records: array<VisualRecord>, forest: UF.Components,
                        splits: map<string, string>)
    returns (reassigned: nat)
    requires LinkedUpTo(rs, records[..], |rs|) && Follows(forest, Leaders(rs))
    requires |rs| > 0 ==> splits == ComponentSplits(Sizes(rs), |rs|)
    modifies records, forest
    ensures records[..] == Balanced(rs)
    ensures reassigned == MovedUpTo(rs, Balanced(rs), |rs|)
  {
    hide ComponentSplits, Sizes, AssignedSplit, Leaders, FirstLike, Balanced, Target, Assigned;
    if records.Length == 0 {
      return 0;
    }
    ghost var ls, lead, target := records[..], Leaders(rs), Target(rs);
    AssignedIsBalanced(rs, ls, target);
    DealtSplitsMeetTarget(rs, splits);
    reassigned := AssignSplits(lead, target, records, forest, splits);
    assert forall j :: 0 <= j < |rs| ==> ls[j] == Linked(rs, j);
    SameMoves(rs, ls, records[..], |rs|);
  }

  ghost predicate NothingCrosses(rs: seq<VisualRecord>) {
    forall i :: 0 <= i < |rs| ==> !CrossesByDigest(rs, i)
  }

  ghost function ReportOf(rs: seq<VisualRecord>): Report {
    Report(RepeatsUpTo(rs, |rs|), |Sizes(rs)|, MovedUpTo(rs, Balanced(rs), |rs|),
           if rs == [] then [0, 0, 0] else PlacementOf(Sizes(rs), |rs|).counts)
  }

  lemma ReferencesResolve(rs: seq<VisualRecord>)
    ensures var ss := Balanced(rs);
      forall i :: 0 <= i < |ss| && ss[i].nearDuplicateOf.Some? ==>
        exists t :: 0 <= t < |ss| && ss[t].sha256 == ss[i].nearDuplicateOf.value
  {
    var ss := Balanced(rs);
    forall i | 0 <= i < |ss| && ss[i].nearDuplicateOf.Some?
      ensures exists t :: 0 <= t < |ss| && ss[t].sha256 == ss[i].nearDuplicateOf.value
    {
      assert ss[i] == BalancedRecord(rs, i);
      assert ss[FirstLike(rs, i)] == BalancedRecord(rs, FirstLike(rs, i));
    }
  }

  method MeasureAndDeal(ghost rs: seq<VisualRecord>, records: array<VisualRecord>, forest: UF.Components)
    returns (sizes: map<string, nat>, splits: map<string, string>, counts: seq<nat>)
    requires LinkedUpTo(rs, records[..], |rs|) && Follows(forest, Leaders(rs))
    modifies forest
    ensures Follows(forest, Leaders(rs)) && sizes == Sizes(rs)
    ensures |rs| > 0 ==> splits == ComponentSplits(sizes, |rs|) && counts == PlacementOf(sizes, |rs|).counts
    ensures |rs| == 0 ==> counts == [0, 0, 0]
  {
    hide ComponentSplits, PlacementOf, Sizes, Leaders;
    ghost var ls, lead := records[..], Leaders(rs);
    OnlyKeysAndGroupsCount(rs, ls);
    sizes := MeasureComponents(records[..], lead, forest);
    MeasuredSizes(rs, ls, lead, sizes);
    if records.Length == 0 { NoRowsNoComponents(rs); }
    splits, counts := DealComponents(sizes, records.Length);
  }

  lemma MeasuredSizes(rs: seq<VisualRecord>, ls: seq<VisualRecord>, lead: map<string, string>, sizes: map<string, nat>)
    requires LinkedUpTo(rs, ls, |rs|) && lead == Leaders(rs) && forall j :: 0 <= j < |ls| ==> ls[j].splitGroup in lead
    requires SizedUpTo(ls, lead, |ls|, sizes)
    ensures sizes == Sizes(rs)
  {
    hide LinkedUpTo, Leaders;
    OnlyKeysAndGroupsCount(rs, ls);
    SizedIsSizes(ls, lead, sizes);
  }

  lemma OnlyKeysAndGroupsCount(rs: seq<VisualRecord>, ss: seq<VisualRecord>)
    requires LinkedUpTo(rs, ss, |rs|)
    ensures |rs| == |ss| && Leaders(rs) == Leaders(ss) && Leaders(rs).Keys == Groups(ss) && Sizes(rs) == Sizes(ss)
    ensures forall j :: 0 <= j < |ss| ==> ss[j].splitGroup in Leaders(rs)
  {
    assert forall j :: 0 <= j < |rs| ==> ss[j] == Linked(rs, j);
    SameKeysSameProblem(rs, ss);
    SameProblemSameLeaders(rs, ss);
    SameRowsSameSizes(rs, ss);
  }

  lemma NoRowsNoComponents(rs: seq<VisualRecord>)
    requires rs == []
    ensures Sizes(rs) == map[]
  {
    assert Leaders(rs) == map[];
  }
}
