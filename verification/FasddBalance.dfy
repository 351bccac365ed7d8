/** How close the dealt splits come to their targets, in rows. */
module FasddBalance {
  import opened Connectivity
  import opened Counting
  import opened Labels
  import opened Sorting
  import opened SplitBalance
  import opened FasddSplits

  // ---- Counting dealt rows ----

  ghost function RowsOf(owner: seq<string>, c: string): set<nat> {
    set i: nat | i < |owner| && owner[i] == c
  }

  ghost predicate DealtTo(owner: seq<string>, order: seq<string>, choices: seq<nat>, k: nat, i: nat)
    requires |order| == |choices| && i < |owner|
  {
    exists j :: 0 <= j < |order| && order[j] == owner[i] && choices[j] == k
  }

  ghost function Dealt(owner: seq<string>, order: seq<string>, choices: seq<nat>, k: nat): set<nat>
    requires |order| == |choices|
  {
    set i: nat | i < |owner| && DealtTo(owner, order, choices, k, i)
  }

  lemma DealtGrows(owner: seq<string>, order: seq<string>, choices: seq<nat>, k: nat)
    requires |order| == |choices| && order != [] && Distinct(order)
    ensures var n := |order| - 1;
      var before := Dealt(owner, order[..n], choices[..n], k);
      && Dealt(owner, order, choices, k) == before + (if choices[n] == k then RowsOf(owner, order[n]) else {})
      && before !! RowsOf(owner, order[n])
  {
    var n := |order| - 1;
    forall i: nat | i < |owner|
      ensures DealtTo(owner, order, choices, k, i) <==>
        DealtTo(owner, order[..n], choices[..n], k, i) || (choices[n] == k && owner[i] == order[n])
    {
      if DealtTo(owner, order[..n], choices[..n], k, i) {
        var j :| 0 <= j < n && order[..n][j] == owner[i] && choices[..n][j] == k;
        assert order[j] == owner[i] && choices[j] == k;
      }
      if DealtTo(owner, order, choices, k, i) {
        var j :| 0 <= j < |order| && order[j] == owner[i] && choices[j] == k;
        if j < n { assert order[..n][j] == owner[i] && choices[..n][j] == k; }
      }
    }
    forall i | i in Dealt(owner, order[..n], choices[..n], k) ensures owner[i] != order[n] {
      var j :| 0 <= j < n && order[..n][j] == owner[i] && choices[..n][j] == k;
      assert order[j] != order[n];
    }
  }

  lemma {:induction false} DealtCount(owner: seq<string>, order: seq<string>, choices: seq<nat>, sizes: seq<nat>,
                                      k: nat)
    requires |order| == |choices| == |sizes| && Distinct(order)
    requires forall j :: 0 <= j < |order| ==> sizes[j] == |RowsOf(owner, order[j])|
    ensures |Dealt(owner, order, choices, k)| == SumChosen(sizes, choices, k)
  {
    if order != [] {
      var n := |order| - 1;
      DealtGrows(owner, order, choices, k);
      DealtCount(owner, order[..n], choices[..n], sizes[..n], k);
    }
  }

  lemma {:induction false} AllRowsDealt(owner: seq<string>, order: seq<string>, sizes: seq<nat>)
    requires |order| == |sizes| && Distinct(order)
    requires forall j :: 0 <= j < |order| ==> sizes[j] == |RowsOf(owner, order[j])|
    requires forall i :: 0 <= i < |owner| ==> owner[i] in order
    ensures Sum(sizes) == |owner|
  {
    var zeros := seq(|order|, _ => 0);
    DealtCount(owner, order, zeros, sizes, 0);
    SumOfAll(sizes, zeros);
    var all := Dealt(owner, order, zeros, 0);
    forall i: nat | i < |owner| ensures i in all {
      var j :| 0 <= j < |order| && order[j] == owner[i];
      assert DealtTo(owner, order, zeros, 0, i);
    }
    assert all == Below(|owner|);
  }

  lemma {:induction false} SumOfAll(sizes: seq<nat>, zeros: seq<nat>)
    requires |zeros| == |sizes| && forall i :: 0 <= i < |zeros| ==> zeros[i] == 0
    ensures SumChosen(sizes, zeros, 0) == Sum(sizes)
  {
    if sizes != [] { SumOfAll(sizes[..|sizes| - 1], zeros[..|zeros| - 1]); }
  }

  ghost function Below(n: nat): (s: set<nat>)
    ensures forall i: nat :: i in s <==> i < n
    ensures |s| == n
  {
    if n == 0 then {} else Below(n - 1) + {n - 1}
  }

  /** Components listed largest first with their sizes, every row belonging to one of them. */
  ghost predicate IsDeal(owner: seq<string>, order: seq<string>, along: seq<nat>) {
    && |order| == |along| && Distinct(order) && Descending(along)
    && (forall j :: 0 <= j < |order| ==> along[j] == |RowsOf(owner, order[j])| && along[j] > 0)
    && (forall i :: 0 <= i < |owner| ==> owner[i] in order)
  }

  /** What dealing guarantees split `k`, in rows. */
  ghost predicate NearTarget(rows: nat, along: seq<nat>, choices: seq<nat>, k: nat, target: real)
    requires |along| == |choices|
  {
    var last := LastIn(along, choices, k);
    && (last == 0 ==> rows == 0)
    && (last > 0 ==> last <= rows && (rows - last) as real < target)
    && (forall i :: 0 <= i < |along| && choices[i] == k ==> last <= along[i])
    && along != [] && target - rows as real < 2.0 * along[0] as real
  }

  lemma DealtRowsNearTarget(owner: seq<string>, order: seq<string>, along: seq<nat>, targets: seq<real>, k: nat)
    requires IsDeal(owner, order, along) && owner != []
    requires |targets| == 3 && Positive(targets) && Total(targets) == |owner| as real && k < 3
    ensures var p := Place(along, targets);
      NearTarget(|Dealt(owner, order, p.choices, k)|, along, p.choices, k, targets[k])
  {
    var p := Place(along, targets);
    DealtCount(owner, order, p.choices, along, k);
    CountsAreSums(along, targets, k);
    AllRowsDealt(owner, order, along);
    assert along != [] by { assert owner[0] in order; }
    OvershootIsBounded(along, targets, k);
    LastIsSmallest(along, p.choices, k);
    UndershootIsBounded(along, targets, k);
  }

  // ---- The order components are dealt in ----

  lemma LargestFirstIsTotal(sizes: map<string, nat>)
    ensures TotalPreorder(LargestFirst(sizes)) && Antisymmetric(LargestFirst(sizes))
  {
    var le := LargestFirst(sizes);
    forall a, b ensures le(a, b) || le(b, a) { LeTotalOrder(a, b, b); }
    forall a, b, c | le(a, b) && le(b, c) ensures le(a, c) { LeTotalOrder(a, b, c); }
    forall a, b | le(a, b) && le(b, a) ensures a == b { LeTotalOrder(a, b, b); }
  }

  lemma OrderedIsDescending(sizes: map<string, nat>)
    ensures Descending(SizesAlong(sizes, Ordered(sizes)))
  {
    LargestFirstIsTotal(sizes);
    var le, order := LargestFirst(sizes), Ordered(sizes);
    SortSorts(SortedLabels(sizes.Keys), le);
    forall i, j | 0 <= i < j < |order| ensures SizeIn(sizes, order[i]) >= SizeIn(sizes, order[j]) {
      assert le(order[i], order[j]);
    }
  }

  lemma OrderedIsDistinct(sizes: map<string, nat>)
    ensures Distinct(Ordered(sizes))
  {
    var labels := SortedLabels(sizes.Keys);
    forall i, j | 0 <= i < j < |labels| ensures labels[i] != labels[j] {
      LessIrreflexive(labels[i]);
    }
    SortPermutes(labels, LargestFirst(sizes));
    DistinctPermutes(labels, Ordered(sizes));
  }

  lemma {:induction false} SplitAlongAt(order: seq<string>, choices: seq<nat>, j: nat)
    requires |order| == |choices| && (forall i :: 0 <= i < |choices| ==> choices[i] < 3)
    requires Distinct(order) && j < |order|
    ensures SplitsAlong(order, choices)[order[j]] == SPLIT_ORDER[choices[j]]
  {
    var n := |order| - 1;
    if j < n {
      SplitAlongAt(order[..n], choices[..n], j);
      assert order[j] != order[n] && order[..n][j] == order[j] && choices[..n][j] == choices[j];
    }
  }

  // ---- The bound ----

  /** The rows a balanced list puts in a split. */
  ghost function RowsIn(rs: seq<VisualRecord>, split: string): set<nat> {
    set i: nat | i < |rs| && Balanced(rs)[i].split == split
  }

  /** Each row's component, by its leader. */
  ghost function Owners(rs: seq<VisualRecord>): (owner: seq<string>)
    ensures |owner| == |rs|
  {
    seq(|rs|, i requires 0 <= i < |rs| => Leader(rs, rs[i].splitGroup))
  }

  lemma SizesAreRowCounts(rs: seq<VisualRecord>)
    ensures var sizes := Sizes(rs);
      && (forall c :: c in sizes ==> sizes[c] == |RowsOf(Owners(rs), c)| && sizes[c] > 0)
      && (forall i :: 0 <= i < |rs| ==> Owners(rs)[i] in sizes)
  {
    var lead, sizes, owner := Leaders(rs), Sizes(rs), Owners(rs);
    forall i | 0 <= i < |rs| ensures owner[i] in sizes {
      assert rs[i].splitGroup in Groups(rs);
      assert lead[rs[i].splitGroup] == owner[i];
      assert owner[i] in lead.Values;
    }
    forall c | c in sizes ensures sizes[c] == |RowsOf(owner, c)| && sizes[c] > 0 {
      assert Led(rs, lead, c) == RowsOf(owner, c);
      var g :| g in lead && lead[g] == c;
      var i: nat :| i < |rs| && rs[i].splitGroup == g;
      assert i in RowsOf(owner, c);
    }
  }

  lemma SizesMakeADeal(rs: seq<VisualRecord>)
    ensures IsDeal(Owners(rs), Ordered(Sizes(rs)), SizesAlong(Sizes(rs), Ordered(Sizes(rs))))
  {
    SizesAreRowCounts(rs);
    OrderingMakesADeal(Owners(rs), Sizes(rs));
  }

  lemma OrderingMakesADeal(owner: seq<string>, sizes: map<string, nat>)
    requires forall c :: c in sizes ==> sizes[c] == |RowsOf(owner, c)| && sizes[c] > 0
    requires forall i :: 0 <= i < |owner| ==> owner[i] in sizes
    ensures IsDeal(owner, Ordered(sizes), SizesAlong(sizes, Ordered(sizes)))
  {
    OrderedIsDistinct(sizes);
    OrderedIsDescending(sizes);
    hide Ordered, RowsOf, Distinct, Descending;
    var order := Ordered(sizes);
    forall j | 0 <= j < |order| ensures order[j] in sizes { assert order[j] in order; }
  }

  lemma SplitOfRow(rs: seq<VisualRecord>, i: nat, j: nat)
    requires i < |rs| && j < |Ordered(Sizes(rs))| && Ordered(Sizes(rs))[j] == Owners(rs)[i]
    ensures Balanced(rs)[i].split == SPLIT_ORDER[PlacementOf(Sizes(rs), |rs|).choices[j]]
  {
    OrderedIsDistinct(Sizes(rs));
    SplitAlongAt(Ordered(Sizes(rs)), PlacementOf(Sizes(rs), |rs|).choices, j);
    assert Balanced(rs)[i] == BalancedRecord(rs, i);
  }

  lemma SplitNamesDiffer(a: nat, b: nat)
    requires a < 3 && b < 3 && SPLIT_ORDER[a] == SPLIT_ORDER[b]
    ensures a == b
  {
    assert |SPLIT_ORDER[0]| == 5 && |SPLIT_ORDER[1]| == 10 && |SPLIT_ORDER[2]| == 4;
  }

  lemma RowsInAreDealt(rs: seq<VisualRecord>, order: seq<string>, choices: seq<nat>, k: nat)
    requires rs != [] && k < 3
    requires order == Ordered(Sizes(rs)) && choices == PlacementOf(Sizes(rs), |rs|).choices
    ensures RowsIn(rs, SPLIT_ORDER[k]) == Dealt(Owners(rs), order, choices, k)
  {
    SizesMakeADeal(rs);
    hide Balanced, Sizes, Ordered, PlacementOf, Leader;
    var owner := Owners(rs);
    forall i: nat | i < |rs|
      ensures Balanced(rs)[i].split == SPLIT_ORDER[k] <==> DealtTo(owner, order, choices, k, i)
    {
      assert owner[i] in order;
      if DealtTo(owner, order, choices, k, i) {
        var j :| 0 <= j < |order| && order[j] == owner[i] && choices[j] == k;
        SplitOfRow(rs, i, j);
      }
      if Balanced(rs)[i].split == SPLIT_ORDER[k] {
        var j :| 0 <= j < |order| && order[j] == owner[i];
        SplitOfRow(rs, i, j);
        SplitNamesDiffer(choices[j], k);
      }
    }
  }

  /** Each split of a balanced list holds nothing, or is strictly below target without its
      smallest component; and it falls short by less than twice the largest component. */
  lemma SplitsStayNearTarget(rs: seq<VisualRecord>, order: seq<string>, along: seq<nat>, k: nat)
    requires rs != [] && k < 3
    requires order == Ordered(Sizes(rs)) && along == SizesAlong(Sizes(rs), order)
    ensures NearTarget(|RowsIn(rs, SPLIT_ORDER[k])|, along, PlacementOf(Sizes(rs), |rs|).choices, k, Targets(|rs|)[k])
  {
    SizesMakeADeal(rs);
    TargetsArePositive(|rs|);
    DealtRowsNearTarget(Owners(rs), order, along, Targets(|rs|), k);
    RowsInAreDealt(rs, order, PlacementOf(Sizes(rs), |rs|).choices, k);
  }

  lemma DealtRowsAddUp(owner: seq<string>, order: seq<string>, along: seq<nat>, targets: seq<real>)
    requires IsDeal(owner, order, along) && |targets| == 3 && Positive(targets)
    ensures var choices := Place(along, targets).choices;
      |Dealt(owner, order, choices, 0)| + |Dealt(owner, order, choices, 1)| + |Dealt(owner, order, choices, 2)|
        == |owner|
  {
    var p := Place(along, targets);
    forall k: nat | k < 3 ensures |Dealt(owner, order, p.choices, k)| == p.counts[k] {
      DealtCount(owner, order, p.choices, along, k);
      CountsAreSums(along, targets, k);
    }
    RowsAreConserved(along, targets);
    SumOfThree(p.counts);
    AllRowsDealt(owner, order, along);
  }

  /** No row is lost between the splits, and none is counted twice. */
  lemma SplitsPartitionRows(rs: seq<VisualRecord>)
    requires rs != []
    ensures |RowsIn(rs, SPLIT_ORDER[0])| + |RowsIn(rs, SPLIT_ORDER[1])| + |RowsIn(rs, SPLIT_ORDER[2])| == |rs|
  {
    var order, choices := Ordered(Sizes(rs)), PlacementOf(Sizes(rs), |rs|).choices;
    SizesMakeADeal(rs);
    TargetsArePositive(|rs|);
    DealtRowsAddUp(Owners(rs), order, SizesAlong(Sizes(rs), order), Targets(|rs|));
    RowsInAreDealt(rs, order, choices, 0);
    RowsInAreDealt(rs, order, choices, 1);
    RowsInAreDealt(rs, order, choices, 2);
  }

  // ---- When the final check fails ----

  lemma TwoPlaced(a: nat, b: nat, targets: seq<real>)
    requires Positive(targets) && |targets| >= 2 && a > 0
    ensures var choices := Place([a, b], targets).choices; choices[0] != choices[1]
  {
    assert [a, b][..1] == [a] && [a][..0] == [];
    var none, p := Place([], targets), Place([a], targets);
    var first := Emptiest(none.counts, targets, |targets|);
    assert p == Placement([] + [first], none.counts[first := a]);
    var other := if first == 0 then 1 else 0;
    assert Fill(p.counts, targets, other) == 0.0;
    assert Fill(p.counts, targets, first) > 0.0;
  }

  lemma TwoInOrder(sizes: map<string, nat>, rows: nat)
    requires rows > 0 && |sizes| == 2 && forall c :: c in sizes ==> sizes[c] > 0
    ensures |Ordered(sizes)| == 2
    ensures var choices := PlacementOf(sizes, rows).choices; |choices| == 2 && choices[0] != choices[1]
  {
    hide Place, Ordered;
    var order := Ordered(sizes);
    OrderedLength(sizes);
    assert order[0] in order;
    assert SizesAlong(sizes, order) == [SizeIn(sizes, order[0]), SizeIn(sizes, order[1])];
    TwoPlaced(SizeIn(sizes, order[0]), SizeIn(sizes, order[1]), Targets(rows));
  }

  lemma OrderedLength(sizes: map<string, nat>)
    ensures |Ordered(sizes)| == |sizes|
  {
    SortPermutes(SortedLabels(sizes.Keys), LargestFirst(sizes));
    assert |sizes.Keys| == |sizes|;
  }

  /** If there are just two components, they end in different splits. */
  lemma TwoComponentsGoApart(rs: seq<VisualRecord>, i: nat, j: nat)
    requires i < |rs| && j < |rs| && Owners(rs)[i] != Owners(rs)[j] && |Sizes(rs)| == 2
    ensures Balanced(rs)[i].split != Balanced(rs)[j].split
  {
    hide Balanced, Sizes, Ordered, PlacementOf, Leader;
    SizesAreRowCounts(rs);
    var sizes, order := Sizes(rs), Ordered(Sizes(rs));
    var owner, choices := Owners(rs), PlacementOf(Sizes(rs), |rs|).choices;
    TwoInOrder(sizes, |rs|);
    assert owner[i] in order && owner[j] in order;
    var k: nat :| k < 2 && order[k] == owner[i];
    var l: nat :| l < 2 && order[l] == owner[j];
    SplitOfRow(rs, i, k);
    SplitOfRow(rs, j, l);
    if SPLIT_ORDER[choices[k]] == SPLIT_ORDER[choices[l]] { SplitNamesDiffer(choices[k], choices[l]); }
  }

  /** Two records that look alike and are one group, and a third of another look and group. */
  ghost predicate SharesDigest(rs: seq<VisualRecord>) {
    && |rs| == 3 && LookAlike(rs[0], rs[1]) && !LookAlike(rs[0], rs[2])
    && rs[0].splitGroup == rs[1].splitGroup != rs[2].splitGroup
    && rs[0].sha256 == rs[2].sha256 != "" && rs[1].sha256 != rs[2].sha256
  }

  lemma TwoGroups(rs: seq<VisualRecord>)
    requires SharesDigest(rs)
    ensures var g, h := rs[1].splitGroup, rs[2].splitGroup;
      && Groups(rs) == {g, h} && forall l :: l in AllLinks(rs) ==> l == (g, g)
  {
    assert rs[1].splitGroup in Groups(rs) && rs[2].splitGroup in Groups(rs);
  }

  lemma LedByItself(rs: seq<VisualRecord>, g: string)
    requires SharesDigest(rs) && g in Groups(rs)
    ensures Leader(rs, g) == g
  {
    TwoGroups(rs);
    hide Groups, AllLinks, Connected;
    InOwnComponent(rs, g);
    forall h | h in Component(Groups(rs), AllLinks(rs), g) ensures h == g {
      ConstantOnComponents(AllLinks(rs), (name: string) => name == rs[1].splitGroup, g, h);
    }
  }

  lemma TwoLeaders(rs: seq<VisualRecord>)
    requires SharesDigest(rs)
    ensures Owners(rs)[1] == rs[1].splitGroup && Owners(rs)[2] == rs[2].splitGroup && |Sizes(rs)| == 2
  {
    LeadersOfTwo(rs);
    var g, h := rs[1].splitGroup, rs[2].splitGroup;
    assert Leader(rs, g) == Leaders(rs)[g] && Leader(rs, h) == Leaders(rs)[h];
    ValuesOfTwo(g, h);
    SizesHaveLeaders(rs);
    assert |Sizes(rs)| == |Sizes(rs).Keys|;
  }

  lemma LeadersOfTwo(rs: seq<VisualRecord>)
    requires SharesDigest(rs)
    ensures var g, h := rs[1].splitGroup, rs[2].splitGroup;
      g in Groups(rs) && h in Groups(rs) && Leaders(rs) == map[g := g, h := h]
  {
    var g, h := rs[1].splitGroup, rs[2].splitGroup;
    TwoGroups(rs);
    LedByItself(rs, g);
    LedByItself(rs, h);
    hide Leader, Groups;
  }

  lemma ValuesOfTwo(g: string, h: string)
    ensures map[g := g, h := h].Values == {g, h}
  {
    var m := map[g := g, h := h];
    assert m[g] in m.Values && m[h] in m.Values;
  }

  lemma SizesHaveLeaders(rs: seq<VisualRecord>)
    ensures Sizes(rs).Keys == Leaders(rs).Values
  {
    hide Led, Leader, Leaders;
  }

  /** If the third record has the digest of the first, the second refers across splits, and
      the final check fails. */
  lemma SharedDigestFailsTheCheck(rs: seq<VisualRecord>)
    requires SharesDigest(rs)
    ensures CrossesByDigest(Balanced(rs), 1)
  {
    TwoLeaders(rs);
    TwoComponentsGoApart(rs, 1, 2);
    var ss := Balanced(rs);
    assert ss[1] == BalancedRecord(rs, 1) && ss[2] == BalancedRecord(rs, 2);
    assert FirstLike(rs, 1) == 0;
    assert ss[2].sha256 == ss[1].nearDuplicateOf.value;
  }
}
