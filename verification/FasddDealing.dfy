/** The dealing of components to splits, stated over the rows of the result. */
module FasddDealing {
  import opened Connectivity
  import opened Labels
  import opened Sorting
  import opened SplitBalance
  import opened FasddSplits
  import opened FasddBalance

  /** The rows whose groups a chain of look-alikes connects with the group of row `i`. */
  ghost function ComponentOf(rs: seq<VisualRecord>, i: nat): set<nat>
    requires i < |rs|
  {
    set j: nat | j < |rs| && Connected(LookLinks(rs), rs[i].splitGroup, rs[j].splitGroup)
  }

  /** Some label of row `j`'s component comes before every label of row `i`'s. */
  ghost predicate LesserLabel(rs: seq<VisualRecord>, j: nat, i: nat)
    requires j < |rs| && i < |rs|
  {
    exists m :: m in ComponentOf(rs, j) &&
      forall n :: n in ComponentOf(rs, i) ==> Less(rs[m].splitGroup, rs[n].splitGroup)
  }

  /** Larger components come first, those of one size by their least labels. */
  ghost predicate DealtBefore(rs: seq<VisualRecord>, j: nat, i: nat)
    requires j < |rs| && i < |rs|
  {
    || |ComponentOf(rs, j)| > |ComponentOf(rs, i)|
    || (|ComponentOf(rs, j)| == |ComponentOf(rs, i)| && LesserLabel(rs, j, i))
  }

  /** The rows of `split` that were dealt before row `i`. */
  ghost function Earlier(rs: seq<VisualRecord>, i: nat, split: string): set<nat>
    requires i < |rs|
  {
    set j: nat | j < |rs| && DealtBefore(rs, j, i) && Balanced(rs)[j].split == split
  }

  lemma SameOwnerConnected(rs: seq<VisualRecord>, i: nat, j: nat)
    requires i < |rs| && j < |rs|
    ensures Owners(rs)[i] == Owners(rs)[j] <==> Connected(LookLinks(rs), rs[i].splitGroup, rs[j].splitGroup)
  {
    var g, h, links := rs[i].splitGroup, rs[j].splitGroup, AllLinks(rs);
    LooksConnect(rs, g, h);
    InOwnComponent(rs, g);
    InOwnComponent(rs, h);
    hide Connected, LookLinks, AllLinks;
    var l := Leader(rs, g);
    if l == Leader(rs, h) {
      ConnectedSymmetric(links, h, l);
      ConnectedTransitive(links, g, l, h);
    }
    if Connected(links, g, h) { ComponentsCoincide(Groups(rs), links, g, h); }
  }

  lemma ComponentRows(rs: seq<VisualRecord>, i: nat)
    requires i < |rs|
    ensures ComponentOf(rs, i) == RowsOf(Owners(rs), Owners(rs)[i])
  {
    hide Connected, Leader, LookLinks;
    forall j: nat | j < |rs| ensures j in ComponentOf(rs, i) <==> j in RowsOf(Owners(rs), Owners(rs)[i]) {
      SameOwnerConnected(rs, i, j);
    }
  }

  /** The leader is the least label of the component's rows. */
  lemma LeaderRow(rs: seq<VisualRecord>, i: nat) returns (m: nat)
    requires i < |rs|
    ensures m in ComponentOf(rs, i) && rs[m].splitGroup == Owners(rs)[i]
    ensures forall n :: n in ComponentOf(rs, i) ==> Le(Owners(rs)[i], rs[n].splitGroup)
  {
    var g := rs[i].splitGroup;
    InOwnComponent(rs, g);
    var l := Leader(rs, g);
    assert l in Groups(rs);
    m :| 0 <= m < |rs| && rs[m].splitGroup == l;
    LooksConnect(rs, g, l);
    forall n | n in ComponentOf(rs, i) ensures Le(l, rs[n].splitGroup) {
      LooksConnect(rs, g, rs[n].splitGroup);
      assert rs[n].splitGroup in Component(Groups(rs), AllLinks(rs), g);
    }
  }

  lemma LesserLabelMeansLesserLeader(rs: seq<VisualRecord>, j: nat, i: nat)
    requires j < |rs| && i < |rs|
    ensures LesserLabel(rs, j, i) <==> Less(Owners(rs)[j], Owners(rs)[i])
  {
    var a, b := Owners(rs)[j], Owners(rs)[i];
    var first := LeaderRow(rs, j);
    var own := LeaderRow(rs, i);
    hide ComponentOf, Owners, Less;
    if LesserLabel(rs, j, i) {
      var m :| m in ComponentOf(rs, j) &&
        forall n :: n in ComponentOf(rs, i) ==> Less(rs[m].splitGroup, rs[n].splitGroup);
      LessAfterLe(a, rs[m].splitGroup, b);
    }
    if Less(a, b) {
      forall n | n in ComponentOf(rs, i) ensures Less(a, rs[n].splitGroup) { LeAfterLess(a, b, rs[n].splitGroup); }
    }
  }

  lemma LessAfterLe(a: string, b: string, c: string)
    requires Le(a, b) && Less(b, c)
    ensures Less(a, c)
  {
    if a != b { LessTransitive(a, b, c); }
  }

  lemma LeAfterLess(a: string, b: string, c: string)
    requires Less(a, b) && Le(b, c)
    ensures Less(a, c)
  {
    if b != c { LessTransitive(a, b, c); }
  }

  lemma StrictlyOrdered(sizes: map<string, nat>, j: nat, k: nat)
    requires j < |Ordered(sizes)| && k < |Ordered(sizes)|
    ensures var a, b := Ordered(sizes)[j], Ordered(sizes)[k];
      j < k <==> SizeIn(sizes, a) > SizeIn(sizes, b) || (SizeIn(sizes, a) == SizeIn(sizes, b) && Less(a, b))
  {
    var le, order := LargestFirst(sizes), Ordered(sizes);
    LargestFirstIsTotal(sizes);
    SortSorts(SortedLabels(sizes.Keys), le);
    OrderedIsDistinct(sizes);
    var a, b := order[j], order[k];
    LessIrreflexive(a);
    LeTotalOrder(a, b, a);
    if j < k { assert le(a, b) && a != b; }
    if k < j { assert le(b, a) && a != b; }
    if Less(a, b) && Less(b, a) { LessTransitive(a, b, a); }
  }

  lemma DealtBeforeMeansEarlier(rs: seq<VisualRecord>, order: seq<string>, j: nat, k: nat, x: nat, i: nat)
    requires order == Ordered(Sizes(rs)) && j < |order| && k < |order| && x < |rs| && i < |rs|
    requires order[j] == Owners(rs)[x] && order[k] == Owners(rs)[i]
    ensures DealtBefore(rs, x, i) <==> j < k
  {
    hide Ordered, Sizes, ComponentOf, LesserLabel, Less, Owners, RowsOf;
    SizesAreRowCounts(rs);
    ComponentRows(rs, x);
    ComponentRows(rs, i);
    LesserLabelMeansLesserLeader(rs, x, i);
    StrictlyOrdered(Sizes(rs), j, k);
  }

  /** Row `x` went to split `c` before component `k` was dealt. */
  lemma EarlierRowIsDealt(rs: seq<VisualRecord>, order: seq<string>, choices: seq<nat>, i: nat, k: nat, c: nat, x: nat)
    requires i < |rs| && x < |rs| && c < 3
    requires order == Ordered(Sizes(rs)) && choices == PlacementOf(Sizes(rs), |rs|).choices
    requires k < |order| && order[k] == Owners(rs)[i]
    ensures DealtBefore(rs, x, i) && Balanced(rs)[x].split == SPLIT_ORDER[c] <==>
      DealtTo(Owners(rs), order[..k], choices[..k], c, x)
  {
    SizesMakeADeal(rs);
    hide Balanced, Sizes, Ordered, PlacementOf, Leader, DealtBefore;
    var owner := Owners(rs);
    assert owner[x] in order;
    var j :| 0 <= j < |order| && order[j] == owner[x];
    SplitOfRow(rs, x, j);
    DealtBeforeMeansEarlier(rs, order, j, k, x, i);
    if DealtTo(owner, order[..k], choices[..k], c, x) {
      var m :| 0 <= m < k && order[..k][m] == owner[x] && choices[..k][m] == c;
      assert order[m] == order[j];
    }
    if j < k && SPLIT_ORDER[choices[j]] == SPLIT_ORDER[c] {
      SplitNamesDiffer(choices[j], c);
      assert order[..k][j] == owner[x] && choices[..k][j] == c;
    }
  }

  lemma EarlierRowsAreDealt(rs: seq<VisualRecord>, order: seq<string>, choices: seq<nat>, i: nat, k: nat, c: nat)
    requires i < |rs| && c < 3
    requires order == Ordered(Sizes(rs)) && choices == PlacementOf(Sizes(rs), |rs|).choices
    requires k < |order| && order[k] == Owners(rs)[i]
    ensures Earlier(rs, i, SPLIT_ORDER[c]) == Dealt(Owners(rs), order[..k], choices[..k], c)
  {
    hide Balanced, Sizes, Ordered, PlacementOf, Owners, DealtBefore, DealtTo;
    forall x: nat | x < |rs|
      ensures x in Earlier(rs, i, SPLIT_ORDER[c]) <==> x in Dealt(Owners(rs), order[..k], choices[..k], c)
    {
      EarlierRowIsDealt(rs, order, choices, i, k, c, x);
    }
  }

  lemma PrefixCounts(owner: seq<string>, order: seq<string>, along: seq<nat>, targets: seq<real>, k: nat, c: nat)
    requires IsDeal(owner, order, along) && Positive(targets) && k <= |along| && c < |targets|
    ensures var p := Place(along[..k], targets);
      |Dealt(owner, order[..k], p.choices, c)| == p.counts[c]
  {
    var p := Place(along[..k], targets);
    CountsAreSums(along[..k], targets, c);
    DealtCount(owner, order[..k], p.choices, along[..k], c);
  }

  /** The split counts before component `k` is dealt. */
  ghost function CountsBefore(rs: seq<VisualRecord>, k: nat): (counts: seq<nat>)
    requires rs != [] && k <= |Ordered(Sizes(rs))|
    ensures |counts| == 3
  {
    TargetsArePositive(|rs|);
    Place(SizesAlong(Sizes(rs), Ordered(Sizes(rs)))[..k], Targets(|rs|)).counts
  }

  lemma EarlierRowsAreCounted(rs: seq<VisualRecord>, i: nat, k: nat, c: nat)
    requires i < |rs| && k < |Ordered(Sizes(rs))| && Ordered(Sizes(rs))[k] == Owners(rs)[i] && c < 3
    ensures |Earlier(rs, i, SPLIT_ORDER[c])| == CountsBefore(rs, k)[c]
  {
    var order, along, targets := Ordered(Sizes(rs)), SizesAlong(Sizes(rs), Ordered(Sizes(rs))), Targets(|rs|);
    var choices := PlacementOf(Sizes(rs), |rs|).choices;
    SizesMakeADeal(rs);
    TargetsArePositive(|rs|);
    EachGoesToEmptiest(along, targets, k);
    PrefixCounts(Owners(rs), order, along, targets, k, c);
    EarlierRowsAreDealt(rs, order, choices, i, k, c);
  }

  lemma RowGoesToEmptiest(rs: seq<VisualRecord>, i: nat, k: nat)
    requires i < |rs| && k < |Ordered(Sizes(rs))| && Ordered(Sizes(rs))[k] == Owners(rs)[i]
    ensures Positive(Targets(|rs|))
    ensures Balanced(rs)[i].split == SPLIT_ORDER[Emptiest(CountsBefore(rs, k), Targets(|rs|), 3)]
  {
    TargetsArePositive(|rs|);
    SplitOfRow(rs, i, k);
    EachGoesToEmptiest(SizesAlong(Sizes(rs), Ordered(Sizes(rs))), Targets(|rs|), k);
  }

  lemma PlaceInOrder(rs: seq<VisualRecord>, i: nat) returns (k: nat)
    requires i < |rs|
    ensures k < |Ordered(Sizes(rs))| && Ordered(Sizes(rs))[k] == Owners(rs)[i]
  {
    SizesMakeADeal(rs);
    hide Sizes, Ordered, Owners;
    assert Owners(rs)[i] in Ordered(Sizes(rs));
    k :| 0 <= k < |Ordered(Sizes(rs))| && Ordered(Sizes(rs))[k] == Owners(rs)[i];
  }

  /** Every row is in the first split that holds the least of its target (70, 15 and 15 percent of
      the rows) once the components before the row's own are dealt. */
  lemma ComponentsGoToEmptiestSplit(rs: seq<VisualRecord>, i: nat)
    requires i < |rs|
    ensures var n := |rs| as real;
      var train := |Earlier(rs, i, "train")| as real / (n * 0.70);
      var validation := |Earlier(rs, i, "validation")| as real / (n * 0.15);
      var test := |Earlier(rs, i, "test")| as real / (n * 0.15);
      Balanced(rs)[i].split ==
        if train <= validation && train <= test then "train" else if validation <= test then "validation" else "test"
  {
    hide Balanced, Sizes, Ordered, PlacementOf, Owners, Earlier, CountsBefore, Emptiest, Targets, Positive;
    var k := PlaceInOrder(rs, i);
    RowGoesToEmptiest(rs, i, k);
    EarlierRowsAreCounted(rs, i, k, 0);
    EarlierRowsAreCounted(rs, i, k, 1);
    EarlierRowsAreCounted(rs, i, k, 2);
    EmptiestByRows(CountsBefore(rs, k), |rs|);
  }

  lemma EmptiestByRows(counts: seq<nat>, rows: nat)
    requires |counts| == 3 && rows > 0
    ensures Positive(Targets(rows))
    ensures var n := rows as real;
      var a, b, c := counts[0] as real / (n * 0.70), counts[1] as real / (n * 0.15), counts[2] as real / (n * 0.15);
      Emptiest(counts, Targets(rows), 3) == if a <= b && a <= c then 0 else if b <= c then 1 else 2
  {
    TargetsArePositive(rows);
    var e := Emptiest(counts, Targets(rows), 3);
    assert e == 0 || e == 1 || e == 2;
  }
}
