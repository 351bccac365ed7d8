/** Matching detector predictions to targets, best score first. */
module Detections {
  import opened Outcomes
  import opened Boxes
  import opened Sorting
  import opened Counting

  datatype Target = Target(class_: int, box: Box)
  datatype Prediction = Prediction(class_: int, box: Box, score: real)

  // ---- One prediction ----

  ghost predicate Open(targets: seq<Target>, matched: seq<bool>, p: Prediction, t: int)
    requires |matched| == |targets|
  {
    0 <= t < |targets| && targets[t].class_ == p.class_ && !matched[t]
  }

  /** The first of the best-overlapping unmatched targets of the prediction's class. */
  function Best(targets: seq<Target>, matched: seq<bool>, p: Prediction, n: nat): (r: Option<nat>)
    requires |matched| == |targets| && n <= |targets|
    ensures r.Some? ==> r.value < n && Open(targets, matched, p, r.value)
    ensures forall t :: 0 <= t < n && Open(targets, matched, p, t) ==>
      r.Some? && Iou(p.box, targets[t].box) <= Iou(p.box, targets[r.value].box)
    ensures forall t :: 0 <= t < n && Open(targets, matched, p, t) && t < r.value ==>
      Iou(p.box, targets[t].box) < Iou(p.box, targets[r.value].box)
  {
    if n == 0 then None else
      var best, t := Best(targets, matched, p, n - 1), n - 1;
      if targets[t].class_ != p.class_ || matched[t] then best
      else if best.None? || Iou(p.box, targets[t].box) > Iou(p.box, targets[best.value].box) then Some(t)
      else best
  }

  // ---- One image ----

  function Taken(n: nat, choices: seq<Option<nat>>): (matched: seq<bool>)
    ensures |matched| == n && forall t :: 0 <= t < n ==> matched[t] == (Some(t) in choices)
  {
    seq(n, t requires 0 <= t < n => Some(t) in choices)
  }

  /** The target each prediction is matched to, if any, in the order given. */
  function Assign(targets: seq<Target>, predictions: seq<Prediction>, minIou: real): (choices: seq<Option<nat>>)
    ensures |choices| == |predictions|
    ensures forall i :: 0 <= i < |choices| && choices[i].Some? ==> choices[i].value < |targets|
  {
    if predictions == [] then [] else
      var n := |predictions| - 1;
      var earlier := Assign(targets, predictions[..n], minIou);
      earlier + [Choose(targets, Taken(|targets|, earlier), predictions[n], minIou)]
  }

  function Choose(targets: seq<Target>, matched: seq<bool>, p: Prediction, minIou: real): (r: Option<nat>)
    requires |matched| == |targets|
    ensures r.Some? ==> r.value < |targets|
  {
    var best := Best(targets, matched, p, |targets|);
    if best.None? || Iou(p.box, targets[best.value].box) < minIou then None else best
  }

  /** The classes of the matched predictions, with multiplicity. */
  function Hits(predictions: seq<Prediction>, choices: seq<Option<nat>>): multiset<int>
    requires |choices| == |predictions|
  {
    if predictions == [] then multiset{} else
      var n := |predictions| - 1;
      Hits(predictions[..n], choices[..n]) + if choices[n].Some? then multiset{predictions[n].class_} else multiset{}
  }

  function Misses(choices: seq<Option<nat>>): nat {
    if choices == [] then 0 else
      Misses(choices[..|choices| - 1]) + if choices[|choices| - 1].None? then 1 else 0
  }

  function Classes(targets: seq<Target>): multiset<int> {
    if targets == [] then multiset{} else
      Classes(targets[..|targets| - 1]) + multiset{targets[|targets| - 1].class_}
  }

  lemma AssignNothing(targets: seq<Target>, minIou: real)
    ensures Assign(targets, [], minIou) == [] && Hits([], []) == multiset{} && Misses([]) == 0
  {
  }

  lemma AssignStep(targets: seq<Target>, earlier: seq<Prediction>, p: Prediction, minIou: real)
    ensures var choices := Assign(targets, earlier, minIou);
      var choice := Choose(targets, Taken(|targets|, choices), p, minIou);
      && Assign(targets, earlier + [p], minIou) == choices + [choice]
      && Hits(earlier + [p], choices + [choice])
         == Hits(earlier, choices) + (if choice.Some? then multiset{p.class_} else multiset{})
      && Misses(choices + [choice]) == Misses(choices) + (if choice.None? then 1 else 0)
  {
    hide Choose;
    var choices := Assign(targets, earlier, minIou);
    var choice := Choose(targets, Taken(|targets|, choices), p, minIou);
    assert (earlier + [p])[..|earlier|] == earlier;
    assert (choices + [choice])[..|earlier|] == choices;
  }

  /** The loop over one image's ranked predictions, flagging targets in place. */
  method MatchImage(targets: seq<Target>, predictions: seq<Prediction>, minIou: real, hitsBefore: multiset<int>,
                    unmatchedBefore: nat)
      returns (hits: multiset<int>, unmatched: nat)
    ensures var choices := Assign(targets, predictions, minIou);
      hits == hitsBefore + Hits(predictions, choices) && unmatched == unmatchedBefore + Misses(choices)
  {
    hide Assign, Hits, Misses, Taken, Choose;
    hits, unmatched := hitsBefore, unmatchedBefore;
    var matched := new bool[|targets|](_ => false);
    ghost var choices: seq<Option<nat>> := [];
    AssignNothing(targets, minIou);
    for i := 0 to |predictions|
      invariant choices == Assign(targets, predictions[..i], minIou)
      invariant matched[..] == Taken(|targets|, choices)
      invariant hits == hitsBefore + Hits(predictions[..i], choices)
      invariant unmatched == unmatchedBefore + Misses(choices)
    {
      AssignStep(targets, predictions[..i], predictions[i], minIou);
      assert predictions[..i + 1] == predictions[..i] + [predictions[i]];
      var p := predictions[i];
      var choice := Choose(targets, matched[..], p, minIou);
      choices := choices + [choice];
      if choice.None? {
        unmatched := unmatched + 1;
      } else {
        matched[choice.value] := true;
        hits := hits + multiset{p.class_};
      }
    }
    assert predictions[..|predictions|] == predictions;
  }

  // ---- What the matching means ----

  /** Each match meets the threshold, keeps the class and uses its target once; whatever is
      left unmatched could not have been matched to any target left over. */
  ghost predicate Sound(targets: seq<Target>, predictions: seq<Prediction>, minIou: real, choices: seq<Option<nat>>)
    requires |choices| == |predictions|
  {
    && (forall i :: 0 <= i < |choices| && choices[i].Some? ==>
        && choices[i].value < |targets|
        && targets[choices[i].value].class_ == predictions[i].class_
        && Iou(predictions[i].box, targets[choices[i].value].box) >= minIou)
    && (forall i, j :: 0 <= i < j < |choices| && choices[i].Some? ==> choices[i] != choices[j])
  }

  /** A prediction and a target that could still be matched. */
  ghost predicate Matchable(targets: seq<Target>, predictions: seq<Prediction>, minIou: real,
                            choices: seq<Option<nat>>, i: nat, t: nat)
    requires |choices| == |predictions|
  {
    && i < |predictions| && t < |targets| && choices[i].None? && Some(t) !in choices
    && targets[t].class_ == predictions[i].class_
    && Iou(predictions[i].box, targets[t].box) >= minIou
  }

  lemma {:induction false} AssignIsSound(targets: seq<Target>, predictions: seq<Prediction>, minIou: real)
    ensures Sound(targets, predictions, minIou, Assign(targets, predictions, minIou))
  {
    if predictions != [] {
      var n := |predictions| - 1;
      AssignIsSound(targets, predictions[..n], minIou);
      var earlier, choices := Assign(targets, predictions[..n], minIou), Assign(targets, predictions, minIou);
      var matched := Taken(|targets|, earlier);
      if choices[n].Some? {
        assert Open(targets, matched, predictions[n], choices[n].value);
        assert choices[n] !in earlier;
      }
      forall i, j | 0 <= i < j < |choices| && choices[i].Some? ensures choices[i] != choices[j] {
        assert choices[i] == earlier[i] && earlier[i] in earlier;
      }
    }
  }

  lemma {:induction false} NothingLeftToMatch(targets: seq<Target>, predictions: seq<Prediction>, minIou: real,
                                              i: nat, t: nat)
    ensures !Matchable(targets, predictions, minIou, Assign(targets, predictions, minIou), i, t)
  {
    if predictions != [] {
      var n := |predictions| - 1;
      var earlier, choices := Assign(targets, predictions[..n], minIou), Assign(targets, predictions, minIou);
      if Matchable(targets, predictions, minIou, choices, i, t) {
        assert Some(t) !in earlier;
        if i < n {
          NothingLeftToMatch(targets, predictions[..n], minIou, i, t);
        } else {
          assert Open(targets, Taken(|targets|, earlier), predictions[n], t);
        }
      }
    }
  }

  ghost predicate AvailableTo(targets: seq<Target>, p: Prediction, earlier: seq<Option<nat>>, t: nat) {
    t < |targets| && targets[t].class_ == p.class_ && Some(t) !in earlier
  }

  /** `choice` is the first best-overlapping target that earlier choices left available,
      or nothing if none of those reaches the threshold. */
  ghost predicate BestLeft(targets: seq<Target>, p: Prediction, minIou: real, earlier: seq<Option<nat>>,
                           choice: Option<nat>) {
    && (choice.Some? ==>
        AvailableTo(targets, p, earlier, choice.value) && Iou(p.box, targets[choice.value].box) >= minIou)
    && forall t: nat :: AvailableTo(targets, p, earlier, t) ==>
        && (choice.None? ==> Iou(p.box, targets[t].box) < minIou)
        && (choice.Some? ==> Iou(p.box, targets[t].box) <= Iou(p.box, targets[choice.value].box))
        && (choice.Some? && t < choice.value ==> Iou(p.box, targets[t].box) < Iou(p.box, targets[choice.value].box))
  }

  lemma ChooseIsBestLeft(targets: seq<Target>, p: Prediction, minIou: real, earlier: seq<Option<nat>>,
                         choice: Option<nat>)
    ensures choice == Choose(targets, Taken(|targets|, earlier), p, minIou)
      <==> BestLeft(targets, p, minIou, earlier, choice)
  {
    hide Iou;
    var matched := Taken(|targets|, earlier);
    var chosen := Choose(targets, matched, p, minIou);
    assert forall t: nat :: AvailableTo(targets, p, earlier, t) <==> Open(targets, matched, p, t);
    assert BestLeft(targets, p, minIou, earlier, chosen);
    if BestLeft(targets, p, minIou, earlier, choice) {
      assert choice.Some? ==> AvailableTo(targets, p, earlier, choice.value);
      assert chosen.Some? ==> AvailableTo(targets, p, earlier, chosen.value);
    }
  }

  ghost predicate BestAtTurn(targets: seq<Target>, predictions: seq<Prediction>, minIou: real,
                             choices: seq<Option<nat>>, i: nat)
    requires i < |choices| == |predictions|
  {
    BestLeft(targets, predictions[i], minIou, choices[..i], choices[i])
  }

  lemma TurnsBefore(targets: seq<Target>, predictions: seq<Prediction>, minIou: real, choices: seq<Option<nat>>,
                    n: nat, i: nat)
    requires i < n <= |choices| == |predictions|
    ensures BestAtTurn(targets, predictions[..n], minIou, choices[..n], i)
      <==> BestAtTurn(targets, predictions, minIou, choices, i)
  {
    assert choices[..n][..i] == choices[..i];
  }

  lemma {:induction false} AssignTurn(targets: seq<Target>, predictions: seq<Prediction>, minIou: real, i: nat)
    requires i < |predictions|
    ensures BestAtTurn(targets, predictions, minIou, Assign(targets, predictions, minIou), i)
  {
    hide BestLeft, BestAtTurn, Assign, Choose, Taken;
    var n, choices := |predictions| - 1, Assign(targets, predictions, minIou);
    AssignStep(targets, predictions[..n], predictions[n], minIou);
    assert predictions == predictions[..n] + [predictions[n]];
    assert choices[..n] == Assign(targets, predictions[..n], minIou);
    if i == n {
      LastTurn(targets, predictions, minIou, choices);
    } else {
      AssignTurn(targets, predictions[..n], minIou, i);
      TurnsBefore(targets, predictions, minIou, choices, n, i);
    }
  }

  lemma SplitLast<T>(s: seq<T>)
    requires s != []
    ensures s == s[..|s| - 1] + [s[|s| - 1]]
  {
  }

  lemma {:induction false} TurnsDecide(targets: seq<Target>, predictions: seq<Prediction>, minIou: real,
                                       choices: seq<Option<nat>>)
    requires |choices| == |predictions|
    requires forall i :: 0 <= i < |choices| ==> BestAtTurn(targets, predictions, minIou, choices, i)
    ensures choices == Assign(targets, predictions, minIou)
  {
    if predictions == [] {
      AssignNothing(targets, minIou);
    } else {
      hide BestLeft, BestAtTurn, Assign, Choose, Taken;
      var n := |predictions| - 1;
      forall i | 0 <= i < n ensures BestAtTurn(targets, predictions[..n], minIou, choices[..n], i) {
        TurnsBefore(targets, predictions, minIou, choices, n, i);
      }
      TurnsDecide(targets, predictions[..n], minIou, choices[..n]);
      AssignStep(targets, predictions[..n], predictions[n], minIou);
      LastTurn(targets, predictions, minIou, choices);
      SplitLast(predictions);
      SplitLast(choices);
    }
  }

  /** The matching is the one in which every prediction, at its turn, makes the best choice left. */
  lemma AssignIsGreedy(targets: seq<Target>, predictions: seq<Prediction>, minIou: real, choices: seq<Option<nat>>)
    requires |choices| == |predictions|
    ensures choices == Assign(targets, predictions, minIou) <==>
      forall i :: 0 <= i < |choices| ==> BestAtTurn(targets, predictions, minIou, choices, i)
  {
    hide BestAtTurn, Assign;
    if choices == Assign(targets, predictions, minIou) {
      forall i | 0 <= i < |choices| ensures BestAtTurn(targets, predictions, minIou, choices, i) {
        AssignTurn(targets, predictions, minIou, i);
      }
    } else if forall i :: 0 <= i < |choices| ==> BestAtTurn(targets, predictions, minIou, choices, i) {
      TurnsDecide(targets, predictions, minIou, choices);
    }
  }

  lemma LastTurn(targets: seq<Target>, predictions: seq<Prediction>, minIou: real, choices: seq<Option<nat>>)
    requires |choices| == |predictions| > 0
    ensures var n := |predictions| - 1;
      BestAtTurn(targets, predictions, minIou, choices, n)
      <==> choices[n] == Choose(targets, Taken(|targets|, choices[..n]), predictions[n], minIou)
  {
    var n := |predictions| - 1;
    ChooseIsBestLeft(targets, predictions[n], minIou, choices[..n], choices[n]);
  }

  /** Every prediction is counted once, as a hit or as a miss. */
  lemma {:induction false} HitsAndMisses(predictions: seq<Prediction>, choices: seq<Option<nat>>)
    requires |choices| == |predictions|
    ensures |Hits(predictions, choices)| + Misses(choices) == |predictions|
  {
    if predictions != [] {
      HitsAndMisses(predictions[..|predictions| - 1], choices[..|predictions| - 1]);
    }
  }

  ghost function HitPositions(predictions: seq<Prediction>, choices: seq<Option<nat>>, c: int): set<nat>
    requires |choices| == |predictions|
  {
    set i | 0 <= i < |choices| && choices[i].Some? && predictions[i].class_ == c
  }

  ghost function ClassPositions(targets: seq<Target>, c: int): set<nat> {
    set t | 0 <= t < |targets| && targets[t].class_ == c
  }

  lemma {:induction false} HitsByClass(predictions: seq<Prediction>, choices: seq<Option<nat>>, c: int)
    requires |choices| == |predictions|
    ensures Hits(predictions, choices)[c] == |HitPositions(predictions, choices, c)|
  {
    if predictions != [] {
      var n := |predictions| - 1;
      HitsByClass(predictions[..n], choices[..n], c);
      HitPositionsNext(predictions, choices, c);
      hide HitPositions;
    }
  }

  lemma HitPositionsNext(predictions: seq<Prediction>, choices: seq<Option<nat>>, c: int)
    requires |choices| == |predictions| > 0
    ensures var n := |predictions| - 1;
      |HitPositions(predictions, choices, c)| == |HitPositions(predictions[..n], choices[..n], c)|
        + if choices[n].Some? && predictions[n].class_ == c then 1 else 0
  {
    var n := |predictions| - 1;
    var before, now := HitPositions(predictions[..n], choices[..n], c), HitPositions(predictions, choices, c);
    assert n !in before;
    assert now == if choices[n].Some? && predictions[n].class_ == c then before + {n} else before;
  }

  lemma {:induction false} ClassesByClass(targets: seq<Target>, c: int)
    ensures Classes(targets)[c] == |ClassPositions(targets, c)|
  {
    if targets != [] {
      var n := |targets| - 1;
      ClassesByClass(targets[..n], c);
      ClassPositionsNext(targets, c);
      hide ClassPositions;
    }
  }

  lemma ClassPositionsNext(targets: seq<Target>, c: int)
    requires targets != []
    ensures var n := |targets| - 1;
      |ClassPositions(targets, c)| == |ClassPositions(targets[..n], c)| + if targets[n].class_ == c then 1 else 0
  {
    var n := |targets| - 1;
    var before, now := ClassPositions(targets[..n], c), ClassPositions(targets, c);
    assert n !in before;
    assert now == if targets[n].class_ == c then before + {n} else before;
  }

  /** No class is matched more often than it has targets. */
  lemma HitsWithinTargets(targets: seq<Target>, predictions: seq<Prediction>, minIou: real)
    ensures Hits(predictions, Assign(targets, predictions, minIou)) <= Classes(targets)
  {
    var choices := Assign(targets, predictions, minIou);
    AssignIsSound(targets, predictions, minIou);
    hide Assign;
    forall c ensures Hits(predictions, choices)[c] <= Classes(targets)[c] {
      HitsByClass(predictions, choices, c);
      ClassesByClass(targets, c);
      MatchedPerClass(targets, predictions, minIou, choices, c);
    }
  }

  lemma MatchedPerClass(targets: seq<Target>, predictions: seq<Prediction>, minIou: real, choices: seq<Option<nat>>,
                        c: int)
    requires |choices| == |predictions| && Sound(targets, predictions, minIou, choices)
    ensures |HitPositions(predictions, choices, c)| <= |ClassPositions(targets, c)|
  {
    var from, to := HitPositions(predictions, choices, c), ClassPositions(targets, c);
    forall i | i in from ensures exists t :: t in to && InPlace(choices, i, t) {
      assert choices[i].value in to && InPlace(choices, i, choices[i].value);
    }
    PartnersNoFewer(from, to, (i: nat, t: nat) => InPlace(choices, i, t));
  }

  predicate InPlace(choices: seq<Option<nat>>, i: nat, t: nat) {
    i < |choices| && choices[i] == Some(t)
  }

  // ---- How good the matching is ----

  ghost function Matches(choices: seq<Option<nat>>): set<nat> {
    set i: nat | i < |choices| && choices[i].Some?
  }

  lemma {:induction false} MatchesAreHits(predictions: seq<Prediction>, choices: seq<Option<nat>>)
    requires |choices| == |predictions|
    ensures |Hits(predictions, choices)| == |Matches(choices)|
  {
    if predictions != [] {
      var n := |predictions| - 1;
      MatchesAreHits(predictions[..n], choices[..n]);
      var before := Matches(choices[..n]);
      assert Matches(choices) == if choices[n].Some? then before + {n} else before;
    }
  }

  /** Any other sound matching has at most twice as many hits. */
  lemma AssignIsHalfOptimal(targets: seq<Target>, predictions: seq<Prediction>, minIou: real, other: seq<Option<nat>>)
    requires |other| == |predictions| && Sound(targets, predictions, minIou, other)
    ensures |Hits(predictions, other)| <= 2 * |Hits(predictions, Assign(targets, predictions, minIou))|
  {
    var mine := Assign(targets, predictions, minIou);
    MatchesAreHits(predictions, mine);
    MatchesAreHits(predictions, other);
    AssignIsSound(targets, predictions, minIou);
    hide Assign, Hits;
    var byTarget := set i | i in Matches(other) && other[i] in mine;
    forall i | i in Matches(other) ensures i in byTarget || i in Matches(mine) {
      NothingLeftToMatch(targets, predictions, minIou, i, other[i].value);
      assert !Matchable(targets, predictions, minIou, mine, i, other[i].value);
    }
    SameTargetsNoMore(mine, other, byTarget);
    SubsetNoLarger(Matches(other), byTarget + Matches(mine));
    UnionNoLarger(byTarget, Matches(mine));
  }

  lemma SameTargetsNoMore(mine: seq<Option<nat>>, other: seq<Option<nat>>, shared: set<nat>)
    requires forall i, j :: 0 <= i < j < |other| && other[i].Some? ==> other[i] != other[j]
    requires forall i :: i in shared ==> i < |other| && other[i].Some? && other[i] in mine
    ensures |shared| <= |Matches(mine)|
  {
    var same := (i: nat, j: nat) => i < |other| && j < |mine| && other[i] == mine[j] && other[i].Some?;
    forall i | i in shared ensures exists j :: j in Matches(mine) && same(i, j) {
      var j :| 0 <= j < |mine| && mine[j] == other[i];
      assert j in Matches(mine) && same(i, j);
    }
    PartnersNoFewer(shared, Matches(mine), same);
  }

  // ---- Raising the score threshold ----

  predicate ByScore(a: Prediction, b: Prediction) {
    a.score >= b.score
  }

  /** The predictions at or above the threshold, best first, ties in the order given. */
  function Ranked(predictions: seq<Prediction>, minScore: real): seq<Prediction> {
    Sort(Filter(predictions, (p: Prediction) => p.score >= minScore), ByScore)
  }

  lemma ByScoreIsTotal()
    ensures TotalPreorder(ByScore)
  {
  }

  lemma {:induction false} FilterTwice(s: seq<Prediction>, low: real, high: real)
    requires low <= high
    ensures Filter(Filter(s, (p: Prediction) => p.score >= low), (p: Prediction) => p.score >= high)
         == Filter(s, (p: Prediction) => p.score >= high)
  {
    if s != [] {
      FilterTwice(s[1..], low, high);
      var rest := Filter(s[1..], (p: Prediction) => p.score >= low);
      assert ([s[0]] + rest)[1..] == rest;
    }
  }

  lemma {:induction false} FilterKeepsPrefix(s: seq<Prediction>, minScore: real)
    requires SortedBy(s, ByScore)
    ensures Filter(s, (p: Prediction) => p.score >= minScore) <= s
  {
    if s != [] {
      FilterKeepsPrefix(s[1..], minScore);
      if s[0].score < minScore {
        assert forall j :: 0 < j < |s| ==> ByScore(s[0], s[j]);
        FilterNone(s[1..], (p: Prediction) => p.score >= minScore);
      }
    }
  }

  /** Raising the threshold keeps a prefix of the ranking. */
  lemma RankedPrefix(predictions: seq<Prediction>, low: real, high: real)
    requires low <= high
    ensures Ranked(predictions, high) <= Ranked(predictions, low)
  {
    var kept := Filter(predictions, (p: Prediction) => p.score >= low);
    ByScoreIsTotal();
    SortSorts(kept, ByScore);
    FilterSort(kept, ByScore, (p: Prediction) => p.score >= high);
    FilterTwice(predictions, low, high);
    FilterKeepsPrefix(Sort(kept, ByScore), high);
  }

  /** Matching the first `k` predictions of a ranking makes the same first `k` choices. */
  lemma {:induction false} PrefixMatchesSame(targets: seq<Target>, ranked: seq<Prediction>, k: nat, minIou: real)
    requires k <= |ranked|
    ensures var few, many := Assign(targets, ranked[..k], minIou), Assign(targets, ranked, minIou);
      few == many[..k] && Hits(ranked[..k], few) <= Hits(ranked, many) && Misses(few) <= Misses(many)
  {
    hide Assign, Hits, Misses, Taken, Choose;
    if k == |ranked| {
      assert ranked[..k] == ranked;
    } else {
      var n := |ranked| - 1;
      var front := ranked[..n];
      PrefixMatchesSame(targets, front, k, minIou);
      assert front[..k] == ranked[..k];
      AssignStep(targets, front, ranked[n], minIou);
      assert ranked == front + [ranked[n]];
    }
  }

  // ---- All images ----

  datatype Image = Image(targets: seq<Target>, predictions: seq<Prediction>)

  datatype Totals = Totals(targets: multiset<int>, hits: multiset<int>, unmatched: nat,
                           negatives: nat, negativesHit: nat, negativeDetections: nat)

  function Evaluate(images: seq<Image>, minScore: real, minIou: real): Totals {
    if images == [] then Totals(multiset{}, multiset{}, 0, 0, 0, 0) else
      var sum, image := Evaluate(images[..|images| - 1], minScore, minIou), images[|images| - 1];
      var ranked := Ranked(image.predictions, minScore);
      var choices := Assign(image.targets, ranked, minIou);
      Totals(sum.targets + Classes(image.targets),
             sum.hits + Hits(ranked, choices),
             sum.unmatched + Misses(choices),
             sum.negatives + (if image.targets == [] then 1 else 0),
             sum.negativesHit + (if image.targets == [] && ranked != [] then 1 else 0),
             sum.negativeDetections + (if image.targets == [] then |ranked| else 0))
  }

  /** The counting loops of `_operational_detection_metrics`. */
  method OperationalMetrics(images: seq<Image>, minScore: real, minIou: real) returns (totals: Totals)
    ensures totals == Evaluate(images, minScore, minIou)
  {
    hide Assign, Ranked, Hits, Misses, Classes;
    var targetsByClass, hits: multiset<int> := multiset{}, multiset{};
    var unmatched: nat, negatives: nat, negativesHit: nat, negativeDetections: nat := 0, 0, 0, 0;
    for i := 0 to |images|
      invariant Totals(targetsByClass, hits, unmatched, negatives, negativesHit, negativeDetections)
             == Evaluate(images[..i], minScore, minIou)
    {
      assert images[..i + 1][..i] == images[..i];
      var image := images[i];
      targetsByClass := CountTargets(image.targets, targetsByClass);
      var ranked := Ranked(image.predictions, minScore);
      if image.targets == [] {
        negatives := negatives + 1;
        negativeDetections := negativeDetections + |ranked|;
        negativesHit := negativesHit + if ranked != [] then 1 else 0;
      }
      hits, unmatched := MatchImage(image.targets, ranked, minIou, hits, unmatched);
    }
    assert images[..|images|] == images;
    totals := Totals(targetsByClass, hits, unmatched, negatives, negativesHit, negativeDetections);
  }

  method CountTargets(targets: seq<Target>, before: multiset<int>) returns (counts: multiset<int>)
    ensures counts == before + Classes(targets)
  {
    counts := before;
    for t := 0 to |targets|
      invariant counts == before + Classes(targets[..t])
    {
      assert targets[..t + 1][..t] == targets[..t];
      counts := counts + multiset{targets[t].class_};
    }
    assert targets[..|targets|] == targets;
  }

  function Detected(images: seq<Image>, minScore: real): nat {
    if images == [] then 0 else
      Detected(images[..|images| - 1], minScore) + |Ranked(images[|images| - 1].predictions, minScore)|
  }

  /** Every detection above the threshold is a hit or unmatched, and no class has more hits
      than targets. */
  lemma {:induction false} DetectionsAreConserved(images: seq<Image>, minScore: real, minIou: real)
    ensures var totals := Evaluate(images, minScore, minIou);
      && |totals.hits| + totals.unmatched == Detected(images, minScore)
      && totals.hits <= totals.targets
      && totals.negativesHit <= totals.negatives && totals.negativesHit <= totals.negativeDetections <= totals.unmatched
  {
    hide Assign, Hits, Ranked, Misses, Classes;
    if images != [] {
      DetectionsAreConserved(images[..|images| - 1], minScore, minIou);
      var image := images[|images| - 1];
      var ranked := Ranked(image.predictions, minScore);
      HitsAndMisses(ranked, Assign(image.targets, ranked, minIou));
      HitsWithinTargets(image.targets, ranked, minIou);
      NegativesHaveNoHits(image, ranked, minIou);
    }
  }

  lemma NegativesHaveNoHits(image: Image, ranked: seq<Prediction>, minIou: real)
    ensures image.targets == [] ==> Misses(Assign(image.targets, ranked, minIou)) == |ranked|
  {
    HitsWithinTargets(image.targets, ranked, minIou);
    HitsAndMisses(ranked, Assign(image.targets, ranked, minIou));
    if image.targets == [] {
      assert Classes(image.targets) == multiset{};
      assert Hits(ranked, Assign(image.targets, ranked, minIou)) == multiset{};
    }
  }

  /** Raising the score threshold never adds a hit, an unmatched detection or a detection on
      a negative image. */
  lemma {:induction false} StricterScoresFindLess(images: seq<Image>, low: real, high: real, minIou: real)
    requires low <= high
    ensures var loose, strict := Evaluate(images, low, minIou), Evaluate(images, high, minIou);
      && strict.targets == loose.targets && strict.negatives == loose.negatives
      && strict.hits <= loose.hits && strict.unmatched <= loose.unmatched
      && strict.negativesHit <= loose.negativesHit && strict.negativeDetections <= loose.negativeDetections
  {
    hide Assign, Hits, Ranked, Misses, Classes;
    if images != [] {
      StricterScoresFindLess(images[..|images| - 1], low, high, minIou);
      var image := images[|images| - 1];
      RankedPrefix(image.predictions, low, high);
      var ranked, k := Ranked(image.predictions, low), |Ranked(image.predictions, high)|;
      assert ranked[..k] == Ranked(image.predictions, high);
      PrefixMatchesSame(image.targets, ranked, k, minIou);
    }
  }

  // ---- Recall ----

  function Recall(totals: Totals, c: int): Option<real> {
    if totals.targets[c] > 0 then Some(totals.hits[c] as real / totals.targets[c] as real) else None
  }

  /** A reported recall is a fraction, is reported exactly for the classes with targets, and
      never rises with the score threshold. */
  lemma RecallIsFraction(images: seq<Image>, low: real, high: real, minIou: real, c: int)
    requires low <= high
    ensures var loose, strict := Recall(Evaluate(images, low, minIou), c), Recall(Evaluate(images, high, minIou), c);
      && (loose.Some? <==> strict.Some?)
      && (loose.Some? ==> 0.0 <= strict.value <= loose.value <= 1.0)
    ensures var totals := Evaluate(images, low, minIou);
      && (Recall(totals, c).Some? <==> totals.targets[c] > 0)
      && (Recall(totals, c).Some? ==> Recall(totals, c).value * totals.targets[c] as real == totals.hits[c] as real)
  {
    hide Evaluate;
    DetectionsAreConserved(images, low, minIou);
    DetectionsAreConserved(images, high, minIou);
    StricterScoresFindLess(images, low, high, minIou);
    var loose, strict := Evaluate(images, low, minIou), Evaluate(images, high, minIou);
    assert strict.hits[c] <= loose.hits[c] <= loose.targets[c];
    if loose.targets[c] > 0 {
      Fractions(strict.hits[c] as real, loose.hits[c] as real, loose.targets[c] as real);
    }
  }

  lemma Fractions(a: real, b: real, whole: real)
    requires 0.0 <= a <= b <= whole && whole > 0.0
    ensures 0.0 <= a / whole <= b / whole <= 1.0
  {
    Ratio(a, whole);
    Ratio(b, whole);
    Ratio(b - a, whole);
    assert b / whole - a / whole == (b - a) / whole;
  }
}
