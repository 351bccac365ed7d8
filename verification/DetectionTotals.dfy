/** The operational metrics as counts over images, targets and predictions. */
module DetectionTotals {
  import opened Outcomes
  import opened Boxes
  import opened Sorting
  import opened Detections

  /** The predictions that reach a score. */
  ghost function Reaching(predictions: seq<Prediction>, minScore: real): set<nat> {
    set i: nat | i < |predictions| && predictions[i].score >= minScore
  }

  lemma {:induction false} FilterCounts<T>(s: seq<T>, p: T -> bool, x: T)
    ensures multiset(Filter(s, p))[x] == if p(x) then multiset(s)[x] else 0
  {
    if s != [] {
      FilterCounts(s[1..], p, x);
      FirstAndRest(s);
      if p(s[0]) { assert Filter(s, p) == [s[0]] + Filter(s[1..], p); }
    }
  }

  /** The ranking holds the predictions that reach the score, the highest scores first. */
  lemma RankingInScores(predictions: seq<Prediction>, minScore: real, p: Prediction)
    ensures var ranked := Ranked(predictions, minScore);
      && multiset(ranked)[p] == (if p.score >= minScore then multiset(predictions)[p] else 0)
      && |ranked| == |Reaching(predictions, minScore)|
      && forall i, j :: 0 <= i < j < |ranked| ==> ranked[i].score >= ranked[j].score
  {
    var above := (p: Prediction) => p.score >= minScore;
    var kept := Filter(predictions, above);
    ByScoreIsTotal();
    SortSorts(kept, ByScore);
    SortPermutes(kept, ByScore);
    FilterCounts(predictions, above, p);
    TallyCountsPlaces(predictions, above);
    var ranked := Ranked(predictions, minScore);
    forall i, j | 0 <= i < j < |ranked| ensures ranked[i].score >= ranked[j].score {
      assert ByScore(ranked[i], ranked[j]);
    }
    assert Reaching(predictions, minScore) == Places(predictions, above);
  }

  // ---- All images ----

  function SumOver(images: seq<Image>, f: Image -> nat): nat {
    if images == [] then 0 else SumOver(images[..|images| - 1], f) + f(images[|images| - 1])
  }

  ghost function ChoicesOf(image: Image, minScore: real, minIou: real): (choices: seq<Option<nat>>)
    ensures |choices| == |Ranked(image.predictions, minScore)|
  {
    Assign(image.targets, Ranked(image.predictions, minScore), minIou)
  }

  ghost function TargetsOf(c: int): Image -> nat {
    (image: Image) => |ClassPositions(image.targets, c)|
  }

  ghost function HitsOf(minScore: real, minIou: real, c: int): Image -> nat {
    (image: Image) =>
      |HitPositions(Ranked(image.predictions, minScore), ChoicesOf(image, minScore, minIou), c)|
  }

  ghost function UnmatchedOf(minScore: real, minIou: real): Image -> nat {
    (image: Image) => |Places(ChoicesOf(image, minScore, minIou), IsNone())|
  }

  function IsNone(): Option<nat> -> bool {
    (choice: Option<nat>) => choice.None?
  }

  ghost function FalseAlarmsOf(minScore: real): Image -> nat {
    (image: Image) => if image.targets == [] then |Reaching(image.predictions, minScore)| else 0
  }

  function IsNegative(): Image -> bool {
    (image: Image) => image.targets == []
  }

  function IsNegativeDetected(minScore: real): Image -> bool {
    (image: Image) => image.targets == [] && exists p :: p in image.predictions && p.score >= minScore
  }

  lemma {:induction false} MissesArePlaces(choices: seq<Option<nat>>)
    ensures Misses(choices) == |Places(choices, IsNone())|
  {
    if choices != [] {
      MissesArePlaces(choices[..|choices| - 1]);
      PlacesNext(choices, IsNone());
    }
  }

  lemma RankedIsEmpty(predictions: seq<Prediction>, minScore: real)
    ensures Ranked(predictions, minScore) != [] <==> exists p :: p in predictions && p.score >= minScore
  {
    var above := (p: Prediction) => p.score >= minScore;
    FilterMembers(predictions, above);
    SortKeepsMembers(Filter(predictions, above), ByScore);
    var ranked := Ranked(predictions, minScore);
    if ranked != [] { assert ranked[0] in ranked; }
  }

  /** What the totals count: targets, hits and misses summed over the images; images without
      targets, those of them with a prediction that reaches the score, and such predictions. */
  lemma {:induction false} TotalsAreCounts(images: seq<Image>, minScore: real, minIou: real, c: int)
    ensures var totals := Evaluate(images, minScore, minIou);
      && totals.targets[c] == SumOver(images, TargetsOf(c))
      && totals.hits[c] == SumOver(images, HitsOf(minScore, minIou, c))
      && totals.unmatched == SumOver(images, UnmatchedOf(minScore, minIou))
      && totals.negatives == |Places(images, IsNegative())|
      && totals.negativesHit == |Places(images, IsNegativeDetected(minScore))|
      && totals.negativeDetections == SumOver(images, FalseAlarmsOf(minScore))
  {
    hide Places, Ranked, Assign, Hits, Misses, Classes, TargetsOf, HitsOf, UnmatchedOf, FalseAlarmsOf, IsNegative,
      IsNegativeDetected;
    if images == [] {
      NoPlaces(images, IsNegative());
      NoPlaces(images, IsNegativeDetected(minScore));
    } else {
      var n := |images| - 1;
      TotalsAreCounts(images[..n], minScore, minIou, c);
      ImageCounts(images[n], minScore, minIou, c);
      PlacesNext(images, IsNegative());
      PlacesNext(images, IsNegativeDetected(minScore));
    }
  }

  lemma NoPlaces(images: seq<Image>, p: Image -> bool)
    requires images == []
    ensures Places(images, p) == {}
  {
  }

  lemma ImageCounts(image: Image, minScore: real, minIou: real, c: int)
    ensures var ranked := Ranked(image.predictions, minScore);
      var choices := Assign(image.targets, ranked, minIou);
      && Classes(image.targets)[c] == TargetsOf(c)(image)
      && Hits(ranked, choices)[c] == HitsOf(minScore, minIou, c)(image)
      && Misses(choices) == UnmatchedOf(minScore, minIou)(image)
      && FalseAlarmsOf(minScore)(image) == (if image.targets == [] then |ranked| else 0)
      && (IsNegative()(image) <==> image.targets == [])
      && (IsNegativeDetected(minScore)(image) <==> image.targets == [] && ranked != [])
  {
    hide Places, Ranked, Assign, Hits, Misses, Classes, ClassPositions, HitPositions, Reaching;
    var ranked := Ranked(image.predictions, minScore);
    ClassesByClass(image.targets, c);
    HitsByClass(ranked, ChoicesOf(image, minScore, minIou), c);
    MissesArePlaces(ChoicesOf(image, minScore, minIou));
    RankingInScores(image.predictions, minScore, Prediction(0, Box(0.0, 0.0, 0.0, 0.0), 0.0));
    RankedIsEmpty(image.predictions, minScore);
  }
}
