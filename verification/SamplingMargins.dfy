/** The sampling probability of every row, and the shares of roles, origins and sources they add up to. */
module SamplingMargins {
  import opened Counting
  import opened SamplingWeights

  function KeysOf(rows: seq<Row>, pyroSource: string): (keys: seq<Key>)
    ensures |keys| == |rows| && forall i :: 0 <= i < |rows| ==> keys[i] == KeyOf(rows[i], pyroSource)
  {
    seq(|rows|, i requires 0 <= i < |rows| => KeyOf(rows[i], pyroSource))
  }

  function RawOf(s: Setup, keys: seq<Key>): Key -> real {
    (k: Key) => Raw(s, keys, k)
  }

  function RawSum(s: Setup, keys: seq<Key>): real {
    SumIf(keys, RawOf(s, keys), Everything())
  }

  function Probability(s: Setup, keys: seq<Key>): Key -> real {
    (k: Key) => if RawSum(s, keys) == 0.0 then 0.0 else Raw(s, keys, k) / RawSum(s, keys)
  }

  /** The raw weights sum to the sum of the targets. */
  lemma RawSumIsTarget(s: Setup, keys: seq<Key>)
    requires Checked(s) && Positive(s.score) && AllRolesPresent(keys) && forall k :: k in keys ==> k.role in ROLES
    ensures RawSum(s, keys) == TotalTarget(s.targets) > 0.0
  {
    RawTotal(s, keys, RawOf(s, keys));
  }

  // ---- Margins ----

  /** Inputs the checks let through. */
  ghost predicate Accepted(s: Setup, keys: seq<Key>) {
    Checked(s) && Positive(s.score) && AllRolesPresent(keys) && forall k :: k in keys ==> k.role in ROLES
  }

  lemma ProbabilityIsScaled(s: Setup, keys: seq<Key>, p: Key -> bool)
    requires Accepted(s, keys)
    ensures SumIf(keys, Probability(s, keys), p) == SumIf(keys, RawOf(s, keys), p) / TotalTarget(s.targets)
  {
    RawSumIsTarget(s, keys);
    SumIfDivides(s, keys, keys, p, TotalTarget(s.targets));
  }

  lemma {:induction false} SumIfDivides(s: Setup, all: seq<Key>, keys: seq<Key>, p: Key -> bool, total: real)
    requires RawSum(s, all) == total > 0.0
    ensures SumIf(keys, Probability(s, all), p) == SumIf(keys, RawOf(s, all), p) / total
  {
    hide Probability, RawOf, RawSum;
    if keys != [] {
      var n := |keys| - 1;
      SumIfDivides(s, all, keys[..n], p, total);
      ProbabilityAt(s, all, keys[n], total);
      AddQuotients(SumIf(keys[..n], RawOf(s, all), p), RawOf(s, all)(keys[n]), total);
    }
  }

  lemma AddQuotients(a: real, b: real, c: real)
    requires c != 0.0
    ensures (a + b) / c == a / c + b / c
  {
  }

  lemma ProbabilityAt(s: Setup, keys: seq<Key>, k: Key, total: real)
    requires RawSum(s, keys) == total > 0.0
    ensures Probability(s, keys)(k) == RawOf(s, keys)(k) / total
  {
    hide Raw, RawSum;
    SameQuotient(Raw(s, keys, k), Raw(s, keys, k), RawSum(s, keys), total);
  }

  lemma SameQuotient(a: real, b: real, c: real, d: real)
    requires a == b && c == d != 0.0
    ensures a / c == b / d
  {
  }

  /** Every row can be drawn, the probabilities sum to one, and each role's rows together get
      its target's share of the targets. */
  lemma RolesGetTheirShares(s: Setup, keys: seq<Key>, k: Key, role: string)
    requires Accepted(s, keys) && k in keys && role in ROLES
    ensures Probability(s, keys)(k) > 0.0
    ensures SumIf(keys, Probability(s, keys), Everything()) == 1.0
    ensures SumIf(keys, Probability(s, keys), InRole(role)) == s.targets[role] / TotalTarget(s.targets)
  {
    hide Raw, SumIf;
    RawSumIsTarget(s, keys);
    RawPositive(s, keys, k);
    PositiveQuotient(Raw(s, keys, k), RawSum(s, keys));
    ProbabilityIsScaled(s, keys, Everything());
    ProbabilityIsScaled(s, keys, InRole(role));
    RoleMass(s, keys, RawOf(s, keys), role);
    assert RawSum(s, keys) / TotalTarget(s.targets) == 1.0;
  }

  /** The distinguished origin's part of a role: the configured share where both origins
      occur, all of it or nothing where only one does. */
  function PyroPart(s: Setup, keys: seq<Key>, role: string): real {
    if !HasOrigin(keys, role, true) then 0.0 else if !HasOrigin(keys, role, false) then 1.0 else s.share
  }

  lemma PyroMassOfRole(s: Setup, keys: seq<Key>, role: string)
    requires Accepted(s, keys) && role in ROLES
    ensures SumIf(keys, RawOf(s, keys), InCell(role, true)) == s.targets[role] * PyroPart(s, keys, role)
  {
    hide SumIf, HasOrigin, Raw, Portion, CellTarget;
    CellMass(s, keys, RawOf(s, keys), role, true);
    PyroTarget(s, keys, role);
  }

  lemma PyroTarget(s: Setup, keys: seq<Key>, role: string)
    requires Checked(s) && AllRolesPresent(keys) && role in ROLES
    ensures HasOrigin(keys, role, true) ==> CellTarget(s, keys, role, true) == s.targets[role] * PyroPart(s, keys, role)
  {
    hide HasOrigin, Portion;
    OriginTotalPositive(s, keys, role);
    PortionOfWhole(s.targets[role], s.share);
    if HasOrigin(keys, role, true) {
      assert OriginTotal(s, keys, role) == if HasOrigin(keys, role, false) then 1.0 else s.share;
    }
  }

  lemma PortionOfWhole(whole: real, part: real)
    requires part > 0.0
    ensures Portion(whole, part, 1.0) == whole * part && Portion(whole, part, part) == whole
  {
    assert whole * part / part == whole;
  }

  function PyroTotal(s: Setup, keys: seq<Key>): real
    requires s.targets.Keys == ROLES
  {
    s.targets["positive"] * PyroPart(s, keys, "positive")
    + s.targets["negative"] * PyroPart(s, keys, "negative")
    + s.targets["abstention"] * PyroPart(s, keys, "abstention")
  }

  /** The distinguished source's probability, exactly: the target-weighted mean of its part of
      each role. */
  lemma PyroGetsItsParts(s: Setup, keys: seq<Key>)
    requires Accepted(s, keys)
    ensures SumIf(keys, Probability(s, keys), IsPyro()) == PyroTotal(s, keys) / TotalTarget(s.targets)
  {
    hide SumIf, HasOrigin, Raw, Probability, PyroPart, TotalTarget;
    var w := RawOf(s, keys);
    PyroMassOfRole(s, keys, "positive");
    PyroMassOfRole(s, keys, "negative");
    PyroMassOfRole(s, keys, "abstention");
    var rest := (k: Key) => k.pyro && (k.role == "negative" || k.role == "abstention");
    SumIfSplits(keys, w, rest, InCell("negative", true), InCell("abstention", true));
    SumIfSplits(keys, w, IsPyro(), InCell("positive", true), rest);
    ProbabilityIsScaled(s, keys, IsPyro());
    RawSumIsTarget(s, keys);
    SameQuotient(SumIf(keys, w, IsPyro()), PyroTotal(s, keys), TotalTarget(s.targets), TotalTarget(s.targets));
  }

  /** The probability a source's rows have together. */
  function SourceShare(s: Setup, keys: seq<Key>, k: Key): real {
    Times(Count(keys, k), Probability(s, keys)(k))
  }

  function Times(n: nat, x: real): real {
    n as real * x
  }

  /** What one unit of score is worth in a role and origin, before normalising. */
  ghost function Unit(s: Setup, keys: seq<Key>, role: string, pyro: bool): real {
    if ScoreTotal(s, keys, role, pyro) == 0.0 then 0.0 else
      CellTarget(s, keys, role, pyro) / ScoreTotal(s, keys, role, pyro)
  }

  lemma RowsTimesRaw(s: Setup, keys: seq<Key>, k: Key)
    requires Positive(s.score) && k in keys
    ensures Times(Count(keys, k), Raw(s, keys, k)) == Unit(s, keys, k.role, k.pyro) * s.score(Count(keys, k))
  {
    hide Raw, CellTarget, ScoreTotal, Count;
    ScoreTotalPositive(s, keys, k);
    SourceMass(s, keys, k);
  }

  lemma ProbabilityTimesSum(s: Setup, keys: seq<Key>, k: Key)
    requires RawSum(s, keys) > 0.0
    ensures Probability(s, keys)(k) * RawSum(s, keys) == Raw(s, keys, k)
  {
    hide Raw, RawSum;
  }

  lemma ShareIsRated(s: Setup, keys: seq<Key>, k: Key)
    requires Positive(s.score) && RawSum(s, keys) > 0.0 && k in keys
    ensures SourceShare(s, keys, k) * RawSum(s, keys) == Unit(s, keys, k.role, k.pyro) * s.score(Count(keys, k))
  {
    hide Raw, RawSum, Unit, Count, Probability, Times;
    RowsTimesRaw(s, keys, k);
    ProbabilityTimesSum(s, keys, k);
    Regrouped(Count(keys, k), Probability(s, keys)(k), RawSum(s, keys), Raw(s, keys, k));
  }

  lemma Regrouped(rows: nat, p: real, total: real, raw: real)
    requires p * total == raw
    ensures Times(rows, p) * total == Times(rows, raw)
  {
    assert (rows as real * p) * total == rows as real * (p * total);
  }

  lemma AcceptedSumIsPositive(s: Setup, keys: seq<Key>)
    requires Accepted(s, keys)
    ensures RawSum(s, keys) > 0.0 && Positive(s.score)
  {
    hide RawSum;
    RawSumIsTarget(s, keys);
  }

  /** Within a role and origin, sources are drawn in proportion to the scores of their sizes. */
  lemma SourcesShareByScore(s: Setup, keys: seq<Key>, a: Key, b: Key)
    requires Accepted(s, keys) && a in keys && b in keys && a.role == b.role && a.pyro == b.pyro
    ensures SourceShare(s, keys, a) * s.score(Count(keys, b)) == SourceShare(s, keys, b) * s.score(Count(keys, a))
  {
    hide SourceShare, Unit, Count, RawSum, Accepted;
    AcceptedSumIsPositive(s, keys);
    ShareIsRated(s, keys, a);
    ShareIsRated(s, keys, b);
    Crosswise(Unit(s, keys, a.role, a.pyro), s.score(Count(keys, a)), s.score(Count(keys, b)), RawSum(s, keys),
              SourceShare(s, keys, a), SourceShare(s, keys, b));
  }

  lemma Crosswise(d: real, x: real, y: real, total: real, p: real, q: real)
    requires total > 0.0 && p * total == d * x && q * total == d * y
    ensures p * y == q * x
  {
    assert (p * y) * total == (p * total) * y;
    assert (q * x) * total == (q * total) * x;
    assert (d * x) * y == (d * y) * x;
    assert (p * y - q * x) * total == 0.0;
  }

  // ---- Effective sample size ----

  function Square(w: Key -> real): Key -> real {
    (k: Key) => w(k) * w(k)
  }

  /** `1.0 / probabilities.square().sum()` */
  function EffectiveSize(s: Setup, keys: seq<Key>): real {
    var squares := SumIf(keys, Square(Probability(s, keys)), Everything());
    if squares == 0.0 then 0.0 else 1.0 / squares
  }

  /** The sum of squared deviations from `c`, expanded. */
  function Deviation(squares: real, sum: real, n: nat, c: real): real {
    squares - 2.0 * c * sum + n as real * (c * c)
  }

  lemma OneMoreDeviation(squares: real, sum: real, n: nat, c: real, x: real)
    ensures Deviation(squares + x * x, sum + x, n + 1, c) == Deviation(squares, sum, n, c) + (x - c) * (x - c)
  {
    OneMoreTimes(n, c * c);
    assert 2.0 * c * (sum + x) == 2.0 * c * sum + 2.0 * c * x;
    assert (x - c) * (x - c) == x * x - 2.0 * c * x + c * c;
  }

  lemma StaysNonNegative(squares: real, sum: real, n: nat, c: real, x: real, xx: real)
    requires xx == x * x && Deviation(squares, sum, n, c) >= 0.0
    ensures Deviation(squares + xx, sum + x, n + 1, c) >= 0.0
  {
    hide Deviation;
    OneMoreDeviation(squares, sum, n, c, x);
    SquareIsNonNegative(x - c);
  }

  lemma SquareOfKey(w: Key -> real, k: Key)
    ensures Square(w)(k) == w(k) * w(k)
  {
  }

  lemma {:induction false} DeviationsAreNonNegative(keys: seq<Key>, w: Key -> real, c: real)
    ensures Deviation(SumIf(keys, Square(w), Everything()), SumIf(keys, w, Everything()), |keys|, c) >= 0.0
  {
    if keys == [] {
      assert 0 as real * (c * c) == 0.0;
    } else {
      hide Deviation, Square;
      var n := |keys| - 1;
      DeviationsAreNonNegative(keys[..n], w, c);
      SquareOfKey(w, keys[n]);
      StaysNonNegative(SumIf(keys[..n], Square(w), Everything()), SumIf(keys[..n], w, Everything()), n, c, w(keys[n]),
                       Square(w)(keys[n]));
    }
  }

  /** The effective sample size is positive and at most the number of rows. */
  lemma EffectiveSizeIsBounded(s: Setup, keys: seq<Key>)
    requires Accepted(s, keys)
    ensures 0.0 < EffectiveSize(s, keys) <= |keys| as real
  {
    hide SumIf, Probability, Raw;
    var k :| k in keys && k.role == "positive";
    RolesGetTheirShares(s, keys, k, "positive");
    var p, mean := Probability(s, keys), 1.0 / |keys| as real;
    var squares := SumIf(keys, Square(p), Everything());
    DeviationsAreNonNegative(keys, p, mean);
    SquaresReachTheMean(squares, |keys|);
    Reciprocals(squares, |keys| as real);
  }

  lemma SquaresReachTheMean(squares: real, n: nat)
    requires n > 0 && Deviation(squares, 1.0, n, 1.0 / n as real) >= 0.0
    ensures squares >= 1.0 / n as real
  {
    var c := 1.0 / n as real;
    assert n as real * c == 1.0;
    assert n as real * (c * c) == n as real * c * c == c;
  }

  lemma Reciprocals(x: real, n: real)
    requires n > 0.0 && x >= 1.0 / n
    ensures x > 0.0 && 0.0 < 1.0 / x <= n
  {
    var c := 1.0 / n;
    assert c * n == 1.0;
    PositiveQuotient(1.0, n);
    PositiveQuotient(1.0, x);
    var r := 1.0 / x;
    assert r * x == 1.0;
    assert x * n >= 1.0 by { assert (x - c) * n >= 0.0; }
    assert (n - r) * x >= 0.0;
    assert n - r < 0.0 ==> (n - r) * x < 0.0;
  }
}
