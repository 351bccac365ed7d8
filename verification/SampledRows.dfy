/** What the probabilities promise, over the rows they belong to. */
module SampledRows {
  import opened Counting
  import opened Sorting
  import opened SamplingWeights
  import opened SamplingMargins

  predicate HasRole(r: Row, role: string) {
    if r.abstains then role == "abstention"
    else if r.strength == "negative" || r.strength == "temporal_negative" then role == "negative"
    else role == "positive"
  }

  /** A row without a source counts as one of the source "unknown". */
  predicate IsFrom(r: Row, source: string) {
    (if r.source == "" then "unknown" else r.source) == source
  }

  function WithRole(role: string): Row -> bool {
    (r: Row) => HasRole(r, role)
  }

  function From(source: string): Row -> bool {
    (r: Row) => IsFrom(r, source)
  }

  function WithRoleFrom(role: string, source: string): Row -> bool {
    (r: Row) => HasRole(r, role) && IsFrom(r, source)
  }

  function AnyRow(): Row -> bool {
    (r: Row) => true
  }

  /** The probability of drawing a row with a property. */
  function Mass(rows: seq<Row>, weights: seq<real>, p: Row -> bool): real
    requires |rows| == |weights|
  {
    if rows == [] then 0.0 else
      var n := |rows| - 1;
      Mass(rows[..n], weights[..n], p) + if p(rows[n]) then weights[n] else 0.0
  }

  ghost predicate EveryRoleOccurs(rows: seq<Row>) {
    && Places(rows, WithRole("positive")) != {}
    && Places(rows, WithRole("negative")) != {}
    && Places(rows, WithRole("abstention")) != {}
  }

  /** Every row can be drawn, and the rows of a role weigh the role's part of the targets. */
  ghost predicate HitsRoleShares(rows: seq<Row>, s: Setup, weights: seq<real>)
    requires |rows| == |weights| && s.targets.Keys == ROLES
  {
    && (forall i :: 0 <= i < |weights| ==> weights[i] > 0.0)
    && Mass(rows, weights, AnyRow()) == 1.0
    && (forall role :: role in ROLES ==> HitsShare(rows, s, weights, role))
  }

  ghost predicate HitsShare(rows: seq<Row>, s: Setup, weights: seq<real>, role: string)
    requires |rows| == |weights| && s.targets.Keys == ROLES && role in ROLES
  {
    Mass(rows, weights, WithRole(role)) * TotalTarget(s.targets) == s.targets[role]
  }

  /** The distinguished source's part of a role: nothing or all of it where the role's rows are all of one
      origin, and the configured share otherwise. */
  ghost function PartOf(rows: seq<Row>, s: Setup, pyroSource: string, role: string): real {
    var here, pyro := Places(rows, WithRole(role)), Places(rows, From(pyroSource));
    if here !! pyro then 0.0 else if here <= pyro then 1.0 else s.share
  }

  ghost predicate HitsPyroShare(rows: seq<Row>, s: Setup, pyroSource: string, weights: seq<real>)
    requires |rows| == |weights| && s.targets.Keys == ROLES
  {
    IsMean(Mass(rows, weights, From(pyroSource)), s.targets["positive"], PartOf(rows, s, pyroSource, "positive"),
           s.targets["negative"], PartOf(rows, s, pyroSource, "negative"),
           s.targets["abstention"], PartOf(rows, s, pyroSource, "abstention"))
  }

  /** `mean` is the mean of `p`, `q` and `r`, weighted by `a`, `b` and `c`. */
  ghost predicate IsMean(mean: real, a: real, p: real, b: real, q: real, c: real, r: real) {
    mean * (a + b + c) == a * p + b * q + c * r
  }

  /** The rows of a source in a role weigh in proportion to the score of their number. */
  ghost predicate Proportional(rows: seq<Row>, s: Setup, weights: seq<real>, role: string, a: string, b: string)
    requires |rows| == |weights|
  {
    Mass(rows, weights, WithRoleFrom(role, a)) * s.score(|Places(rows, WithRoleFrom(role, b))|)
      == Mass(rows, weights, WithRoleFrom(role, b)) * s.score(|Places(rows, WithRoleFrom(role, a))|)
  }

  /** The rows of a source in a role are equally likely. */
  ghost predicate Even(rows: seq<Row>, weights: seq<real>, role: string, source: string)
    requires |rows| == |weights|
  {
    var here := Places(rows, WithRoleFrom(role, source));
    forall i, j :: i in here && j in here ==> weights[i] == weights[j]
  }

  ghost predicate BothDrawn(rows: seq<Row>, role: string, a: string, b: string) {
    Places(rows, WithRoleFrom(role, a)) != {} && Places(rows, WithRoleFrom(role, b)) != {}
  }

  ghost predicate HitsSourceShares(rows: seq<Row>, s: Setup, pyroSource: string, weights: seq<real>)
    requires |rows| == |weights|
  {
    forall role, a, b ::
      role in ROLES && (a == pyroSource <==> b == pyroSource) && BothDrawn(rows, role, a, b) ==>
        Proportional(rows, s, weights, role, a, b) && Even(rows, weights, role, a)
  }

  // ---- From keys to rows ----

  /** The weights of the rows are the probabilities of their keys. */
  ghost predicate Weighs(rows: seq<Row>, s: Setup, pyroSource: string, weights: seq<real>) {
    var keys := KeysOf(rows, pyroSource);
    |weights| == |rows| && forall i :: 0 <= i < |rows| ==> weights[i] == Probability(s, keys)(keys[i])
  }

  lemma RolesAreRoles(r: Row, pyroSource: string, role: string)
    requires role in ROLES
    ensures HasRole(r, role) <==> KeyOf(r, pyroSource).role == role
  {
    assert "positive" != "negative" && "positive" != "abstention" && "negative" != "abstention";
  }

  lemma {:induction false} MassIsSum(rows: seq<Row>, keys: seq<Key>, weights: seq<real>, w: Key -> real, p: Row -> bool,
                                     q: Key -> bool)
    requires |rows| == |keys| == |weights|
    requires forall i :: 0 <= i < |rows| ==> (p(rows[i]) <==> q(keys[i])) && weights[i] == w(keys[i])
    ensures Mass(rows, weights, p) == SumIf(keys, w, q)
  {
    if rows != [] {
      var n := |rows| - 1;
      MassIsSum(rows[..n], keys[..n], weights[..n], w, p, q);
    }
  }

  lemma OriginOccurs(rows: seq<Row>, pyroSource: string, role: string, pyro: bool)
    requires role in ROLES
    ensures HasOrigin(KeysOf(rows, pyroSource), role, pyro) <==>
      exists i :: 0 <= i < |rows| && HasRole(rows[i], role) && IsFrom(rows[i], pyroSource) == pyro
  {
    var keys := KeysOf(rows, pyroSource);
    forall i | 0 <= i < |rows|
      ensures HasRole(rows[i], role) <==> keys[i].role == role
    {
      RolesAreRoles(rows[i], pyroSource, role);
    }
    hide HasRole;
    if HasOrigin(keys, role, pyro) {
      var k :| k in keys && k.role == role && k.pyro == pyro;
      var i :| 0 <= i < |keys| && keys[i] == k;
      assert HasRole(rows[i], role) && IsFrom(rows[i], pyroSource) == pyro;
    }
    if i :| 0 <= i < |rows| && HasRole(rows[i], role) && IsFrom(rows[i], pyroSource) == pyro {
      assert keys[i] in keys;
    }
  }

  lemma OriginPlaces(rows: seq<Row>, pyroSource: string, role: string)
    requires role in ROLES
    ensures var here, pyro := Places(rows, WithRole(role)), Places(rows, From(pyroSource));
      && (HasOrigin(KeysOf(rows, pyroSource), role, true) <==> !(here !! pyro))
      && (HasOrigin(KeysOf(rows, pyroSource), role, false) <==> !(here <= pyro))
  {
    hide HasOrigin, HasRole, IsFrom, KeysOf;
    OriginOccurs(rows, pyroSource, role, true);
    OriginOccurs(rows, pyroSource, role, false);
    var here, pyro := Places(rows, WithRole(role)), Places(rows, From(pyroSource));
    if i :| 0 <= i < |rows| && HasRole(rows[i], role) && IsFrom(rows[i], pyroSource) == true {
      assert i in here && i in pyro;
    }
    if i :| 0 <= i < |rows| && HasRole(rows[i], role) && IsFrom(rows[i], pyroSource) == false {
      assert i in here && i !in pyro;
    }
    if i :| i in here && i in pyro { assert HasRole(rows[i], role) && IsFrom(rows[i], pyroSource) == true; }
    if i :| i in here && i !in pyro { assert HasRole(rows[i], role) && IsFrom(rows[i], pyroSource) == false; }
  }

  /** The check for rows of every role, over the rows. */
  lemma RolesOccur(rows: seq<Row>, pyroSource: string)
    ensures AllRolesPresent(KeysOf(rows, pyroSource)) <==> EveryRoleOccurs(rows)
  {
    hide HasOrigin, Places, KeysOf;
    OriginPlaces(rows, pyroSource, "positive");
    OriginPlaces(rows, pyroSource, "negative");
    OriginPlaces(rows, pyroSource, "abstention");
  }

  lemma KeysHaveRoles(rows: seq<Row>, pyroSource: string)
    ensures forall k :: k in KeysOf(rows, pyroSource) ==> k.role in ROLES
  {
    forall k | k in KeysOf(rows, pyroSource) ensures k.role in ROLES {
      var i :| 0 <= i < |rows| && k == KeyOf(rows[i], pyroSource);
    }
  }

  lemma AcceptedTargets(s: Setup, keys: seq<Key>)
    requires Accepted(s, keys)
    ensures s.targets.Keys == ROLES && TotalTarget(s.targets) > 0.0
  {
  }

  lemma RoleMassOfRows(rows: seq<Row>, s: Setup, pyroSource: string, weights: seq<real>, role: string)
    requires Accepted(s, KeysOf(rows, pyroSource)) && rows != [] && Weighs(rows, s, pyroSource, weights)
    requires role in ROLES
    ensures s.targets.Keys == ROLES && HitsShare(rows, s, weights, role)
  {
    hide Probability, SumIf, Accepted, Mass, HasRole, TotalTarget;
    var keys := KeysOf(rows, pyroSource);
    AcceptedTargets(s, keys);
    RolesGetTheirShares(s, keys, keys[0], role);
    forall i | 0 <= i < |rows| ensures WithRole(role)(rows[i]) <==> InRole(role)(keys[i]) {
      RolesAreRoles(rows[i], pyroSource, role);
    }
    MassIsSum(rows, keys, weights, Probability(s, keys), WithRole(role), InRole(role));
    QuotientBack(s.targets[role], TotalTarget(s.targets));
  }

  lemma RowsGetRoleShares(rows: seq<Row>, s: Setup, pyroSource: string, weights: seq<real>)
    requires Accepted(s, KeysOf(rows, pyroSource)) && rows != [] && Weighs(rows, s, pyroSource, weights)
    ensures s.targets.Keys == ROLES && HitsRoleShares(rows, s, weights)
  {
    hide Probability, SumIf, Accepted, Mass, TotalTarget, HitsShare;
    var keys := KeysOf(rows, pyroSource);
    AcceptedTargets(s, keys);
    forall i | 0 <= i < |weights| ensures weights[i] > 0.0 {
      RolesGetTheirShares(s, keys, keys[i], "positive");
    }
    RolesGetTheirShares(s, keys, keys[0], "positive");
    MassIsSum(rows, keys, weights, Probability(s, keys), AnyRow(), Everything());
    forall role | role in ROLES ensures HitsShare(rows, s, weights, role) {
      RoleMassOfRows(rows, s, pyroSource, weights, role);
    }
  }

  lemma RowsGetPyroShare(rows: seq<Row>, s: Setup, pyroSource: string, weights: seq<real>)
    requires Accepted(s, KeysOf(rows, pyroSource)) && Weighs(rows, s, pyroSource, weights)
    ensures s.targets.Keys == ROLES && HitsPyroShare(rows, s, pyroSource, weights)
  {
    hide Probability, SumIf, Mass, PartOf, PyroPart, Accepted, TotalTarget, IsMean, PyroTotal;
    var keys := KeysOf(rows, pyroSource);
    PartOfRows(rows, s, pyroSource, "positive");
    PartOfRows(rows, s, pyroSource, "negative");
    PartOfRows(rows, s, pyroSource, "abstention");
    AcceptedTargets(s, keys);
    PyroGetsItsParts(s, keys);
    MassIsSum(rows, keys, weights, Probability(s, keys), From(pyroSource), IsPyro());
    QuotientBack(PyroTotal(s, keys), TotalTarget(s.targets));
    PyroMean(Mass(rows, weights, From(pyroSource)), s, keys);
  }

  lemma PyroMean(mass: real, s: Setup, keys: seq<Key>)
    requires s.targets.Keys == ROLES && mass * TotalTarget(s.targets) == PyroTotal(s, keys)
    ensures IsMean(mass, s.targets["positive"], PyroPart(s, keys, "positive"),
      s.targets["negative"], PyroPart(s, keys, "negative"), s.targets["abstention"], PyroPart(s, keys, "abstention"))
  {
    hide PyroPart;
  }

  lemma PartOfRows(rows: seq<Row>, s: Setup, pyroSource: string, role: string)
    requires role in ROLES
    ensures PartOf(rows, s, pyroSource, role) == PyroPart(s, KeysOf(rows, pyroSource), role)
  {
    hide HasOrigin, Places, KeysOf;
    OriginPlaces(rows, pyroSource, role);
  }

  lemma {:induction false} CountIsPlaces(keys: seq<Key>, k: Key)
    ensures Count(keys, k) == |set i: nat | i < |keys| && keys[i] == k|
  {
    if keys != [] {
      var n := |keys| - 1;
      assert keys == keys[..n] + [keys[n]];
      CountIsPlaces(keys[..n], k);
      CountNext(keys[..n], keys[n], k);
      var before := set i: nat | i < n && keys[..n][i] == k;
      assert (set i: nat | i < |keys| && keys[i] == k) == if keys[n] == k then before + {n} else before;
    }
  }

  function Is(k: Key): Key -> bool {
    (other: Key) => other == k
  }

  lemma {:induction false} SumOfOneKey(keys: seq<Key>, w: Key -> real, k: Key)
    ensures SumIf(keys, w, Is(k)) == Times(Count(keys, k), w(k))
  {
    if keys == [] {
      assert 0 as real * w(k) == 0.0;
    } else {
      var n := |keys| - 1;
      assert keys == keys[..n] + [keys[n]];
      SumOfOneKey(keys[..n], w, k);
      CountNext(keys[..n], keys[n], k);
      OneMoreTime(Count(keys[..n], k), w(k));
    }
  }

  lemma OneMoreTime(n: nat, x: real)
    ensures Times(n + 1, x) == Times(n, x) + x
  {
  }

  lemma KeyOfSource(rows: seq<Row>, pyroSource: string, role: string, source: string)
    requires role in ROLES
    ensures var k := Key(role, source == pyroSource, source);
      forall i :: 0 <= i < |rows| ==> (WithRoleFrom(role, source)(rows[i]) <==> KeysOf(rows, pyroSource)[i] == k)
  {
    forall i | 0 <= i < |rows|
      ensures WithRoleFrom(role, source)(rows[i]) <==>
        KeysOf(rows, pyroSource)[i] == Key(role, source == pyroSource, source)
    {
      RolesAreRoles(rows[i], pyroSource, role);
    }
  }

  /** A source's rows in a role, by key. */
  lemma SourceMassOfRows(rows: seq<Row>, s: Setup, pyroSource: string, weights: seq<real>, role: string, source: string)
    requires role in ROLES && Weighs(rows, s, pyroSource, weights)
    ensures var keys, k := KeysOf(rows, pyroSource), Key(role, source == pyroSource, source);
      && Mass(rows, weights, WithRoleFrom(role, source)) == SourceShare(s, keys, k)
      && |Places(rows, WithRoleFrom(role, source))| == Count(keys, k)
      && (Places(rows, WithRoleFrom(role, source)) != {} ==> k in keys)
  {
    hide Probability, SumIf, Mass, Count;
    var keys, k := KeysOf(rows, pyroSource), Key(role, source == pyroSource, source);
    KeyOfSource(rows, pyroSource, role, source);
    hide KeysOf, WithRoleFrom;
    MassIsSum(rows, keys, weights, Probability(s, keys), WithRoleFrom(role, source), Is(k));
    SumOfOneKey(keys, Probability(s, keys), k);
    CountIsPlaces(keys, k);
    assert Places(rows, WithRoleFrom(role, source)) == set i: nat | i < |keys| && keys[i] == k;
  }

  lemma RowsShareByScore(rows: seq<Row>, s: Setup, pyroSource: string, weights: seq<real>)
    requires Accepted(s, KeysOf(rows, pyroSource)) && Weighs(rows, s, pyroSource, weights)
    ensures HitsSourceShares(rows, s, pyroSource, weights)
  {
    hide SourceShare, Accepted, Mass, Places, Count, Probability, Even;
    var keys := KeysOf(rows, pyroSource);
    forall role, a, b | role in ROLES && (a == pyroSource <==> b == pyroSource) && BothDrawn(rows, role, a, b)
      ensures Proportional(rows, s, weights, role, a, b) && Even(rows, weights, role, a)
    {
      SourceMassOfRows(rows, s, pyroSource, weights, role, a);
      SourceMassOfRows(rows, s, pyroSource, weights, role, b);
      SourcesShareByScore(s, keys, Key(role, a == pyroSource, a), Key(role, b == pyroSource, b));
      EvenWithinSource(rows, s, pyroSource, weights, role, a);
    }
  }

  lemma EvenWithinSource(rows: seq<Row>, s: Setup, pyroSource: string, weights: seq<real>, role: string, source: string)
    requires Weighs(rows, s, pyroSource, weights) && role in ROLES
    ensures Even(rows, weights, role, source)
  {
    hide Probability;
    KeyOfSource(rows, pyroSource, role, source);
  }

  ghost predicate BothOriginsOccur(rows: seq<Row>, pyroSource: string, role: string) {
    && (exists i :: 0 <= i < |rows| && HasRole(rows[i], role) && IsFrom(rows[i], pyroSource))
    && (exists i :: 0 <= i < |rows| && HasRole(rows[i], role) && !IsFrom(rows[i], pyroSource))
  }

  /** If every role has rows of the distinguished source and rows of other sources, the
      distinguished source's rows weigh the configured share. */
  lemma PyroRowsGetTheShare(rows: seq<Row>, s: Setup, pyroSource: string, weights: seq<real>)
    requires |rows| == |weights| && s.targets.Keys == ROLES && HitsPyroShare(rows, s, pyroSource, weights)
    requires forall role :: role in ROLES ==> s.targets[role] > 0.0
    requires forall role :: role in ROLES ==> BothOriginsOccur(rows, pyroSource, role)
    ensures Mass(rows, weights, From(pyroSource)) == s.share
  {
    hide Mass, PartOf, BothOriginsOccur, IsMean;
    forall role | role in ROLES ensures PartOf(rows, s, pyroSource, role) == s.share {
      PartIsShare(rows, s, pyroSource, role);
    }
    var a, b, c := s.targets["positive"], s.targets["negative"], s.targets["abstention"];
    MeanOfEqualParts(Mass(rows, weights, From(pyroSource)), a, PartOf(rows, s, pyroSource, "positive"),
                     b, PartOf(rows, s, pyroSource, "negative"), c, PartOf(rows, s, pyroSource, "abstention"), s.share);
  }

  lemma PartIsShare(rows: seq<Row>, s: Setup, pyroSource: string, role: string)
    requires BothOriginsOccur(rows, pyroSource, role)
    ensures PartOf(rows, s, pyroSource, role) == s.share
  {
    hide HasRole, IsFrom;
    var i: nat :| i < |rows| && HasRole(rows[i], role) && IsFrom(rows[i], pyroSource);
    var j: nat :| j < |rows| && HasRole(rows[j], role) && !IsFrom(rows[j], pyroSource);
    var here, pyro := Places(rows, WithRole(role)), Places(rows, From(pyroSource));
    assert i in here && i in pyro && j in here && j !in pyro;
  }

  lemma MeanOfEqualParts(mean: real, a: real, p: real, b: real, q: real, c: real, r: real, share: real)
    requires a > 0.0 && b > 0.0 && c > 0.0 && p == q == r == share && IsMean(mean, a, p, b, q, c, r)
    ensures mean == share
  {
    assert (mean - share) * (a + b + c) == 0.0;
  }

  function Squared(x: real): real {
    x * x
  }

  /** The effective sample size, one over the sum of the squared weights, is at most the number of rows. */
  lemma EffectiveSizeOfRows(rows: seq<Row>, s: Setup, pyroSource: string, weights: seq<real>, squares: seq<real>)
    requires Accepted(s, KeysOf(rows, pyroSource)) && Weighs(rows, s, pyroSource, weights)
    requires |squares| == |weights| && forall i :: 0 <= i < |weights| ==> squares[i] == Squared(weights[i])
    ensures var total := Mass(rows, squares, AnyRow());
      total > 0.0 && 0.0 < 1.0 / total <= |rows| as real
  {
    hide Probability, SumIf, Accepted, Mass, Squared, Square, EffectiveSize;
    var keys := KeysOf(rows, pyroSource);
    forall i | 0 <= i < |rows| ensures squares[i] == Square(Probability(s, keys))(keys[i]) {
      SquareAt(Probability(s, keys), keys[i], weights[i]);
    }
    MassIsSum(rows, keys, squares, Square(Probability(s, keys)), AnyRow(), Everything());
    EffectiveSizeIsBounded(s, keys);
    EffectiveSizeFromSquares(s, keys);
  }

  lemma SquareAt(w: Key -> real, k: Key, x: real)
    requires x == w(k)
    ensures Squared(x) == Square(w)(k)
  {
  }

  lemma EffectiveSizeFromSquares(s: Setup, keys: seq<Key>)
    requires EffectiveSize(s, keys) > 0.0
    ensures var total := SumIf(keys, Square(Probability(s, keys)), Everything());
      total > 0.0 && EffectiveSize(s, keys) == 1.0 / total
  {
    hide Probability, SumIf;
    SquaresAreNonNegative(keys, Probability(s, keys));
  }

  lemma {:induction false} SquaresAreNonNegative(keys: seq<Key>, w: Key -> real)
    ensures SumIf(keys, Square(w), Everything()) >= 0.0
  {
    if keys != [] {
      SquaresAreNonNegative(keys[..|keys| - 1], w);
      SquareIsNonNegative(w(keys[|keys| - 1]));
    }
  }
}
