/** Sampling probabilities that hit fixed shares per supervision role and per origin. */
module SamplingWeights {
  import opened Counting
  import opened Labels

  const ROLES: set<string> := {"positive", "negative", "abstention"}
  const TOLERANCE := 0.000001

  datatype Row = Row(abstains: bool, strength: string, source: string)

  /** What a row's probability depends on; `pyro` marks the distinguished source. */
  datatype Key = Key(role: string, pyro: bool, source: string)

  /** `supervision_role` */
  function RoleOf(r: Row): (role: string)
    ensures role in ROLES
    ensures role == "abstention" <==> r.abstains
    ensures role == "negative" <==> !r.abstains && r.strength in {"negative", "temporal_negative"}
  {
    if r.abstains then "abstention"
    else if r.strength == "negative" || r.strength == "temporal_negative" then "negative"
    else "positive"
  }

  function KeyOf(r: Row, pyroSource: string): Key {
    var source := if r.source == "" then "unknown" else r.source;
    Key(RoleOf(r), source == pyroSource, source)
  }

  /** `score` is the square root of a group's size; only its sign matters here. */
  datatype Setup = Setup(targets: map<string, real>, share: real, score: nat -> real)

  ghost predicate Positive(score: nat -> real) {
    forall n :: n > 0 ==> score(n) > 0.0
  }

  function TotalTarget(targets: map<string, real>): real
    requires targets.Keys == ROLES
  {
    targets["positive"] + targets["negative"] + targets["abstention"]
  }

  predicate Checked(s: Setup) {
    && s.targets.Keys == ROLES
    && (forall role :: role in s.targets ==> s.targets[role] > 0.0)
    && -TOLERANCE <= TotalTarget(s.targets) - 1.0 <= TOLERANCE
    && 0.0 < s.share < 1.0
  }

  predicate HasOrigin(keys: seq<Key>, role: string, pyro: bool) {
    exists k :: k in keys && k.role == role && k.pyro == pyro
  }

  predicate AllRolesPresent(keys: seq<Key>) {
    forall role :: role in ROLES ==> HasOrigin(keys, role, false) || HasOrigin(keys, role, true)
  }

  // ---- The probability of a key ----

  function OriginMass(s: Setup, pyro: bool): real {
    if pyro then s.share else 1.0 - s.share
  }

  function OriginTotal(s: Setup, keys: seq<Key>, role: string): real {
    (if HasOrigin(keys, role, false) then OriginMass(s, false) else 0.0)
    + (if HasOrigin(keys, role, true) then OriginMass(s, true) else 0.0)
  }

  /** The share of one role and origin: the role's target, split over the origins present. */
  function CellTarget(s: Setup, keys: seq<Key>, role: string, pyro: bool): real {
    if role !in s.targets || OriginTotal(s, keys, role) == 0.0 then 0.0
    else Portion(s.targets[role], OriginMass(s, pyro), OriginTotal(s, keys, role))
  }

  function Portion(whole: real, part: real, total: real): real
    requires total != 0.0
  {
    whole * part / total
  }

  function SourcesIn(keys: seq<Key>, role: string, pyro: bool): set<string> {
    set k | k in keys && k.role == role && k.pyro == pyro :: k.source
  }

  function Count(keys: seq<Key>, k: Key): nat {
    multiset(keys)[k]
  }

  function ScoreSum(s: Setup, keys: seq<Key>, role: string, pyro: bool, sources: seq<string>): real {
    if sources == [] then 0.0 else
      var last := sources[|sources| - 1];
      ScoreSum(s, keys, role, pyro, sources[..|sources| - 1]) + s.score(Count(keys, Key(role, pyro, last)))
  }

  function ScoreTotal(s: Setup, keys: seq<Key>, role: string, pyro: bool): real {
    ScoreSum(s, keys, role, pyro, SortedLabels(SourcesIn(keys, role, pyro)))
  }

  /** Before normalising: a source's part of its cell, shared evenly by its rows. */
  function Raw(s: Setup, keys: seq<Key>, k: Key): real {
    if k !in keys || ScoreTotal(s, keys, k.role, k.pyro) == 0.0 then 0.0 else
      Spread(CellTarget(s, keys, k.role, k.pyro), s.score(Count(keys, k)), ScoreTotal(s, keys, k.role, k.pyro),
        Count(keys, k))
  }

  /** A source's part of its cell, by score, over its rows. */
  function Spread(cell: real, score: real, total: real, rows: nat): real
    requires total != 0.0 && rows > 0
  {
    cell * score / total / rows as real
  }

  // ---- Sums over rows ----

  function SumIf(keys: seq<Key>, w: Key -> real, p: Key -> bool): real {
    if keys == [] then 0.0 else
      var k := keys[|keys| - 1];
      SumIf(keys[..|keys| - 1], w, p) + if p(k) then w(k) else 0.0
  }

  function InCell(role: string, pyro: bool): Key -> bool {
    (k: Key) => k.role == role && k.pyro == pyro
  }

  function InRole(role: string): Key -> bool {
    (k: Key) => k.role == role
  }

  function Everything(): Key -> bool {
    (k: Key) => true
  }

  function IsPyro(): Key -> bool {
    (k: Key) => k.pyro
  }

  /** The sum over a cell's sources of each one's row count times its weight. */
  function GroupSum(keys: seq<Key>, w: Key -> real, role: string, pyro: bool, sources: seq<string>): real {
    if sources == [] then 0.0 else
      var k := Key(role, pyro, sources[|sources| - 1]);
      GroupSum(keys, w, role, pyro, sources[..|sources| - 1]) + Count(keys, k) as real * w(k)
  }

  lemma {:induction false} GroupSumNext(front: seq<Key>, k: Key, w: Key -> real, role: string, pyro: bool,
                                        sources: seq<string>)
    requires Distinct(sources)
    ensures GroupSum(front + [k], w, role, pyro, sources) == GroupSum(front, w, role, pyro, sources)
      + if k.role == role && k.pyro == pyro && k.source in sources then w(k) else 0.0
  {
    hide Count;
    if sources != [] {
      var n := |sources| - 1;
      var last := Key(role, pyro, sources[n]);
      GroupSumNext(front, k, w, role, pyro, sources[..n]);
      LastOrBefore(sources, k.source);
      CountNext(front, k, last);
      OneMoreTimes(Count(front, last), w(last));
      assert Count(front + [k], last) as real * w(last)
        == Count(front, last) as real * w(last) + if k == last then w(k) else 0.0;
    }
  }

  lemma LastOrBefore(sources: seq<string>, x: string)
    requires sources != [] && Distinct(sources)
    ensures x in sources <==> x in sources[..|sources| - 1] || x == sources[|sources| - 1]
    ensures !(x in sources[..|sources| - 1] && x == sources[|sources| - 1])
  {
  }

  lemma CountNext(front: seq<Key>, k: Key, other: Key)
    ensures Count(front + [k], other) == Count(front, other) + if k == other then 1 else 0
  {
  }

  /** Summing a cell row by row is summing it source by source. */
  lemma {:induction false} Regroup(keys: seq<Key>, w: Key -> real, role: string, pyro: bool, sources: seq<string>)
    requires Distinct(sources) && forall k :: k in keys && InCell(role, pyro)(k) ==> k.source in sources
    ensures SumIf(keys, w, InCell(role, pyro)) == GroupSum(keys, w, role, pyro, sources)
  {
    if keys == [] {
      NoGroups(w, role, pyro, sources);
    } else {
      var n := |keys| - 1;
      assert keys == keys[..n] + [keys[n]];
      Regroup(keys[..n], w, role, pyro, sources);
      GroupSumNext(keys[..n], keys[n], w, role, pyro, sources);
    }
  }

  lemma {:induction false} NoGroups(w: Key -> real, role: string, pyro: bool, sources: seq<string>)
    ensures GroupSum([], w, role, pyro, sources) == 0.0
  {
    if sources != [] { NoGroups(w, role, pyro, sources[..|sources| - 1]); }
  }

  lemma {:induction false} SumIfOfNone(keys: seq<Key>, w: Key -> real, p: Key -> bool)
    requires forall k :: k in keys ==> !p(k)
    ensures SumIf(keys, w, p) == 0.0
  {
    if keys != [] {
      assert keys == keys[..|keys| - 1] + [keys[|keys| - 1]];
      SumIfOfNone(keys[..|keys| - 1], w, p);
    }
  }

  lemma {:induction false} SumIfSplits(keys: seq<Key>, w: Key -> real, p: Key -> bool, q: Key -> bool, r: Key -> bool)
    requires forall k :: k in keys ==> (p(k) <==> q(k) || r(k)) && !(q(k) && r(k))
    ensures SumIf(keys, w, p) == SumIf(keys, w, q) + SumIf(keys, w, r)
  {
    if keys != [] {
      assert keys == keys[..|keys| - 1] + [keys[|keys| - 1]];
      SumIfSplits(keys[..|keys| - 1], w, p, q, r);
    }
  }

  lemma Distribute(a: real, b: real, c: real)
    ensures (a + b) * c == a * c + b * c
  {
  }

  // ---- Mass of a cell, a role and everything ----

  lemma {:induction false} ScoreSumPositive(s: Setup, keys: seq<Key>, role: string, pyro: bool, sources: seq<string>)
    requires Positive(s.score) && sources != []
    requires forall x :: x in sources ==> Key(role, pyro, x) in keys
    ensures ScoreSum(s, keys, role, pyro, sources) > 0.0
  {
    var n := |sources| - 1;
    assert sources[n] in sources && Key(role, pyro, sources[n]) in multiset(keys);
    if n > 0 {
      assert forall x :: x in sources[..n] ==> x in sources;
      ScoreSumPositive(s, keys, role, pyro, sources[..n]);
    }
  }

  lemma ScoreTotalPositive(s: Setup, keys: seq<Key>, k: Key)
    requires Positive(s.score) && k in keys
    ensures ScoreTotal(s, keys, k.role, k.pyro) > 0.0 && Count(keys, k) > 0 && s.score(Count(keys, k)) > 0.0
  {
    var sources := SortedLabels(SourcesIn(keys, k.role, k.pyro));
    assert k.source in sources && k in multiset(keys);
    forall x | x in sources ensures Key(k.role, k.pyro, x) in keys {
      var j :| j in keys && j.role == k.role && j.pyro == k.pyro && j.source == x;
      assert j == Key(k.role, k.pyro, x);
    }
    ScoreSumPositive(s, keys, k.role, k.pyro, sources);
  }

  lemma CellTargetPositive(s: Setup, keys: seq<Key>, k: Key)
    requires Checked(s) && k in keys && k.role in ROLES
    ensures CellTarget(s, keys, k.role, k.pyro) > 0.0
  {
    hide HasOrigin;
    assert HasOrigin(keys, k.role, k.pyro) by { OwnOrigin(keys, k); }
    OriginTotalPositive(s, keys, k.role);
    hide OriginTotal, Portion;
    PositivePortion(s.targets[k.role], OriginMass(s, k.pyro), OriginTotal(s, keys, k.role));
  }

  lemma PositivePortion(whole: real, part: real, total: real)
    requires whole > 0.0 && part > 0.0 && total > 0.0
    ensures Portion(whole, part, total) > 0.0
  {
    PositiveProduct(whole, part);
    PositiveQuotient(whole * part, total);
  }

  lemma OwnOrigin(keys: seq<Key>, k: Key)
    requires k in keys
    ensures HasOrigin(keys, k.role, k.pyro)
  {
  }

  lemma OriginTotalPositive(s: Setup, keys: seq<Key>, role: string)
    requires 0.0 < s.share < 1.0 && (HasOrigin(keys, role, false) || HasOrigin(keys, role, true))
    ensures OriginTotal(s, keys, role) > 0.0
  {
    hide HasOrigin;
  }

  lemma PositiveProduct(a: real, b: real)
    requires a > 0.0 && b > 0.0
    ensures a * b > 0.0
  {
  }

  lemma PositiveQuotient(a: real, b: real)
    requires a > 0.0 && b > 0.0
    ensures a / b > 0.0
  {
    var q := a / b;
    assert q * b == a;
    assert q <= 0.0 ==> q * b <= 0.0;
  }

  lemma RawPositive(s: Setup, keys: seq<Key>, k: Key)
    requires Checked(s) && Positive(s.score) && k in keys && k.role in ROLES
    ensures Raw(s, keys, k) > 0.0
  {
    hide CellTarget, ScoreTotal;
    CellTargetPositive(s, keys, k);
    ScoreTotalPositive(s, keys, k);
    var cell, score, total := CellTarget(s, keys, k.role, k.pyro), s.score(Count(keys, k)),
      ScoreTotal(s, keys, k.role, k.pyro);
    PositiveProduct(cell, score);
    PositiveQuotient(cell * score, total);
    PositiveQuotient(cell * score / total, Count(keys, k) as real);
  }

  /** A source's rows together weigh its score's fraction of the cell. */
  lemma SourceMass(s: Setup, keys: seq<Key>, k: Key)
    requires Positive(s.score) && k in keys && ScoreTotal(s, keys, k.role, k.pyro) != 0.0
    ensures Count(keys, k) as real * Raw(s, keys, k)
         == CellTarget(s, keys, k.role, k.pyro) / ScoreTotal(s, keys, k.role, k.pyro) * s.score(Count(keys, k))
  {
    hide CellTarget, ScoreTotal, Count, Spread;
    ScoreTotalPositive(s, keys, k);
    SpreadBack(CellTarget(s, keys, k.role, k.pyro), s.score(Count(keys, k)), ScoreTotal(s, keys, k.role, k.pyro),
      Count(keys, k));
  }

  lemma SpreadBack(cell: real, score: real, total: real, rows: nat)
    requires total > 0.0 && rows > 0
    ensures rows as real * Spread(cell, score, total, rows) == cell / total * score
  {
    var x, n := cell * score / total, rows as real;
    assert n * (x / n) == x;
    var y := cell / total;
    assert y * total == cell;
    assert cell * score == (y * score) * total;
    assert x == y * score;
  }

  lemma {:induction false} GroupSumIsShare(s: Setup, keys: seq<Key>, w: Key -> real, role: string, pyro: bool,
                                           sources: seq<string>)
    requires Positive(s.score) && (forall x :: x in sources ==> Key(role, pyro, x) in keys)
    requires forall k :: k in keys ==> w(k) == Raw(s, keys, k)
    requires ScoreTotal(s, keys, role, pyro) != 0.0
    ensures GroupSum(keys, w, role, pyro, sources)
         == CellTarget(s, keys, role, pyro) / ScoreTotal(s, keys, role, pyro) * ScoreSum(s, keys, role, pyro, sources)
  {
    hide CellTarget, ScoreTotal, Raw, Count;
    if sources != [] {
      var n := |sources| - 1;
      var k := Key(role, pyro, sources[n]);
      assert sources[n] in sources && forall x :: x in sources[..n] ==> x in sources;
      GroupSumIsShare(s, keys, w, role, pyro, sources[..n]);
      SourceMass(s, keys, k);
      var c := CellTarget(s, keys, role, pyro) / ScoreTotal(s, keys, role, pyro);
      Distribute(ScoreSum(s, keys, role, pyro, sources[..n]), s.score(Count(keys, k)), c);
    }
  }

  /** The rows of a role and origin together weigh the cell's target. */
  lemma CellMass(s: Setup, keys: seq<Key>, w: Key -> real, role: string, pyro: bool)
    requires Positive(s.score) && forall k :: k in keys ==> w(k) == Raw(s, keys, k)
    ensures SumIf(keys, w, InCell(role, pyro))
      == if HasOrigin(keys, role, pyro) then CellTarget(s, keys, role, pyro) else 0.0
  {
    hide CellTarget, Raw, SumIf;
    if k :| k in keys && k.role == role && k.pyro == pyro {
      FilledCellMass(s, keys, w, k);
    } else {
      SumIfOfNone(keys, w, InCell(role, pyro));
    }
  }

  lemma FilledCellMass(s: Setup, keys: seq<Key>, w: Key -> real, k: Key)
    requires k in keys && Positive(s.score) && forall k :: k in keys ==> w(k) == Raw(s, keys, k)
    ensures SumIf(keys, w, InCell(k.role, k.pyro)) == CellTarget(s, keys, k.role, k.pyro)
  {
    hide CellTarget, Raw, ScoreSum, GroupSum, SumIf, SortedLabels, SourcesIn;
    var role, pyro := k.role, k.pyro;
    var sources := SortedLabels(SourcesIn(keys, role, pyro));
    ScoreTotalPositive(s, keys, k);
    AscendingIsDistinct(sources);
    SourcesHaveKeys(keys, role, pyro);
    Regroup(keys, w, role, pyro, sources);
    GroupSumIsShare(s, keys, w, role, pyro, sources);
    WholeCell(GroupSum(keys, w, role, pyro, sources), CellTarget(s, keys, role, pyro),
              ScoreTotal(s, keys, role, pyro), ScoreSum(s, keys, role, pyro, sources));
  }

  lemma WholeCell(mass: real, target: real, total: real, sum: real)
    requires total != 0.0 && sum == total && mass == target / total * sum
    ensures mass == target
  {
  }

  lemma SourcesHaveKeys(keys: seq<Key>, role: string, pyro: bool)
    ensures forall x :: x in SourcesIn(keys, role, pyro) ==> Key(role, pyro, x) in keys
    ensures forall k :: k in keys && InCell(role, pyro)(k) ==> k.source in SourcesIn(keys, role, pyro)
  {
    forall x | x in SourcesIn(keys, role, pyro) ensures Key(role, pyro, x) in keys {
      var k :| k in keys && k.role == role && k.pyro == pyro && k.source == x;
      assert k == Key(role, pyro, x);
    }
  }

  /** The rows of a role together weigh its target. */
  lemma RoleMass(s: Setup, keys: seq<Key>, w: Key -> real, role: string)
    requires Checked(s) && Positive(s.score) && role in ROLES && AllRolesPresent(keys)
    requires forall k :: k in keys ==> w(k) == Raw(s, keys, k)
    ensures SumIf(keys, w, InRole(role)) == s.targets[role]
  {
    hide SumIf, Raw;
    CellMass(s, keys, w, role, false);
    CellMass(s, keys, w, role, true);
    SumIfSplits(keys, w, InRole(role), InCell(role, false), InCell(role, true));
    SplitOverOrigins(s, keys, role);
  }

  lemma SplitOverOrigins(s: Setup, keys: seq<Key>, role: string)
    requires Checked(s) && role in ROLES && AllRolesPresent(keys)
    ensures (if HasOrigin(keys, role, false) then CellTarget(s, keys, role, false) else 0.0)
          + (if HasOrigin(keys, role, true) then CellTarget(s, keys, role, true) else 0.0) == s.targets[role]
  {
    hide HasOrigin, Portion;
    OriginTotalPositive(s, keys, role);
    SplitTarget(s.targets[role], OriginMass(s, false), OriginMass(s, true), HasOrigin(keys, role, false),
      HasOrigin(keys, role, true));
  }

  lemma SplitTarget(t: real, a: real, b: real, hasA: bool, hasB: bool)
    requires a > 0.0 && b > 0.0 && (hasA || hasB)
    ensures var total := (if hasA then a else 0.0) + (if hasB then b else 0.0);
      (if hasA then Portion(t, a, total) else 0.0) + (if hasB then Portion(t, b, total) else 0.0) == t
  {
    Parts(t, a, b, (if hasA then a else 0.0) + (if hasB then b else 0.0));
  }

  lemma Parts(t: real, a: real, b: real, total: real)
    requires total > 0.0
    ensures a + b == total ==> t * a / total + t * b / total == t
    ensures a == total ==> t * a / total == t
    ensures b == total ==> t * b / total == t
  {
    var x, y := t * a / total, t * b / total;
    assert x * total == t * a && y * total == t * b;
    assert (x + y) * total == t * (a + b);
    assert a + b == total ==> (x + y - t) * total == 0.0;
  }

  lemma RawTotal(s: Setup, keys: seq<Key>, w: Key -> real)
    requires Checked(s) && Positive(s.score) && AllRolesPresent(keys)
    requires forall k :: k in keys ==> k.role in ROLES && w(k) == Raw(s, keys, k)
    ensures SumIf(keys, w, Everything()) == TotalTarget(s.targets)
  {
    hide SumIf, Raw, HasOrigin;
    RoleMass(s, keys, w, "positive");
    RoleMass(s, keys, w, "negative");
    RoleMass(s, keys, w, "abstention");
    var rest := (k: Key) => k.role == "negative" || k.role == "abstention";
    SumIfSplits(keys, w, rest, InRole("negative"), InRole("abstention"));
    SumIfSplits(keys, w, Everything(), InRole("positive"), rest);
  }
}
