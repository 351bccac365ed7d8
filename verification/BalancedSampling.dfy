/** The loops that compute the sampling probabilities. */
module BalancedSampling {
  import opened Outcomes
  import opened Labels
  import opened Sorting
  import opened SamplingWeights
  import opened SamplingMargins
  import opened SampledRows

  // ---- The loops ----

  ghost predicate Indexed(groups: map<Key, seq<nat>>, keys: seq<Key>, n: nat)
    requires n <= |keys|
  {
    && (forall k :: k in groups <==> k in keys[..n])
    && (forall k :: k in groups ==> |groups[k]| == Count(keys[..n], k) && Positions(groups[k], keys, n, k))
  }

  ghost predicate Positions(indices: seq<nat>, keys: seq<Key>, n: nat, k: Key)
    requires n <= |keys|
  {
    forall j :: j in indices <==> 0 <= j < n && keys[j] == k
  }

  method GroupRows(keys: seq<Key>) returns (groups: map<Key, seq<nat>>)
    ensures Indexed(groups, keys, |keys|)
  {
    hide Count;
    groups := map[];
    for i := 0 to |keys|
      invariant Indexed(groups, keys, i)
    {
      var k := keys[i];
      IndexedNext(groups, keys, i);
      groups := groups[k := (if k in groups then groups[k] else []) + [i]];
    }
  }

  lemma IndexedNext(groups: map<Key, seq<nat>>, keys: seq<Key>, i: nat)
    requires i < |keys| && Indexed(groups, keys, i)
    ensures Indexed(groups[keys[i] := (if keys[i] in groups then groups[keys[i]] else []) + [i]], keys, i + 1)
  {
    hide Count, Positions;
    var k := keys[i];
    var before := if k in groups then groups[k] else [];
    var next := groups[k := before + [i]];
    assert keys[..i + 1] == keys[..i] + [k];
    assert |before| == Count(keys[..i], k) && Positions(before, keys, i, k) by { BeforeAny(groups, keys, i); }
    forall x | x in next ensures |next[x]| == Count(keys[..i + 1], x) && Positions(next[x], keys, i + 1, x) {
      CountNext(keys[..i], k, x);
      PositionsNext(if x in groups then groups[x] else [], keys, i, x);
    }
  }

  lemma BeforeAny(groups: map<Key, seq<nat>>, keys: seq<Key>, i: nat)
    requires i < |keys| && Indexed(groups, keys, i)
    ensures keys[i] !in groups ==> Count(keys[..i], keys[i]) == 0 && Positions([], keys, i, keys[i])
  {
    if keys[i] !in groups {
      assert keys[i] !in multiset(keys[..i]);
      forall j | 0 <= j < i ensures keys[j] != keys[i] { assert keys[j] in keys[..i]; }
    }
  }

  lemma PositionsNext(indices: seq<nat>, keys: seq<Key>, i: nat, k: Key)
    requires i < |keys| && Positions(indices, keys, i, k)
    ensures Positions(if keys[i] == k then indices + [i] else indices, keys, i + 1, k)
  {
  }

  method Sum(a: array<real>, keys: seq<Key>, ghost w: Key -> real) returns (total: real)
    requires a.Length == |keys| && forall i :: 0 <= i < |keys| ==> a[i] == w(keys[i])
    ensures total == SumIf(keys, w, Everything())
  {
    total := 0.0;
    for i := 0 to a.Length
      invariant total == SumIf(keys[..i], w, Everything())
    {
      assert keys[..i + 1][..i] == keys[..i];
      total := total + a[i];
    }
    assert keys[..|keys|] == keys;
  }

  method Fill(a: array<real>, indices: seq<nat>, value: real)
    requires forall j :: j in indices ==> j < a.Length
    modifies a
    ensures forall j :: 0 <= j < a.Length ==> a[j] == if j in indices then value else old(a[j])
  {
    for n := 0 to |indices|
      invariant forall j :: 0 <= j < a.Length ==> a[j] == if j in indices[..n] then value else old(a[j])
    {
      assert indices[..n + 1] == indices[..n] + [indices[n]] && indices[n] in indices;
      a[indices[n]] := value;
    }
    assert indices[..|indices|] == indices;
  }

  method AddScores(s: Setup, keys: seq<Key>, groups: map<Key, seq<nat>>, role: string, pyro: bool, sources: seq<string>)
      returns (total: real)
    requires Indexed(groups, keys, |keys|) && forall x :: x in sources ==> Key(role, pyro, x) in keys
    ensures total == ScoreSum(s, keys, role, pyro, sources)
  {
    hide Count;
    assert keys[..|keys|] == keys;
    total := 0.0;
    for n := 0 to |sources|
      invariant total == ScoreSum(s, keys, role, pyro, sources[..n])
    {
      assert sources[..n + 1][..n] == sources[..n] && sources[n] in sources;
      total := total + s.score(|groups[Key(role, pyro, sources[n])]|);
    }
    assert sources[..|sources|] == sources;
  }

  /** Giving every row of one source its weight. */
  method FillSource(a: array<real>, s: Setup, keys: seq<Key>, groups: map<Key, seq<nat>>, k: Key, cell: real,
                    total: real)
    requires a.Length == |keys| && Indexed(groups, keys, |keys|) && Positive(s.score) && k in keys
    requires cell == CellTarget(s, keys, k.role, k.pyro) && total == ScoreTotal(s, keys, k.role, k.pyro)
    modifies a
    ensures forall i :: 0 <= i < |keys| ==> a[i] == if keys[i] == k then Raw(s, keys, k) else old(a[i])
  {
    hide Spread, Count, ScoreTotal, CellTarget;
    assert keys[..|keys|] == keys;
    var indices := groups[k];
    ScoreTotalPositive(s, keys, k);
    assert |indices| == Count(keys, k) && Positions(indices, keys, |keys|, k);
    Fill(a, indices, Spread(cell, s.score(|indices|), total, |indices|));
  }

  /** Filling one role and origin: its target, split over its sources by score. */
  method FillCell(a: array<real>, s: Setup, keys: seq<Key>, groups: map<Key, seq<nat>>, role: string, pyro: bool,
                  ghost done: Key -> bool)
    requires a.Length == |keys| && Indexed(groups, keys, |keys|) && Positive(s.score)
    requires forall i :: 0 <= i < |keys| && done(keys[i]) ==> a[i] == Raw(s, keys, keys[i])
    requires role in s.targets && OriginTotal(s, keys, role) != 0.0
    modifies a
    ensures forall i :: 0 <= i < |keys| && (done(keys[i]) || InCell(role, pyro)(keys[i])) ==>
      a[i] == Raw(s, keys, keys[i])
  {
    hide Raw, Indexed, SourcesIn, OriginTotal, Positive, ScoreSum;
    var sources := SortedLabels(SourcesIn(keys, role, pyro));
    CellSources(keys, role, pyro);
    var cellTarget := Portion(s.targets[role], OriginMass(s, pyro), OriginTotal(s, keys, role));
    var scoreTotal := AddScores(s, keys, groups, role, pyro, sources);
    FillSources(a, s, keys, groups, role, pyro, sources, cellTarget, scoreTotal, done);
  }

  method FillSources(a: array<real>, s: Setup, keys: seq<Key>, groups: map<Key, seq<nat>>, role: string, pyro: bool,
                     sources: seq<string>, cell: real, total: real, ghost done: Key -> bool)
    requires a.Length == |keys| && Indexed(groups, keys, |keys|) && Positive(s.score)
    requires forall x :: x in sources ==> Key(role, pyro, x) in keys
    requires cell == CellTarget(s, keys, role, pyro) && total == ScoreTotal(s, keys, role, pyro)
    requires forall i :: 0 <= i < |keys| && done(keys[i]) ==> a[i] == Raw(s, keys, keys[i])
    modifies a
    ensures forall i :: 0 <= i < |keys| && done(keys[i]) ==> a[i] == Raw(s, keys, keys[i])
    ensures forall i :: 0 <= i < |keys| && InCell(role, pyro)(keys[i]) && keys[i].source in sources ==>
      a[i] == Raw(s, keys, keys[i])
  {
    hide Raw, Indexed, Positive, CellTarget, ScoreTotal;
    for n := 0 to |sources|
      invariant forall i :: 0 <= i < |keys| && done(keys[i]) ==> a[i] == Raw(s, keys, keys[i])
      invariant forall i :: 0 <= i < |keys| && InCell(role, pyro)(keys[i]) && keys[i].source in sources[..n] ==>
        a[i] == Raw(s, keys, keys[i])
    {
      TakeNext(sources, n);
      FillSource(a, s, keys, groups, Key(role, pyro, sources[n]), cell, total);
    }
    assert sources[..|sources|] == sources;
  }

  lemma CellSources(keys: seq<Key>, role: string, pyro: bool)
    ensures forall x :: x in SortedLabels(SourcesIn(keys, role, pyro)) ==> Key(role, pyro, x) in keys
    ensures forall k :: k in keys && k.role == role && k.pyro == pyro ==>
      k.source in SortedLabels(SourcesIn(keys, role, pyro))
  {
    SourcesHaveKeys(keys, role, pyro);
  }

  /** `balanced_sampling_weights`, up to its report. */
  method BalancedSamplingWeights(rows: seq<Row>, s: Setup, pyroSource: string) returns (r: Result<array<real>>)
    requires Positive(s.score)
    ensures r.Success? <==> Checked(s) && rows != [] && EveryRoleOccurs(rows)
    ensures r.Success? ==> fresh(r.value) && r.value.Length == |rows|
    ensures r.Success? ==> Weighs(rows, s, pyroSource, r.value[..])
    ensures r.Success? ==> HitsRoleShares(rows, s, r.value[..]) && HitsPyroShare(rows, s, pyroSource, r.value[..])
    ensures r.Success? ==> HitsSourceShares(rows, s, pyroSource, r.value[..])
  {
    hide Raw, OriginTotal, HasOrigin, RawSum, Indexed, Positive, Probability, HitsRoleShares, HitsPyroShare,
      HitsSourceShares, Checked, AllRolesPresent, EveryRoleOccurs;
    if !Checked(s) {
      return Failure("invalid role targets or pyro share");
    }
    if rows == [] {
      return Failure("cannot balance an empty training split");
    }
    var keys := KeysOf(rows, pyroSource);
    var groups := GroupRows(keys);
    var probabilities := new real[|rows|](_ => 0.0);
    var complete := FillRoles(probabilities, s, keys, groups);
    RolesOccur(rows, pyroSource);
    if !complete {
      return Failure("training split lacks a role");
    }
    KeysHaveRoles(rows, pyroSource);
    assert forall i :: 0 <= i < |keys| ==> keys[i] in keys;
    RawSumIsTarget(s, keys);
    Normalise(probabilities, s, keys);
    RowsGetRoleShares(rows, s, pyroSource, probabilities[..]);
    RowsGetPyroShare(rows, s, pyroSource, probabilities[..]);
    RowsShareByScore(rows, s, pyroSource, probabilities[..]);
    return Success(probabilities);
  }

  /** The entries of all rows with one of these roles are written. */
  ghost predicate RolesFilled(a: array<real>, s: Setup, keys: seq<Key>, roles: seq<string>)
    requires a.Length == |keys|
    reads a
  {
    forall i :: 0 <= i < |keys| && keys[i].role in roles ==> a[i] == Raw(s, keys, keys[i])
  }

  /** All roles, until one has no rows. */
  method FillRoles(a: array<real>, s: Setup, keys: seq<Key>, groups: map<Key, seq<nat>>) returns (complete: bool)
    requires a.Length == |keys| && Indexed(groups, keys, |keys|) && Positive(s.score) && Checked(s)
    modifies a
    ensures complete <==> AllRolesPresent(keys)
    ensures complete ==> forall i :: 0 <= i < |keys| && keys[i].role in ROLES ==> a[i] == Raw(s, keys, keys[i])
  {
    hide Raw, OriginTotal, HasOrigin, Indexed, Positive, TotalTarget, SortedLabels;
    var roles := SortedLabels(s.targets.Keys);
    for n := 0 to |roles|
      invariant RolesFilled(a, s, keys, roles[..n])
      invariant forall role :: role in roles[..n] ==> HasOrigin(keys, role, false) || HasOrigin(keys, role, true)
    {
      var role := roles[n];
      TakeNext(roles, n);
      if !HasOrigin(keys, role, false) && !HasOrigin(keys, role, true) {
        return false;
      }
      OriginTotalPositive(s, keys, role);
      FillRole(a, s, keys, groups, role, roles[..n]);
    }
    assert roles[..|roles|] == roles;
    return true;
  }

  /** One role: the origins present, in order. */
  method FillRole(a: array<real>, s: Setup, keys: seq<Key>, groups: map<Key, seq<nat>>, role: string,
                  ghost before: seq<string>)
    requires a.Length == |keys| && Indexed(groups, keys, |keys|) && Positive(s.score)
    requires RolesFilled(a, s, keys, before)
    requires role in s.targets && OriginTotal(s, keys, role) != 0.0
    modifies a
    ensures RolesFilled(a, s, keys, before + [role])
  {
    hide Raw, OriginTotal, Count, Positive, Indexed;
    NoneWithoutOrigin(keys, role, false);
    NoneWithoutOrigin(keys, role, true);
    if HasOrigin(keys, role, false) {
      FillCell(a, s, keys, groups, role, false, (k: Key) => k.role in before);
    }
    if HasOrigin(keys, role, true) {
      FillCell(a, s, keys, groups, role, true, (k: Key) => k.role in before || InCell(role, false)(k));
    }
  }

  lemma NoneWithoutOrigin(keys: seq<Key>, role: string, pyro: bool)
    ensures !HasOrigin(keys, role, pyro) ==> forall i :: 0 <= i < |keys| ==> !InCell(role, pyro)(keys[i])
  {
    assert forall i :: 0 <= i < |keys| ==> keys[i] in keys;
  }

  method Normalise(a: array<real>, s: Setup, keys: seq<Key>)
    requires a.Length == |keys| && forall i :: 0 <= i < |keys| ==> a[i] == Raw(s, keys, keys[i])
    requires RawSum(s, keys) != 0.0
    modifies a
    ensures forall i :: 0 <= i < |keys| ==> a[i] == Probability(s, keys)(keys[i])
  {
    hide Raw, SumIf;
    var total := Sum(a, keys, RawOf(s, keys));
    for i := 0 to a.Length
      invariant forall j :: 0 <= j < i ==> a[j] == Probability(s, keys)(keys[j])
      invariant forall j :: i <= j < a.Length ==> a[j] == Raw(s, keys, keys[j])
    {
      a[i] := a[i] / total;
    }
  }
}
