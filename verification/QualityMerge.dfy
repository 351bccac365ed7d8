/** Merging campaign manifests: one row per image, the best-annotated copy winning. */
module QualityMerge {
  import opened Outcomes
  import opened Labels

  /** Empty strings stand for missing fields; `strength` keeps missing and empty apart. */
  datatype Row = Row(sampleId: string, digest: string, strength: Option<string>, maskQuality: string, weight: real,
                     split: string, group: string, hasAbstention: bool, assets: seq<string>)

  const QUALITY_RANK: map<string, int> :=
    map["human_strong" := 6, "sensor_derived" := 5, "strong" := 5, "weak" := 3, "temporal_negative" := 3,
        "negative" := 2, "abstention" := 1]

  datatype Quality = Quality(rank: int, weight: real)

  /** `_quality` */
  function QualityOf(r: Row): Quality {
    var strength := if r.maskQuality == "human_strong" then "human_strong"
                    else if r.strength.None? then "weak" else r.strength.value;
    Quality(if strength in QUALITY_RANK then QUALITY_RANK[strength] else 0, r.weight)
  }

  predicate Better(a: Row, b: Row) {
    var qa, qb := QualityOf(a), QualityOf(b);
    qa.rank > qb.rank || (qa.rank == qb.rank && qa.weight > qb.weight)
  }

  /** How far a row's annotation is trusted: a mask a person checked, a measured or strong one,
      a weak one (as when nothing is said), a negative, an abstention, and anything else. */
  ghost function Trust(r: Row): nat {
    if r.maskQuality == "human_strong" || r.strength == Some("human_strong") then 5
    else if r.strength == Some("sensor_derived") || r.strength == Some("strong") then 4
    else if r.strength == None || r.strength == Some("weak") || r.strength == Some("temporal_negative") then 3
    else if r.strength == Some("negative") then 2
    else if r.strength == Some("abstention") then 1
    else 0
  }

  /** A copy is better exactly when it is trusted more, or as much and weighs more. */
  lemma BetterExactlyWhen(a: Row, b: Row)
    ensures Better(a, b) <==> Trust(a) > Trust(b) || (Trust(a) == Trust(b) && a.weight > b.weight)
  {
    RankOfTrust(a);
    RankOfTrust(b);
    hide QualityOf, Trust;
  }

  lemma RankOfTrust(r: Row)
    ensures QualityOf(r) == Quality(if Trust(r) >= 4 then Trust(r) + 1 else Trust(r), r.weight)
  {
    assert QUALITY_RANK.Keys ==
      {"human_strong", "sensor_derived", "strong", "weak", "temporal_negative", "negative", "abstention"};
  }

  // ---- Absorbing rows ----

  datatype State = State(bySample: map<string, Row>, byDigest: map<string, Row>, duplicates: nat)

  const EMPTY := State(map[], map[], 0)

  predicate Readable(r: Row, available: string -> bool) {
    forall a :: a in r.assets ==> available(a)
  }

  /** Whether `r` takes the place of its digest: the first copy, or better than the one there. */
  predicate Wins(byDigest: map<string, Row>, r: Row) {
    r.digest != "" && (r.digest in byDigest ==> Better(r, byDigest[r.digest]))
  }

  function DigestsAfter(byDigest: map<string, Row>, r: Row): map<string, Row> {
    if Wins(byDigest, r) then byDigest[r.digest := r] else byDigest
  }

  function SamplesAfter(bySample: map<string, Row>, byDigest: map<string, Row>, r: Row): map<string, Row> {
    if r.digest == "" || r.digest !in byDigest then bySample[r.sampleId := r]
    else if Wins(byDigest, r) then (bySample - {byDigest[r.digest].sampleId})[r.sampleId := r]
    else bySample
  }

  function Absorb(s: State, r: Row, available: string -> bool): Result<State> {
    if r.sampleId == "" then Failure("missing sample_id")
    else if r.sampleId in s.bySample then Failure("duplicate sample_id")
    else if !Readable(r, available) then Failure("missing or unsafe campaign asset")
    else
      Success(State(SamplesAfter(s.bySample, s.byDigest, r), DigestsAfter(s.byDigest, r),
                    s.duplicates + if r.digest != "" && r.digest in s.byDigest then 1 else 0))
  }

  function AbsorbAll(rows: seq<Row>, available: string -> bool): Result<State> {
    if rows == [] then Success(EMPTY) else
      var before := AbsorbAll(rows[..|rows| - 1], available);
      if before.Failure? then before else Absorb(before.value, rows[|rows| - 1], available)
  }

  lemma {:induction false} FailureSticks(rows: seq<Row>, available: string -> bool, k: nat)
    requires k <= |rows| && AbsorbAll(rows[..k], available).Failure?
    ensures AbsorbAll(rows, available) == AbsorbAll(rows[..k], available)
  {
    if k < |rows| {
      assert rows[..|rows| - 1][..k] == rows[..k];
      FailureSticks(rows[..|rows| - 1], available, k);
    } else {
      assert rows[..k] == rows;
    }
  }

  lemma AbsorbNone(available: string -> bool)
    ensures AbsorbAll([], available) == Success(EMPTY)
  {
  }

  lemma AbsorbOne(rows: seq<Row>, available: string -> bool, i: nat)
    requires i < |rows| && AbsorbAll(rows[..i], available).Success?
    ensures AbsorbAll(rows[..i + 1], available) == Absorb(AbsorbAll(rows[..i], available).value, rows[i], available)
  {
    assert rows[..i + 1][..i] == rows[..i];
  }

  /** The merging loop, over two dictionaries. */
  method MergeRows(rows: seq<Row>, available: string -> bool)
      returns (r: Result<map<string, Row>>, duplicates: nat)
    ensures r.Failure? ==> AbsorbAll(rows, available) == Failure(r.message)
    ensures r.Success? ==> AbsorbAll(rows, available).Success?
    ensures r.Success? ==> AbsorbAll(rows, available).value.bySample == r.value
    ensures r.Success? ==> AbsorbAll(rows, available).value.duplicates == duplicates
  {
    hide AbsorbAll, Better, Readable;
    var bySample: map<string, Row>, byDigest: map<string, Row> := map[], map[];
    duplicates := 0;
    AbsorbNone(available);
    for i := 0 to |rows|
      invariant AbsorbAll(rows[..i], available) == Success(State(bySample, byDigest, duplicates))
    {
      var row := rows[i];
      AbsorbOne(rows, available, i);
      if row.sampleId == "" {
        FailureSticks(rows, available, i + 1);
        return Failure("missing sample_id"), duplicates;
      }
      if row.sampleId in bySample {
        FailureSticks(rows, available, i + 1);
        return Failure("duplicate sample_id"), duplicates;
      }
      if !Readable(row, available) {
        FailureSticks(rows, available, i + 1);
        return Failure("missing or unsafe campaign asset"), duplicates;
      }
      if row.digest != "" && row.digest in byDigest {
        duplicates := duplicates + 1;
        var existing := byDigest[row.digest];
        if Better(row, existing) {
          bySample := bySample - {existing.sampleId};
          bySample := bySample[row.sampleId := row];
          byDigest := byDigest[row.digest := row];
        }
        continue;
      }
      bySample := bySample[row.sampleId := row];
      if row.digest != "" {
        byDigest := byDigest[row.digest := row];
      }
    }
    assert rows[..|rows|] == rows;
    return Success(bySample), duplicates;
  }

  // ---- Who survives ----

  /** The row the merge keeps for a digest. */
  function Champion(rows: seq<Row>, d: string): (r: Option<Row>)
    ensures r.Some? <==> exists x :: x in rows && x.digest == d
    ensures r.Some? ==> r.value in rows && r.value.digest == d
  {
    if rows == [] then None else
      var before, last := Champion(rows[..|rows| - 1], d), rows[|rows| - 1];
      assert rows == rows[..|rows| - 1] + [last];
      if last.digest == d && (before.None? || Better(last, before.value)) then Some(last) else before
  }

  /** Row `i` is the earliest of the best rows with its digest. */
  ghost predicate EarliestBest(rows: seq<Row>, i: nat)
    requires i < |rows|
  {
    forall j :: 0 <= j < |rows| && rows[j].digest == rows[i].digest ==>
      (j < i ==> Better(rows[i], rows[j])) && !Better(rows[j], rows[i])
  }

  lemma BetterIsStrictWeakOrder(a: Row, b: Row, c: Row)
    ensures !(Better(a, b) && Better(b, a))
    ensures Better(a, b) && !Better(c, b) ==> Better(a, c)
    ensures !Better(b, a) && Better(b, c) ==> Better(a, c)
  {
  }

  lemma {:induction false} ChampionIsBest(rows: seq<Row>, d: string) returns (i: nat)
    requires Champion(rows, d).Some?
    ensures i < |rows| && rows[i] == Champion(rows, d).value && EarliestBest(rows, i)
  {
    var n := |rows| - 1;
    var before, last := Champion(rows[..n], d), rows[n];
    if before.None? {
      i := n;
      assert forall j :: 0 <= j < n ==> rows[j] in rows[..n];
    } else {
      i := ChampionIsBest(rows[..n], d);
      if last.digest == d && Better(last, before.value) {
        forall j | 0 <= j < n && rows[j].digest == d ensures Better(last, rows[j]) && !Better(rows[j], last) {
          assert rows[..n][j] == rows[j];
          BetterIsStrictWeakOrder(last, before.value, rows[j]);
          BetterIsStrictWeakOrder(rows[j], last, last);
        }
        i := n;
      } else {
        forall j | 0 <= j < n && rows[j].digest == d
          ensures (j < i ==> Better(rows[i], rows[j])) && !Better(rows[j], rows[i])
        {
          assert rows[..n][j] == rows[j];
        }
      }
    }
  }

  ghost predicate Kept(rows: seq<Row>, r: Row) {
    r in rows && (r.digest == "" || Champion(rows, r.digest) == Some(r))
  }

  ghost predicate Champions(byDigest: map<string, Row>, rows: seq<Row>) {
    forall d :: (if d in byDigest then Some(byDigest[d]) else None) == if d == "" then None else Champion(rows, d)
  }

  ghost predicate Samples(bySample: map<string, Row>, rows: seq<Row>) {
    && (forall id :: id in bySample ==> bySample[id].sampleId == id && Kept(rows, bySample[id]))
    && (forall r {:trigger Kept(rows, r)} :: Kept(rows, r) ==> In(bySample, r))
  }

  ghost predicate In(bySample: map<string, Row>, r: Row) {
    r.sampleId in bySample && bySample[r.sampleId] == r
  }

  /** The dictionaries hold exactly the kept rows of those absorbed so far. */
  ghost predicate HoldsKept(s: State, rows: seq<Row>) {
    Champions(s.byDigest, rows) && Samples(s.bySample, rows) && |s.bySample| + s.duplicates == |rows|
  }

  lemma ChampionNext(rows: seq<Row>, r: Row, d: string)
    ensures Champion(rows + [r], d) ==
      if r.digest == d && (Champion(rows, d).None? || Better(r, Champion(rows, d).value)) then Some(r)
      else Champion(rows, d)
  {
    assert (rows + [r])[..|rows|] == rows;
  }

  lemma ChampionsNext(byDigest: map<string, Row>, rows: seq<Row>, r: Row)
    requires Champions(byDigest, rows)
    ensures Champions(DigestsAfter(byDigest, r), rows + [r])
  {
    hide Champion, Better;
    var next := DigestsAfter(byDigest, r);
    forall d ensures (if d in next then Some(next[d]) else None) == if d == "" then None else Champion(rows + [r], d) {
      ChampionNext(rows, r, d);
    }
  }

  /** What becomes of a row `x` when `r` arrives. */
  lemma KeptNext(byDigest: map<string, Row>, rows: seq<Row>, r: Row, x: Row)
    requires Champions(byDigest, rows)
    ensures Kept(rows + [r], x) <==>
      || (x == r && (r.digest == "" || Wins(byDigest, r)))
      || (Kept(rows, x) && !(x.digest == r.digest && Wins(byDigest, r)))
  {
    hide Champion, Better;
    ChampionNext(rows, r, x.digest);
    assert x.digest != "" && x.digest in byDigest ==> Some(byDigest[x.digest]) == Champion(rows, x.digest);
    assert x.digest != "" && x.digest !in byDigest ==> Champion(rows, x.digest).None?;
  }

  /** Before that, a kept row with the digest of `r` is the one on record. */
  lemma OnRecord(byDigest: map<string, Row>, rows: seq<Row>, d: string, x: Row)
    requires Champions(byDigest, rows) && d != ""
    ensures Kept(rows, x) && x.digest == d <==> d in byDigest && byDigest[d] == x
  {
    hide Better;
    assert (if d in byDigest then Some(byDigest[d]) else None) == Champion(rows, d);
  }

  lemma SamplesNext(bySample: map<string, Row>, byDigest: map<string, Row>, rows: seq<Row>, r: Row)
    requires Champions(byDigest, rows) && Samples(bySample, rows) && r.sampleId !in bySample
    ensures Samples(SamplesAfter(bySample, byDigest, r), rows + [r])
    ensures |SamplesAfter(bySample, byDigest, r)|
      == |bySample| + if r.digest != "" && r.digest in byDigest then 0 else 1
  {
    var next, more := SamplesAfter(bySample, byDigest, r), rows + [r];
    SizeNext(bySample, byDigest, rows, r);
    hide Champion, Kept, Champions, SamplesAfter, In;
    forall x {:trigger Kept(more, x)} | Kept(more, x)
      ensures In(next, x)
    {
      KeptAreSampled(bySample, byDigest, rows, r, x);
    }
    forall id | id in next ensures next[id].sampleId == id && Kept(more, next[id]) {
      SampledAreKept(bySample, byDigest, rows, r, id);
    }
  }

  lemma SizeNext(bySample: map<string, Row>, byDigest: map<string, Row>, rows: seq<Row>, r: Row)
    requires Champions(byDigest, rows) && Samples(bySample, rows) && r.sampleId !in bySample
    ensures |SamplesAfter(bySample, byDigest, r)|
      == |bySample| + if r.digest != "" && r.digest in byDigest then 0 else 1
  {
    hide Champion, Better, Kept, Champions;
    if r.digest != "" && r.digest in byDigest {
      OnRecord(byDigest, rows, r.digest, byDigest[r.digest]);
      assert In(bySample, byDigest[r.digest]);
    }
  }

  lemma KeptAreSampled(bySample: map<string, Row>, byDigest: map<string, Row>, rows: seq<Row>, r: Row, x: Row)
    requires Champions(byDigest, rows) && Samples(bySample, rows) && r.sampleId !in bySample && Kept(rows + [r], x)
    ensures In(SamplesAfter(bySample, byDigest, r), x)
  {
    hide Champion, Better, Kept, Champions;
    KeptNext(byDigest, rows, r, x);
    if r.digest != "" {
      OnRecord(byDigest, rows, r.digest, x);
      if r.digest in byDigest {
        OnRecord(byDigest, rows, r.digest, byDigest[r.digest]);
        assert In(bySample, byDigest[r.digest]);
      }
    }
  }

  lemma SampledAreKept(bySample: map<string, Row>, byDigest: map<string, Row>, rows: seq<Row>, r: Row, id: string)
    requires Champions(byDigest, rows) && Samples(bySample, rows) && r.sampleId !in bySample
    requires id in SamplesAfter(bySample, byDigest, r)
    ensures var x := SamplesAfter(bySample, byDigest, r)[id]; x.sampleId == id && Kept(rows + [r], x)
  {
    hide Champion, Better, Kept, Champions;
    var x := SamplesAfter(bySample, byDigest, r)[id];
    KeptNext(byDigest, rows, r, x);
    if id != r.sampleId { assert id in bySample && x == bySample[id] && Kept(rows, x); }
    if r.digest != "" {
      OnRecord(byDigest, rows, r.digest, x);
      if r.digest in byDigest {
        OnRecord(byDigest, rows, r.digest, byDigest[r.digest]);
        assert In(bySample, byDigest[r.digest]);
      }
    }
  }

  lemma AbsorbHolds(s: State, rows: seq<Row>, r: Row, available: string -> bool)
    requires HoldsKept(s, rows) && Absorb(s, r, available).Success?
    ensures HoldsKept(Absorb(s, r, available).value, rows + [r])
  {
    hide Champion, Better, Samples, Champions, SamplesAfter, DigestsAfter;
    ChampionsNext(s.byDigest, rows, r);
    SamplesNext(s.bySample, s.byDigest, rows, r);
  }

  lemma {:induction false} AbsorbAllHolds(rows: seq<Row>, available: string -> bool)
    requires AbsorbAll(rows, available).Success?
    ensures HoldsKept(AbsorbAll(rows, available).value, rows)
  {
    if rows != [] {
      hide Absorb, HoldsKept;
      var n := |rows| - 1;
      AbsorbAllHolds(rows[..n], available);
      AbsorbHolds(AbsorbAll(rows[..n], available).value, rows[..n], rows[n], available);
      assert rows == rows[..n] + [rows[n]];
    }
  }

  // ---- The merged rows ----

  ghost predicate IsEarliestBest(rows: seq<Row>, r: Row) {
    exists i :: 0 <= i < |rows| && rows[i] == r && EarliestBest(rows, i)
  }

  /** A row that names no image, or is the earliest of the best rows with its digest. */
  ghost predicate Survives(rows: seq<Row>, r: Row) {
    r in rows && (r.digest == "" || IsEarliestBest(rows, r))
  }

  lemma KeptAreSurvivors(rows: seq<Row>, r: Row)
    ensures Kept(rows, r) <==> Survives(rows, r)
  {
    if r.digest != "" { KeptIsEarliestBest(rows, r); }
  }

  lemma KeptIsEarliestBest(rows: seq<Row>, r: Row)
    requires r.digest != ""
    ensures Kept(rows, r) <==> IsEarliestBest(rows, r)
  {
    hide Champion, Better;
    if Kept(rows, r) {
      var i := ChampionIsBest(rows, r.digest);
    }
    if IsEarliestBest(rows, r) {
      var i :| 0 <= i < |rows| && rows[i] == r && EarliestBest(rows, i);
      assert rows[i] in rows;
      var j := ChampionIsBest(rows, r.digest);
      assert rows[j].digest == rows[i].digest;
    }
  }

  /** Exactly the survivors are merged; each digest keeps exactly one row, and every other row
      is counted as a duplicate. */
  lemma MergeKeepsBestCopies(rows: seq<Row>, available: string -> bool)
    requires AbsorbAll(rows, available).Success?
    ensures var s := AbsorbAll(rows, available).value;
      && |s.bySample| + s.duplicates == |rows|
      && (forall r :: In(s.bySample, r) <==> Survives(rows, r))
      && (forall r: Row, q: Row :: In(s.bySample, r) && In(s.bySample, q) && r.digest == q.digest != "" ==> r == q)
      && (forall r :: r in rows && r.digest != "" ==> exists q :: In(s.bySample, q) && q.digest == r.digest)
      && (forall d :: d in s.byDigest ==> In(s.bySample, s.byDigest[d]))
  {
    hide AbsorbAll, Champion, Survives;
    AbsorbAllHolds(rows, available);
    var s := AbsorbAll(rows, available).value;
    forall r ensures In(s.bySample, r) <==> Kept(rows, r) {}
    forall r ensures Kept(rows, r) <==> Survives(rows, r) { KeptAreSurvivors(rows, r); }
    forall d | d in s.byDigest ensures In(s.bySample, s.byDigest[d]) { OnRecord(s.byDigest, rows, d, s.byDigest[d]); }
    forall r | r in rows && r.digest != "" ensures exists q :: In(s.bySample, q) && q.digest == r.digest {
      assert Champion(rows, r.digest).Some?;
      assert Kept(rows, Champion(rows, r.digest).value);
    }
  }

  // ---- Which rows are accepted ----

  ghost predicate IdTaken(rows: seq<Row>, id: string) {
    exists r :: Survives(rows, r) && r.sampleId == id
  }

  /** Row `j` has an id that no survivor of the rows before it bears, and its assets are there. */
  ghost predicate Admissible(rows: seq<Row>, j: nat, available: string -> bool)
    requires j < |rows|
  {
    rows[j].sampleId != "" && !IdTaken(rows[..j], rows[j].sampleId) && Readable(rows[j], available)
  }

  ghost predicate Accepted(rows: seq<Row>, available: string -> bool) {
    forall j :: 0 <= j < |rows| ==> Admissible(rows, j, available)
  }

  ghost function Complaint(rows: seq<Row>, j: nat): string
    requires j < |rows|
  {
    if rows[j].sampleId == "" then "missing sample_id"
    else if IdTaken(rows[..j], rows[j].sampleId) then "duplicate sample_id"
    else "missing or unsafe campaign asset"
  }

  /** The rows are absorbed exactly when each of them is admissible. */
  lemma {:induction false} AcceptedExactlyWhen(rows: seq<Row>, available: string -> bool)
    ensures AbsorbAll(rows, available).Success? <==> Accepted(rows, available)
  {
    if rows != [] {
      hide Admissible, Accepted, AbsorbAll, Survives, Champion;
      var n := |rows| - 1;
      AcceptedExactlyWhen(rows[..n], available);
      AcceptedNext(rows, available);
      AbsorbedNext(rows, available);
    }
  }

  lemma AcceptedNext(rows: seq<Row>, available: string -> bool)
    requires rows != []
    ensures var n := |rows| - 1;
      Accepted(rows, available) <==> Accepted(rows[..n], available) && Admissible(rows, n, available)
  {
    hide Survives, Readable, IdTaken;
    var n := |rows| - 1;
    forall j | 0 <= j < n ensures Admissible(rows[..n], j, available) <==> Admissible(rows, j, available) {
      assert rows[..n][..j] == rows[..j];
    }
    hide Admissible;
  }

  lemma AbsorbedNext(rows: seq<Row>, available: string -> bool)
    requires rows != []
    ensures var n := |rows| - 1;
      AbsorbAll(rows, available).Success?
      <==> AbsorbAll(rows[..n], available).Success? && Admissible(rows, n, available)
  {
    var n := |rows| - 1;
    AbsorbLast(rows, available);
    hide Survives, Readable, Champion, IdTaken, AbsorbAll, SamplesAfter, DigestsAfter;
    if AbsorbAll(rows[..n], available).Success? { OneMoreRow(rows[..n], rows[n], available); }
  }

  lemma AbsorbLast(rows: seq<Row>, available: string -> bool)
    requires rows != []
    ensures var n := |rows| - 1;
      var before := AbsorbAll(rows[..n], available);
      AbsorbAll(rows, available) == if before.Failure? then before else Absorb(before.value, rows[n], available)
  {
  }

  /** The first row that is not admissible decides the error. */
  lemma FirstRefusalDecides(rows: seq<Row>, available: string -> bool, j: nat)
    requires j < |rows| && Accepted(rows[..j], available) && !Admissible(rows, j, available)
    ensures AbsorbAll(rows, available) == Failure(Complaint(rows, j))
  {
    hide Champion, Survives, AbsorbAll, Absorb, Complaint, Admissible, Accepted;
    AcceptedExactlyWhen(rows[..j], available);
    OneMoreRow(rows[..j], rows[j], available);
    RefusedAsComplained(AbsorbAll(rows[..j], available).value, rows, available, j);
    AbsorbOne(rows, available, j);
    FailureSticks(rows, available, j + 1);
  }

  lemma RefusedAsComplained(s: State, rows: seq<Row>, available: string -> bool, j: nat)
    requires j < |rows| && !Admissible(rows, j, available)
    requires rows[j].sampleId in s.bySample <==> IdTaken(rows[..j], rows[j].sampleId)
    ensures Absorb(s, rows[j], available) == Failure(Complaint(rows, j))
  {
    hide IdTaken, Readable, SamplesAfter, DigestsAfter;
  }

  lemma OneMoreRow(rows: seq<Row>, r: Row, available: string -> bool)
    requires AbsorbAll(rows, available).Success?
    ensures r.sampleId in AbsorbAll(rows, available).value.bySample <==> IdTaken(rows, r.sampleId)
  {
    hide AbsorbAll, Survives;
    MergeKeepsBestCopies(rows, available);
    var s := AbsorbAll(rows, available).value;
    AbsorbAllHolds(rows, available);
    if r.sampleId in s.bySample { assert In(s.bySample, s.bySample[r.sampleId]); }
  }

  // ---- Checks on the merged rows ----

  predicate WellFormed(r: Row) {
    r.split in {"train", "validation", "test"} && r.group != "" && r.hasAbstention
  }

  ghost predicate LeakFree(rows: seq<Row>) {
    forall i, j :: 0 <= i < j < |rows| && rows[i].group == rows[j].group ==> rows[i].split == rows[j].split
  }

  ghost predicate HasSplit(groups: map<string, set<string>>, g: string, x: string) {
    g in groups && x in groups[g]
  }

  ghost predicate UsesSplit(rows: seq<Row>, g: string, x: string) {
    exists r :: r in rows && r.group == g && r.split == x
  }

  ghost predicate GroupSplits(groups: map<string, set<string>>, rows: seq<Row>) {
    forall g, x :: HasSplit(groups, g, x) <==> UsesSplit(rows, g, x)
  }

  /** The loop over the merged rows and its leakage test. */
  method CheckRows(rows: seq<Row>) returns (ok: bool)
    ensures ok <==> (forall i :: 0 <= i < |rows| ==> WellFormed(rows[i])) && LeakFree(rows)
  {
    var groupSplits: map<string, set<string>> := map[];
    for i := 0 to |rows|
      invariant forall j :: 0 <= j < i ==> WellFormed(rows[j])
      invariant GroupSplits(groupSplits, rows[..i])
    {
      var row := rows[i];
      if !WellFormed(row) {
        return false;
      }
      GroupSplitsNext(groupSplits, rows[..i], row);
      assert rows[..i + 1] == rows[..i] + [row];
      var before := if row.group in groupSplits then groupSplits[row.group] else {};
      groupSplits := groupSplits[row.group := before + {row.split}];
    }
    assert rows[..|rows|] == rows;
    LeaksShow(groupSplits, rows);
    ok := forall g :: g in groupSplits ==> |groupSplits[g]| <= 1;
  }

  lemma GroupSplitsNext(groups: map<string, set<string>>, rows: seq<Row>, r: Row)
    requires GroupSplits(groups, rows)
    ensures GroupSplits(groups[r.group := (if r.group in groups then groups[r.group] else {}) + {r.split}], rows + [r])
  {
    var more := rows + [r];
    var next := groups[r.group := (if r.group in groups then groups[r.group] else {}) + {r.split}];
    forall g, x ensures HasSplit(next, g, x) <==> UsesSplit(more, g, x) {
      assert HasSplit(next, g, x) <==> HasSplit(groups, g, x) || (g == r.group && x == r.split);
      assert r in more && forall q :: q in more <==> q in rows || q == r;
    }
  }

  lemma LeaksShow(groups: map<string, set<string>>, rows: seq<Row>)
    requires GroupSplits(groups, rows)
    ensures (forall g :: g in groups ==> |groups[g]| <= 1) <==> LeakFree(rows)
  {
    if LeakFree(rows) {
      forall g | g in groups ensures |groups[g]| <= 1 {
        if x :| x in groups[g] {
          forall y | y in groups[g] ensures y == x {
            assert HasSplit(groups, g, x) && HasSplit(groups, g, y);
            OneSplit(rows, g, x, y);
          }
          assert groups[g] == {x};
        }
      }
    }
    if forall g :: g in groups ==> |groups[g]| <= 1 {
      forall i, j | 0 <= i < j < |rows| && rows[i].group == rows[j].group ensures rows[i].split == rows[j].split {
        var g, x, y := rows[i].group, rows[i].split, rows[j].split;
        assert UsesSplit(rows, g, x) && UsesSplit(rows, g, y);
        assert HasSplit(groups, g, x) && HasSplit(groups, g, y);
        AtMostOne(groups[g], x, y);
      }
    }
  }

  lemma OneSplit(rows: seq<Row>, g: string, x: string, y: string)
    requires LeakFree(rows) && UsesSplit(rows, g, x) && UsesSplit(rows, g, y)
    ensures x == y
  {
    var i :| 0 <= i < |rows| && rows[i].group == g && rows[i].split == x;
    var j :| 0 <= j < |rows| && rows[j].group == g && rows[j].split == y;
  }

  lemma AtMostOne(s: set<string>, x: string, y: string)
    requires x in s && y in s && |s| <= 1
    ensures x == y
  {
    assert |s - {x}| == 0;
  }

  // ---- The whole merge ----

  function Flatten(manifests: seq<seq<Row>>): seq<Row> {
    if manifests == [] then [] else Flatten(manifests[..|manifests| - 1]) + manifests[|manifests| - 1]
  }

  function InIdOrder(bySample: map<string, Row>): (rows: seq<Row>)
    ensures |rows| == |bySample|
  {
    var ids := SortedLabels(bySample.Keys);
    seq(|ids|, i requires 0 <= i < |ids| => bySample[ids[i]])
  }

  /** Everything the merge insists on, in terms of the rows it is given. */
  ghost predicate Mergeable(manifests: seq<seq<Row>>, available: string -> bool) {
    var rows := Flatten(manifests);
    && [] !in manifests
    && Accepted(rows, available)
    && (forall x :: Survives(rows, x) ==> WellFormed(x))
    && (forall x, y :: Survives(rows, x) && Survives(rows, y) && x.group == y.group ==> x.split == y.split)
  }

  ghost predicate AllWellFormed(bySample: map<string, Row>) {
    forall id :: id in bySample ==> WellFormed(bySample[id])
  }

  ghost predicate NoGroupSpansSplits(bySample: map<string, Row>) {
    forall x, y :: x in bySample && y in bySample && bySample[x].group == bySample[y].group ==>
      bySample[x].split == bySample[y].split
  }

  lemma InIdOrderMembers(bySample: map<string, Row>)
    ensures forall i :: 0 <= i < |InIdOrder(bySample)| ==>
      SortedLabels(bySample.Keys)[i] in bySample && InIdOrder(bySample)[i] == bySample[SortedLabels(bySample.Keys)[i]]
    ensures forall id :: id in bySample ==> InIdOrder(bySample)[PlaceOf(bySample, id)] == bySample[id]
  {
    hide SortedLabels;
    forall i | 0 <= i < |InIdOrder(bySample)|
      ensures SortedLabels(bySample.Keys)[i] in bySample
        && InIdOrder(bySample)[i] == bySample[SortedLabels(bySample.Keys)[i]]
    {
      assert SortedLabels(bySample.Keys)[i] in SortedLabels(bySample.Keys);
    }
  }

  ghost function PlaceOf(bySample: map<string, Row>, id: string): (i: nat)
    requires id in bySample
    ensures i < |bySample| && SortedLabels(bySample.Keys)[i] == id
  {
    var i :| 0 <= i < |SortedLabels(bySample.Keys)| && SortedLabels(bySample.Keys)[i] == id; i
  }

  /** Checking the rows in id order checks the dictionary. */
  lemma ChecksCoverSamples(bySample: map<string, Row>)
    ensures (forall i :: 0 <= i < |InIdOrder(bySample)| ==> WellFormed(InIdOrder(bySample)[i]))
      <==> AllWellFormed(bySample)
    ensures LeakFree(InIdOrder(bySample)) <==> NoGroupSpansSplits(bySample)
  {
    hide WellFormed, InIdOrder, PlaceOf, SortedLabels;
    var rows := InIdOrder(bySample);
    InIdOrderMembers(bySample);
    if forall i :: 0 <= i < |rows| ==> WellFormed(rows[i]) {
      forall id | id in bySample ensures WellFormed(bySample[id]) { assert WellFormed(rows[PlaceOf(bySample, id)]); }
    }
    if LeakFree(rows) {
      forall x, y | x in bySample && y in bySample && bySample[x].group == bySample[y].group
        ensures bySample[x].split == bySample[y].split
      {
        assert rows[PlaceOf(bySample, x)] == bySample[x] && rows[PlaceOf(bySample, y)] == bySample[y];
      }
    }
  }

  /** The checks on the dictionary are checks on the survivors. */
  lemma ChecksCoverSurvivors(rows: seq<Row>, available: string -> bool)
    requires AbsorbAll(rows, available).Success?
    ensures var bySample := AbsorbAll(rows, available).value.bySample;
      && (AllWellFormed(bySample) <==> forall x :: Survives(rows, x) ==> WellFormed(x))
      && (NoGroupSpansSplits(bySample)
          <==> forall x, y :: Survives(rows, x) && Survives(rows, y) && x.group == y.group ==> x.split == y.split)
  {
    hide AbsorbAll, WellFormed, Survives;
    MergeKeepsBestCopies(rows, available);
    AbsorbAllHolds(rows, available);
    var bySample := AbsorbAll(rows, available).value.bySample;
    assert forall id :: id in bySample ==> In(bySample, bySample[id]);
    if NoGroupSpansSplits(bySample) {
      forall x: Row, y: Row | Survives(rows, x) && Survives(rows, y) && x.group == y.group ensures x.split == y.split {
        assert In(bySample, x) && In(bySample, y);
      }
    }
    if AllWellFormed(bySample) {
      forall x | Survives(rows, x) ensures WellFormed(x) { assert In(bySample, x); }
    }
  }

  /** The merged list holds the survivors in the order of their ids. */
  lemma InIdOrderOfSurvivors(rows: seq<Row>, available: string -> bool)
    requires AbsorbAll(rows, available).Success?
    ensures var merged := InIdOrder(AbsorbAll(rows, available).value.bySample);
      (forall x :: x in merged <==> Survives(rows, x))
      && forall i, j :: 0 <= i < j < |merged| ==> Less(merged[i].sampleId, merged[j].sampleId)
  {
    hide AbsorbAll, Survives, SortedLabels, InIdOrder, PlaceOf;
    MergeKeepsBestCopies(rows, available);
    AbsorbAllHolds(rows, available);
    var bySample := AbsorbAll(rows, available).value.bySample;
    InIdOrderMembers(bySample);
    var merged := InIdOrder(bySample);
    forall x ensures x in merged <==> In(bySample, x) {
      if In(bySample, x) { assert merged[PlaceOf(bySample, x.sampleId)] == x; }
    }
  }

  /** `merge_manifests`, up to writing its output. */
  method MergeManifests(manifests: seq<seq<Row>>, available: string -> bool)
      returns (r: Result<seq<Row>>, duplicates: nat)
    ensures r.Success? <==> Mergeable(manifests, available)
    ensures r.Success? ==> forall x :: x in r.value <==> Survives(Flatten(manifests), x)
    ensures r.Success? ==> forall i, j :: 0 <= i < j < |r.value| ==> Less(r.value[i].sampleId, r.value[j].sampleId)
    ensures r.Success? ==> |r.value| + duplicates == |Flatten(manifests)|
  {
    hide AbsorbAll, LeakFree, WellFormed, AllWellFormed, NoGroupSpansSplits, InIdOrder, Accepted, Survives;
    ghost var all := Flatten(manifests);
    duplicates := 0;
    if [] in manifests {
      return Failure("empty campaign manifest"), duplicates;
    }
    var merged;
    merged, duplicates := MergeRows(Flatten(manifests), available);
    AcceptedExactlyWhen(all, available);
    if merged.Failure? {
      return Failure(merged.message), duplicates;
    }
    AbsorbAllHolds(all, available);
    ChecksCoverSamples(merged.value);
    ChecksCoverSurvivors(all, available);
    InIdOrderOfSurvivors(all, available);
    var rows := InIdOrder(merged.value);
    var ok := CheckRows(rows);
    if !ok {
      return Failure("invalid row or split-group leakage"), duplicates;
    }
    return Success(rows), duplicates;
  }
}
