/** How far the order in which rows reach the quality-ranked merge matters. */
module MergeOrder {
  import opened Counting
  import opened Outcomes
  import opened QualityMerge

  // ---- Who survives, in any order ----

  /** No copy of the image `x` shows is better. */
  ghost predicate Unbeaten(rows: seq<Row>, x: Row) {
    forall z :: z in rows && z.digest == x.digest ==> !Better(z, x)
  }

  /** No image has two different copies that no other beats. */
  ghost predicate Undisputed(rows: seq<Row>) {
    forall x, y :: x in rows && y in rows && x.digest == y.digest != "" && Unbeaten(rows, x) && Unbeaten(rows, y) ==>
      x == y
  }

  lemma SurvivorsAreUnbeaten(rows: seq<Row>, x: Row)
    requires Undisputed(rows)
    ensures Survives(rows, x) <==> x in rows && (x.digest == "" || Unbeaten(rows, x))
  {
    hide Better;
    if x.digest != "" && x in rows && Unbeaten(rows, x) {
      assert Champion(rows, x.digest).Some?;
      var i := ChampionIsBest(rows, x.digest);
      assert rows[i] in rows && Unbeaten(rows, rows[i]);
    }
  }

  /** Without disputes the survivors do not depend on the order of the rows. */
  lemma SurvivorsIgnoreOrder(a: seq<Row>, b: seq<Row>, x: Row)
    requires multiset(a) == multiset(b) && Undisputed(a)
    ensures Survives(a, x) <==> Survives(b, x)
  {
    hide Better, Survives;
    SameMembers(a, b);
    assert forall z :: Unbeaten(a, z) <==> Unbeaten(b, z);
    SurvivorsAreUnbeaten(a, x);
    SurvivorsAreUnbeaten(b, x);
  }

  /** The merge of either order, when both are accepted, is the same. */
  lemma MergeIgnoresOrder(a: seq<Row>, b: seq<Row>, available: string -> bool)
    requires multiset(a) == multiset(b) && Undisputed(a)
    requires AbsorbAll(a, available).Success? && AbsorbAll(b, available).Success?
    ensures AbsorbAll(a, available).value.bySample == AbsorbAll(b, available).value.bySample
  {
    hide AbsorbAll, Survives, Undisputed;
    MergeKeepsBestCopies(a, available);
    MergeKeepsBestCopies(b, available);
    AbsorbAllHolds(a, available);
    AbsorbAllHolds(b, available);
    var sa, sb := AbsorbAll(a, available).value.bySample, AbsorbAll(b, available).value.bySample;
    forall x ensures In(sa, x) <==> In(sb, x) { SurvivorsIgnoreOrder(a, b, x); }
    forall id ensures id in sa <==> id in sb {
      assert id in sa ==> In(sa, sa[id]) && In(sb, sa[id]);
      assert id in sb ==> In(sb, sb[id]) && In(sa, sb[id]);
    }
    forall id | id in sa ensures sa[id] == sb[id] { assert In(sa, sa[id]); }
  }

  // ---- When every order is accepted ----

  ghost predicate Presentable(rows: seq<Row>, available: string -> bool) {
    forall x :: x in rows ==> x.sampleId != "" && Readable(x, available)
  }

  ghost predicate UniqueIds(rows: seq<Row>) {
    forall i, j :: 0 <= i < j < |rows| ==> rows[i].sampleId != rows[j].sampleId
  }

  ghost predicate EveryOrderAccepted(rows: seq<Row>, available: string -> bool) {
    forall other :: multiset(other) == multiset(rows) ==> AbsorbAll(other, available).Success?
  }

  lemma UniqueIdsPermute(a: seq<Row>, b: seq<Row>)
    requires multiset(a) == multiset(b) && UniqueIds(a)
    ensures UniqueIds(b)
  {
    DistinctByPermutes(a, b, (r: Row) => r.sampleId);
  }

  lemma UniqueIdsAreAccepted(rows: seq<Row>, available: string -> bool)
    requires Presentable(rows, available) && UniqueIds(rows)
    ensures AbsorbAll(rows, available).Success?
  {
    hide Readable, AbsorbAll;
    AcceptedExactlyWhen(rows, available);
    forall j | 0 <= j < |rows| ensures Admissible(rows, j, available) {
      assert rows[j] in rows;
      assert forall x :: x in rows[..j] ==> x.sampleId != rows[j].sampleId;
    }
  }

  ghost function Others(rows: seq<Row>, i: nat, j: nat): seq<Row>
    requires i < j < |rows|
  {
    rows[..i] + rows[i + 1..j] + rows[j + 1..]
  }

  /** Two rows brought to the front. */
  ghost function Fronted(rows: seq<Row>, i: nat, j: nat): seq<Row>
    requires i < j < |rows|
  {
    [rows[i], rows[j]] + Others(rows, i, j)
  }

  lemma FrontedPermutes(rows: seq<Row>, i: nat, j: nat)
    requires i < j < |rows|
    ensures multiset(Fronted(rows, i, j)) == multiset(rows)
    ensures multiset([rows[j], rows[i]] + Others(rows, i, j)) == multiset(rows)
  {
    assert rows == rows[..i] + [rows[i]] + rows[i + 1..j] + [rows[j]] + rows[j + 1..];
  }

  /** The second row of a list is refused when it repeats the first one's id. */
  lemma SecondIsRefused(rows: seq<Row>, available: string -> bool)
    requires |rows| >= 2 && rows[0].sampleId == rows[1].sampleId
    ensures AbsorbAll(rows, available).Failure?
  {
    AcceptedExactlyWhen(rows, available);
    assert rows[..1] == [rows[0]];
    assert EarliestBest(rows[..1], 0);
    assert Survives(rows[..1], rows[0]);
    assert !Admissible(rows, 1, available);
  }

  /** All orders are accepted exactly when ids are present and unique and assets readable. */
  lemma EveryOrderAcceptedExactlyWhen(rows: seq<Row>, available: string -> bool)
    ensures EveryOrderAccepted(rows, available) <==> Presentable(rows, available) && UniqueIds(rows)
  {
    hide AbsorbAll, Readable;
    if EveryOrderAccepted(rows, available) {
      assert AbsorbAll(rows, available).Success?;
      AcceptedExactlyWhen(rows, available);
      assert Presentable(rows, available) by {
        forall x | x in rows ensures x.sampleId != "" && Readable(x, available) {
          var j :| 0 <= j < |rows| && rows[j] == x;
          assert Admissible(rows, j, available);
        }
      }
      forall i, j | 0 <= i < j < |rows| ensures rows[i].sampleId != rows[j].sampleId {
        FrontedPermutes(rows, i, j);
        if rows[i].sampleId == rows[j].sampleId { SecondIsRefused(Fronted(rows, i, j), available); }
      }
    }
    if Presentable(rows, available) && UniqueIds(rows) {
      forall other | multiset(other) == multiset(rows) ensures AbsorbAll(other, available).Success? {
        SameMembers(rows, other);
        UniqueIdsPermute(rows, other);
        UniqueIdsAreAccepted(other, available);
      }
    }
  }

  // ---- When the order does not matter at all ----

  ghost predicate SameMerge(a: seq<Row>, b: seq<Row>, available: string -> bool) {
    && AbsorbAll(a, available).Success? && AbsorbAll(b, available).Success?
    && AbsorbAll(a, available).value.bySample == AbsorbAll(b, available).value.bySample
  }

  ghost predicate OrderIsIrrelevant(rows: seq<Row>, available: string -> bool) {
    forall other :: multiset(other) == multiset(rows) ==> SameMerge(rows, other, available)
  }

  /** The first of the unbeaten copies of an image survives. */
  lemma UnbeatenFirstSurvives(rows: seq<Row>, x: Row)
    requires rows != [] && rows[0] == x && Unbeaten(rows, x)
    ensures Survives(rows, x)
  {
    hide Better;
    if x.digest != "" {
      forall j | 0 <= j < |rows| && rows[j].digest == rows[0].digest ensures !Better(rows[j], rows[0]) {
        assert rows[j] in rows;
      }
      assert EarliestBest(rows, 0);
    }
  }

  /** When the order is irrelevant, an unbeaten copy that comes first in some order is merged. */
  lemma FirstIsMerged(rows: seq<Row>, first: seq<Row>, x: Row, available: string -> bool)
    requires OrderIsIrrelevant(rows, available) && multiset(first) == multiset(rows)
    requires first != [] && first[0] == x && Unbeaten(rows, x)
    ensures AbsorbAll(rows, available).Success? && In(AbsorbAll(rows, available).value.bySample, x)
  {
    hide AbsorbAll, Survives, Better;
    SameMembers(rows, first);
    assert SameMerge(rows, first, available);
    UnbeatenFirstSurvives(first, x);
    hide In;
    MergeKeepsBestCopies(first, available);
  }

  lemma IrrelevantOrderHasNoDisputes(rows: seq<Row>, available: string -> bool, i: nat, j: nat)
    requires OrderIsIrrelevant(rows, available) && i < j < |rows| && rows[i].digest == rows[j].digest != ""
    requires Unbeaten(rows, rows[i]) && Unbeaten(rows, rows[j])
    ensures rows[i] == rows[j]
  {
    hide AbsorbAll, Survives, Better, Unbeaten, OrderIsIrrelevant, In;
    var x, y := rows[i], rows[j];
    FrontedPermutes(rows, i, j);
    FirstIsMerged(rows, Fronted(rows, i, j), x, available);
    FirstIsMerged(rows, [y, x] + Others(rows, i, j), y, available);
    MergeKeepsBestCopies(rows, available);
  }

  /** Every order of the rows merges, and to the same rows, exactly when ids are present and
      unique, assets readable, and no image has two best copies. */
  lemma OrderIsIrrelevantExactlyWhen(rows: seq<Row>, available: string -> bool)
    ensures OrderIsIrrelevant(rows, available) <==> Presentable(rows, available) && UniqueIds(rows) && Undisputed(rows)
  {
    hide AbsorbAll, Readable, Better, Presentable, UniqueIds, Unbeaten;
    EveryOrderAcceptedExactlyWhen(rows, available);
    if OrderIsIrrelevant(rows, available) {
      assert EveryOrderAccepted(rows, available) by {
        forall other | multiset(other) == multiset(rows) ensures AbsorbAll(other, available).Success? {
          assert SameMerge(rows, other, available);
        }
      }
      forall x, y | x in rows && y in rows && x.digest == y.digest != "" && Unbeaten(rows, x) && Unbeaten(rows, y)
        ensures x == y
      {
        var i :| 0 <= i < |rows| && rows[i] == x;
        var j :| 0 <= j < |rows| && rows[j] == y;
        if i < j { IrrelevantOrderHasNoDisputes(rows, available, i, j); }
        if j < i { IrrelevantOrderHasNoDisputes(rows, available, j, i); }
      }
    }
    if Presentable(rows, available) && UniqueIds(rows) && Undisputed(rows) {
      forall other | multiset(other) == multiset(rows) ensures SameMerge(rows, other, available) {
        MergeIgnoresOrder(rows, other, available);
      }
    }
  }

  // ---- A merge that depends on the order ----

  /** A repeated id passes if the row bearing it first has been displaced by a better copy of
      its image, and is refused before. */
  lemma DisplacedIdIsFree(x: Row, y: Row, z: Row, available: string -> bool)
    requires x.sampleId == z.sampleId && Presentable([x, y, z], available) && y.sampleId != x.sampleId
    requires x.digest == y.digest != "" && z.digest != x.digest && Better(y, x)
    ensures Undisputed([x, y, z]) && multiset([x, y, z]) == multiset([x, z, y])
    ensures AbsorbAll([x, y, z], available).Success?
    ensures AbsorbAll([x, z, y], available) == Failure("duplicate sample_id")
  {
    hide AbsorbAll, Readable, Better;
    BeaterIsUndisputed(x, y, z);
    BeaterSurvives(x, y, z, available);
    RepeatedIdIsRefused(x, z, y, available);
  }

  lemma BeaterIsUndisputed(x: Row, y: Row, z: Row)
    requires x.digest == y.digest != "" && z.digest != x.digest && Better(y, x)
    ensures Undisputed([x, y, z])
  {
    hide Better;
    assert y in [x, y, z] && !Unbeaten([x, y, z], x);
  }

  /** After a better copy of its first bearer's image an id may be used again. */
  lemma BeaterSurvives(x: Row, y: Row, z: Row, available: string -> bool)
    requires x.sampleId == z.sampleId != y.sampleId && Presentable([x, y, z], available)
    requires x.digest == y.digest != "" && Better(y, x)
    ensures AbsorbAll([x, y, z], available).Success?
  {
    hide AbsorbAll, Readable, Better;
    var rows := [x, y, z];
    AcceptedExactlyWhen(rows, available);
    assert rows[..0] == [] && rows[..1] == [x] && rows[..2] == [x, y];
    assert x in rows && y in rows && z in rows;
    forall r | Survives([x, y], r) ensures r == y {
      assert Better([x, y][1], [x, y][0]);
    }
  }

  lemma RepeatedIdIsRefused(x: Row, z: Row, y: Row, available: string -> bool)
    requires x.sampleId == z.sampleId && Presentable([x, y, z], available)
    ensures AbsorbAll([x, z, y], available) == Failure("duplicate sample_id")
  {
    hide AbsorbAll, Readable;
    var rows := [x, z, y];
    assert x in [x, y, z] && z in [x, y, z];
    assert rows[..1] == [x] && [x][..0] == [];
    FirstSurvives(x);
    FirstRefusalDecides(rows, available, 1);
  }

  lemma FirstSurvives(x: Row)
    ensures Survives([x], x)
  {
    BetterIsStrictWeakOrder(x, x, x);
    assert EarliestBest([x], 0);
  }

  /** Two orders of the same rows, free of ties, of which only one is accepted. */
  lemma OrderCanDecide(available: string -> bool) returns (a: seq<Row>, b: seq<Row>)
    ensures multiset(a) == multiset(b) && Undisputed(a)
    ensures AbsorbAll(a, available).Success?
    ensures AbsorbAll(b, available) == Failure("duplicate sample_id")
  {
    var x := Row("A", "d", Some("weak"), "", 1.0, "train", "g", true, []);
    var y := Row("B", "d", Some("human_strong"), "", 1.0, "train", "g", true, []);
    var z := Row("A", "e", Some("weak"), "", 1.0, "train", "g", true, []);
    DisplacedIdIsFree(x, y, z, available);
    a, b := [x, y, z], [x, z, y];
  }

}
