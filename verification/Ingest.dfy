/** The deduplicating loop of `ingest_pyro_sdis` over an abstract stream of source rows,
    including a restart from the partial manifest of an interrupted run. */
module Ingest {
  import opened Hamming
  import opened Outcomes
  import opened Corpus
  import opened NearDuplicateSplits
  import Bk = BkTree

  /** A source row after hashing: its identifier, image digest, perceptual hash and camera group. */
  datatype SourceRow = SourceRow(sourceRecordId: string, digest: string, phash: nat, splitGroup: string)

  const RADIUS := 6
  const SOURCE_ID := "pyro_sdis_a1e553e"

  function EntryOf(r: Record): Bk.Entry {
    Bk.Entry(r.phash, r.sha256, r.split)
  }

  function EntriesOf(rs: seq<Record>): (es: seq<Bk.Entry>)
    ensures |es| == |rs| && forall i :: 0 <= i < |rs| ==> es[i] == EntryOf(rs[i])
  {
    seq(|rs|, i requires 0 <= i < |rs| => EntryOf(rs[i]))
  }

  function NearDuplicateIn(tree: Option<Bk.Tree>, phash: nat): Option<string> {
    match tree
    case None => None
    case Some(t) =>
      match Bk.Search(t, phash, RADIUS)
      case None => None
      case Some(e) => Some(e.sha256)
  }

  function NewRecord(digest: Digest, rs: seq<Record>, row: SourceRow): Record {
    Record(
      SOURCE_ID + ":" + (if |row.digest| <= 24 then row.digest else row.digest[..24]),
      row.sourceRecordId,
      row.digest,
      row.phash,
      NearDuplicateIn(Bk.Build(EntriesOf(rs)), row.phash),
      row.splitGroup,
      DeterministicSplit(digest, row.splitGroup))
  }

  ghost function Ids(rs: seq<Record>): set<string> {
    set i | 0 <= i < |rs| :: rs[i].sourceRecordId
  }

  ghost function RowIds(rows: seq<SourceRow>): set<string> {
    set i | 0 <= i < |rows| :: rows[i].sourceRecordId
  }

  predicate HasDigest(rs: seq<Record>, d: string) {
    exists i :: 0 <= i < |rs| && rs[i].sha256 == d
  }

  datatype State = State(records: seq<Record>, seen: set<string>, exactDuplicates: nat, processed: nat)

  function Step(digest: Digest, st: State, row: SourceRow): State {
    if row.sourceRecordId in st.seen then st
    else if HasDigest(st.records, row.digest) then
      State(st.records, st.seen + {row.sourceRecordId}, st.exactDuplicates + 1, st.processed + 1)
    else
      State(st.records + [NewRecord(digest, st.records, row)], st.seen + {row.sourceRecordId},
            st.exactDuplicates, st.processed + 1)
  }

  /** `maxRows == 0` means no limit. */
  function Run(digest: Digest, st: State, rows: seq<SourceRow>, maxRows: nat): State
    decreases rows
  {
    if rows == [] || (maxRows > 0 && st.processed >= maxRows) then st
    else Run(digest, Step(digest, st, rows[0]), rows[1..], maxRows)
  }

  ghost function Start(existing: seq<Record>): State {
    State(existing, Ids(existing), 0, 0)
  }

  // ---- What a run guarantees ----

  /** Record `i` carries a near-duplicate reference exactly when an earlier record is
      within the radius, and then it names such a record. */
  ghost predicate FlaggedExactly(rs: seq<Record>, i: nat)
    requires i < |rs|
  {
    && (rs[i].nearDuplicateOf.None? <==>
        forall j :: 0 <= j < i ==> Distance(rs[i].phash, rs[j].phash) > RADIUS)
    && (rs[i].nearDuplicateOf.Some? ==>
        exists j :: 0 <= j < i && rs[j].sha256 == rs[i].nearDuplicateOf.value
          && Distance(rs[i].phash, rs[j].phash) <= RADIUS)
  }

  /** The tree over the retained records answers as a scan of them would. */
  lemma NearDuplicateIsExact(rs: seq<Record>, phash: nat)
    ensures var near := NearDuplicateIn(Bk.Build(EntriesOf(rs)), phash);
      && (near.None? <==> forall j :: 0 <= j < |rs| ==> Distance(phash, rs[j].phash) > RADIUS)
      && (near.Some? ==>
          exists j :: 0 <= j < |rs| && rs[j].sha256 == near.value && Distance(phash, rs[j].phash) <= RADIUS)
  {
    var es := EntriesOf(rs);
    Bk.BuildHoldsEntries(es);
    if rs != [] {
      var t := Bk.Build(es).value;
      Bk.SearchIsExact(t, phash, RADIUS);
      var found := Bk.Search(t, phash, RADIUS);
      forall j | 0 <= j < |rs| ensures EntryOf(rs[j]) in Bk.Entries(t) { assert es[j] in es; }
      if found.Some? {
        var j :| 0 <= j < |es| && es[j] == found.value;
        assert rs[j].sha256 == found.value.sha256 && rs[j].phash == found.value.phash;
      } else {
        assert forall j :: 0 <= j < |rs| ==> EntryOf(rs[j]).phash == rs[j].phash;
      }
    }
  }

  lemma NewRecordIsFlaggedExactly(digest: Digest, rs: seq<Record>, row: SourceRow)
    ensures FlaggedExactly(rs + [NewRecord(digest, rs, row)], |rs|)
  {
    var more := rs + [NewRecord(digest, rs, row)];
    NearDuplicateIsExact(rs, row.phash);
    assert forall j :: 0 <= j < |rs| ==> more[j] == rs[j];
    if more[|rs|].nearDuplicateOf.Some? {
      var j :| 0 <= j < |rs| && rs[j].sha256 == more[|rs|].nearDuplicateOf.value
        && Distance(row.phash, rs[j].phash) <= RADIUS;
      assert more[j] == rs[j];
    }
  }

  lemma {:induction false} RunFlagsExactly(digest: Digest, st: State, rows: seq<SourceRow>, maxRows: nat)
    ensures var after := Run(digest, st, rows, maxRows).records;
      && st.records <= after
      && forall i :: |st.records| <= i < |after| ==> FlaggedExactly(after, i)
    decreases rows
  {
    hide FlaggedExactly, Step;
    if !(rows == [] || (maxRows > 0 && st.processed >= maxRows)) {
      var next := Step(digest, st, rows[0]);
      StepFlagsExactly(digest, st, rows[0]);
      RunFlagsExactly(digest, next, rows[1..], maxRows);
      var after := Run(digest, st, rows, maxRows).records;
      if |next.records| > |st.records| {
        FlagsSurviveExtension(next.records, after, |st.records|);
      }
    }
  }

  lemma StepFlagsExactly(digest: Digest, st: State, row: SourceRow)
    ensures var next := Step(digest, st, row).records;
      && st.records <= next && |next| <= |st.records| + 1
      && (|next| > |st.records| ==> FlaggedExactly(next, |st.records|))
  {
    hide FlaggedExactly, NewRecord, HasDigest;
    NewRecordIsFlaggedExactly(digest, st.records, row);
  }

  lemma FlagsSurviveExtension(rs: seq<Record>, more: seq<Record>, i: nat)
    requires rs <= more && i < |rs| && FlaggedExactly(rs, i)
    ensures FlaggedExactly(more, i)
  {
    assert forall j :: 0 <= j <= i ==> more[j] == rs[j];
    if rs[i].nearDuplicateOf.Some? {
      var j :| 0 <= j < i && rs[j].sha256 == rs[i].nearDuplicateOf.value
        && Distance(rs[i].phash, rs[j].phash) <= RADIUS;
      assert more[j].sha256 == more[i].nearDuplicateOf.value;
    }
  }

  lemma {:induction false} RunKeepsDigestsUnique(digest: Digest, st: State, rows: seq<SourceRow>, maxRows: nat)
    requires UniqueDigests(st.records)
    ensures UniqueDigests(Run(digest, st, rows, maxRows).records)
    decreases rows
  {
    if !(rows == [] || (maxRows > 0 && st.processed >= maxRows)) {
      RunKeepsDigestsUnique(digest, Step(digest, st, rows[0]), rows[1..], maxRows);
    }
  }

  // ---- Which rows become which records ----

  /** Record `i` holds what `row` says, under the source's name, with the split of its camera
      group and a reference exactly if an earlier hash is within six bits. */
  ghost predicate Holds(digest: Digest, rs: seq<Record>, i: nat, row: SourceRow)
    requires i < |rs|
  {
    var r, bucket := rs[i], digest(row.splitGroup) % 10000;
    && r.sourceRecordId == row.sourceRecordId && r.sha256 == row.digest
    && r.phash == row.phash && r.splitGroup == row.splitGroup
    && r.sampleId == "pyro_sdis_a1e553e:" + row.digest[..if |row.digest| < 24 then |row.digest| else 24]
    && r.split == (if bucket >= 8500 then "test" else if bucket >= 7000 then "validation" else "train")
    && (r.nearDuplicateOf.None? <==> forall k :: 0 <= k < i ==> Distance(row.phash, rs[k].phash) > 6)
    && (r.nearDuplicateOf.Some? ==> exists k :: 0 <= k < i && RefersWithin(r, row, rs[k]))
  }

  ghost predicate RefersWithin(r: Record, row: SourceRow, earlier: Record) {
    r.nearDuplicateOf == Some(earlier.sha256) && Distance(row.phash, earlier.phash) <= 6
  }

  /** Row `j` has a new id, and no image that was retained before. */
  ghost predicate New(st: State, rows: seq<SourceRow>, from: seq<nat>, j: nat)
    requires j < |rows| && forall k :: 0 <= k < |from| ==> from[k] < |rows|
  {
    && rows[j].sourceRecordId !in st.seen && rows[j].sourceRecordId !in RowIds(rows[..j])
    && (forall i :: 0 <= i < |st.records| ==> st.records[i].sha256 != rows[j].digest)
    && (forall k :: 0 <= k < |from| && from[k] < j ==> rows[from[k]].digest != rows[j].digest)
  }

  /** The records a run adds are those of the rows `from`, in order: the new ones. */
  ghost predicate Retains(digest: Digest, st: State, rows: seq<SourceRow>, after: seq<Record>, from: seq<nat>) {
    && st.records <= after && |after| == |st.records| + |from|
    && (forall k :: 0 <= k < |from| ==> from[k] < |rows|)
    && (forall k, l :: 0 <= k < l < |from| ==> from[k] < from[l])
    && (forall k :: 0 <= k < |from| ==> Holds(digest, after, |st.records| + k, rows[from[k]]))
    && (forall j :: 0 <= j < |rows| ==> (j in from <==> New(st, rows, from, j)))
  }

  lemma HoldsSurvivesExtension(digest: Digest, rs: seq<Record>, more: seq<Record>, i: nat, row: SourceRow)
    requires rs <= more && i < |rs| && Holds(digest, rs, i, row)
    ensures Holds(digest, more, i, row)
  {
    hide Distance;
    assert forall k :: 0 <= k <= i ==> more[k] == rs[k];
    if rs[i].nearDuplicateOf.Some? {
      var k :| 0 <= k < i && RefersWithin(rs[i], row, rs[k]);
      assert RefersWithin(more[i], row, more[k]);
    }
  }

  lemma NewRecordHolds(digest: Digest, rs: seq<Record>, row: SourceRow)
    ensures Holds(digest, rs + [NewRecord(digest, rs, row)], |rs|, row)
  {
    hide Distance, NearDuplicateIn;
    NearDuplicateIsExact(rs, row.phash);
    var r, more := NewRecord(digest, rs, row), rs + [NewRecord(digest, rs, row)];
    assert r.nearDuplicateOf == NearDuplicateIn(Bk.Build(EntriesOf(rs)), row.phash);
    assert forall k :: 0 <= k < |rs| ==> more[k] == rs[k];
    if r.nearDuplicateOf.Some? {
      var k :| 0 <= k < |rs| && rs[k].sha256 == r.nearDuplicateOf.value && Distance(row.phash, rs[k].phash) <= RADIUS;
      assert RefersWithin(more[|rs|], row, more[k]);
    }
  }

  /** A run retains exactly the new rows among those it looks at, as they are. */
  lemma RunRetainsNewRows(digest: Digest, st: State, rows: seq<SourceRow>, maxRows: nat) returns (from: seq<nat>)
    ensures var seen := rows[..Consumed(digest, st, rows, maxRows)];
      Retains(digest, st, seen, Run(digest, st, rows, maxRows).records, from)
  {
    hide Retains, Run, Consumed;
    LimitIsACut(digest, st, rows, maxRows);
    from := UnlimitedRunRetainsNewRows(digest, st, rows[..Consumed(digest, st, rows, maxRows)]);
  }

  lemma {:induction false} UnlimitedRunRetainsNewRows(digest: Digest, st: State, rows: seq<SourceRow>)
    returns (from: seq<nat>)
    ensures Retains(digest, st, rows, Run(digest, st, rows, 0).records, from)
  {
    if rows == [] {
      from := [];
    } else {
      hide Run, Retains, NewRecord, HasDigest;
      var n := |rows| - 1;
      var before := Run(digest, st, rows[..n], 0);
      from := UnlimitedRunRetainsNewRows(digest, st, rows[..n]);
      OneMoreRow(digest, st, rows, n);
      assert rows[..n + 1] == rows;
      RunSeesEveryRow(digest, st, rows[..n]);
      NewExactlyWhen(digest, st, rows, before.records, from);
      if rows[n].sourceRecordId !in before.seen && !HasDigest(before.records, rows[n].digest) {
        RetainsOneMore(digest, st, rows, before.records, from);
        from := from + [n];
      } else {
        RetainsNoMore(digest, st, rows, before.records, from);
      }
    }
  }

  lemma NewExactlyWhen(digest: Digest, st: State, rows: seq<SourceRow>, before: seq<Record>, from: seq<nat>)
    requires rows != [] && Retains(digest, st, rows[..|rows| - 1], before, from)
    ensures forall k :: 0 <= k < |from| ==> from[k] < |rows| - 1
    ensures var n := |rows| - 1;
      New(st, rows, from, n) <==>
        rows[n].sourceRecordId !in st.seen + RowIds(rows[..n]) && !HasDigest(before, rows[n].digest)
  {
    hide Holds, New, RowIds;
    var n, d := |rows| - 1, rows[|rows| - 1].digest;
    forall k | 0 <= k < |from| ensures before[|st.records| + k].sha256 == rows[from[k]].digest {
      HoldsDigest(digest, before, |st.records| + k, rows[..n][from[k]]);
    }
    DigestsSplit(st.records, rows, before, from, d);
    NewByDigests(st, rows, from, n);
  }

  lemma HoldsDigest(digest: Digest, rs: seq<Record>, i: nat, row: SourceRow)
    requires i < |rs| && Holds(digest, rs, i, row)
    ensures rs[i].sha256 == row.digest
  {
  }

  lemma NewByDigests(st: State, rows: seq<SourceRow>, from: seq<nat>, n: nat)
    requires n < |rows| && forall k :: 0 <= k < |from| ==> from[k] < n
    ensures New(st, rows, from, n) <==>
      && rows[n].sourceRecordId !in st.seen + RowIds(rows[..n])
      && (forall i :: 0 <= i < |st.records| ==> st.records[i].sha256 != rows[n].digest)
      && (forall k :: 0 <= k < |from| ==> rows[from[k]].digest != rows[n].digest)
  {
    hide RowIds;
  }

  lemma DigestsSplit(rs: seq<Record>, rows: seq<SourceRow>, after: seq<Record>, from: seq<nat>, d: string)
    requires rs <= after && |after| == |rs| + |from|
    requires forall k :: 0 <= k < |from| ==> from[k] < |rows| && after[|rs| + k].sha256 == rows[from[k]].digest
    ensures HasDigest(after, d) <==>
      || (exists i :: 0 <= i < |rs| && rs[i].sha256 == d) || (exists k :: 0 <= k < |from| && rows[from[k]].digest == d)
  {
    if HasDigest(after, d) {
      var i :| 0 <= i < |after| && after[i].sha256 == d;
      if i < |rs| { assert rs[i].sha256 == d; } else { assert rows[from[i - |rs|]].digest == d; }
    }
    if i :| 0 <= i < |rs| && rs[i].sha256 == d { assert after[i].sha256 == d; }
    if k :| 0 <= k < |from| && rows[from[k]].digest == d { assert after[|rs| + k].sha256 == d; }
  }

  lemma NewIsLocal(st: State, rows: seq<SourceRow>, from: seq<nat>, more: seq<nat>, j: nat)
    requires j < |rows| - 1 && (forall k :: 0 <= k < |from| ==> from[k] < |rows| - 1)
    requires more == from || more == from + [|rows| - 1]
    ensures New(st, rows, more, j) <==> New(st, rows[..|rows| - 1], from, j)
  {
    hide RowIds;
    var front := rows[..|rows| - 1];
    assert front[..j] == rows[..j] && front[j] == rows[j];
    assert forall k :: 0 <= k < |from| ==> front[from[k]] == rows[from[k]] && more[k] == from[k];
  }

  lemma RetainsOneMore(digest: Digest, st: State, rows: seq<SourceRow>, before: seq<Record>, from: seq<nat>)
    requires rows != [] && Retains(digest, st, rows[..|rows| - 1], before, from)
    requires (forall k :: 0 <= k < |from| ==> from[k] < |rows| - 1) && New(st, rows, from, |rows| - 1)
    ensures Retains(digest, st, rows, before + [NewRecord(digest, before, rows[|rows| - 1])], from + [|rows| - 1])
  {
    hide Holds, New, NewRecord;
    var n := |rows| - 1;
    var more, after := from + [n], before + [NewRecord(digest, before, rows[n])];
    NewRecordHolds(digest, before, rows[n]);
    forall k | 0 <= k < |more| ensures Holds(digest, after, |st.records| + k, rows[more[k]]) {
      if k < |from| {
        assert rows[..n][from[k]] == rows[more[k]];
        HoldsSurvivesExtension(digest, before, after, |st.records| + k, rows[more[k]]);
      }
    }
    NewStays(st, rows, from, n);
    forall j | 0 <= j < |rows| ensures j in more <==> New(st, rows, more, j) {
      if j < n { NewIsLocal(st, rows, from, more, j); }
    }
  }

  lemma NewStays(st: State, rows: seq<SourceRow>, from: seq<nat>, n: nat)
    requires n == |rows| - 1 && forall k :: 0 <= k < |from| ==> from[k] < n
    ensures New(st, rows, from + [n], n) <==> New(st, rows, from, n)
  {
    hide RowIds;
    var more := from + [n];
    assert forall k :: 0 <= k < |from| ==> more[k] == from[k];
  }

  lemma RetainsNoMore(digest: Digest, st: State, rows: seq<SourceRow>, before: seq<Record>, from: seq<nat>)
    requires rows != [] && Retains(digest, st, rows[..|rows| - 1], before, from)
    requires (forall k :: 0 <= k < |from| ==> from[k] < |rows| - 1) && !New(st, rows, from, |rows| - 1)
    ensures Retains(digest, st, rows, before, from)
  {
    hide Holds, New;
    var n := |rows| - 1;
    forall k | 0 <= k < |from| ensures Holds(digest, before, |st.records| + k, rows[from[k]]) {
      assert rows[..n][from[k]] == rows[from[k]];
    }
    forall j | 0 <= j < |rows| ensures j in from <==> New(st, rows, from, j) {
      if j < n { NewIsLocal(st, rows, from, from, j); }
    }
  }

  // ---- Interruption and resumption ----

  lemma {:induction false} RunSeesEveryRow(digest: Digest, st: State, rows: seq<SourceRow>)
    ensures Run(digest, st, rows, 0).seen == st.seen + RowIds(rows)
    ensures Ids(Run(digest, st, rows, 0).records) <= Ids(st.records) + RowIds(rows)
    decreases rows
  {
    if rows != [] {
      RunSeesEveryRow(digest, Step(digest, st, rows[0]), rows[1..]);
      assert rows == [rows[0]] + rows[1..];
      RowIdsSplit(rows);
      IdsAfterStep(digest, st, rows[0]);
    }
  }

  lemma RowIdsSplit(rows: seq<SourceRow>)
    requires rows != []
    ensures RowIds(rows) == {rows[0].sourceRecordId} + RowIds(rows[1..])
  {
    forall x | x in RowIds(rows) ensures x in {rows[0].sourceRecordId} + RowIds(rows[1..]) {
      var i :| 0 <= i < |rows| && rows[i].sourceRecordId == x;
      if i > 0 { assert rows[1..][i - 1].sourceRecordId == x; }
    }
  }

  lemma IdsAfterStep(digest: Digest, st: State, row: SourceRow)
    ensures var rs := Step(digest, st, row).records;
      && Ids(st.records) <= Ids(rs) <= Ids(st.records) + {row.sourceRecordId}
      && st.records <= rs
  {
    var rs := Step(digest, st, row).records;
    forall x | x in Ids(st.records) ensures x in Ids(rs) {
      var i :| 0 <= i < |st.records| && st.records[i].sourceRecordId == x;
      assert rs[i].sourceRecordId == x;
    }
  }

  lemma {:induction false} RunInTwoParts(digest: Digest, st: State, first: seq<SourceRow>, second: seq<SourceRow>)
    ensures Run(digest, st, first + second, 0) == Run(digest, Run(digest, st, first, 0), second, 0)
    decreases first
  {
    if first == [] {
      assert first + second == second;
    } else {
      assert (first + second)[1..] == first[1..] + second;
      RunInTwoParts(digest, Step(digest, st, first[0]), first[1..], second);
    }
  }

  /** Replaying rows whose outcome is already on disk retains nothing new. */
  lemma {:induction false} ReplayAddsNothing(digest: Digest, s: State, t: State, rows: seq<SourceRow>)
    requires Run(digest, s, rows, 0).records <= t.records && s.seen <= t.seen
    ensures Run(digest, t, rows, 0).records == t.records
    decreases rows
  {
    if rows != [] {
      var next := Step(digest, s, rows[0]);
      RunFlagsExactly(digest, next, rows[1..], 0);
      if rows[0].sourceRecordId !in s.seen {
        if !HasDigest(s.records, rows[0].digest) {
          assert next.records[|s.records|].sha256 == rows[0].digest;
        }
        var i :| 0 <= i < |next.records| && next.records[i].sha256 == rows[0].digest;
        assert t.records[i].sha256 == rows[0].digest;
      }
      ReplayAddsNothing(digest, next, Step(digest, t, rows[0]), rows[1..]);
    }
  }

  // ---- Row limits ----

  /** How many rows a run looks at. */
  function Consumed(digest: Digest, st: State, rows: seq<SourceRow>, maxRows: nat): (k: nat)
    ensures k <= |rows|
    decreases rows
  {
    if rows == [] || (maxRows > 0 && st.processed >= maxRows) then 0
    else 1 + Consumed(digest, Step(digest, st, rows[0]), rows[1..], maxRows)
  }

  /** A limited run is an unlimited one over the rows it looks at, and it stops early only once
      it has processed its limit. */
  lemma {:induction false} LimitIsACut(digest: Digest, st: State, rows: seq<SourceRow>, maxRows: nat)
    ensures var k := Consumed(digest, st, rows, maxRows);
      && Run(digest, st, rows, maxRows) == Run(digest, st, rows[..k], 0)
      && Consumed(digest, st, rows[..k], maxRows) == k
      && (k < |rows| ==> 0 < maxRows <= Run(digest, st, rows, maxRows).processed)
    decreases rows
  {
    hide Step;
    var k := Consumed(digest, st, rows, maxRows);
    if k > 0 {
      LimitIsACut(digest, Step(digest, st, rows[0]), rows[1..], maxRows);
      assert rows[..k][1..] == rows[1..][..k - 1];
    }
  }

  lemma {:induction false} LargerLimitsReachFurther(digest: Digest, st: State, rows: seq<SourceRow>, maxRows: nat,
                                                    more: nat)
    requires more == 0 || 0 < maxRows <= more
    ensures Consumed(digest, st, rows, maxRows) <= Consumed(digest, st, rows, more)
    decreases rows
  {
    hide Step;
    if rows != [] { LargerLimitsReachFurther(digest, Step(digest, st, rows[0]), rows[1..], maxRows, more); }
  }

  /** A limit that `first` does not exhaust is left for `second`. */
  lemma {:induction false} LimitedRunInTwoParts(digest: Digest, st: State, first: seq<SourceRow>,
                                                second: seq<SourceRow>, maxRows: nat)
    requires Consumed(digest, st, first, maxRows) == |first|
    ensures var between := Run(digest, st, first, 0);
      && Run(digest, st, first + second, maxRows) == Run(digest, between, second, maxRows)
      && Consumed(digest, st, first + second, maxRows) == |first| + Consumed(digest, between, second, maxRows)
    decreases first
  {
    hide Step;
    if first == [] {
      assert first + second == second;
    } else {
      assert (first + second)[1..] == first[1..] + second;
      LimitedRunInTwoParts(digest, Step(digest, st, first[0]), first[1..], second, maxRows);
    }
  }

  /** A head start in processed rows is a larger limit. */
  lemma {:induction false} HeadStartShiftsLimit(digest: Digest, s: State, t: State, rows: seq<SourceRow>,
                                                maxRows: nat, lead: nat)
    requires s.records == t.records && s.seen == t.seen && s.processed == t.processed + lead
    ensures var more := if maxRows == 0 then 0 else maxRows + lead;
      && Run(digest, t, rows, maxRows).records == Run(digest, s, rows, more).records
      && Consumed(digest, t, rows, maxRows) == Consumed(digest, s, rows, more)
    decreases rows
  {
    hide NewRecord, HasDigest;
    if rows != [] {
      HeadStartShiftsLimit(digest, Step(digest, s, rows[0]), Step(digest, t, rows[0]), rows[1..], maxRows, lead);
    }
  }

  // ---- Restarting from the partial manifest ----

  lemma {:induction false} SeenRowsStayUnretained(digest: Digest, st: State, rows: seq<SourceRow>, id: string)
    requires id in st.seen && id !in Ids(st.records)
    ensures id !in Ids(Run(digest, st, rows, 0).records)
    decreases rows
  {
    if rows != [] {
      IdsAfterStep(digest, st, rows[0]);
      SeenRowsStayUnretained(digest, Step(digest, st, rows[0]), rows[1..], id);
    }
  }

  /** `t` replays from the manifest the rows that `s` retained or found to be duplicates: it
      skips the former and counts the latter again. */
  ghost predicate Replays(digest: Digest, s: State, t: State, rows: seq<SourceRow>) {
    && t.records == Run(digest, s, rows, 0).records
    && t.seen == s.seen + Ids(t.records) && Ids(s.records) <= s.seen
    && t.processed == s.exactDuplicates <= s.processed
  }

  lemma ReplaysStep(digest: Digest, s: State, t: State, rows: seq<SourceRow>)
    requires rows != [] && Replays(digest, s, t, rows)
    ensures Replays(digest, Step(digest, s, rows[0]), Step(digest, t, rows[0]), rows[1..])
  {
    hide NewRecord;
    var row, next := rows[0], Step(digest, s, rows[0]);
    IdsAfterStep(digest, s, row);
    RunFlagsExactly(digest, next, rows[1..], 0);
    IdsOfPrefix(next.records, t.records);
    if row.sourceRecordId !in s.seen {
      if HasDigest(s.records, row.digest) {
        SeenRowsStayUnretained(digest, next, rows[1..], row.sourceRecordId);
        DigestsOfPrefix(s.records, t.records, row.digest);
      } else {
        NewRecordCopies(digest, s.records, row);
        assert next.records[|s.records|].sourceRecordId == row.sourceRecordId;
      }
    }
  }

  lemma IdsOfPrefix(rs: seq<Record>, more: seq<Record>)
    requires rs <= more
    ensures Ids(rs) <= Ids(more)
  {
    forall x | x in Ids(rs) ensures x in Ids(more) {
      var i :| 0 <= i < |rs| && rs[i].sourceRecordId == x;
      assert more[i].sourceRecordId == x;
    }
  }

  lemma DigestsOfPrefix(rs: seq<Record>, more: seq<Record>, d: string)
    requires rs <= more && HasDigest(rs, d)
    ensures HasDigest(more, d)
  {
    var i :| 0 <= i < |rs| && rs[i].sha256 == d;
    assert more[i].sha256 == d;
  }

  lemma {:induction false} ReplayCountsDuplicates(digest: Digest, s: State, t: State, rows: seq<SourceRow>,
                                                  maxRows: nat)
    requires Replays(digest, s, t, rows) && Consumed(digest, s, rows, maxRows) == |rows|
    ensures Consumed(digest, t, rows, maxRows) == |rows|
    ensures var end, replayed := Run(digest, s, rows, 0), Run(digest, t, rows, 0);
      replayed.records == end.records && replayed.seen == end.seen && replayed.processed == end.exactDuplicates
    decreases rows
  {
    hide Step;
    if rows != [] {
      ReplaysStep(digest, s, t, rows);
      ReplayCountsDuplicates(digest, Step(digest, s, rows[0]), Step(digest, t, rows[0]), rows[1..], maxRows);
    }
  }

  /** A run restarted from the partial manifest ends with the records of an uninterrupted run
      whose limit, if there is one, is larger by the number of records retained before. */
  lemma ResumeReproducesRun(digest: Digest, existing: seq<Record>, done: seq<SourceRow>, rest: seq<SourceRow>,
                            maxRows: nat)
    ensures var partial := Run(digest, Start(existing), done, maxRows).records;
      && |existing| <= |partial|
      && var limit := if maxRows == 0 then 0 else maxRows + |partial| - |existing|;
      && Run(digest, Start(partial), done + rest, maxRows).records
        == Run(digest, Start(existing), done + rest, limit).records
      && Consumed(digest, Start(partial), done + rest, maxRows) == Consumed(digest, Start(existing), done + rest, limit)
  {
    hide Run, Consumed;
    var start := Start(existing);
    LimitIsACut(digest, start, done, maxRows);
    var c := Consumed(digest, start, done, maxRows);
    var first, second := done[..c], done[c..] + rest;
    assert done + rest == first + second;
    var end := Run(digest, start, first, 0);
    var partial := end.records;
    RunAccountsForRows(digest, start, first, 0);
    ReplayStarts(digest, existing, first);
    ReplayCountsDuplicates(digest, start, Start(partial), first, maxRows);
    var lead := |partial| - |existing|;
    var limit := if maxRows == 0 then 0 else maxRows + lead;
    LargerLimitsReachFurther(digest, start, first, maxRows, limit);
    LimitedRunInTwoParts(digest, start, first, second, limit);
    LimitedRunInTwoParts(digest, Start(partial), first, second, maxRows);
    HeadStartShiftsLimit(digest, end, Run(digest, Start(partial), first, 0), second, maxRows, lead);
  }

  lemma ReplayStarts(digest: Digest, existing: seq<Record>, rows: seq<SourceRow>)
    ensures Replays(digest, Start(existing), Start(Run(digest, Start(existing), rows, 0).records), rows)
  {
    RunFlagsExactly(digest, Start(existing), rows, 0);
    IdsOfPrefix(existing, Run(digest, Start(existing), rows, 0).records);
  }

  /** Row `i` brings nothing new: its id was met before, or its image is among `rs`. */
  ghost predicate Repeats(existing: seq<Record>, rows: seq<SourceRow>, rs: seq<Record>, i: nat)
    requires i < |rows|
  {
    rows[i].sourceRecordId in Ids(existing) + RowIds(rows[..i]) || HasDigest(rs, rows[i].digest)
  }

  lemma {:induction false} RetainsNothingExactlyWhen(digest: Digest, existing: seq<Record>, rows: seq<SourceRow>,
                                                     near: nat, far: nat)
    requires near <= far <= |rows|
    ensures var before, after := Run(digest, Start(existing), rows[..near], 0).records,
      Run(digest, Start(existing), rows[..far], 0).records;
      && before <= after
      && (after == before <==> forall i :: near <= i < far ==> Repeats(existing, rows, before, i))
    decreases far
  {
    if near < far {
      hide Run, Step, Repeats, Start;
      RetainsNothingExactlyWhen(digest, existing, rows, near, far - 1);
      OneMoreRow(digest, Start(existing), rows, far - 1);
      var before := Run(digest, Start(existing), rows[..near], 0).records;
      RepeatingRowIsSkipped(digest, existing, rows, far - 1, before);
      OneMoreRepeats(existing, rows, near, far, before, Run(digest, Start(existing), rows[..far - 1], 0).records,
                     Run(digest, Start(existing), rows[..far], 0).records);
    } else {
      hide Run, Repeats;
    }
  }

  lemma OneMoreRepeats(existing: seq<Record>, rows: seq<SourceRow>, near: nat, far: nat, before: seq<Record>,
                       prior: seq<Record>, after: seq<Record>)
    requires near < far <= |rows| && before <= prior <= after
    requires prior == before <==> forall i :: near <= i < far - 1 ==> Repeats(existing, rows, before, i)
    requires prior == before ==> (after == before <==> Repeats(existing, rows, before, far - 1))
    ensures after == before <==> forall i :: near <= i < far ==> Repeats(existing, rows, before, i)
  {
    hide Repeats;
    assert after == before ==> prior == before;
  }

  lemma RepeatingRowIsSkipped(digest: Digest, existing: seq<Record>, rows: seq<SourceRow>, i: nat, rs: seq<Record>)
    requires i < |rows|
    ensures var prior := Run(digest, Start(existing), rows[..i], 0);
      var after := Step(digest, prior, rows[i]).records;
      && prior.records <= after
      && (prior.records == rs ==> (after == rs <==> Repeats(existing, rows, rs, i)))
  {
    hide Run, NewRecord, HasDigest;
    RunSeesEveryRow(digest, Start(existing), rows[..i]);
  }

  lemma OneMoreRow(digest: Digest, st: State, rows: seq<SourceRow>, i: nat)
    requires i < |rows|
    ensures Run(digest, st, rows[..i + 1], 0) == Step(digest, Run(digest, st, rows[..i], 0), rows[i])
  {
    hide Step;
    assert rows[..i + 1] == rows[..i] + [rows[i]];
    RunInTwoParts(digest, st, rows[..i], [rows[i]]);
    assert [rows[i]][1..] == [];
  }

  /** With a limit, a restart agrees with an uninterrupted run exactly when the further rows it
      looks at bring nothing new; without one, or short of it, there are none. */
  lemma ResumeAgreesExactlyWhen(digest: Digest, existing: seq<Record>, done: seq<SourceRow>, rest: seq<SourceRow>,
                                maxRows: nat)
    ensures var partial := Run(digest, Start(existing), done, maxRows).records;
      var once := Run(digest, Start(existing), done + rest, maxRows).records;
      var again := Run(digest, Start(partial), done + rest, maxRows).records;
      var near := Consumed(digest, Start(existing), done + rest, maxRows);
      var far := Consumed(digest, Start(partial), done + rest, maxRows);
      && near <= far && once <= again
      && (again == once <==> forall i :: near <= i < far ==> Repeats(existing, done + rest, once, i))
      && (maxRows == 0 || partial == existing ==> near == far)
  {
    hide Run, Consumed, Repeats;
    var partial := Run(digest, Start(existing), done, maxRows).records;
    ResumeReproducesRun(digest, existing, done, rest, maxRows);
    var limit := if maxRows == 0 then 0 else maxRows + |partial| - |existing|;
    LargerLimitsReachFurther(digest, Start(existing), done + rest, maxRows, limit);
    LimitIsACut(digest, Start(existing), done + rest, maxRows);
    LimitIsACut(digest, Start(existing), done + rest, limit);
    var near := Consumed(digest, Start(existing), done + rest, maxRows);
    var far := Consumed(digest, Start(existing), done + rest, limit);
    RetainsNothingExactlyWhen(digest, existing, done + rest, near, far);
  }

  /** With a limit of one row, a restart after the first of two new rows retains both. */
  lemma RestartRetainsMore(digest: Digest, a: SourceRow, b: SourceRow)
    requires a.sourceRecordId != b.sourceRecordId && a.digest != b.digest
    ensures var partial := Run(digest, Start([]), [a], 1).records;
      && |Run(digest, Start([]), [a, b], 1).records| == 1
      && |Run(digest, Start(partial), [a, b], 1).records| == 2
  {
    hide NewRecord, Run;
    var first := Step(digest, Start([]), a);
    NewRecordCopies(digest, [], a);
    assert Start([]).seen == {};
    RunOfTwo(digest, Start([]), a, b);
    var partial := Start(first.records);
    assert partial.records[0].sourceRecordId == a.sourceRecordId;
    assert Step(digest, partial, a) == partial;
    assert !HasDigest(partial.records, b.digest) && b.sourceRecordId !in partial.seen;
    RunOfTwo(digest, partial, a, b);
  }

  /** The run over two rows with a limit of one. */
  lemma RunOfTwo(digest: Digest, st: State, a: SourceRow, b: SourceRow)
    requires st.processed == 0
    ensures var next := Step(digest, st, a);
      && Run(digest, st, [a], 1) == next
      && Run(digest, st, [a, b], 1) == if next.processed >= 1 then next else Step(digest, next, b)
  {
    hide Step;
    assert [a, b][1..] == [b] && [b][1..] == [] && [a][1..] == [];
    var next := Step(digest, st, a);
    assert Run(digest, next, [b], 1) == if next.processed >= 1 then next else Step(digest, next, b);
  }

  lemma NewRecordCopies(digest: Digest, rs: seq<Record>, row: SourceRow)
    ensures var r := NewRecord(digest, rs, row); r.sourceRecordId == row.sourceRecordId && r.sha256 == row.digest
  {
  }

  lemma ReplayFromManifest(digest: Digest, existing: seq<Record>, done: seq<SourceRow>, partial: seq<Record>)
    requires Run(digest, Start(existing), done, 0).records <= partial
    ensures Run(digest, Start(partial), done, 0).records == partial
    ensures Ids(existing) <= Ids(partial)
  {
    RunFlagsExactly(digest, Start(existing), done, 0);
    assert existing <= partial;
    IdsOfPrefix(existing, partial);
    ReplayAddsNothing(digest, Start(existing), Start(partial), done);
  }

  /** A session is cut short after `cut` rows, if its limit does not end it before. */
  datatype Session = Session(cut: nat, maxRows: nat)

  ghost predicate Within(sessions: seq<Session>, rows: seq<SourceRow>) {
    forall i :: 0 <= i < |sessions| ==> sessions[i].cut <= |rows|
  }

  ghost function AfterSessions(digest: Digest, existing: seq<Record>, rows: seq<SourceRow>,
                               sessions: seq<Session>): seq<Record>
    requires Within(sessions, rows)
  {
    if sessions == [] then existing else
      var n := |sessions| - 1;
      Run(digest, Start(AfterSessions(digest, existing, rows, sessions[..n])), rows[..sessions[n].cut],
        sessions[n].maxRows).records
  }

  /** How many rows each session looks at. */
  ghost function Ends(digest: Digest, existing: seq<Record>, rows: seq<SourceRow>,
                      sessions: seq<Session>): (ends: seq<nat>)
    requires Within(sessions, rows)
    ensures |ends| == |sessions| && forall i :: 0 <= i < |ends| ==> ends[i] <= sessions[i].cut
  {
    if sessions == [] then [] else
      var n := |sessions| - 1;
      var start := Start(AfterSessions(digest, existing, rows, sessions[..n]));
      Ends(digest, existing, rows, sessions[..n])
        + [Consumed(digest, start, rows[..sessions[n].cut], sessions[n].maxRows)]
  }

  ghost function Furthest(ends: seq<nat>): (m: nat)
    ensures forall i :: 0 <= i < |ends| ==> ends[i] <= m
    ensures if ends == [] then m == 0 else exists i :: 0 <= i < |ends| && ends[i] == m
  {
    if ends == [] then 0 else
      var m := Furthest(ends[..|ends| - 1]);
      assert |ends| > 1 ==> exists i :: 0 <= i < |ends| - 1 && ends[..|ends| - 1][i] == m && ends[i] == m;
      if m > ends[|ends| - 1] then m else ends[|ends| - 1]
  }

  /** However many sessions it takes, and whatever their limits, the manifest is that of one
      unlimited run over the rows up to the furthest any session looked at. */
  lemma {:induction false} InterruptionsLoseNothing(digest: Digest, existing: seq<Record>, rows: seq<SourceRow>,
                                                    sessions: seq<Session>)
    requires Within(sessions, rows)
    ensures var reached := Furthest(Ends(digest, existing, rows, sessions));
      && reached <= |rows|
      && AfterSessions(digest, existing, rows, sessions) == Run(digest, Start(existing), rows[..reached], 0).records
  {
    if sessions != [] {
      hide Run, Consumed;
      var front, last := sessions[..|sessions| - 1], sessions[|sessions| - 1];
      InterruptionsLoseNothing(digest, existing, rows, front);
      var before := AfterSessions(digest, existing, rows, front);
      var m := Furthest(Ends(digest, existing, rows, front));
      var c := Consumed(digest, Start(before), rows[..last.cut], last.maxRows);
      LimitIsACut(digest, Start(before), rows[..last.cut], last.maxRows);
      assert rows[..last.cut][..c] == rows[..c];
      RestartTo(digest, existing, rows, m, c);
      assert Ends(digest, existing, rows, sessions)[..|front|] == Ends(digest, existing, rows, front);
    }
  }

  /** Restarting from the manifest of the first `m` rows and looking at `c` rows. */
  lemma RestartTo(digest: Digest, existing: seq<Record>, rows: seq<SourceRow>, m: nat, c: nat)
    requires m <= |rows| && c <= |rows|
    ensures var before := Run(digest, Start(existing), rows[..m], 0).records;
      Run(digest, Start(before), rows[..c], 0).records
        == Run(digest, Start(existing), rows[..if m <= c then c else m], 0).records
  {
    hide Run, Consumed;
    var before := Run(digest, Start(existing), rows[..m], 0).records;
    if m <= c {
      assert rows[..c] == rows[..m] + rows[m..c];
      ResumeReproducesRun(digest, existing, rows[..m], rows[m..c], 0);
    } else {
      assert rows[..m] == rows[..c] + rows[c..m];
      RunInTwoParts(digest, Start(existing), rows[..c], rows[c..m]);
      RunFlagsExactly(digest, Run(digest, Start(existing), rows[..c], 0), rows[c..m], 0);
      ReplayFromManifest(digest, existing, rows[..c], before);
    }
  }

  // ---- Ingestion followed by reconciliation ----

  /** Every row looked at is retained or counted as an exact duplicate. */
  lemma {:induction false} RunAccountsForRows(digest: Digest, st: State, rows: seq<SourceRow>, maxRows: nat)
    ensures var end := Run(digest, st, rows, maxRows);
      && st.records <= end.records
      && end.processed - st.processed == (|end.records| - |st.records|) + (end.exactDuplicates - st.exactDuplicates)
      && (maxRows > 0 && st.processed <= maxRows ==> end.processed <= maxRows)
    decreases rows
  {
    hide NewRecord, HasDigest;
    if !(rows == [] || (maxRows > 0 && st.processed >= maxRows)) {
      RunAccountsForRows(digest, Step(digest, st, rows[0]), rows[1..], maxRows);
    }
  }

  ghost predicate SplitByGroup(digest: Digest, rs: seq<Record>) {
    forall i :: 0 <= i < |rs| ==> rs[i].split == DeterministicSplit(digest, rs[i].splitGroup)
  }

  lemma {:induction false} RunSplitsByGroup(digest: Digest, st: State, rows: seq<SourceRow>, maxRows: nat)
    requires SplitByGroup(digest, st.records)
    ensures SplitByGroup(digest, Run(digest, st, rows, maxRows).records)
    decreases rows
  {
    if !(rows == [] || (maxRows > 0 && st.processed >= maxRows)) {
      RunSplitsByGroup(digest, Step(digest, st, rows[0]), rows[1..], maxRows);
    }
  }

  /** Reconciling an ingested corpus changes no record of a group that no near-duplicate link
      joins to another group. */
  lemma ReconciliationKeepsUnlinkedGroups(digest: Digest, rows: seq<SourceRow>, maxRows: nat, rs: seq<Record>, i: nat)
    requires rs == Run(digest, Start([]), rows, maxRows).records && i < |rs|
    requires forall l :: l in LinksOf(rs) ==> (l.0 == rs[i].splitGroup <==> l.1 == rs[i].splitGroup)
    ensures Reconciled(HashedChoice(digest), rs)[i] == rs[i]
  {
    hide Run, LinksOf, HashedChoice;
    RunSplitsByGroup(digest, Start([]), rows, maxRows);
    UnlinkedGroupsKeepTheirSplit(digest, rs, rs[i].splitGroup);
  }

  lemma FlaggedReferencesResolve(rs: seq<Record>, ss: seq<Record>, i: nat)
    requires OnlySplitsDiffer(rs, ss) && i < |rs| && FlaggedExactly(rs, i)
    ensures !Dangles(ss, i)
  {
    assert ss[i] == rs[i].(split := ss[i].split);
    if HasLink(ss[i]) {
      var j :| 0 <= j < i && rs[j].sha256 == rs[i].nearDuplicateOf.value
        && Distance(rs[i].phash, rs[j].phash) <= RADIUS;
      assert ss[j] == rs[j].(split := ss[j].split);
      assert ss[j].sha256 == ss[i].nearDuplicateOf.value;
    }
  }

  /** A manifest ingested from nothing refers only to itself, so after reconciliation
      no near-duplicate reference dangles and none crosses splits. */
  lemma IngestedCorpusIsLeakFree(digest: Digest, rows: seq<SourceRow>, maxRows: nat, rs: seq<Record>, ss: seq<Record>)
    requires rs == Run(digest, Start([]), rows, maxRows).records
    requires ss == Reconciled(HashedChoice(digest), rs)
    ensures UniqueDigests(ss) && DanglingUpTo(ss, |ss|) == 0 && CrossingUpTo(ss, |ss|) == 0
  {
    RunFlagsExactly(digest, Start([]), rows, maxRows);
    RunKeepsDigestsUnique(digest, Start([]), rows, maxRows);
    ReconciledIsLeakFree(HashedChoice(digest), rs);
    NoCrossingsCountZero(ss, |ss|);
    forall i | 0 <= i < |ss| ensures !Dangles(ss, i) {
      FlaggedReferencesResolve(rs, ss, i);
    }
    NoneDangle(ss, |ss|);
  }

  lemma {:induction false} NoneDangle(rs: seq<Record>, k: nat)
    requires k <= |rs| && forall i :: 0 <= i < k ==> !Dangles(rs, i)
    ensures DanglingUpTo(rs, k) == 0
  {
    if k > 0 { NoneDangle(rs, k - 1); }
  }

  // ---- The loop ----

  method IngestRows(digest: Digest, existing: seq<Record>, rows: seq<SourceRow>, maxRows: nat) returns (end: State)
    ensures end == Run(digest, Start(existing), rows, maxRows)
  {
    end := State(existing, set i | 0 <= i < |existing| :: existing[i].sourceRecordId, 0, 0);
    var shas := set i | 0 <= i < |existing| :: existing[i].sha256;
    var tree := LoadTree(existing);
    var i := 0;
    while i < |rows|
      invariant i <= |rows|
      invariant Run(digest, Start(existing), rows, maxRows) == Run(digest, end, rows[i..], maxRows)
      invariant forall d :: d in shas <==> HasDigest(end.records, d)
      invariant Indexes(tree, end.records) && (tree != null ==> fresh(tree.Repr))
    {
      assert rows[i..][1..] == rows[i + 1..];
      if maxRows > 0 && end.processed >= maxRows {
        break;
      }
      end, shas, tree := IngestRow(digest, end, shas, tree, rows[i]);
      i := i + 1;
    }
  }

  method IngestRow(digest: Digest, st: State, shas: set<string>, tree: Bk.BKNode?, row: SourceRow)
    returns (next: State, shasAfter: set<string>, grown: Bk.BKNode?)
    requires forall d :: d in shas <==> HasDigest(st.records, d)
    requires Indexes(tree, st.records)
    modifies if tree == null then {} else tree.Repr
    ensures next == Step(digest, st, row)
    ensures forall d :: d in shasAfter <==> HasDigest(next.records, d)
    ensures Indexes(grown, next.records)
    ensures grown != null && tree == null ==> fresh(grown.Repr)
    ensures tree != null ==> grown == tree && fresh(tree.Repr - old(tree.Repr))
  {
    next, shasAfter, grown := st, shas, tree;
    if row.sourceRecordId in st.seen {
      return;
    }
    if row.digest in shas {
      next := State(st.records, st.seen + {row.sourceRecordId}, st.exactDuplicates + 1, st.processed + 1);
      return;
    }
    var records;
    grown, records := Retain(digest, tree, st.records, row);
    shasAfter := shas + {row.digest};
    next := State(records, st.seen + {row.sourceRecordId}, st.exactDuplicates, st.processed + 1);
    DigestsAfterAppend(st.records, records[|st.records|]);
  }

  lemma DigestsAfterAppend(rs: seq<Record>, r: Record)
    ensures forall d :: HasDigest(rs + [r], d) <==> HasDigest(rs, d) || d == r.sha256
  {
    forall d ensures HasDigest(rs + [r], d) <==> HasDigest(rs, d) || d == r.sha256 {
      if HasDigest(rs, d) {
        var i :| 0 <= i < |rs| && rs[i].sha256 == d;
        assert (rs + [r])[i].sha256 == d;
      }
      assert (rs + [r])[|rs|].sha256 == r.sha256;
    }
  }

  /** The node is the tree built by adding the records in order. */
  ghost predicate Indexes(tree: Bk.BKNode?, rs: seq<Record>)
    reads tree, if tree == null then {} else tree.Repr
  {
    match Bk.Build(EntriesOf(rs))
    case None => tree == null
    case Some(t) => tree != null && tree.Valid() && tree.model == t
  }

  method LoadTree(existing: seq<Record>) returns (tree: Bk.BKNode?)
    ensures Indexes(tree, existing)
    ensures tree != null ==> fresh(tree.Repr)
  {
    tree := null;
    for i := 0 to |existing|
      invariant Indexes(tree, existing[..i])
      invariant tree != null ==> fresh(tree.Repr)
    {
      tree := AddEntry(tree, existing[..i], existing[i]);
      assert existing[..i] + [existing[i]] == existing[..i + 1];
    }
    assert existing[..|existing|] == existing;
  }

  method AddEntry(tree: Bk.BKNode?, ghost rs: seq<Record>, r: Record) returns (grown: Bk.BKNode?)
    requires Indexes(tree, rs)
    modifies if tree == null then {} else tree.Repr
    ensures Indexes(grown, rs + [r])
    ensures tree == null ==> grown != null && fresh(grown.Repr)
    ensures tree != null ==> grown == tree && fresh(tree.Repr - old(tree.Repr))
  {
    assert EntriesOf(rs + [r])[..|rs|] == EntriesOf(rs);
    if tree == null {
      grown := new Bk.BKNode(r.phash, r.sha256, r.split);
    } else {
      tree.Add(r.phash, r.sha256, r.split);
      grown := tree;
    }
  }

  method Retain(digest: Digest, tree: Bk.BKNode?, records: seq<Record>, row: SourceRow)
    returns (grown: Bk.BKNode?, after: seq<Record>)
    requires Indexes(tree, records)
    modifies if tree == null then {} else tree.Repr
    ensures Indexes(grown, after)
    ensures after == records + [NewRecord(digest, records, row)]
    ensures tree == null ==> grown != null && fresh(grown.Repr)
    ensures tree != null ==> grown == tree && fresh(tree.Repr - old(tree.Repr))
  {
    var near: Option<string> := None;
    if tree != null {
      var found := tree.Find(row.phash, RADIUS);
      near := if found.Some? then Some(found.value.sha256) else None;
    }
    var record := Record(
      SOURCE_ID + ":" + (if |row.digest| <= 24 then row.digest else row.digest[..24]),
      row.sourceRecordId, row.digest, row.phash, near, row.splitGroup,
      DeterministicSplit(digest, row.splitGroup));
    after := records + [record];
    grown := AddEntry(tree, records, record);
  }
}
