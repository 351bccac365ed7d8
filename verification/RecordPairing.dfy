/** Pairing the records of two cameras: only the right-hand neighbours of each left record's
    time are candidates. */
module RecordPairing {
  import opened Sorting
  import opened Counting
  import opened Pairing

  /** How many records are earlier than `time`, in a list sorted by time. */
  function Insertion(right: seq<Layer>, time: int): (at: nat)
    ensures at <= |right|
  {
    if right == [] then 0
    else if right[|right| - 1].time < time then |right|
    else Insertion(right[..|right| - 1], time)
  }

  lemma {:induction false} InsertionIs(right: seq<Layer>, time: int)
    requires SortedBy(right, Earlier)
    ensures forall i :: 0 <= i < Insertion(right, time) ==> right[i].time < time
    ensures forall i :: Insertion(right, time) <= i < |right| ==> right[i].time >= time
  {
    if right != [] {
      var n := |right| - 1;
      if right[n].time < time {
        forall i | 0 <= i < |right| ensures right[i].time < time { assert i < n ==> Earlier(right[i], right[n]); }
      } else {
        InsertionIs(right[..n], time);
        assert forall i :: 0 <= i < n ==> right[..n][i] == right[i];
      }
    }
  }

  lemma InsertionUnique(right: seq<Layer>, time: int, at: nat)
    requires SortedBy(right, Earlier) && at <= |right|
    requires forall i :: 0 <= i < at ==> right[i].time < time
    requires forall i :: at <= i < |right| ==> right[i].time >= time
    ensures at == Insertion(right, time)
  {
    InsertionIs(right, time);
  }

  /** In range, and next to where the left time would be inserted. */
  ghost predicate Neighbours(left: seq<Layer>, right: seq<Layer>, limit: int, c: Candidate) {
    Fits(left, right, limit, c)
    && (c.ir as int == Insertion(right, left[c.eo].time) as int - 1 || c.ir == Insertion(right, left[c.eo].time))
  }

  /** The candidate loop of `_pair_records`. */
  method NeighbourCandidates(left: seq<Layer>, right: seq<Layer>, limit: int) returns (candidates: seq<Candidate>)
    requires SortedBy(right, Earlier)
    ensures Distinct(candidates) && forall c :: c in candidates <==> Neighbours(left, right, limit, c)
  {
    candidates := [];
    for e := 0 to |left|
      invariant Distinct(candidates)
      invariant forall c :: c in candidates <==> Neighbours(left, right, limit, c) && c.eo < e
    {
      var insertion := BisectLeft(right, left[e].time);
      InsertionIs(right, left[e].time);
      InsertionUnique(right, left[e].time, insertion);
      candidates := AddIfNear(left, right, limit, e, insertion as int - 1, candidates);
      candidates := AddIfNear(left, right, limit, e, insertion, candidates);
    }
  }

  method AddIfNear(left: seq<Layer>, right: seq<Layer>, limit: int, e: nat, i: int, before: seq<Candidate>)
      returns (candidates: seq<Candidate>)
    requires e < |left| && Distinct(before) && forall c :: c in before ==> !(c.eo == e && c.ir == i)
    ensures Distinct(candidates)
    ensures forall c :: c in candidates <==> c in before || (Fits(left, right, limit, c) && c.eo == e && c.ir == i)
  {
    candidates := before;
    if 0 <= i < |right| {
      var delta := Gap(left[e].time, right[i].time);
      if delta <= limit {
        candidates := candidates + [Candidate(delta, e, i)];
      }
    }
  }

  /** The greedy choice among the neighbours: one-to-one, every other neighbour pair blocked. */
  ghost predicate NeighbourGreedy(left: seq<Layer>, right: seq<Layer>, limit: int, kept: set<Candidate>) {
    && (forall c :: c in kept ==> Neighbours(left, right, limit, c))
    && OneToOne(kept)
    && (forall c :: Neighbours(left, right, limit, c) && c !in kept ==> Blocked(kept, c))
  }

  /** The neighbour pairs in the order they are tried. */
  ghost function SortedNeighbours(left: seq<Layer>, right: seq<Layer>, limit: int): (sorted: seq<Candidate>)
    ensures SortedBy(sorted, Before) && Distinct(sorted)
    ensures forall c :: c in sorted <==> Neighbours(left, right, limit, c)
  {
    var all := AllCandidates(left, right, limit, |left|);
    AllCandidatesMembers(left, right, limit, |left|);
    BeforeIsTotalOrder();
    var near := set c | c in all && Neighbours(left, right, limit, c);
    SortedSet(near, Before)
  }

  /** What the pairing keeps, in the order it keeps it. */
  ghost function NeighbourSelection(left: seq<Layer>, right: seq<Layer>, limit: int): (selected: seq<Candidate>)
    ensures NeighbourGreedy(left, right, limit, Members(selected)) && Distinct(selected)
    ensures Indexed(left, right, selected)
  {
    var sorted := SortedNeighbours(left, right, limit);
    PickIsStable(sorted);
    var selected := Pick(sorted);
    assert forall k :: 0 <= k < |selected| ==> selected[k] in Members(selected);
    selected
  }

  /** `_pair_records` */
  method PairRecords(left: seq<Layer>, right: seq<Layer>, limit: int) returns (pairs: seq<Pair>)
    requires SortedBy(right, Earlier)
    ensures pairs == Sort(Named(left, right, NeighbourSelection(left, right, limit)), EarlierPair)
    ensures forall a, b :: 0 <= a < b < |pairs| ==> pairs[a].eo.time <= pairs[b].eo.time
  {
    hide Neighbours, NeighbourGreedy, SortedNeighbours;
    var candidates := NeighbourCandidates(left, right, limit);
    var sorted := Sort(candidates, Before);
    OneSortedList(left, right, limit, candidates);
    var chosen := SelectGreedily(sorted);
    assert chosen == NeighbourSelection(left, right, limit);
    PairsInTimeOrder(Named(left, right, chosen));
    pairs := Sort(Named(left, right, chosen), EarlierPair);
  }

  lemma OneSortedList(left: seq<Layer>, right: seq<Layer>, limit: int, candidates: seq<Candidate>)
    requires Distinct(candidates) && forall c :: c in candidates <==> Neighbours(left, right, limit, c)
    ensures Sort(candidates, Before) == SortedNeighbours(left, right, limit)
  {
    hide Neighbours, SortedNeighbours, Before;
    var sorted := SortedNeighbours(left, right, limit);
    BeforeIsTotalOrder();
    SortSorts(candidates, Before);
    SortPermutes(candidates, Before);
    SameMembersPermute(candidates, sorted);
    SortedArrangementUnique(Sort(candidates, Before), sorted, Before);
  }

  /** Being greedy determines what is kept. */
  lemma NeighbourGreedyIsUnique(left: seq<Layer>, right: seq<Layer>, limit: int, kept: set<Candidate>,
                                other: set<Candidate>)
    requires NeighbourGreedy(left, right, limit, kept) && NeighbourGreedy(left, right, limit, other)
    ensures kept == other
  {
    hide Neighbours, Before, SortedNeighbours;
    var sorted := SortedNeighbours(left, right, limit);
    assert Stable(kept, sorted) && Stable(other, sorted);
    StableIsUnique(kept, other, sorted, |sorted|);
    assert forall c :: c in kept <==> c in other;
  }

  /** A left record's nearest right record is always a candidate when anything is in range. */
  lemma NearestIsNeighbour(left: seq<Layer>, right: seq<Layer>, limit: int, c: Candidate)
    requires SortedBy(right, Earlier) && Fits(left, right, limit, c)
    ensures exists d :: Neighbours(left, right, limit, d) && d.eo == c.eo && d.delta <= c.delta
  {
    var time := left[c.eo].time;
    var at := Insertion(right, time);
    InsertionIs(right, time);
    var i: nat := if c.ir < at then at - 1 else at;
    assert c.ir < i ==> Earlier(right[c.ir], right[i]);
    assert i < c.ir ==> Earlier(right[i], right[c.ir]);
    assert Neighbours(left, right, limit, Candidate(Gap(time, right[i].time), c.eo, i));
  }

  // ---- When the neighbours are enough ----

  /** A left record reaches past its neighbours: the second record before, or the second
      after, its insertion point is still in range. */
  ghost predicate ReachesPast(left: seq<Layer>, right: seq<Layer>, limit: int, e: nat)
    requires e < |left|
  {
    var time, at := left[e].time, Insertion(right, left[e].time);
    || (at >= 2 && time - right[at - 2].time <= limit)
    || (at + 1 < |right| && right[at + 1].time - time <= limit)
  }

  ghost predicate NoneReachesPast(left: seq<Layer>, right: seq<Layer>, limit: int) {
    forall e :: 0 <= e < |left| ==> !ReachesPast(left, right, limit, e)
  }

  ghost predicate EveryPairIsCandidate(left: seq<Layer>, right: seq<Layer>, limit: int) {
    forall c :: Fits(left, right, limit, c) ==> Neighbours(left, right, limit, c)
  }

  /** Every in-range pair is a candidate exactly when no left record reaches past its neighbours. */
  lemma CandidatesAreCompleteExactlyWhen(left: seq<Layer>, right: seq<Layer>, limit: int)
    requires SortedBy(right, Earlier)
    ensures EveryPairIsCandidate(left, right, limit) <==> NoneReachesPast(left, right, limit)
  {
    if NoneReachesPast(left, right, limit) {
      forall c | Fits(left, right, limit, c) ensures Neighbours(left, right, limit, c) {
        InRangeIsNeighbour(left, right, limit, c);
      }
    }
    if EveryPairIsCandidate(left, right, limit) {
      forall e | 0 <= e < |left| ensures !ReachesPast(left, right, limit, e) {
        var time, at := left[e].time, Insertion(right, left[e].time);
        InsertionIs(right, time);
        assert forall i: nat :: i < |right| && Gap(time, right[i].time) <= limit ==>
          Fits(left, right, limit, Candidate(Gap(time, right[i].time), e, i));
      }
    }
  }

  lemma InRangeIsNeighbour(left: seq<Layer>, right: seq<Layer>, limit: int, c: Candidate)
    requires SortedBy(right, Earlier) && Fits(left, right, limit, c) && !ReachesPast(left, right, limit, c.eo)
    ensures Neighbours(left, right, limit, c)
  {
    var at := Insertion(right, left[c.eo].time);
    InsertionIs(right, left[c.eo].time);
    assert forall i, j :: 0 <= i < j < |right| ==> Earlier(right[i], right[j]);
  }

  /** Then the choice is the greedy selection among all in-range pairs, so no one-to-one
      pairing within the limit has more than twice as many pairs. */
  lemma CompleteCandidatesAreHalfOptimal(left: seq<Layer>, right: seq<Layer>, limit: int, kept: set<Candidate>,
                                         other: set<Candidate>)
    requires SortedBy(right, Earlier) && NoneReachesPast(left, right, limit)
    requires NeighbourGreedy(left, right, limit, kept)
    requires OneToOne(other) && forall c :: c in other ==> Fits(left, right, limit, c)
    ensures Greedy(kept, left, right, limit)
    ensures |other| <= 2 * |kept|
  {
    CandidatesAreCompleteExactlyWhen(left, right, limit);
    assert Greedy(kept, left, right, limit);
    SelectionIsGreedy(left, right, limit);
    GreedyIsUnique(kept, Members(Selection(left, right, limit)), left, right, limit);
    GreedyIsHalfOptimal(left, right, limit, other);
  }

  /** Right records more than the limit apart are enough for that. */
  lemma SpacedRecordsAreEnough(left: seq<Layer>, right: seq<Layer>, limit: int)
    requires SortedBy(right, Earlier)
    requires forall i, j :: 0 <= i < j < |right| ==> right[j].time - right[i].time > limit
    ensures NoneReachesPast(left, right, limit)
  {
    forall e | 0 <= e < |left| ensures !ReachesPast(left, right, limit, e) {
      var at := Insertion(right, left[e].time);
      InsertionIs(right, left[e].time);
      assert at >= 2 ==> right[at - 1].time - right[at - 2].time > limit;
      assert at + 1 < |right| ==> right[at + 1].time - right[at].time > limit;
    }
  }

  // ---- When they are not ----

  /** Left records of one time share two candidates, so at most two of them are ever paired. */
  lemma SimultaneousRecordsPairTwice(left: seq<Layer>, right: seq<Layer>, limit: int, time: int, kept: set<Candidate>)
    requires forall i :: 0 <= i < |left| ==> left[i].time == time
    requires OneToOne(kept) && forall c :: c in kept ==> Neighbours(left, right, limit, c)
    ensures |kept| <= 2
  {
    var at: int := Insertion(right, time);
    PartnersNoFewer(kept, {at - 1, at}, (c: Candidate, i: int) => c.ir == i);
  }

  function Simultaneous(n: nat): (layers: seq<Layer>)
    ensures |layers| == n && forall i :: 0 <= i < n ==> layers[i] == Layer(0, "record")
  {
    seq(n, i => Layer(0, "record"))
  }

  ghost function Diagonal(n: nat): set<Candidate> {
    set i: nat | i < n :: Candidate(0, i, i)
  }

  /** So the pairing falls short without bound: of `n` records a side, all taken at once, all
      `n` can be paired, while any choice among the neighbours keeps at most two. */
  lemma ShortfallIsUnbounded(n: nat, kept: set<Candidate>)
    requires NeighbourGreedy(Simultaneous(n), Simultaneous(n), 0, kept)
    ensures SortedBy(Simultaneous(n), Earlier)
    ensures OneToOne(Diagonal(n)) && forall c :: c in Diagonal(n) ==> Fits(Simultaneous(n), Simultaneous(n), 0, c)
    ensures |Diagonal(n)| == n && |kept| <= 2
  {
    SimultaneousRecordsPairTwice(Simultaneous(n), Simultaneous(n), 0, 0, kept);
    DiagonalSize(n);
  }

  lemma {:induction false} DiagonalSize(n: nat)
    ensures |Diagonal(n)| == n
  {
    if n > 0 {
      DiagonalSize(n - 1);
      assert Diagonal(n) == Diagonal(n - 1) + {Candidate(0, n - 1, n - 1)};
    }
  }
}
