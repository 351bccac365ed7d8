/** The training loop over files that outlive a session, with a crash after any number of
    atomic actions. */
module TrainingSessions {
  import opened Outcomes
  import opened Checkpoints

  /** The checkpoint directory; each assignment to a field is one atomic save. */
  class Storage<!W> {
    var best: Option<Best<W>>
    var last: Option<Last<W>>

    constructor ()
      ensures Contents() == Disk(None, None)
    {
      best, last := None, None;
    }

    ghost function Contents(): Disk<W>
      reads this
    {
      Disk(best, last)
    }
  }

  /** Where the disk is relative to the end of an uninterrupted run, given whether a session
      has started from an exhausted checkpoint. */
  ghost predicate Placed<W>(s: Setup<W>, disk: Disk<W>, late: bool) {
    if late then StopEpoch(s) <= LastEpoch(disk) && StopEpoch(s) < s.epochs else LastEpoch(disk) <= StopEpoch(s)
  }

  /** Between epochs: a session that did not start late has not reached the early stop. */
  ghost predicate UnderWay<W>(s: Setup<W>, disk: Disk<W>, late: bool) {
    Placed(s, disk, late) && (!late && LastEpoch(disk) < s.epochs ==> LastEpoch(disk) < StopEpoch(s))
  }

  /** The end of a session, which is that of an uninterrupted run unless one started late. */
  ghost predicate Ended<W>(s: Setup<W>, disk: Disk<W>, late: bool) {
    && disk.best == BestAt(s, LastEpoch(disk))
    && (LastEpoch(disk) == s.epochs || (LastEpoch(disk) > 0 && Stopped(s, LastEpoch(disk))))
    && (disk == DiskAt(s, StopEpoch(s)) <==> !late)
  }

  // ---- What a session does to the disk ----

  /** How far an epoch got: the disk it left, and the bookkeeping and actions left over unless
      it crashed. */
  datatype Outcome<W> = Outcome(disk: Disk<W>, next: Last<W>, left: nat, crashed: bool)

  /** The epoch after `m`, crashing before its training, one of its saves or the patience test
      once `budget` actions are spent. */
  function Epoch<W>(s: Setup<W>, disk: Disk<W>, m: Last<W>, budget: nat): Outcome<W> {
    var next := AfterEpoch(s, m);
    var saves := if next.bestEpoch == next.epoch then 1 else 0;
    var best := if saves == 1 then Some(Best(next.weights, next.epoch)) else disk.best;
    if budget < 1 + saves then Outcome(disk, m, 0, true)
    else if budget == 1 + saves then Outcome(Disk(best, disk.last), next, 0, true)
    else if budget == 2 + saves then Outcome(Disk(best, Some(next)), next, 0, true)
    else Outcome(Disk(best, Some(next)), next, budget - 3 - saves, false)
  }

  /** The disk a session leaves that starts from `disk` and `m`, and whether it got to its end. */
  function Continue<W>(s: Setup<W>, disk: Disk<W>, m: Last<W>, budget: nat): (Disk<W>, bool)
    decreases s.epochs - m.epoch
  {
    if m.epoch >= s.epochs then (disk, true) else
      var o := Epoch(s, disk, m, budget);
      if o.crashed then (o.disk, false)
      else if o.next.stale >= s.patience then (o.disk, true)
      else Continue(s, o.disk, o.next, o.left)
  }

  function Session<W>(s: Setup<W>, disk: Disk<W>, budget: nat): (Disk<W>, bool) {
    Continue(s, disk, Loaded(s, disk), budget)
  }

  /** The disk session `i` starts from. */
  function StartDisk<W>(s: Setup<W>, budgets: seq<nat>, i: nat): Disk<W>
    requires i <= |budgets|
  {
    if i == 0 then Disk(None, None) else Session(s, StartDisk(s, budgets, i - 1), budgets[i - 1]).0
  }

  // ---- The loops ----

  /** The body of the epoch loop up to the patience test. A crash comes when `budget` is spent,
      before any of the epoch, its two saves and the test. */
  method RunEpoch<W>(s: Setup<W>, storage: Storage<W>, m: Last<W>, budget: nat)
      returns (next: Last<W>, left: nat, crashed: bool)
    requires DiskSound(s, storage.Contents()) && m == LastAt(s, LastEpoch(storage.Contents())) && m.epoch < s.epochs
    modifies storage
    ensures DiskSound(s, storage.Contents()) && m.epoch <= LastEpoch(storage.Contents()) <= m.epoch + 1
    ensures !crashed ==> storage.Contents() == DiskAt(s, m.epoch + 1) && next == LastAt(s, m.epoch + 1)
    ensures var o := Epoch(s, old(storage.Contents()), m, budget);
      storage.Contents() == o.disk && crashed == o.crashed && (!crashed ==> next == o.next && left == o.left)
    ensures budget >= 4 ==> !crashed && left >= budget - 4
  {
    hide WeightsAt, LossAt, FirstBest;
    next, left, crashed := m, budget, true;
    AfterEpochIsNext(s, m.epoch);
    if left == 0 {
      return;
    }
    left := left - 1;
    var epoch := m.epoch + 1;
    var weights := s.train(m.weights, epoch);
    var loss := s.evaluate(weights);
    if Improves(loss, m.bestLoss) {
      next := Last(weights, epoch, m.globalStep + s.updatesPerEpoch, Some(loss), epoch, 0);
      if left == 0 {
        return;
      }
      left := left - 1;
      storage.best := Some(Best(weights, epoch));
    } else {
      next := Last(weights, epoch, m.globalStep + s.updatesPerEpoch, m.bestLoss, m.bestEpoch, m.stale + 1);
    }
    if left == 0 {
      return;
    }
    left := left - 1;
    storage.last := Some(next);
    if left == 0 {
      return;
    }
    left, crashed := left - 1, false;
  }

  /** One session of `run_training`, crashing once `budget` actions are spent. */
  method RunTraining<W>(s: Setup<W>, storage: Storage<W>, budget: nat, ghost late: bool) returns (finished: bool)
    requires DiskSound(s, storage.Contents()) && Placed(s, storage.Contents(), late)
    modifies storage
    ensures DiskSound(s, storage.Contents())
    ensures LastEpoch(old(storage.Contents())) <= LastEpoch(storage.Contents())
    ensures Placed(s, storage.Contents(), late || old(PastPatience(s, storage.Contents())))
    ensures finished ==> Ended(s, storage.Contents(), late || old(PastPatience(s, storage.Contents())))
    ensures budget >= 4 * (s.epochs - LastEpoch(old(storage.Contents()))) ==> finished
    ensures (storage.Contents(), finished) == Session(s, old(storage.Contents()), budget)
  {
    hide WeightsAt, LossAt, FirstBest, StopEpoch, Stopped, DiskSound, Epoch, PastPatience, Placed, UnderWay, Ended;
    hide Continue;
    ghost var was, first := late || PastPatience(s, storage.Contents()), LastEpoch(storage.Contents());
    var m := if storage.last.None? then Fresh(s) else storage.last.value;
    var left: nat := budget;
    StartIsUnderWay(s, storage.Contents(), late);
    while m.epoch < s.epochs
      invariant DiskSound(s, storage.Contents()) && m == LastAt(s, LastEpoch(storage.Contents()))
      invariant first <= m.epoch && UnderWay(s, storage.Contents(), was)
      invariant budget >= 4 * (s.epochs - first) ==> left >= 4 * (s.epochs - m.epoch)
      invariant Session(s, old(storage.Contents()), budget) == Continue(s, storage.Contents(), m, left)
      decreases s.epochs - m.epoch
    {
      ghost var before := storage.Contents();
      ContinueNext(s, before, m, left);
      var crashed;
      m, left, crashed := RunEpoch(s, storage, m, left);
      EpochKeepsPlace(s, before, storage.Contents(), was);
      if crashed {
        return false;
      }
      if m.stale >= s.patience {
        return true;
      }
    }
    LastEpochEnds(s, storage.Contents(), was);
    ContinueEnds(s, storage.Contents(), m, left);
    return true;
  }

  lemma ContinueNext<W>(s: Setup<W>, disk: Disk<W>, m: Last<W>, budget: nat)
    requires m.epoch < s.epochs
    ensures var o := Epoch(s, disk, m, budget);
      Continue(s, disk, m, budget) ==
        if o.crashed then (o.disk, false)
        else if o.next.stale >= s.patience then (o.disk, true)
        else Continue(s, o.disk, o.next, o.left)
  {
    hide Epoch;
  }

  lemma ContinueEnds<W>(s: Setup<W>, disk: Disk<W>, m: Last<W>, budget: nat)
    requires m.epoch >= s.epochs
    ensures Continue(s, disk, m, budget) == (disk, true)
  {
  }

  lemma StartIsUnderWay<W>(s: Setup<W>, disk: Disk<W>, late: bool)
    requires DiskSound(s, disk) && Placed(s, disk, late)
    ensures Loaded(s, disk) == LastAt(s, LastEpoch(disk))
    ensures UnderWay(s, disk, late || PastPatience(s, disk))
  {
    var e := LastEpoch(disk);
    assert PastPatience(s, disk) <==> e > 0 && e < s.epochs && Stopped(s, e);
  }

  lemma EpochKeepsPlace<W>(s: Setup<W>, before: Disk<W>, after: Disk<W>, late: bool)
    requires UnderWay(s, before, late) && LastEpoch(before) < s.epochs
    requires LastEpoch(before) <= LastEpoch(after) <= LastEpoch(before) + 1
    ensures Placed(s, after, late)
    ensures after == DiskAt(s, LastEpoch(before) + 1) ==>
      if LastAt(s, LastEpoch(before) + 1).stale >= s.patience then Ended(s, after, late) else UnderWay(s, after, late)
  {
    hide StopEpoch, WeightsAt, LossAt, FirstBest;
    StopIsFirst(s, LastEpoch(before) + 1);
  }

  lemma LastEpochEnds<W>(s: Setup<W>, disk: Disk<W>, late: bool)
    requires DiskSound(s, disk) && UnderWay(s, disk, late) && LastEpoch(disk) >= s.epochs
    ensures Ended(s, disk, late) && Placed(s, disk, late)
  {
    hide StopEpoch, WeightsAt, LossAt, FirstBest;
  }

  lemma StopIsFirst<W>(s: Setup<W>, e: nat)
    requires e > 0
    ensures e < StopEpoch(s) ==> !Stopped(s, e)
    ensures StopEpoch(s) <= s.epochs && (StopEpoch(s) < s.epochs ==> Stopped(s, StopEpoch(s)))
  {
  }

  /** One of the first `n` sessions starts from a checkpoint whose patience is exhausted. */
  ghost predicate RestartsLate<W>(s: Setup<W>, budgets: seq<nat>, n: nat)
    requires n <= |budgets|
  {
    exists i :: 0 <= i < n && PastPatience(s, StartDisk(s, budgets, i))
  }

  /** None of the first `n` sessions gets to its end. */
  ghost predicate AllCrash<W>(s: Setup<W>, budgets: seq<nat>, n: nat)
    requires n <= |budgets|
  {
    forall i :: 0 <= i < n ==> !Session(s, StartDisk(s, budgets, i), budgets[i]).1
  }

  lemma OneMoreSession<W>(s: Setup<W>, budgets: seq<nat>, n: nat)
    requires n < |budgets|
    ensures StartDisk(s, budgets, n + 1) == Session(s, StartDisk(s, budgets, n), budgets[n]).0
    ensures RestartsLate(s, budgets, n + 1)
      <==> RestartsLate(s, budgets, n) || PastPatience(s, StartDisk(s, budgets, n))
    ensures AllCrash(s, budgets, n + 1)
      <==> AllCrash(s, budgets, n) && !Session(s, StartDisk(s, budgets, n), budgets[n]).1
  {
    hide Session, PastPatience;
  }

  /** Sessions one after another, until one finishes; `started` of them are started. */
  method RunSessions<W>(s: Setup<W>, budgets: seq<nat>) returns (storage: Storage<W>, finished: bool, started: nat)
    ensures fresh(storage) && DiskSound(s, storage.Contents())
    ensures started <= |budgets| && storage.Contents() == StartDisk(s, budgets, started)
    ensures if finished then started > 0 && AllCrash(s, budgets, started - 1) && !AllCrash(s, budgets, started)
            else started == |budgets| && AllCrash(s, budgets, started)
    ensures finished ==> Ended(s, storage.Contents(), RestartsLate(s, budgets, started))
    ensures budgets != [] && budgets[|budgets| - 1] >= 4 * s.epochs ==> finished
  {
    hide WeightsAt, LossAt, FirstBest, StopEpoch, Stopped, DiskSound, Session, PastPatience, StartDisk;
    hide RestartsLate, AllCrash, Placed, Ended;
    storage := new Storage();
    finished, started := false, 0;
    NoSessionYet(s, budgets);
    while started < |budgets|
      invariant fresh(storage) && !finished && started <= |budgets|
      invariant storage.Contents() == StartDisk(s, budgets, started) && AllCrash(s, budgets, started)
      invariant DiskSound(s, storage.Contents()) && Placed(s, storage.Contents(), RestartsLate(s, budgets, started))
      invariant started > 0 ==> budgets[started - 1] < 4 * s.epochs
    {
      OneMoreSession(s, budgets, started);
      finished := RunTraining(s, storage, budgets[started], RestartsLate(s, budgets, started));
      started := started + 1;
      if finished {
        return;
      }
    }
  }

  lemma NoSessionYet<W>(s: Setup<W>, budgets: seq<nat>)
    ensures StartDisk(s, budgets, 0) == Disk(None, None) && DiskSound(s, Disk(None, None))
    ensures AllCrash(s, budgets, 0) && Placed(s, Disk(None, None), RestartsLate(s, budgets, 0))
  {
  }
}
