/** The checkpoint protocol of a training run: two atomic saves per epoch, crashes at any
    point, and resuming from the last checkpoint. */
module Checkpoints {
  import opened Outcomes

  /** What is fixed across sessions. `W` is everything an epoch starts from (model, optimiser
      and schedule); an epoch is a function of it and of the seeded epoch number. */
  datatype Setup<!W> = Setup(initial: W, train: (W, nat) -> W, evaluate: W -> real,
                             epochs: nat, patience: int, updatesPerEpoch: nat)

  datatype Best<W> = Best(weights: W, epoch: nat)
  datatype Last<W> = Last(weights: W, epoch: nat, globalStep: nat, bestLoss: Option<real>, bestEpoch: nat, stale: nat)
  datatype Disk<W> = Disk(best: Option<Best<W>>, last: Option<Last<W>>)

  // ---- What the epochs would produce ----

  function WeightsAt<W>(s: Setup<W>, e: nat): W {
    if e == 0 then s.initial else s.train(WeightsAt(s, e - 1), e)
  }

  function LossAt<W>(s: Setup<W>, e: nat): real {
    s.evaluate(WeightsAt(s, e))
  }

  /** The epoch of the first minimum of the losses of epochs 1 to `e`. */
  function FirstBest<W>(s: Setup<W>, e: nat): (b: nat)
    ensures b <= e && (b == 0 <==> e == 0)
  {
    if e == 0 then 0
    else if e == 1 || LossAt(s, e) < LossAt(s, FirstBest(s, e - 1)) then e
    else FirstBest(s, e - 1)
  }

  lemma {:induction false} FirstBestIsFirstMinimum<W>(s: Setup<W>, e: nat, k: nat)
    requires 1 <= k <= e
    ensures LossAt(s, FirstBest(s, e)) <= LossAt(s, k)
    ensures k < FirstBest(s, e) ==> LossAt(s, FirstBest(s, e)) < LossAt(s, k)
  {
    if k < e { FirstBestIsFirstMinimum(s, e - 1, k); }
  }

  function BestLossAt<W>(s: Setup<W>, e: nat): Option<real> {
    if e == 0 then None else Some(LossAt(s, FirstBest(s, e)))
  }

  /** The bookkeeping an uninterrupted run holds after epoch `e`. */
  function LastAt<W>(s: Setup<W>, e: nat): Last<W> {
    Last(WeightsAt(s, e), e, e * s.updatesPerEpoch, BestLossAt(s, e), FirstBest(s, e), e - FirstBest(s, e))
  }

  function BestAt<W>(s: Setup<W>, e: nat): Option<Best<W>> {
    if e == 0 then None else Some(Best(WeightsAt(s, FirstBest(s, e)), FirstBest(s, e)))
  }

  function DiskAt<W>(s: Setup<W>, e: nat): Disk<W> {
    Disk(BestAt(s, e), if e == 0 then None else Some(LastAt(s, e)))
  }

  predicate Stopped<W>(s: Setup<W>, e: nat) {
    e - FirstBest(s, e) >= s.patience
  }

  /** Patience is exhausted exactly when some epoch that many epochs back, or more, has not been
      improved on since. */
  lemma StoppedExactlyWhen<W>(s: Setup<W>, e: nat)
    requires e >= 1
    ensures Stopped(s, e) <==>
      exists b: nat :: 1 <= b <= e && b + s.patience <= e && NoneBelow(s, b, e)
  {
    hide LossAt;
    var best := FirstBest(s, e);
    forall k: nat | 1 <= k <= e
      ensures LossAt(s, best) <= LossAt(s, k) && (k < best ==> LossAt(s, best) < LossAt(s, k))
    {
      FirstBestIsFirstMinimum(s, e, k);
    }
    assert NoneBelow(s, best, e);
    if b: nat :| 1 <= b <= e && b + s.patience <= e && NoneBelow(s, b, e) {
      assert LossAt(s, b) <= LossAt(s, best);
    }
  }

  ghost predicate NoneBelow<W>(s: Setup<W>, b: nat, e: nat) {
    forall k: nat :: 1 <= k <= e ==> LossAt(s, b) <= LossAt(s, k)
  }

  /** The first epoch, from `k` on, after which the loop ends. */
  function StopFrom<W>(s: Setup<W>, k: nat): (e: nat)
    ensures k <= s.epochs ==> k <= e <= s.epochs
    ensures forall i :: k <= i < e && i >= 1 ==> !Stopped(s, i)
    ensures e < s.epochs ==> e >= 1 && Stopped(s, e)
    decreases s.epochs - k
  {
    if k >= s.epochs then s.epochs
    else if k >= 1 && Stopped(s, k) then k
    else StopFrom(s, k + 1)
  }

  /** The epoch at which a run that is never interrupted ends. */
  function StopEpoch<W>(s: Setup<W>): (e: nat)
    ensures e <= s.epochs
    ensures forall i :: 1 <= i < e ==> !Stopped(s, i)
    ensures e < s.epochs ==> e >= 1 && Stopped(s, e)
  {
    StopFrom(s, 0)
  }

  // ---- The step machine ----

  datatype Phase = Down | Ready | Improved | Evaluated | Saved | Finished

  /** `memory` holds the bookkeeping of the running session; `restartedLate` records whether
      some session started from a checkpoint whose patience was already exhausted. */
  datatype State<W> = State(disk: Disk<W>, memory: Last<W>, phase: Phase, restartedLate: bool)

  function Fresh<W>(s: Setup<W>): Last<W> {
    Last(s.initial, 0, 0, None, 0, 0)
  }

  function Loaded<W>(s: Setup<W>, disk: Disk<W>): Last<W> {
    if disk.last.None? then Fresh(s) else disk.last.value
  }

  /** A checkpoint the loop would have stopped at, had the session not been interrupted. */
  predicate PastPatience<W>(s: Setup<W>, disk: Disk<W>) {
    disk.last.Some? && disk.last.value.stale >= s.patience && disk.last.value.epoch < s.epochs
  }

  predicate Improves(loss: real, best: Option<real>) {
    best.None? || loss < best.value
  }

  /** One epoch of training and evaluation, and the comparison with the best loss so far. */
  function AfterEpoch<W>(s: Setup<W>, m: Last<W>): Last<W> {
    var e := m.epoch + 1;
    var weights := s.train(m.weights, e);
    var loss := s.evaluate(weights);
    if Improves(loss, m.bestLoss) then Last(weights, e, m.globalStep + s.updatesPerEpoch, Some(loss), e, 0)
    else Last(weights, e, m.globalStep + s.updatesPerEpoch, m.bestLoss, m.bestEpoch, m.stale + 1)
  }

  ghost predicate Starts<W>(s: Setup<W>, a: State<W>, b: State<W>) {
    a.phase == Down
    && b == State(a.disk, Loaded(s, a.disk), Ready, a.restartedLate || PastPatience(s, a.disk))
  }

  ghost predicate Trains<W>(s: Setup<W>, a: State<W>, b: State<W>) {
    a.phase == Ready && a.memory.epoch < s.epochs
    && var m := AfterEpoch(s, a.memory);
      b == a.(memory := m, phase := if m.bestEpoch == m.epoch then Improved else Evaluated)
  }

  ghost predicate SavesBest<W>(s: Setup<W>, a: State<W>, b: State<W>) {
    a.phase == Improved
    && b == a.(disk := a.disk.(best := Some(Best(a.memory.weights, a.memory.epoch))), phase := Evaluated)
  }

  ghost predicate SavesLast<W>(s: Setup<W>, a: State<W>, b: State<W>) {
    a.phase == Evaluated && b == a.(disk := a.disk.(last := Some(a.memory)), phase := Saved)
  }

  ghost predicate Decides<W>(s: Setup<W>, a: State<W>, b: State<W>) {
    a.phase == Saved && b == a.(phase := if a.memory.stale >= s.patience then Finished else Ready)
  }

  ghost predicate Exits<W>(s: Setup<W>, a: State<W>, b: State<W>) {
    a.phase == Ready && a.memory.epoch >= s.epochs && b == a.(phase := Finished)
  }

  /** A crash, or starting over after the run ended, keeps only the disk. */
  ghost predicate Crashes<W>(s: Setup<W>, a: State<W>, b: State<W>) {
    b == State(a.disk, Fresh(s), Down, a.restartedLate)
  }

  ghost predicate Step<W>(s: Setup<W>, a: State<W>, b: State<W>) {
    || Starts(s, a, b) || Trains(s, a, b) || SavesBest(s, a, b) || SavesLast(s, a, b)
    || Decides(s, a, b) || Exits(s, a, b) || Crashes(s, a, b)
  }

  ghost predicate Run<W>(s: Setup<W>, states: seq<State<W>>) {
    && states != [] && states[0] == State(Disk(None, None), Fresh(s), Down, false)
    && forall i :: 0 <= i < |states| - 1 ==> Step(s, states[i], states[i + 1])
  }

  // ---- The invariant ----

  function LastEpoch<W>(disk: Disk<W>): nat {
    if disk.last.None? then 0 else disk.last.value.epoch
  }

  /** The best checkpoint is ahead of the last one: saved for the next epoch, which improved. */
  ghost predicate MidSave<W>(s: Setup<W>, disk: Disk<W>) {
    var e := LastEpoch(disk);
    e < s.epochs && FirstBest(s, e + 1) == e + 1 && disk.best == BestAt(s, e + 1)
  }

  /** The last checkpoint records the first minimum of the losses up to its epoch; the best
      checkpoint is that epoch's, or mid-save the following one's. */
  ghost predicate DiskSound<W>(s: Setup<W>, disk: Disk<W>) {
    var e := LastEpoch(disk);
    && e <= s.epochs
    && disk.last == DiskAt(s, e).last
    && (disk.best == BestAt(s, e) || MidSave(s, disk))
  }

  ghost predicate MemorySound<W>(s: Setup<W>, st: State<W>) {
    var e := LastEpoch(st.disk);
    match st.phase
    case Down => true
    case Ready => st.memory == LastAt(s, e)
    case Improved => e < s.epochs && st.memory == LastAt(s, e + 1) && FirstBest(s, e + 1) == e + 1
    case Evaluated => e < s.epochs && st.memory == LastAt(s, e + 1) && st.disk.best == BestAt(s, e + 1)
    case Saved => e > 0 && st.memory == LastAt(s, e) && st.disk.best == BestAt(s, e)
    case Finished =>
      st.memory == LastAt(s, e) && st.disk.best == BestAt(s, e) && (e == s.epochs || (e > 0 && Stopped(s, e)))
  }

  /** How far the run is from where an uninterrupted one ends. */
  ghost predicate Progress<W>(s: Setup<W>, st: State<W>) {
    var e, stop := LastEpoch(st.disk), StopEpoch(s);
    if st.restartedLate then
      && stop <= e && stop < s.epochs
      && (st.phase == Finished || st.phase == Saved ==> stop < e)
    else
      && e <= stop
      && (st.phase in {Ready, Improved, Evaluated} && e < s.epochs ==> e < stop)
  }

  ghost predicate Inv<W>(s: Setup<W>, st: State<W>) {
    DiskSound(s, st.disk) && MemorySound(s, st) && Progress(s, st)
  }

  lemma AfterEpochIsNext<W>(s: Setup<W>, e: nat)
    ensures AfterEpoch(s, LastAt(s, e)) == LastAt(s, e + 1)
    ensures FirstBest(s, e + 1) == e + 1 || FirstBest(s, e + 1) == FirstBest(s, e)
  {
    NextProduct(e, s.updatesPerEpoch);
  }

  lemma NextProduct(e: nat, n: nat)
    ensures (e + 1) * n == e * n + n
  {
  }

  lemma StartKeeps<W>(s: Setup<W>, a: State<W>, b: State<W>)
    requires Inv(s, a) && Starts(s, a, b)
    ensures Inv(s, b)
  {
    var e := LastEpoch(a.disk);
    assert Loaded(s, a.disk) == LastAt(s, e);
    assert PastPatience(s, a.disk) <==> e > 0 && e < s.epochs && Stopped(s, e);
  }

  lemma TrainKeeps<W>(s: Setup<W>, a: State<W>, b: State<W>)
    requires Inv(s, a) && Trains(s, a, b)
    ensures Inv(s, b)
  {
    hide AfterEpoch, StopEpoch, WeightsAt, LossAt;
    AfterEpochIsNext(s, LastEpoch(a.disk));
  }

  lemma SaveKeeps<W>(s: Setup<W>, a: State<W>, b: State<W>)
    requires Inv(s, a) && (SavesBest(s, a, b) || SavesLast(s, a, b))
    ensures Inv(s, b)
  {
    hide StopEpoch, WeightsAt, LossAt;
  }

  lemma DecideKeeps<W>(s: Setup<W>, a: State<W>, b: State<W>)
    requires Inv(s, a) && (Decides(s, a, b) || Exits(s, a, b) || Crashes(s, a, b))
    ensures Inv(s, b)
  {
    hide WeightsAt, LossAt, FirstBest;
  }

  lemma StepKeeps<W>(s: Setup<W>, a: State<W>, b: State<W>)
    requires Inv(s, a) && Step(s, a, b)
    ensures Inv(s, b)
  {
    hide Inv;
    if Starts(s, a, b) {
      StartKeeps(s, a, b);
    } else if Trains(s, a, b) {
      TrainKeeps(s, a, b);
    } else if SavesBest(s, a, b) || SavesLast(s, a, b) {
      SaveKeeps(s, a, b);
    } else {
      DecideKeeps(s, a, b);
    }
  }

  lemma {:induction false} RunKeeps<W>(s: Setup<W>, states: seq<State<W>>, i: nat)
    requires Run(s, states) && i < |states|
    ensures Inv(s, states[i])
  {
    hide Inv, Step;
    if i == 0 {
      FirstState(s, states[0]);
    } else {
      RunKeeps(s, states, i - 1);
      StepKeeps(s, states[i - 1], states[i]);
    }
  }

  lemma FirstState<W>(s: Setup<W>, a: State<W>)
    requires a == State(Disk(None, None), Fresh(s), Down, false)
    ensures Inv(s, a)
  {
  }

  // ---- Main results ----

  /** At every point of every run, whatever crashed: the last checkpoint at epoch `e` holds
      epoch `e`'s weights and the first minimum of the losses of epochs 1 to `e`, and the best
      checkpoint is that minimum's, or the next epoch's between the two saves of that epoch. */
  lemma CheckpointsAreSound<W>(s: Setup<W>, states: seq<State<W>>, i: nat, k: nat)
    requires Run(s, states) && i < |states|
    requires states[i].disk.last.Some? && 1 <= k <= states[i].disk.last.value.epoch
    ensures var last, best := states[i].disk.last.value, states[i].disk.best;
      && last.weights == WeightsAt(s, last.epoch) && last.epoch <= s.epochs
      && last.globalStep == last.epoch * s.updatesPerEpoch
      && 1 <= last.bestEpoch <= last.epoch && last.stale == last.epoch - last.bestEpoch
      && last.bestLoss == Some(LossAt(s, last.bestEpoch))
      && LossAt(s, last.bestEpoch) <= LossAt(s, k)
      && (k < last.bestEpoch ==> LossAt(s, last.bestEpoch) < LossAt(s, k))
      && best.Some? && best.value.weights == WeightsAt(s, best.value.epoch)
      && (best.value.epoch == last.bestEpoch
          || (best.value.epoch == last.epoch + 1 && LossAt(s, last.epoch + 1) < LossAt(s, last.bestEpoch)))
  {
    hide WeightsAt, LossAt, MemorySound, Progress;
    RunKeeps(s, states, i);
    var e := states[i].disk.last.value.epoch;
    FirstBestIsFirstMinimum(s, e, k);
    FirstBestIsFirstMinimum(s, e + 1, FirstBest(s, e));
  }

  /** A run that ends has the best checkpoint of the best epoch it recorded, has reached the
      last epoch or run out of patience, and fails for want of a best checkpoint exactly when
      no epoch was asked for. */
  lemma FinishedRunIsComplete<W>(s: Setup<W>, states: seq<State<W>>, i: nat)
    requires Run(s, states) && i < |states| && states[i].phase == Finished
    ensures var disk := states[i].disk;
      && (disk.best.None? <==> s.epochs == 0)
      && (s.epochs > 0 ==> disk.last.Some? && disk.best.value.epoch == disk.last.value.bestEpoch)
      && (s.epochs > 0 ==> disk.last.value.epoch == s.epochs || disk.last.value.stale >= s.patience)
  {
    hide WeightsAt, LossAt;
    RunKeeps(s, states, i);
  }

  /** A run that ends leaves the checkpoints an uninterrupted one would, if and only if no
      session started from a checkpoint whose patience was already exhausted. */
  lemma InterruptedRunAgrees<W>(s: Setup<W>, states: seq<State<W>>, i: nat)
    requires Run(s, states) && i < |states| && states[i].phase == Finished
    ensures states[i].disk == DiskAt(s, StopEpoch(s)) <==> !states[i].restartedLate
  {
    hide WeightsAt, LossAt, FirstBest;
    RunKeeps(s, states, i);
  }

  // ---- A late restart does go further ----

  /** Losses 2, 3, 1 over three epochs with patience one: epoch 2 ends an uninterrupted run. */
  const EXAMPLE: Setup<nat> := Setup(0, (w, e) => e, w => if w == 1 then 2.0 else if w == 2 then 3.0 else 1.0, 3, 1, 1)

  /** A crash after the last save of epoch 2 and before the patience test lets the resumed run
      train a third epoch and end with another best checkpoint. */
  lemma LateRestartTrainsOn() returns (states: seq<State<nat>>)
    ensures Run(EXAMPLE, states) && states[|states| - 1].phase == Finished
    ensures StopEpoch(EXAMPLE) == 2 && DiskAt(EXAMPLE, 2).best == Some(Best(1, 1))
    ensures states[|states| - 1].disk.best == Some(Best(3, 3))
  {
    ExampleStops();
    var m0, m1 := Last(0, 0, 0, None, 0, 0), Last(1, 1, 1, Some(2.0), 1, 0);
    var m2, m3 := Last(2, 2, 2, Some(2.0), 1, 1), Last(3, 3, 3, Some(1.0), 3, 0);
    var b1, b3 := Some(Best(1, 1)), Some(Best(3, 3));
    hide StopEpoch, DiskAt;
    states := [State(Disk(None, None), m0, Down, false), State(Disk(None, None), m0, Ready, false),
               State(Disk(None, None), m1, Improved, false), State(Disk(b1, None), m1, Evaluated, false),
               State(Disk(b1, Some(m1)), m1, Saved, false), State(Disk(b1, Some(m1)), m1, Ready, false),
               State(Disk(b1, Some(m1)), m2, Evaluated, false), State(Disk(b1, Some(m2)), m2, Saved, false),
               State(Disk(b1, Some(m2)), m0, Down, false), State(Disk(b1, Some(m2)), m2, Ready, true),
               State(Disk(b1, Some(m2)), m3, Improved, true), State(Disk(b3, Some(m2)), m3, Evaluated, true),
               State(Disk(b3, Some(m3)), m3, Saved, true), State(Disk(b3, Some(m3)), m3, Ready, true),
               State(Disk(b3, Some(m3)), m3, Finished, true)];
  }

  lemma ExampleStops()
    ensures StopEpoch(EXAMPLE) == 2 && DiskAt(EXAMPLE, 2).best == Some(Best(1, 1))
  {
    assert FirstBest(EXAMPLE, 1) == 1 && WeightsAt(EXAMPLE, 1) == 1 && WeightsAt(EXAMPLE, 2) == 2;
    assert FirstBest(EXAMPLE, 2) == 1;
    assert StopFrom(EXAMPLE, 2) == 2 && StopFrom(EXAMPLE, 1) == 2;
  }
}
