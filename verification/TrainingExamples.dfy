/** The flat training arrays: one example per row and step, pointing at the satellite
    state the row's actions have reached. */
module TrainingExamples {
  import opened ActionCode

  /** `region` is the row's position in the region registry. */
  datatype Row = Row(region: nat, actions: Actions)

  /** Where a state sits in the stacked state lists of all regions. */
  function StateIndex(steps: nat, region: nat, step: nat, prefix: nat): nat {
    region * StateOffset(steps) + StateOffset(step) + prefix
  }

  ghost predicate Filled(rows: seq<Row>, steps: nat, at: nat, ground: seq<int>, satellite: seq<int>,
                         labels: seq<int>, levels: seq<int>)
    requires at == |ground| == |satellite| == |labels| == |levels|
    requires steps > 0 && at <= |rows| * steps && forall i :: 0 <= i < |rows| ==> |rows[i].actions| == steps
  {
    forall k :: 0 <= k < at ==>
      var row, step := k / steps, k % steps;
      CursorInRange(k, steps, |rows|);
      && ground[k] == row && levels[k] == step
      && labels[k] == rows[row].actions[step]
      && satellite[k] == StateIndex(steps, rows[row].region, step, Prefix(rows[row].actions[..step]))
  }

  lemma CursorInRange(k: nat, steps: nat, rows: nat)
    requires steps > 0 && k < rows * steps
    ensures 0 <= k / steps < rows && 0 <= k % steps < steps
  {
    if k / steps >= rows { Product(rows, k / steps, steps); }
  }

  lemma Product(a: nat, b: nat, c: nat)
    requires a <= b
    ensures a * c <= b * c
  {
  }

  lemma EmptyFill(rows: seq<Row>, steps: nat)
    requires steps > 0 && forall i :: 0 <= i < |rows| ==> |rows[i].actions| == steps
    ensures Filled(rows, steps, 0, [], [], [], [])
  {
  }

  lemma FilledStep(rows: seq<Row>, steps: nat, i: nat, step: nat, ground: seq<int>, satellite: seq<int>,
                   labels: seq<int>, levels: seq<int>)
    requires steps > 0 && i < |rows| && step < steps
    requires forall i :: 0 <= i < |rows| ==> |rows[i].actions| == steps
    requires |ground| == |satellite| == |labels| == |levels| == i * steps + step < |rows| * steps
    requires Filled(rows, steps, i * steps + step, ground, satellite, labels, levels)
    ensures Filled(rows, steps, i * steps + step + 1, ground + [i],
                   satellite + [StateIndex(steps, rows[i].region, step, Prefix(rows[i].actions[..step]))],
                   labels + [rows[i].actions[step]], levels + [step])
  {
    hide StateIndex, Prefix;
    QuotientUnique(i * steps + step, steps, i, step);
  }

  /** The next slot of each array. */
  method Put(ground: array<int>, satellite: array<int>, labels: array<int>, levels: array<int>, cursor: nat,
             row: int, state: int, action: int, step: int)
    requires cursor < ground.Length == satellite.Length == labels.Length == levels.Length
    requires ground != satellite && ground != labels && ground != levels
    requires satellite != labels && satellite != levels && labels != levels
    modifies ground, satellite, labels, levels
    ensures ground[..cursor + 1] == old(ground[..cursor]) + [row]
    ensures satellite[..cursor + 1] == old(satellite[..cursor]) + [state]
    ensures labels[..cursor + 1] == old(labels[..cursor]) + [action]
    ensures levels[..cursor + 1] == old(levels[..cursor]) + [step]
  {
    ground[cursor] := row;
    satellite[cursor] := state;
    labels[cursor] := action;
    levels[cursor] := step;
  }

  /** The examples of row `i`, whose slots start at `start`. */
  method FillRow(rows: seq<Row>, steps: nat, i: nat, start: nat,
                 ground: array<int>, satellite: array<int>, labels: array<int>, levels: array<int>)
    requires steps > 0 && i < |rows| && forall i :: 0 <= i < |rows| ==> |rows[i].actions| == steps
    requires start == i * steps && start + steps <= |rows| * steps
    requires ground.Length == satellite.Length == labels.Length == levels.Length == |rows| * steps
    requires ground != satellite && ground != labels && ground != levels
    requires satellite != labels && satellite != levels && labels != levels
    requires Filled(rows, steps, start, ground[..start], satellite[..start], labels[..start], levels[..start])
    modifies ground, satellite, labels, levels
    ensures var end := start + steps;
      Filled(rows, steps, end, ground[..end], satellite[..end], labels[..end], levels[..end])
  {
    hide StateIndex, Filled;
    var cursor, prefix := start, 0;
    for step := 0 to steps
      invariant cursor == start + step && prefix == Prefix(rows[i].actions[..step])
      invariant Filled(rows, steps, cursor, ground[..cursor], satellite[..cursor], labels[..cursor], levels[..cursor])
    {
      var action := rows[i].actions[step];
      FilledStep(rows, steps, i, step, ground[..cursor], satellite[..cursor], labels[..cursor], levels[..cursor]);
      Put(ground, satellite, labels, levels, cursor, i, StateIndex(steps, rows[i].region, step, prefix), action, step);
      PrefixNext(rows[i].actions, step);
      prefix := prefix * 16 + action;
      cursor := cursor + 1;
    }
  }

  lemma PrefixNext(actions: Actions, step: nat)
    requires step < |actions|
    ensures Prefix(actions[..step + 1]) == Prefix(actions[..step]) * 16 + actions[step]
  {
    assert actions[..step + 1][..step] == actions[..step];
  }

  /** `_examples`, filling the four arrays in place with one running cursor. */
  method Examples(rows: seq<Row>, steps: nat)
      returns (ground: array<int>, satellite: array<int>, labels: array<int>, levels: array<int>)
    requires steps > 0 && forall i :: 0 <= i < |rows| ==> |rows[i].actions| == steps
    ensures ground.Length == satellite.Length == labels.Length == levels.Length == |rows| * steps
    ensures Filled(rows, steps, |rows| * steps, ground[..], satellite[..], labels[..], levels[..])
  {
    hide StateIndex, Filled;
    var total := |rows| * steps;
    EmptyFill(rows, steps);
    ground, satellite, labels, levels := new int[total], new int[total], new int[total], new int[total];
    var cursor := 0;
    assert ground[..0] == [] && satellite[..0] == [] && labels[..0] == [] && levels[..0] == [];
    for i := 0 to |rows|
      invariant cursor == i * steps && cursor <= total
      invariant Filled(rows, steps, cursor, ground[..cursor], satellite[..cursor], labels[..cursor], levels[..cursor])
    {
      Product(i + 1, |rows|, steps);
      FillRow(rows, steps, i, cursor, ground, satellite, labels, levels);
      cursor := cursor + steps;
    }
    assert ground[..] == ground[..total] && satellite[..] == satellite[..total];
    assert labels[..] == labels[..total] && levels[..] == levels[..total];
  }

  lemma {:induction false} OffsetsAscend(low: nat, high: nat)
    requires low < high
    ensures StateOffset(low) + Pow16(low) <= StateOffset(high)
    decreases high
  {
    if low < high - 1 { OffsetsAscend(low, high - 1); }
  }

  /** Two examples share a satellite index exactly when they share region, step and path so far. */
  lemma StateIndexIdentifies(steps: nat, r1: nat, s1: nat, p1: nat, r2: nat, s2: nat, p2: nat)
    requires s1 < steps && s2 < steps && p1 < Pow16(s1) && p2 < Pow16(s2)
    ensures StateIndex(steps, r1, s1, p1) == StateIndex(steps, r2, s2, p2) <==> (r1, s1, p1) == (r2, s2, p2)
    ensures StateIndex(steps, 0, s1, p1) < StateOffset(steps)
  {
    OffsetsAscend(s1, steps);
    OffsetsAscend(s2, steps);
    if StateIndex(steps, r1, s1, p1) == StateIndex(steps, r2, s2, p2) {
      var total := StateOffset(steps);
      QuotientUnique(StateIndex(steps, r1, s1, p1), total, r1, StateOffset(s1) + p1);
      QuotientUnique(StateIndex(steps, r2, s2, p2), total, r2, StateOffset(s2) + p2);
      if s1 < s2 {
        OffsetsAscend(s1, s2);
      } else if s2 < s1 {
        OffsetsAscend(s2, s1);
      }
    }
  }

  /** The paths of two examples at the same state agree up to that step. */
  lemma SharedStateMeansSharedPath(steps: nat, a: Row, s: nat, b: Row, t: nat)
    requires s < steps && t < steps && |a.actions| == |b.actions| == steps && Valid(a.actions) && Valid(b.actions)
    ensures Prefix(a.actions[..s]) < Pow16(s) && Prefix(b.actions[..t]) < Pow16(t)
    ensures StateIndex(steps, a.region, s, Prefix(a.actions[..s]))
      == StateIndex(steps, b.region, t, Prefix(b.actions[..t]))
      <==> a.region == b.region && s == t && a.actions[..s] == b.actions[..t]
  {
    DigitsInvertPrefix(a.actions[..s]);
    DigitsInvertPrefix(b.actions[..t]);
    StateIndexIdentifies(steps, a.region, s, Prefix(a.actions[..s]), b.region, t, Prefix(b.actions[..t]));
  }

  // ---- The arrays and the list of states ----

  /** Slot `k` belongs to step `k % steps` of row `k / steps`, and points into the row's copy of the list at the
      step and the number the actions before it spell. */
  ghost predicate PointsAtState(row: Row, steps: nat, k: nat, states: seq<(nat, nat)>, ground: int, satellite: int,
                                action: int, level: int)
    requires steps > 0 && |row.actions| == steps
  {
    var at := satellite - row.region * |states|;
    && 0 <= level < steps && k == ground * steps + level && action == row.actions[level]
    && 0 <= at < |states| && states[at] == (level, Prefix(row.actions[..level]))
  }

  ghost predicate WellFormed(rows: seq<Row>, steps: nat) {
    steps > 0 && forall i :: 0 <= i < |rows| ==> |rows[i].actions| == steps && Valid(rows[i].actions)
  }

  /** Every slot of the arrays of `Examples` points at its state in the list of `StateKeys`. */
  lemma ExamplesPointAtStates(rows: seq<Row>, steps: nat, states: seq<(nat, nat)>, ground: seq<int>,
                              satellite: seq<int>, labels: seq<int>, levels: seq<int>, k: nat)
    requires WellFormed(rows, steps) && ListsStates(states, steps)
    requires |ground| == |satellite| == |labels| == |levels| == |rows| * steps && k < |ground|
    requires Filled(rows, steps, |ground|, ground, satellite, labels, levels)
    ensures 0 <= ground[k] < |rows|
    ensures PointsAtState(rows[ground[k]], steps, k, states, ground[k], satellite[k], labels[k], levels[k])
  {
    CursorInRange(k, steps, |rows|);
    var row, step := rows[k / steps], k % steps;
    DigitsInvertPrefix(row.actions[..step]);
    assert StateAt(states, step, Prefix(row.actions[..step]));
    DivMod(k, steps);
  }

  /** Two slots point at one state exactly when their rows' regions, their steps and their paths so far agree. */
  lemma SharedSlots(rows: seq<Row>, steps: nat, ground: seq<int>, satellite: seq<int>, labels: seq<int>,
                    levels: seq<int>, j: nat, k: nat)
    requires WellFormed(rows, steps)
    requires |ground| == |satellite| == |labels| == |levels| == |rows| * steps && j < |ground| && k < |ground|
    requires Filled(rows, steps, |ground|, ground, satellite, labels, levels)
    ensures var s, t := j % steps, k % steps;
      && 0 <= j / steps < |rows| && 0 <= k / steps < |rows| && 0 <= s < steps && 0 <= t < steps
      && (satellite[j] == satellite[k] <==>
          && rows[j / steps].region == rows[k / steps].region
          && s == t && rows[j / steps].actions[..s] == rows[k / steps].actions[..t])
  {
    hide StateIndex, Prefix, Valid;
    CursorInRange(j, steps, |rows|);
    CursorInRange(k, steps, |rows|);
    SharedStateMeansSharedPath(steps, rows[j / steps], j % steps, rows[k / steps], k % steps);
  }
}
