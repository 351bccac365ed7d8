/** The hierarchical 4x4 code: action sequences, base-16 prefixes, (row, column) indices
    and the flat index of states, for any depth. */
module ActionCode {
  import opened Outcomes

  function Pow4(n: nat): (r: nat)
    ensures r > 0
  {
    if n == 0 then 1 else 4 * Pow4(n - 1)
  }

  function Pow16(n: nat): (r: nat)
    ensures r > 0
  {
    if n == 0 then 1 else 16 * Pow16(n - 1)
  }

  type Actions = seq<nat>

  ghost predicate Valid(actions: Actions) {
    forall i :: 0 <= i < |actions| ==> actions[i] < 16
  }

  // ---- Prefixes ----

  /** `_true_prefix`: the base-16 number the actions spell. */
  function Prefix(actions: Actions): nat {
    if actions == [] then 0 else Prefix(actions[..|actions| - 1]) * 16 + actions[|actions| - 1]
  }

  method TruePrefix(actions: Actions) returns (prefix: nat)
    ensures prefix == Prefix(actions)
  {
    prefix := 0;
    for i := 0 to |actions|
      invariant prefix == Prefix(actions[..i])
    {
      assert actions[..i + 1][..i] == actions[..i];
      prefix := prefix * 16 + actions[i];
    }
    assert actions[..|actions|] == actions;
  }

  /** The low `step` base-16 digits, most significant first. */
  function Digits(step: nat, value: int): (d: Actions)
    ensures |d| == step
  {
    if step == 0 then [] else Digits(step - 1, value / 16) + [value % 16]
  }

  lemma {:induction false} DigitsInvertPrefix(actions: Actions)
    requires Valid(actions)
    ensures Digits(|actions|, Prefix(actions)) == actions && Prefix(actions) < Pow16(|actions|)
  {
    if actions != [] {
      var n := |actions| - 1;
      DigitsInvertPrefix(actions[..n]);
      OneMoreDigit(n, Prefix(actions[..n]), actions[n]);
      hide Digits, Pow16;
      assert actions == actions[..n] + [actions[n]];
    }
  }

  lemma OneMoreDigit(n: nat, p: nat, digit: nat)
    requires digit < 16 && p < Pow16(n)
    ensures Digits(n + 1, p * 16 + digit) == Digits(n, p) + [digit] && p * 16 + digit < Pow16(n + 1)
  {
    assert (p * 16 + digit) / 16 == p && (p * 16 + digit) % 16 == digit;
  }

  lemma {:induction false} PrefixInvertsDigits(step: nat, value: int)
    requires 0 <= value < Pow16(step)
    ensures Valid(Digits(step, value)) && Prefix(Digits(step, value)) == value
  {
    if step > 0 {
      PrefixInvertsDigits(step - 1, value / 16);
      var d := Digits(step, value);
      assert d[..step - 1] == Digits(step - 1, value / 16);
    }
  }

  /** Digit `k` of a prefix is the one 16 to the number of later digits counts. */
  lemma {:induction false} PrefixDigit(actions: Actions, k: nat)
    requires Valid(actions) && k < |actions|
    ensures actions[k] == Prefix(actions) / Pow16(|actions| - 1 - k) % 16
  {
    DigitsInvertPrefix(actions);
    DigitOfNumber(|actions|, Prefix(actions), k);
  }

  lemma {:induction false} DigitOfNumber(step: nat, value: nat, k: nat)
    requires k < step
    ensures Digits(step, value)[k] == value / Pow16(step - 1 - k) % 16
  {
    if k < step - 1 {
      DigitOfNumber(step - 1, value / 16, k);
      DividePowerFirst(step - 2 - k, value);
    }
  }

  /** What is left of `value` after `step` digits: zero exactly when they suffice. */
  lemma RemainderAfterDigits(step: nat, value: int)
    ensures value / Pow16(step) == 0 <==> 0 <= value < Pow16(step)
  {
    var p := Pow16(step);
    if 0 <= value < p { QuotientUnique(value, p, 0, value); }
    if value / p == 0 { assert value == (value / p) * p + value % p; }
  }

  lemma DivideByPower(step: nat, value: int)
    ensures (value / Pow16(step)) / 16 == value / Pow16(step + 1)
  {
    DivideTwice(value, Pow16(step), 16);
  }

  lemma DivideTwice(value: int, p: nat, b: nat)
    requires p > 0 && b > 0
    ensures (value / p) / b == value / (b * p)
  {
    var q := value / p;
    DivMod(value, p);
    DivMod(q, b);
    TwoDigits(q / b, q % b, value % p, p, b);
    QuotientUnique(value, b * p, q / b, q % b * p + value % p);
  }

  lemma DivMod(value: int, d: nat)
    requires d > 0
    ensures value == value / d * d + value % d && 0 <= value % d < d
  {
  }

  lemma TwoDigits(high: int, low: int, rest: int, p: nat, b: nat)
    requires 0 <= low < b && 0 <= rest < p
    ensures (high * b + low) * p + rest == high * (b * p) + (low * p + rest)
    ensures 0 <= low * p + rest < b * p
  {
    Distribute(high * b, low, p);
    assert high * b * p == high * (b * p);
    Distribute(low, b - 1 - low, p);
    Distribute(b - 1, 1, p);
    ProductNonNegative(low, p);
    ProductNonNegative(b - 1 - low, p);
  }

  lemma ProductNonNegative(a: int, b: int)
    requires a >= 0 && b >= 0
    ensures a * b >= 0
  {
  }

  lemma Distribute(a: int, b: int, d: int)
    ensures (a + b) * d == a * d + b * d
  {
  }

  lemma AtLeastOnce(a: int, d: int)
    requires a >= 1 && d > 0
    ensures a * d >= d
  {
    Distribute(a - 1, 1, d);
  }

  lemma QuotientUnique(value: int, d: int, q: int, r: int)
    requires d > 0 && value == q * d + r && 0 <= r < d
    ensures value / d == q && value % d == r
  {
    var p, e := value / d, value % d;
    assert value == p * d + e;
    if p > q {
      Distribute(q, p - q, d);
      AtLeastOnce(p - q, d);
    } else if p < q {
      Distribute(p, q - p, d);
      AtLeastOnce(q - p, d);
    }
  }

  /** `_decode_prefix`: fills the digits from the right and refuses leftovers. */
  method DecodePrefix(step: nat, prefix: int) returns (r: Result<Actions>)
    ensures r.Success? <==> 0 <= prefix < Pow16(step)
    ensures r.Success? ==> r.value == Digits(step, prefix) && Valid(r.value) && Prefix(r.value) == prefix
  {
    var actions := new nat[step];
    var value := prefix;
    var index := step;
    while index > 0
      invariant 0 <= index <= step
      invariant value == prefix / Pow16(step - index)
      invariant actions[index..] == Digits(step - index, prefix)
    {
      index := index - 1;
      ghost var done := step - index;
      DivideByPower(done - 1, prefix);
      DigitAt(done, prefix);
      actions[index] := value % 16;
      value := value / 16;
      assert actions[index..] == [actions[index]] + actions[index + 1..];
    }
    RemainderAfterDigits(step, prefix);
    if value != 0 {
      return Failure("state prefix exceeds step capacity");
    }
    PrefixInvertsDigits(step, prefix);
    return Success(actions[..]);
  }

  lemma {:induction false} DigitAt(k: nat, value: int)
    requires k > 0
    ensures Digits(k, value) == [(value / Pow16(k - 1)) % 16] + Digits(k - 1, value)
  {
    if k == 1 {
      assert Digits(0, value / 16) == [] && Digits(0, value) == [];
    } else {
      DigitAt(k - 1, value / 16);
      DividePowerFirst(k - 2, value);
      assert Digits(k - 1, value) == Digits(k - 2, value / 16) + [value % 16];
    }
  }

  lemma {:induction false} DividePowerFirst(n: nat, value: int)
    ensures (value / 16) / Pow16(n) == value / Pow16(n + 1)
  {
    if n > 0 {
      DividePowerFirst(n - 1, value);
      DivideByPower(n - 1, value / 16);
      DivideByPower(n, value);
    }
  }

  // ---- Grid indices ----

  datatype Index = Index(row: nat, column: nat)

  function GridIndex(actions: Actions): Index {
    if actions == [] then Index(0, 0) else
      var n := |actions| - 1;
      var above := GridIndex(actions[..n]);
      Index(above.row * 4 + actions[n] / 4, above.column * 4 + actions[n] % 4)
  }

  /** `_final_grid_index` */
  method FinalGridIndex(actions: Actions) returns (row: nat, column: nat)
    ensures Index(row, column) == GridIndex(actions)
  {
    row, column := 0, 0;
    for i := 0 to |actions|
      invariant Index(row, column) == GridIndex(actions[..i])
    {
      assert actions[..i + 1][..i] == actions[..i];
      row, column := row * 4 + actions[i] / 4, column * 4 + actions[i] % 4;
    }
    assert actions[..|actions|] == actions;
  }

  /** The actions that lead to a cell: two bits of row and column per step, high bits first. */
  function Code(steps: nat, index: Index): (actions: Actions)
    ensures |actions| == steps && Valid(actions)
  {
    if steps == 0 then [] else
      Code(steps - 1, Index(index.row / 4, index.column / 4)) + [(index.row % 4) * 4 + index.column % 4]
  }

  lemma {:induction false} GridIndexInvertsCode(steps: nat, index: Index)
    requires index.row < Pow4(steps) && index.column < Pow4(steps)
    ensures GridIndex(Code(steps, index)) == index
  {
    if steps > 0 {
      var above := Index(index.row / 4, index.column / 4);
      GridIndexInvertsCode(steps - 1, above);
      assert Code(steps, index)[..steps - 1] == Code(steps - 1, above);
    }
  }

  lemma {:induction false} CodeInvertsGridIndex(actions: Actions)
    requires Valid(actions)
    ensures var index := GridIndex(actions);
      && index.row < Pow4(|actions|) && index.column < Pow4(|actions|)
      && Code(|actions|, index) == actions
  {
    if actions != [] {
      var n := |actions| - 1;
      CodeInvertsGridIndex(actions[..n]);
      OneMoreAction(n, GridIndex(actions[..n]), actions[n]);
      hide Code, Pow4;
      assert actions == actions[..n] + [actions[n]];
    }
  }

  lemma OneMoreAction(n: nat, above: Index, action: nat)
    requires above.row < Pow4(n) && above.column < Pow4(n) && action < 16
    ensures var index := Index(above.row * 4 + action / 4, above.column * 4 + action % 4);
      && index.row < Pow4(n + 1) && index.column < Pow4(n + 1)
      && Code(n + 1, index) == Code(n, above) + [action]
  {
    DigitOfFour(above.row, action / 4, Pow4(n));
    DigitOfFour(above.column, action % 4, Pow4(n));
  }

  lemma DigitOfFour(high: nat, low: nat, p: nat)
    requires low < 4 && high < p
    ensures (high * 4 + low) / 4 == high && (high * 4 + low) % 4 == low && high * 4 + low < 4 * p
  {
  }

  /** `value >> shift` for a shift of two bits per remaining step. */
  function ShiftRight(value: nat, remaining: nat): nat {
    QuotientNonNegative(value, Pow4(remaining));
    value / Pow4(remaining)
  }

  lemma QuotientNonNegative(value: nat, d: nat)
    requires d > 0
    ensures value / d >= 0
  {
    var q, r := value / d, value % d;
    assert value == q * d + r;
    if q <= -1 {
      AtLeastOnce(-q, d);
      Distribute(q, -q, d);
    }
  }

  lemma CodeEnd(k: nat, at: Index)
    ensures Code(k + 1, at)[..k] == Code(k, Index(at.row / 4, at.column / 4))
    ensures Code(k + 1, at)[k] == (at.row % 4) * 4 + at.column % 4
  {
  }

  /** What is left of an index above the last `remaining` steps. */
  function Above(index: Index, remaining: nat): Index {
    Index(ShiftRight(index.row, remaining), ShiftRight(index.column, remaining))
  }

  lemma {:induction false} CodeFromLeft(steps: nat, index: Index, k: nat)
    requires k <= steps
    ensures Code(steps, index)[..k] == Code(k, Above(index, steps - k))
    decreases steps - k
  {
    hide Code;
    if k < steps {
      CodeFromLeft(steps, index, k + 1);
      var at := Above(index, steps - k - 1);
      AboveTwice(index, steps - k - 1);
      CodeEnd(k, at);
      assert Code(steps, index)[..k] == Code(steps, index)[..k + 1][..k];
    } else {
      assert Code(steps, index)[..k] == Code(steps, index);
      assert Above(index, 0) == index;
    }
  }

  lemma AboveTwice(index: Index, n: nat)
    ensures var at := Above(index, n);
      Index(at.row / 4, at.column / 4) == Above(index, n + 1)
  {
    DivideByFour(index.row, n);
    DivideByFour(index.column, n);
  }

  lemma DivideByFour(value: nat, n: nat)
    ensures (value / Pow4(n)) / 4 == value / Pow4(n + 1)
  {
    DivideTwice(value, Pow4(n), 4);
  }

  /** Action `k` of a cell's code is four times a base-4 digit of its row plus that of its column. */
  lemma CodeDigit(steps: nat, index: Index, k: nat)
    requires k < steps
    ensures var p := Pow4(steps - 1 - k);
      Code(steps, index)[k] == 4 * (index.row / p % 4) + index.column / p % 4
  {
    hide Code;
    CodeFromLeft(steps, index, k + 1);
    CodeEnd(k, Above(index, steps - 1 - k));
    assert Code(steps, index)[k] == Code(steps, index)[..k + 1][k];
  }

  /** The append loop of `_actions_for_position`. */
  method EncodeActions(steps: nat, row: nat, column: nat) returns (actions: Actions)
    requires row < Pow4(steps) && column < Pow4(steps)
    ensures actions == Code(steps, Index(row, column))
  {
    hide Code;
    actions := [];
    for step := 0 to steps
      invariant actions == Code(steps, Index(row, column))[..step]
    {
      var remaining := steps - 1 - step;
      CodeFromLeft(steps, Index(row, column), step + 1);
      CodeEnd(step, Above(Index(row, column), remaining));
      assert Code(steps, Index(row, column))[step] == Code(steps, Index(row, column))[..step + 1][step];
      actions := actions + [(ShiftRight(row, remaining) % 4) * 4 + ShiftRight(column, remaining) % 4];
    }
  }

  // ---- States ----

  /** Where the states of a step start in the flat list; `STATE_OFFSETS` for four steps. */
  function StateOffset(step: nat): nat {
    if step == 0 then 0 else StateOffset(step - 1) + Pow16(step - 1)
  }

  lemma StateOffsetsOfFourSteps()
    ensures [StateOffset(0), StateOffset(1), StateOffset(2), StateOffset(3)] == [0, 1, 17, 273]
    ensures StateOffset(4) == 4369
  {
    assert Pow16(1) == 16 && Pow16(2) == 16 * Pow16(1) && Pow16(3) == 16 * Pow16(2);
    assert StateOffset(2) == StateOffset(1) + Pow16(1);
    assert StateOffset(3) == StateOffset(2) + Pow16(2);
    assert StateOffset(4) == StateOffset(3) + Pow16(3);
  }

  ghost predicate StateAt(states: seq<(nat, nat)>, step: nat, prefix: nat) {
    StateOffset(step) + prefix < |states| && states[StateOffset(step) + prefix] == (step, prefix)
  }

  /** The list position of every state is its step's offset plus its prefix. */
  ghost predicate Enumerates(states: seq<(nat, nat)>, step: nat, prefixes: nat) {
    && |states| == StateOffset(step) + prefixes
    && (forall s, p {:trigger StateAt(states, s, p)} :: 0 <= s < step && 0 <= p < Pow16(s) ==> StateAt(states, s, p))
    && (forall p {:trigger StateAt(states, step, p)} :: 0 <= p < prefixes ==> StateAt(states, step, p))
  }

  /** The list holds each state of the first `steps` steps at its step's offset plus its prefix. */
  ghost predicate ListsStates(states: seq<(nat, nat)>, steps: nat) {
    |states| == StateOffset(steps) && forall s: nat, p: nat :: s < steps && p < Pow16(s) ==> StateAt(states, s, p)
  }

  /** `_state_keys` */
  method StateKeys(steps: nat) returns (states: seq<(nat, nat)>)
    ensures ListsStates(states, steps)
  {
    states := [];
    for step := 0 to steps
      invariant Enumerates(states, step, 0)
    {
      for prefix := 0 to Pow16(step)
        invariant Enumerates(states, step, prefix)
      {
        StateAppended(states, step, prefix);
        states := states + [(step, prefix)];
      }
      LevelComplete(states, step);
    }
  }

  lemma StateAppended(states: seq<(nat, nat)>, step: nat, prefix: nat)
    requires Enumerates(states, step, prefix)
    ensures Enumerates(states + [(step, prefix)], step, prefix + 1)
  {
    var more := states + [(step, prefix)];
    forall s: nat, p: nat | StateAt(states, s, p) ensures StateAt(more, s, p) {
    }
    forall s, p | 0 <= s < step && 0 <= p < Pow16(s) ensures StateAt(more, s, p) {
      assert StateAt(states, s, p);
    }
    forall p | 0 <= p < prefix + 1 ensures StateAt(more, step, p) {
      if p < prefix { assert StateAt(states, step, p); }
    }
  }

  lemma LevelComplete(states: seq<(nat, nat)>, step: nat)
    requires Enumerates(states, step, Pow16(step))
    ensures Enumerates(states, step + 1, 0)
  {
    forall s, p | 0 <= s < step + 1 && 0 <= p < Pow16(s) ensures StateAt(states, s, p) {
      if s == step { assert StateAt(states, step, p); }
    }
  }
}
