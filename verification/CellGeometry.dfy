/** Rectangles of the hierarchical code, over exact real coordinates, for any depth:
    where states lie, and which cell a position is coded into. */
module CellGeometry {
  import opened Outcomes
  import opened ActionCode

  datatype Rect = Rect(west: real, east: real, south: real, north: real)

  ghost predicate Region(r: Rect) {
    r.west < r.east && r.south < r.north
  }

  // ---- Cells ----

  /** One step of `state_bounds`: the sub-rectangle an action selects. */
  function Child(r: Rect, action: nat): Rect {
    var cellWidth := (r.east - r.west) / 4.0;
    var cellHeight := (r.north - r.south) / 4.0;
    var west := r.west + (action % 4) as real * cellWidth;
    var north := r.north - (action / 4) as real * cellHeight;
    Rect(west, west + cellWidth, north - cellHeight, north)
  }

  function BoundsAlong(region: Rect, actions: Actions): Rect {
    if actions == [] then region else
      Child(BoundsAlong(region, actions[..|actions| - 1]), actions[|actions| - 1])
  }

  /** The side of a cell after `n` steps. */
  function Side(length: real, n: nat): real {
    length / Pow4(n) as real
  }

  /** The rectangle of a (row, column) index, in closed form. */
  function Cell(region: Rect, n: nat, index: Index): Rect {
    var w, h := Side(region.east - region.west, n), Side(region.north - region.south, n);
    var west, north := region.west + index.column as real * w, region.north - index.row as real * h;
    Rect(west, west + w, north - h, north)
  }

  lemma SideQuarters(length: real, n: nat)
    ensures Side(length, n) == 4.0 * Side(length, n + 1)
  {
    var p := Pow4(n) as real;
    var q := Pow4(n + 1) as real;
    assert q == 4.0 * p;
    var s := length / q;
    assert s * q == length;
    assert (4.0 * s) * p == length;
    DivideBack(4.0 * s, p, length);
  }

  lemma DivideBack(a: real, b: real, product: real)
    requires b > 0.0 && a * b == product
    ensures product / b == a
  {
  }

  /** One axis of a step: slot `c` of width `w`, quarter `q`, is slot `4c + q` of width `w / 4`. */
  lemma QuarterSlot(c: nat, q: nat, w: real, u: real)
    requires w == 4.0 * u
    ensures c as real * w + q as real * u == (c * 4 + q) as real * u
  {
    var rc, rq := c as real, q as real;
    assert (c * 4 + q) as real == rc * 4.0 + rq;
    assert rc * w == (rc * 4.0) * u;
    assert (rc * 4.0 + rq) * u == (rc * 4.0) * u + rq * u;
  }

  lemma QuarterSide(a: real, w: real, u: real)
    requires w == 4.0 * u
    ensures ((a + w) - a) / 4.0 == u && (a - (a - w)) / 4.0 == u
  {
  }

  lemma ChildOfSides(r: Rect, action: nat, u: real, v: real)
    requires (r.east - r.west) / 4.0 == u && (r.north - r.south) / 4.0 == v
    ensures var west, north := r.west + (action % 4) as real * u, r.north - (action / 4) as real * v;
      Child(r, action) == Rect(west, west + u, north - v, north)
  {
  }

  lemma ChildOfCell(region: Rect, n: nat, index: Index, action: nat)
    requires action < 16
    ensures Child(Cell(region, n, index), action)
         == Cell(region, n + 1, Index(index.row * 4 + action / 4, index.column * 4 + action % 4))
  {
    hide Side, Child;
    var width, height := region.east - region.west, region.north - region.south;
    SideQuarters(width, n);
    SideQuarters(height, n);
    QuarterSlot(index.column, action % 4, Side(width, n), Side(width, n + 1));
    QuarterSlot(index.row, action / 4, Side(height, n), Side(height, n + 1));
    QuarterSide(region.west + index.column as real * Side(width, n), Side(width, n), Side(width, n + 1));
    QuarterSide(region.north - index.row as real * Side(height, n), Side(height, n), Side(height, n + 1));
    ChildOfSides(Cell(region, n, index), action, Side(width, n + 1), Side(height, n + 1));
  }

  /** Walking down the code gives the rectangle of the index it spells. */
  lemma {:induction false} BoundsAreCell(region: Rect, actions: Actions)
    requires Valid(actions)
    ensures BoundsAlong(region, actions) == Cell(region, |actions|, GridIndex(actions))
  {
    if actions == [] {
      WholeRegion(region);
    } else {
      var n := |actions| - 1;
      BoundsAreCell(region, actions[..n]);
      ChildOfCell(region, n, GridIndex(actions[..n]), actions[n]);
      hide Child, Cell;
    }
  }

  lemma WholeRegion(region: Rect)
    ensures Cell(region, 0, Index(0, 0)) == region
  {
    assert Side(region.east - region.west, 0) == region.east - region.west;
    assert Side(region.north - region.south, 0) == region.north - region.south;
  }

  method StateBounds(region: Rect, step: nat, prefix: int) returns (r: Result<Rect>)
    ensures r.Success? <==> 0 <= prefix < Pow16(step)
    ensures r.Success? ==> r.value == Cell(region, step, GridIndex(Digits(step, prefix)))
  {
    var decoded := DecodePrefix(step, prefix);
    if decoded.Failure? {
      return Failure(decoded.message);
    }
    var actions := decoded.value;
    var bounds := region;
    for i := 0 to |actions|
      invariant bounds == BoundsAlong(region, actions[..i])
    {
      assert actions[..i + 1][..i] == actions[..i];
      bounds := Child(bounds, actions[i]);
    }
    assert actions[..|actions|] == actions;
    BoundsAreCell(region, actions);
    return Success(bounds);
  }

  // ---- Tiling ----

  ghost predicate Contains(r: Rect, x: real, y: real) {
    r.west <= x < r.east && r.south < y <= r.north
  }

  /** How many cells `offset` is into a side of the region. */
  function CellsInto(offset: real, length: real, n: nat): real
    requires length > 0.0
  {
    offset / length * Pow4(n) as real
  }

  lemma CellsIntoTimesSide(offset: real, length: real, n: nat)
    requires length > 0.0
    ensures CellsInto(offset, length, n) * Side(length, n) == offset
    ensures Side(length, n) > 0.0
  {
    var p := Pow4(n) as real;
    var f := offset / length;
    assert f * length == offset;
    var s := length / p;
    assert s * p == length;
    assert (f * p) * s == f * (s * p);
  }

  lemma Scale(a: real, b: real, s: real)
    requires s > 0.0
    ensures a <= b <==> a * s <= b * s
  {
    if a <= b { assert (b - a) * s >= 0.0; }
    if a > b { assert (a - b) * s > 0.0; }
  }

  lemma SlotOfOffset(offset: real, length: real, n: nat, c: nat)
    requires length > 0.0
    ensures var s := Side(length, n);
      (c as real * s <= offset < c as real * s + s) <==> CellsInto(offset, length, n).Floor == c
  {
    CellsIntoTimesSide(offset, length, n);
    hide Side, CellsInto;
    var s, q, r := Side(length, n), CellsInto(offset, length, n), c as real;
    QuotientOrder(r, q, s, r * s, offset);
    assert (r + 1.0) * s == r * s + s;
    QuotientOrder(q, r + 1.0, s, offset, r * s + s);
  }

  lemma OffsetInRange(offset: real, length: real, n: nat)
    requires 0.0 <= offset <= length && length > 0.0
    ensures 0.0 <= CellsInto(offset, length, n) <= Pow4(n) as real
    ensures offset < length ==> CellsInto(offset, length, n) < Pow4(n) as real
  {
    CellsIntoTimesSide(offset, length, n);
    SideTimesCells(length, n);
    QuotientOrder(CellsInto(offset, length, n), Pow4(n) as real, Side(length, n), offset, length);
    QuotientOrder(0.0, CellsInto(offset, length, n), Side(length, n), 0.0, offset);
  }

  lemma SideTimesCells(length: real, n: nat)
    ensures Pow4(n) as real * Side(length, n) == length
  {
  }

  lemma QuotientOrder(a: real, b: real, s: real, x: real, y: real)
    requires s > 0.0 && a * s == x && b * s == y
    ensures (x <= y <==> a <= b) && (x < y <==> a < b)
  {
    Scale(a, b, s);
    Scale(b, a, s);
  }

  /** The cells of one depth cover the region without overlap: a point lies in exactly the
      cell of its floor index. */
  lemma CellsTile(region: Rect, n: nat, x: real, y: real, index: Index)
    requires Region(region) && Contains(region, x, y)
    ensures var width, height := region.east - region.west, region.north - region.south;
      var column, row := CellsInto(x - region.west, width, n).Floor, CellsInto(region.north - y, height, n).Floor;
      && 0 <= column < Pow4(n) && 0 <= row < Pow4(n)
      && (Contains(Cell(region, n, index), x, y) <==> index.row == row && index.column == column)
  {
    hide Side, CellsInto, Pow4;
    var width, height := region.east - region.west, region.north - region.south;
    OffsetInRange(x - region.west, width, n);
    OffsetInRange(region.north - y, height, n);
    SlotOfOffset(x - region.west, width, n, index.column);
    SlotOfOffset(region.north - y, height, n, index.row);
  }

  // ---- Coding positions ----

  /** Python's `int()` on a float: truncation toward zero. */
  function Truncate(r: real): int {
    if r >= 0.0 then r.Floor else -((-r).Floor)
  }

  function Clip(v: int, n: nat): (c: nat)
    ensures c < Pow4(n)
  {
    if v < 0 then 0 else if v >= Pow4(n) then Pow4(n) - 1 else v
  }

  /** The clipped cell number both files compute, by truncation or by floor. */
  function Slot(offset: real, length: real, n: nat): (c: nat)
    requires length > 0.0
    ensures c < Pow4(n)
  {
    Clip(Truncate(CellsInto(offset, length, n)), n)
  }

  function FloorSlot(offset: real, length: real, n: nat): (c: nat)
    requires length > 0.0
    ensures c < Pow4(n)
  {
    Clip(CellsInto(offset, length, n).Floor, n)
  }

  /** `_actions_for_position`, in projected coordinates. */
  method ActionsForPosition(region: Rect, steps: nat, x: real, y: real) returns (r: Option<Actions>)
    requires Region(region)
    ensures r == PositionCode(region, steps, x, y)
  {
    if !(region.west <= x <= region.east && region.south <= y <= region.north) {
      return None;
    }
    var column := Slot(x - region.west, region.east - region.west, steps);
    var row := Slot(region.north - y, region.north - region.south, steps);
    var actions := EncodeActions(steps, row, column);
    return Some(actions);
  }

  function PositionCode(region: Rect, steps: nat, x: real, y: real): Option<Actions>
    requires Region(region)
  {
    if region.west <= x <= region.east && region.south <= y <= region.north then
      Some(Code(steps, Index(Slot(region.north - y, region.north - region.south, steps),
                             Slot(x - region.west, region.east - region.west, steps))))
    else None
  }

  function Steps(c: nat, width: real): real {
    c as real * width
  }

  /** A clipped slot still touches the offset it was computed from. */
  lemma SlotTouches(offset: real, length: real, n: nat)
    requires 0.0 <= offset <= length && length > 0.0
    ensures var c, s := Slot(offset, length, n), Side(length, n);
      Steps(c, s) <= offset <= Steps(c, s) + s
  {
    hide Slot, CellsInto, Side, Steps;
    SlotValue(offset, length, n);
    var s, q, p := Side(length, n), CellsInto(offset, length, n), Pow4(n);
    if q.Floor < p {
      OffsetInSlot(offset, length, n, q.Floor);
    } else {
      CellsIntoTimesSide(offset, length, n);
      LastSlot(p, s, q, offset);
    }
  }

  lemma SlotValue(offset: real, length: real, n: nat)
    requires 0.0 <= offset <= length && length > 0.0
    ensures var q, p := CellsInto(offset, length, n), Pow4(n);
      && 0 <= q.Floor && Slot(offset, length, n) == (if q.Floor < p then q.Floor else p - 1)
      && (q.Floor >= p ==> q == p as real)
  {
    hide CellsInto, Pow4;
    OffsetInRange(offset, length, n);
  }

  lemma OffsetInSlot(offset: real, length: real, n: nat, c: nat)
    requires length > 0.0 && CellsInto(offset, length, n).Floor == c
    ensures Steps(c, Side(length, n)) <= offset <= Steps(c, Side(length, n)) + Side(length, n)
  {
    hide CellsInto, Side;
    SlotOfOffset(offset, length, n, c);
  }

  lemma LastSlot(p: nat, s: real, q: real, offset: real)
    requires p > 0 && s > 0.0 && q == p as real && q * s == offset
    ensures Steps(p - 1, s) <= offset <= Steps(p - 1, s) + s
  {
    assert (p - 1) as real * s + s == p as real * s;
  }

  /** A rectangle `a` east and `b` south of the corner `r.west`, `r.north`. */
  function Beside(r: Rect, a: real, b: real, w: real, h: real): Rect {
    Rect(r.west + a, (r.west + a) + w, (r.north - b) - h, r.north - b)
  }

  lemma CentreIsNear(r: Rect, a: real, b: real, w: real, h: real, x: real, y: real)
    requires a <= x - r.west <= a + w && b <= r.north - y <= b + h
    ensures var cell := Beside(r, a, b, w, h);
      && -w / 2.0 <= (cell.west + cell.east) / 2.0 - x <= w / 2.0
      && -h / 2.0 <= (cell.south + cell.north) / 2.0 - y <= h / 2.0
  {
  }

  /** The centre of the coded cell is within half a cell of the position, on each axis. */
  lemma CodedCellIsNear(region: Rect, steps: nat, x: real, y: real)
    requires Region(region) && PositionCode(region, steps, x, y).Some?
    ensures var cell := Cell(region, steps, GridIndex(PositionCode(region, steps, x, y).value));
      var w, h := Side(region.east - region.west, steps), Side(region.north - region.south, steps);
      && -w / 2.0 <= (cell.west + cell.east) / 2.0 - x <= w / 2.0
      && -h / 2.0 <= (cell.south + cell.north) / 2.0 - y <= h / 2.0
  {
    hide Side, CellsInto, Pow4, Slot, Code, GridIndex, Cell;
    var index := Index(Slot(region.north - y, region.north - region.south, steps),
                       Slot(x - region.west, region.east - region.west, steps));
    GridIndexInvertsCode(steps, index);
    TouchedCellIsNear(region, steps, index, x, y);
  }

  lemma TouchedCellIsNear(region: Rect, steps: nat, index: Index, x: real, y: real)
    requires region.west <= x <= region.east && region.south <= y <= region.north
    requires region.west < region.east && region.south < region.north
    requires index == Index(Slot(region.north - y, region.north - region.south, steps),
                            Slot(x - region.west, region.east - region.west, steps))
    ensures var cell := Cell(region, steps, index);
      var w, h := Side(region.east - region.west, steps), Side(region.north - region.south, steps);
      && -w / 2.0 <= (cell.west + cell.east) / 2.0 - x <= w / 2.0
      && -h / 2.0 <= (cell.south + cell.north) / 2.0 - y <= h / 2.0
  {
    hide Side, CellsInto, Pow4, Slot, Cell, Steps;
    SlotTouches(x - region.west, region.east - region.west, steps);
    SlotTouches(region.north - y, region.north - region.south, steps);
    var w, h := Side(region.east - region.west, steps), Side(region.north - region.south, steps);
    CentreIsNear(region, Steps(index.column, w), Steps(index.row, h), w, h, x, y);
    CellIsBeside(region, steps, index);
  }

  lemma CellIsBeside(region: Rect, n: nat, index: Index)
    ensures var w, h := Side(region.east - region.west, n), Side(region.north - region.south, n);
      Cell(region, n, index) == Beside(region, Steps(index.column, w), Steps(index.row, h), w, h)
  {
  }

  /** `_prefix_centers` for one prefix. */
  method PrefixCenter(region: Rect, steps: nat, prefix: int) returns (r: Result<(real, real)>)
    ensures r.Success? <==> 0 <= prefix < Pow16(steps)
    ensures r.Success? ==> var cell := Cell(region, steps, GridIndex(Digits(steps, prefix)));
      r.value == ((cell.west + cell.east) / 2.0, (cell.south + cell.north) / 2.0)
  {
    var bounds := StateBounds(region, steps, prefix);
    if bounds.Failure? {
      return Failure(bounds.message);
    }
    return Success(((bounds.value.west + bounds.value.east) / 2.0, (bounds.value.south + bounds.value.north) / 2.0));
  }

  /** Localising an exact path: coding a position, spelling the code as a prefix, decoding it
      and taking that cell's centre ends within half a cell of where it started. */
  lemma ExactPathIsNear(region: Rect, steps: nat, x: real, y: real, prefix: nat)
    requires Region(region) && PositionCode(region, steps, x, y).Some?
    requires prefix == Prefix(PositionCode(region, steps, x, y).value)
    ensures prefix < Pow16(steps)
    ensures var cell := Cell(region, steps, GridIndex(Digits(steps, prefix)));
      var w, h := Side(region.east - region.west, steps), Side(region.north - region.south, steps);
      && -w / 2.0 <= (cell.west + cell.east) / 2.0 - x <= w / 2.0
      && -h / 2.0 <= (cell.south + cell.north) / 2.0 - y <= h / 2.0
  {
    DigitsInvertPrefix(PositionCode(region, steps, x, y).value);
    CodedCellIsNear(region, steps, x, y);
  }

  // ---- The producer's code against the consumer's report ----

  datatype Row = Row(x: real, y: real, actions: Actions)

  /** The cell the consumer computes for a row's position. */
  function ObservedIndex(region: Rect, steps: nat, row: Row): Index
    requires Region(region)
  {
    Index(FloorSlot(region.north - row.y, region.north - region.south, steps),
          FloorSlot(row.x - region.west, region.east - region.west, steps))
  }

  function Distance(a: nat, b: nat): nat {
    if a < b then b - a else a - b
  }

  /** The larger of a row's absolute cell errors. */
  function CellError(region: Rect, steps: nat, row: Row): nat
    requires Region(region)
  {
    var observed, expected := ObservedIndex(region, steps, row), GridIndex(row.actions);
    var dr, dc := Distance(observed.row, expected.row), Distance(observed.column, expected.column);
    if dr < dc then dc else dr
  }

  datatype Report = Report(rows: nat, exact: nat, withinOne: nat, maximum: nat)

  /** `_sequence_geometry_report`, with the two agreements as counts. */
  function GeometryReport(region: Rect, steps: nat, rows: seq<Row>): Report
    requires Region(region)
  {
    if rows == [] then Report(0, 0, 0, 0) else
      var before := GeometryReport(region, steps, rows[..|rows| - 1]);
      var error := CellError(region, steps, rows[|rows| - 1]);
      Report(before.rows + 1,
             before.exact + (if error == 0 then 1 else 0),
             before.withinOne + (if error <= 1 then 1 else 0),
             if before.maximum < error then error else before.maximum)
  }

  lemma SlotsAgree(offset: real, length: real, n: nat)
    requires length > 0.0 && offset >= 0.0
    ensures Slot(offset, length, n) == FloorSlot(offset, length, n)
  {
    CellsIntoTimesSide(offset, length, n);
    Scale(0.0, CellsInto(offset, length, n), Side(length, n));
  }

  lemma CodedRowHasNoError(region: Rect, steps: nat, row: Row)
    requires Region(region) && PositionCode(region, steps, row.x, row.y) == Some(row.actions)
    ensures CellError(region, steps, row) == 0
  {
    hide Side, CellsInto, Code, GridIndex, Slot, FloorSlot;
    SlotsAgree(row.x - region.west, region.east - region.west, steps);
    SlotsAgree(region.north - row.y, region.north - region.south, steps);
    GridIndexInvertsCode(steps, ObservedIndex(region, steps, row));
  }

  /** Rows coded by the producer show full agreement and no cell error to the consumer. */
  lemma {:induction false} ProducedRowsAgree(region: Rect, steps: nat, rows: seq<Row>)
    requires Region(region)
    requires forall i :: 0 <= i < |rows| ==> PositionCode(region, steps, rows[i].x, rows[i].y) == Some(rows[i].actions)
    ensures GeometryReport(region, steps, rows) == Report(|rows|, |rows|, |rows|, 0)
  {
    if rows != [] {
      ProducedRowsAgree(region, steps, rows[..|rows| - 1]);
      CodedRowHasNoError(region, steps, rows[|rows| - 1]);
    }
  }

  /** `offset` lies in slot `c` of width `w` among `count` slots, or beyond the nearest end. */
  ghost predicate LiesInSlot(offset: real, w: real, count: nat, c: nat) {
    || Steps(c, w) <= offset < Steps(c, w) + w
    || (c == 0 && offset < 0.0)
    || (c + 1 == count && offset >= Steps(c, w) + w)
  }

  lemma FloorSlotHolds(offset: real, length: real, n: nat)
    requires length > 0.0
    ensures LiesInSlot(offset, Side(length, n), Pow4(n), FloorSlot(offset, length, n))
  {
    hide CellsInto, Side, Pow4, Steps, LiesInSlot;
    var c, q := FloorSlot(offset, length, n), CellsInto(offset, length, n);
    CellsIntoTimesSide(offset, length, n);
    if 0 <= q.Floor < Pow4(n) { OffsetInSlotStrictly(offset, length, n, c); }
    ClippedSlotHolds(q, Pow4(n), Side(length, n), offset, c);
  }

  lemma OffsetInSlotStrictly(offset: real, length: real, n: nat, c: nat)
    requires length > 0.0 && CellsInto(offset, length, n).Floor == c
    ensures Steps(c, Side(length, n)) <= offset < Steps(c, Side(length, n)) + Side(length, n)
  {
    hide CellsInto, Side;
    SlotOfOffset(offset, length, n, c);
  }

  lemma ClippedSlotHolds(q: real, p: nat, s: real, offset: real, c: nat)
    requires p > 0 && s > 0.0 && q * s == offset
    requires c == if q.Floor < 0 then 0 else if q.Floor >= p then p - 1 else q.Floor
    requires 0 <= q.Floor < p ==> Steps(c, s) <= offset < Steps(c, s) + s
    ensures LiesInSlot(offset, s, p, c)
  {
    hide Steps;
    if q.Floor < 0 { NegativeOffset(q, s, offset); }
    if q.Floor >= p { LastSlotEnds(q, p, s, offset); }
  }

  lemma NegativeOffset(q: real, s: real, offset: real)
    requires q < 0.0 && s > 0.0 && q * s == offset
    ensures offset < 0.0
  {
  }

  lemma LastSlotEnds(q: real, p: nat, s: real, offset: real)
    requires p > 0 && s > 0.0 && q >= p as real && q * s == offset
    ensures offset >= Steps(p - 1, s) + s
  {
    assert (p - 1) as real * s + s == p as real * s;
    Scale(p as real, q, s);
  }

  /** The consumer's cell of a row holds the row's position, or is the border cell nearest to it. */
  lemma ObservedCellHolds(region: Rect, steps: nat, row: Row)
    requires Region(region)
    ensures var observed, p := ObservedIndex(region, steps, row), Pow4(steps) as real;
      && LiesInSlot(row.x - region.west, (region.east - region.west) / p, Pow4(steps), observed.column)
      && LiesInSlot(region.north - row.y, (region.north - region.south) / p, Pow4(steps), observed.row)
  {
    hide LiesInSlot, FloorSlot;
    FloorSlotHolds(row.x - region.west, region.east - region.west, steps);
    FloorSlotHolds(region.north - row.y, region.north - region.south, steps);
  }

  // ---- What the report counts ----

  /** The rows whose observed and coded cells differ by at most `k` in row and in column. */
  ghost function RowsWithin(region: Rect, steps: nat, rows: seq<Row>, k: nat): set<nat>
    requires Region(region)
  {
    set i: nat | i < |rows| && Within(ObservedIndex(region, steps, rows[i]), GridIndex(rows[i].actions), k)
  }

  ghost predicate Within(a: Index, b: Index, k: nat) {
    a.row <= b.row + k && b.row <= a.row + k && a.column <= b.column + k && b.column <= a.column + k
  }

  lemma WithinNext(region: Rect, steps: nat, rows: seq<Row>, k: nat)
    requires Region(region) && rows != []
    ensures var n := |rows| - 1;
      var before := RowsWithin(region, steps, rows[..n], k);
      && n !in before
      && RowsWithin(region, steps, rows, k)
        == if CellError(region, steps, rows[n]) <= k then before + {n} else before
  {
    hide ObservedIndex, GridIndex;
  }

  /** The report's counts are of the rows exactly in place and of those within one cell, and its
      maximum is the least difference all rows are within. */
  lemma {:induction false} ReportCountsRows(region: Rect, steps: nat, rows: seq<Row>)
    requires Region(region)
    ensures var report := GeometryReport(region, steps, rows);
      && report.rows == |rows|
      && report.exact == |RowsWithin(region, steps, rows, 0)|
      && report.withinOne == |RowsWithin(region, steps, rows, 1)|
      && forall k: nat :: report.maximum <= k <==> |RowsWithin(region, steps, rows, k)| == |rows|
  {
    forall k: nat ensures |RowsWithin(region, steps, rows, k)| <= |rows| { WithinIsBounded(region, steps, rows, k); }
    if rows != [] {
      var n := |rows| - 1;
      ReportCountsRows(region, steps, rows[..n]);
      WithinNext(region, steps, rows, 0);
      WithinNext(region, steps, rows, 1);
      hide CellError, RowsWithin;
      forall k: nat ensures |RowsWithin(region, steps, rows[..n], k)| <= n {
        WithinIsBounded(region, steps, rows[..n], k);
      }
      forall k: nat
        ensures GeometryReport(region, steps, rows).maximum <= k <==> |RowsWithin(region, steps, rows, k)| == |rows|
      {
        WithinNext(region, steps, rows, k);
      }
    }
  }

  lemma {:induction false} WithinIsBounded(region: Rect, steps: nat, rows: seq<Row>, k: nat)
    requires Region(region)
    ensures |RowsWithin(region, steps, rows, k)| <= |rows|
  {
    if rows != [] {
      WithinIsBounded(region, steps, rows[..|rows| - 1], k);
      WithinNext(region, steps, rows, k);
    }
  }
}
