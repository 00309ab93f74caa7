/** network.py: cells whose colour is an integer function of their value
    and their position, and a "spiral" click that adds a power, modulo 360,
    to the value of every cell within that Euclidean distance of a centre. */
module SpiralGrid {
  import Colors
  import Grids
  import Arith

  /** The channels `calculate_color` computes from a value at row `x`,
      column `y`. Python's `%` with a positive modulus never returns a
      negative number, and neither does Dafny's. */
  function Positional(value: int, x: int, y: int): Colors.Rgb {
    Colors.Rgb((value * 123 + x * 45) % 256, (value * 156 + y * 67) % 256, (value * 189 + (x + y) * 89) % 256)
  }

  /** `calculate_color`: the positional channels written `#rrggbb`. */
  function PositionalColor(value: int, x: int, y: int): string {
    Colors.Format(Positional(value, x, y))
  }

  /** A positional colour is `#` and six hexadecimal digits whose pairs
      read back as the red, green and blue formulas. */
  lemma PositionalColorReads(value: int, x: int, y: int)
    ensures Colors.IsColor(PositionalColor(value, x, y))
    ensures Colors.Channels(PositionalColor(value, x, y)).r == (value * 123 + x * 45) % 256
    ensures Colors.Channels(PositionalColor(value, x, y)).g == (value * 156 + y * 67) % 256
    ensures Colors.Channels(PositionalColor(value, x, y)).b == (value * 189 + (x + y) * 89) % 256
  {
    Colors.FormatReads(Positional(value, x, y));
  }

  /** `(v * c + t) % 256` depends on `v` only through `v % 256`. */
  lemma ChannelPeriodic(v: int, w: int, c: int, t: int)
    requires v % 256 == w % 256
    ensures (v * c + t) % 256 == (w * c + t) % 256
  {
    Arith.FloorDiv(v, 256);
    Arith.FloorDiv(w, 256);
    var q := v / 256 - w / 256;
    assert v == w + q * 256;
    assert v * c + t == (w * c + t) + (q * c) * 256;
    Arith.ModAddMultiple(w * c + t, q * c, 256);
  }

  /** Values 256 apart look the same at every position. */
  lemma PositionalColorPeriodic(v: int, w: int, x: int, y: int)
    requires v % 256 == w % 256
    ensures PositionalColor(v, x, y) == PositionalColor(w, x, y)
  {
    ChannelPeriodic(v, w, 123, x * 45);
    ChannelPeriodic(v, w, 156, y * 67);
    ChannelPeriodic(v, w, 189, (x + y) * 89);
  }

  /** `distance <= spiral_power` for `distance = ((x - xc) ** 2 + (y - yc)
      ** 2) ** 0.5`, on exact numbers: a closed disc of radius `power`, empty
      when the power is negative. */
  predicate InRadius(x: int, y: int, xc: int, yc: int, power: int) {
    0 <= power && (x - xc) * (x - xc) + (y - yc) * (y - yc) <= power * power
  }

  /** `update_value_based_on_spiral`'s new value. */
  function SpiralValue(value: int, power: int): (v: int)
    ensures 0 <= v < 360
  {
    (value + power) % 360
  }

  /** The grid of values after `apply_spiral_effect(xc, yc, power)`: the
      cells within the radius move on by `power`, modulo 360. */
  function Spiraled(vals: seq<seq<int>>, xc: int, yc: int, power: int): (r: seq<seq<int>>)
    ensures Grids.SameShape(r, vals)
  {
    seq(|vals|, i requires 0 <= i < |vals| =>
      seq(|vals[i]|, j requires 0 <= j < |vals[i]| =>
        if InRadius(i, j, xc, yc, power) then SpiralValue(vals[i][j], power) else vals[i][j]))
  }

  /** A square that is at least as large as `a * a` has a root at least as
      large as `|a|`. */
  lemma SquareBound(a: int, p: nat)
    requires a * a <= p * p
    ensures a <= p && -a <= p
  {
    if a > p {
      Arith.MulStrict(p, a, a);
      Arith.MulMonotone(p, a, p);
    } else if -a > p {
      Arith.MulStrict(p, -a, -a);
      Arith.MulMonotone(p, -a, p);
    }
  }

  /** The spiral reaches no cell more than `power` rows or columns away
      from the centre. */
  lemma InRadiusBounded(x: int, y: int, xc: int, yc: int, power: int)
    requires InRadius(x, y, xc, yc, power)
    ensures xc - power <= x <= xc + power && yc - power <= y <= yc + power
  {
    SquareBound(x - xc, power);
    SquareBound(y - yc, power);
  }

  /** Every cell at most `power` away along a row or a column (the plus
      shape through the centre) is reached. */
  lemma InRadiusAxes(x: int, y: int, xc: int, yc: int, power: int)
    requires 0 <= power
    requires (x == xc && yc - power <= y <= yc + power) || (y == yc && xc - power <= x <= xc + power)
    ensures InRadius(x, y, xc, yc, power)
  {
    if x == xc {
      SquareBound'(y - yc, power);
    } else {
      SquareBound'(x - xc, power);
    }
  }

  /** The converse of `SquareBound`. */
  lemma SquareBound'(a: int, p: nat)
    requires a <= p && -a <= p
    ensures a * a <= p * p
  {
    if a >= 0 {
      Arith.SquareMonotone(a, p);
    } else {
      Arith.SquareMonotone(-a, p);
    }
  }

  /** A negative power changes nothing. */
  lemma NegativePowerIsIdentity(vals: seq<seq<int>>, xc: int, yc: int, power: int)
    requires power < 0
    ensures Spiraled(vals, xc, yc, power) == vals
  {
    var r := Spiraled(vals, xc, yc, power);
    forall i | 0 <= i < |vals| ensures r[i] == vals[i] {
      assert |r[i]| == |vals[i]|;
    }
  }

  /** Two clicks at the same centre with the same power move the cells in
      the radius on by twice the power. */
  lemma SpiraledTwice(vals: seq<seq<int>>, xc: int, yc: int, power: int)
    ensures Spiraled(Spiraled(vals, xc, yc, power), xc, yc, power)
         == seq(|vals|, i requires 0 <= i < |vals| =>
              seq(|vals[i]|, j requires 0 <= j < |vals[i]| =>
                if InRadius(i, j, xc, yc, power) then (vals[i][j] + 2 * power) % 360 else vals[i][j]))
  {
    var once := Spiraled(vals, xc, yc, power);
    var twice := Spiraled(once, xc, yc, power);
    var expected := seq(|vals|, i requires 0 <= i < |vals| =>
      seq(|vals[i]|, j requires 0 <= j < |vals[i]| =>
        if InRadius(i, j, xc, yc, power) then (vals[i][j] + 2 * power) % 360 else vals[i][j]));
    forall i | 0 <= i < |vals| ensures twice[i] == expected[i] {
      assert |twice[i]| == |expected[i]|;
      forall j | 0 <= j < |vals[i]| ensures twice[i][j] == expected[i][j] {
        if InRadius(i, j, xc, yc, power) {
          Arith.ModOfSum(vals[i][j] + power, power, 360);
        }
      }
    }
  }

  /** The values part way through `apply_spiral_effect`: the cells before
      row `i`, column `j` in row-major order have been visited, the rest
      not. */
  function SpiraledBefore(vals: seq<seq<int>>, xc: int, yc: int, power: int, i: int, j: int): (r: seq<seq<int>>)
    ensures Grids.SameShape(r, vals)
  {
    seq(|vals|, r requires 0 <= r < |vals| =>
      seq(|vals[r]|, c requires 0 <= c < |vals[r]| =>
        if (r < i || (r == i && c < j)) && InRadius(r, c, xc, yc, power) then SpiralValue(vals[r][c], power)
        else vals[r][c]))
  }

  lemma SpiraledBeforeStart(vals: seq<seq<int>>, xc: int, yc: int, power: int)
    ensures SpiraledBefore(vals, xc, yc, power, 0, 0) == vals
  {
    var r := SpiraledBefore(vals, xc, yc, power, 0, 0);
    forall i | 0 <= i < |vals| ensures r[i] == vals[i] {
      assert |r[i]| == |vals[i]|;
    }
  }

  /** Visiting cell `(i, j)` advances the sweep by one cell. */
  lemma SpiraledBeforeStep(vals: seq<seq<int>>, xc: int, yc: int, power: int, i: nat, j: nat)
    requires i < |vals| && j < |vals[i]|
    ensures
      var before := SpiraledBefore(vals, xc, yc, power, i, j);
      before[i][j] == vals[i][j] &&
      SpiraledBefore(vals, xc, yc, power, i, j + 1)
        == if InRadius(i, j, xc, yc, power) then before[i := before[i][j := SpiralValue(before[i][j], power)]]
           else before
  {
    var before, after := SpiraledBefore(vals, xc, yc, power, i, j), SpiraledBefore(vals, xc, yc, power, i, j + 1);
    var expected := if InRadius(i, j, xc, yc, power) then before[i := before[i][j := SpiralValue(before[i][j], power)]]
                    else before;
    forall r | 0 <= r < |vals| ensures after[r] == expected[r] {
      assert |after[r]| == |expected[r]|;
    }
  }

  lemma SpiraledBeforeRow(vals: seq<seq<int>>, xc: int, yc: int, power: int, i: nat)
    requires i < |vals|
    ensures SpiraledBefore(vals, xc, yc, power, i, |vals[i]|) == SpiraledBefore(vals, xc, yc, power, i + 1, 0)
  {
    var a, b := SpiraledBefore(vals, xc, yc, power, i, |vals[i]|), SpiraledBefore(vals, xc, yc, power, i + 1, 0);
    forall r | 0 <= r < |vals| ensures a[r] == b[r] {
      assert |a[r]| == |b[r]|;
    }
  }

  lemma SpiraledBeforeEnd(vals: seq<seq<int>>, xc: int, yc: int, power: int)
    ensures SpiraledBefore(vals, xc, yc, power, |vals|, 0) == Spiraled(vals, xc, yc, power)
  {
    var a, b := SpiraledBefore(vals, xc, yc, power, |vals|, 0), Spiraled(vals, xc, yc, power);
    forall r | 0 <= r < |vals| ensures a[r] == b[r] {
      assert |a[r]| == |b[r]|;
    }
  }

  class Cell {
    var value: int
    const x: int
    const y: int
    var color: string

    /** `Cell(value, x, y)`: the value, the position and the positional
        colour. */
    constructor (value: int, x: int, y: int)
      ensures this.value == value && this.x == x && this.y == y
      ensures color == PositionalColor(value, x, y)
    {
      this.value := value;
      this.x := x;
      this.y := y;
      color := PositionalColor(value, x, y);
    }

    /** `update_value_based_on_spiral`: the value moves on by the power,
        modulo 360, and the colour is recomputed at the same position. */
    method UpdateValueBasedOnSpiral(spiralPower: int)
      modifies this
      ensures value == SpiralValue(old(value), spiralPower)
      ensures color == PositionalColor(value, x, y)
    {
      value := (value + spiralPower) % 360;
      color := PositionalColor(value, x, y);
    }
  }

  /** Row by row, the cells of `rows` belong to `cells`, sit at their own
      row and column, hold the values `vals` and show their positional
      colour. */
  ghost predicate Built(rows: seq<seq<Cell>>, vals: seq<seq<int>>, cells: set<Cell>)
    reads cells
  {
    Grids.SameShape(vals, rows) &&
    forall i, j {:trigger rows[i][j]} :: 0 <= i < |rows| && 0 <= j < |rows[i]| ==>
      rows[i][j] in cells && rows[i][j].x == i && rows[i][j].y == j &&
      rows[i][j].value == vals[i][j] && rows[i][j].color == PositionalColor(vals[i][j], i, j)
  }

  /** A further row of cells at row index `|rows|` extends what has been
      built. */
  lemma BuiltAppend(rows: seq<seq<Cell>>, vals: seq<seq<int>>, cells: set<Cell>, row: seq<Cell>, rowVals: seq<int>)
    requires Built(rows, vals, cells)
    requires |row| == |rowVals|
    requires forall l :: 0 <= l < |row| ==>
      row[l].x == |rows| && row[l].y == l && row[l].value == rowVals[l] &&
      row[l].color == PositionalColor(rowVals[l], |rows|, l)
    ensures Built(rows + [row], vals + [rowVals], cells + set l | 0 <= l < |row| :: row[l])
  {
    var rows': seq<seq<Cell>>, vals' := rows + [row], vals + [rowVals];
    var cells' := cells + set l | 0 <= l < |row| :: row[l];
    forall i, j | 0 <= i < |rows'| && 0 <= j < |rows'[i]|
      ensures rows'[i][j] in cells' && rows'[i][j].x == i && rows'[i][j].y == j
      ensures rows'[i][j].value == vals'[i][j] && rows'[i][j].color == PositionalColor(vals'[i][j], i, j)
    {
      if i < |rows| {
        assert rows'[i] == rows[i] && vals'[i] == vals[i];
      } else {
        assert rows'[i] == row && vals'[i] == rowVals;
      }
    }
  }

  /** The cells of row `x`: `[Cell(value, x, y) for y, value in
      enumerate(row)]`. */
  method NewRow(values: seq<int>, x: nat) returns (row: seq<Cell>)
    ensures |row| == |values|
    ensures forall l {:trigger row[l]} :: 0 <= l < |row| ==>
      fresh(row[l]) && row[l].x == x && row[l].y == l && row[l].value == values[l] &&
      row[l].color == PositionalColor(values[l], x, l)
    ensures forall l, m :: 0 <= l < m < |row| ==> row[l] != row[m]
  {
    row := [];
    for y := 0 to |values|
      invariant |row| == y
      invariant forall l {:trigger row[l]} :: 0 <= l < y ==>
        fresh(row[l]) && row[l].x == x && row[l].y == l && row[l].value == values[l] &&
        row[l].color == PositionalColor(values[l], x, l)
      invariant forall l, m :: 0 <= l < m < y ==> row[l] != row[m]
    {
      var cell := new Cell(values[y], x, y);
      row := row + [cell];
    }
  }

  class GameGrid {
    const grid: seq<seq<Cell>>
    ghost var Values: seq<seq<int>>  // the cell values, row by row
    ghost var Repr: set<Cell>        // the cells

    /** Every cell is its own object, knows its own row and column, holds
        the value `Values` records and shows its positional colour. */
    ghost predicate Valid()
      reads this, Repr
    {
      Grids.Distinct(grid) && Built(grid, Values, Repr)
    }

    /** `GameGrid(matrix)`: one fresh cell per entry, told its row and
        column. Rows may differ in length. */
    constructor (matrix: seq<seq<int>>)
      ensures Valid() && fresh(Repr) && Values == matrix
    {
      var rows: seq<seq<Cell>> := [];
      ghost var cells: set<Cell> := {};
      for i := 0 to |matrix|
        invariant |rows| == i && Built(rows, matrix[..i], cells)
        invariant Grids.Distinct(rows) && fresh(cells)
      {
        var row := NewRow(matrix[i], i);
        assert forall l :: 0 <= l < |row| ==> row[l] !in cells;
        Grids.DistinctAppend(rows, row, cells);
        BuiltAppend(rows, matrix[..i], cells, row, matrix[i]);
        assert matrix[..i] + [matrix[i]] == matrix[..i + 1];
        rows := rows + [row];
        cells := cells + set l | 0 <= l < |row| :: row[l];
      }
      assert matrix[..|matrix|] == matrix;
      grid := rows;
      Values := matrix;
      Repr := cells;
    }

    /** `apply_spiral_effect`: every cell within distance `spiralPower` of
        row `xCenter`, column `yCenter` moves on by the power; the others
        keep their value and colour. */
    method ApplySpiralEffect(xCenter: int, yCenter: int, spiralPower: int)
      requires Valid()
      modifies this`Values, Repr
      ensures Valid() && Repr == old(Repr)
      ensures Values == Spiraled(old(Values), xCenter, yCenter, spiralPower)
    {
      ghost var start := Values;
      SpiraledBeforeStart(start, xCenter, yCenter, spiralPower);
      for x := 0 to |grid|
        invariant Valid() && Repr == old(Repr)
        invariant Values == SpiraledBefore(start, xCenter, yCenter, spiralPower, x, 0)
      {
        SpiralRow(x, xCenter, yCenter, spiralPower, start);
      }
      SpiraledBeforeEnd(start, xCenter, yCenter, spiralPower);
    }

    /** The inner loop of `apply_spiral_effect` over row `x`. */
    method SpiralRow(x: nat, xCenter: int, yCenter: int, spiralPower: int, ghost start: seq<seq<int>>)
      requires Valid() && x < |grid| && Values == SpiraledBefore(start, xCenter, yCenter, spiralPower, x, 0)
      modifies this`Values, Repr
      ensures Valid() && Repr == old(Repr)
      ensures Values == SpiraledBefore(start, xCenter, yCenter, spiralPower, x + 1, 0)
    {
      for y := 0 to |grid[x]|
        invariant Valid() && Repr == old(Repr)
        invariant Values == SpiraledBefore(start, xCenter, yCenter, spiralPower, x, y)
      {
        SpiraledBeforeStep(start, xCenter, yCenter, spiralPower, x, y);
        var dx, dy := x - xCenter, y - yCenter;
        if 0 <= spiralPower && dx * dx + dy * dy <= spiralPower * spiralPower {
          UpdateCell(x, y, spiralPower);
        }
      }
      SpiraledBeforeRow(start, xCenter, yCenter, spiralPower, x);
    }

    /** `cell.update_value_based_on_spiral(spiral_power)` on the cell at
        `(x, y)`. No other cell changes. */
    method UpdateCell(x: nat, y: nat, spiralPower: int)
      requires Valid() && x < |grid| && y < |grid[x]|
      modifies this`Values, Repr
      ensures Valid() && Repr == old(Repr)
      ensures Values == old(Values)[x := old(Values)[x][y := SpiralValue(old(Values)[x][y], spiralPower)]]
    {
      var cell := grid[x][y];
      cell.UpdateValueBasedOnSpiral(spiralPower);
      Values := Values[x := Values[x][y := cell.value]];
      forall i, j | 0 <= i < |grid| && 0 <= j < |grid[i]|
        ensures grid[i][j].value == Values[i][j] && grid[i][j].color == PositionalColor(Values[i][j], i, j)
      {
        if i != x || j != y {
          assert grid[i][j] != cell;
        }
      }
    }
  }
}
