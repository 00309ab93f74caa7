/** random7.py: a resonance grid whose cells carry a schema and a machine
    set that may offset their hue, a resonance step that adds a frequency
    to every value modulo 10, and the grid's average colour. */
module SchemaGrid {
  import opened Errors
  import Colors
  import Grids
  import Resonance

  const DefaultSchema: string := "default_schema"
  const DefaultSet: string := "default_set"

  /** The hue offset a schema and machine set pair adds: 50 degrees for
      `schema1` on `set1`, 100 for `schema2` on `set2`, none otherwise. */
  function SchemaOffset(schema: string, machineSet: string): (offset: int)
    ensures offset == 0 || offset == 50 || offset == 100
    ensures offset == 50 <==> schema == "schema1" && machineSet == "set1"
    ensures offset == 100 <==> schema == "schema2" && machineSet == "set2"
  {
    if schema == "schema1" && machineSet == "set1" then 50
    else if schema == "schema2" && machineSet == "set2" then 100
    else 0
  }

  /** `calculate_color`'s hue: the base rotation plus the offset. It is not
      reduced modulo 360 again, so it may reach 424. */
  function Hue(value: int, schema: string, machineSet: string): (hue: int)
    ensures 0 <= hue < 460
    ensures hue - SchemaOffset(schema, machineSet) == Colors.BaseHue(value)
  {
    Colors.BaseHue(value) + SchemaOffset(schema, machineSet)
  }

  function CellColor(hls: Colors.HlsToRgb, value: int, schema: string, machineSet: string): string {
    Colors.HueColor(hls, Hue(value, schema, machineSet))
  }

  /** A cell's colour string is well formed and carries the converted
      channels of its offset hue. */
  lemma CellColorReads(hls: Colors.HlsToRgb, value: int, schema: string, machineSet: string)
    ensures Colors.IsColor(CellColor(hls, value, schema, machineSet))
    ensures Colors.Channels(CellColor(hls, value, schema, machineSet)) == hls(Hue(value, schema, machineSet))
  {
    Colors.HueColorReads(hls, Hue(value, schema, machineSet));
  }

  /** A cell made with the default schema and machine set shows the plain
      hue rotation of its value, the colour main.py gives it. */
  lemma DefaultIsPlainRotation(hls: Colors.HlsToRgb, value: int)
    ensures CellColor(hls, value, DefaultSchema, DefaultSet) == Colors.HueColor(hls, Colors.BaseHue(value))
  {
    assert DefaultSchema != "schema1" && DefaultSchema != "schema2" by {
      assert DefaultSchema[0] == 'd';
    }
  }

  /** The average colour `average_color` reports for a grid of values: the
      grid without rows fails on `self.grid[0]`, the grid of empty rows
      divides by zero, and otherwise each channel is the floor of its mean
      over all cells. */
  function Average(hls: Colors.HlsToRgb, vals: seq<seq<int>>): Result<string> {
    if |vals| == 0 then Err(IndexError)
    else if Grids.Cols(vals) == 0 || |Grids.Flatten(vals)| == 0 then Err(ZeroDivisionError)
    else
      Colors.PaintColors(hls, Grids.Flatten(vals));
      Ok(Colors.Format(Colors.Mean(Colors.Paint(hls, Grids.Flatten(vals)))))
  }

  /** On a rectangular grid the average fails exactly when the grid has no
      rows (`self.grid[0]` raises) or no columns (the division by zero
      cells raises). */
  lemma AverageFails(hls: Colors.HlsToRgb, vals: seq<seq<int>>)
    requires Grids.Rectangular(vals)
    ensures Average(hls, vals).Err? <==> |vals| == 0 || Grids.Cols(vals) == 0
    ensures |vals| == 0 ==> Average(hls, vals) == Err(IndexError)
    ensures |vals| > 0 && Grids.Cols(vals) == 0 ==> Average(hls, vals) == Err(ZeroDivisionError)
  {
    Grids.FlattenLength(vals);
    if |vals| > 0 && Grids.Cols(vals) > 0 {
      Grids.Index(0, 0, |vals|, Grids.Cols(vals));
    }
  }

  /** A rectangular grid's average colour is a well-formed colour whose
      channels lie between the least and the greatest channel values of its
      cells. */
  lemma AverageWithin(hls: Colors.HlsToRgb, vals: seq<seq<int>>, channel: nat, lo: int, hi: int)
    requires Grids.Rectangular(vals) && |vals| > 0 && Grids.Cols(vals) > 0 && channel < 3
    requires forall i, j :: 0 <= i < |vals| && 0 <= j < |vals[i]| ==>
      lo <= Colors.Pick(hls(Colors.BaseHue(vals[i][j])), channel) <= hi
    ensures Average(hls, vals).Ok? && Colors.IsColor(Average(hls, vals).value)
    ensures lo <= Colors.Pick(Colors.Channels(Average(hls, vals).value), channel) <= hi
  {
    var flat := Grids.Flatten(vals);
    var cols := Grids.Cols(vals);
    Grids.FlattenLength(vals);
    Grids.Index(0, 0, |vals|, cols);
    var colors := Colors.Paint(hls, flat);
    Colors.PaintColors(hls, flat);
    forall k | 0 <= k < |colors|
      ensures lo <= Colors.Pick(Colors.Channels(colors[k]), channel) <= hi
    {
      Grids.Coords(k, |vals|, cols);
      Grids.FlattenAt(vals, k / cols, k % cols);
      Colors.HueColorReads(hls, Colors.BaseHue(flat[k]));
    }
    Colors.MeanWithin(colors, channel, lo, hi);
    Colors.FormatReads(Colors.Mean(colors));
  }

  /** A grid whose values all leave the same digit shows one colour, and
      that colour is its average. */
  lemma AverageOfUniform(hls: Colors.HlsToRgb, vals: seq<seq<int>>, d: int)
    requires Grids.Rectangular(vals) && |vals| > 0 && Grids.Cols(vals) > 0
    requires forall i, j :: 0 <= i < |vals| && 0 <= j < |vals[i]| ==> vals[i][j] % 10 == d % 10
    ensures Average(hls, vals) == Ok(Colors.HueColor(hls, Colors.BaseHue(d)))
  {
    var flat := Grids.Flatten(vals);
    var cols := Grids.Cols(vals);
    Grids.FlattenLength(vals);
    Grids.Index(0, 0, |vals|, cols);
    var colors := Colors.Paint(hls, flat);
    var c := hls(Colors.BaseHue(d));
    forall k | 0 <= k < |colors| ensures colors[k] == Colors.Format(c) {
      Grids.Coords(k, |vals|, cols);
      Grids.FlattenAt(vals, k / cols, k % cols);
      assert Colors.BaseHue(flat[k]) == Colors.BaseHue(d);
    }
    Colors.MeanOfUniform(colors, c);
  }

  class Cell {
    var value: int
    const schema: string
    const machineSet: string
    var color: string

    constructor (value: int, schema: string, machineSet: string, hls: Colors.HlsToRgb)
      ensures this.value == value && this.schema == schema && this.machineSet == machineSet
      ensures color == CellColor(hls, value, schema, machineSet)
    {
      this.value := value;
      this.schema := schema;
      this.machineSet := machineSet;
      color := CellColor(hls, value, schema, machineSet);
    }
  }

  /** The cells of one row, each with the default schema and machine set. */
  method NewRow(values: seq<int>, hls: Colors.HlsToRgb) returns (row: seq<Cell>)
    ensures |row| == |values|
    ensures forall l {:trigger row[l]} :: 0 <= l < |row| ==>
      fresh(row[l]) && row[l].value == values[l] &&
      row[l].schema == DefaultSchema && row[l].machineSet == DefaultSet &&
      row[l].color == Colors.HueColor(hls, Colors.BaseHue(values[l]))
    ensures forall l, m :: 0 <= l < m < |row| ==> row[l] != row[m]
  {
    row := [];
    for j := 0 to |values|
      invariant |row| == j
      invariant forall l {:trigger row[l]} :: 0 <= l < j ==>
        fresh(row[l]) && row[l].value == values[l] &&
        row[l].schema == DefaultSchema && row[l].machineSet == DefaultSet &&
        row[l].color == Colors.HueColor(hls, Colors.BaseHue(values[l]))
      invariant forall l, m :: 0 <= l < m < j ==> row[l] != row[m]
    {
      var cell := new Cell(values[j], DefaultSchema, DefaultSet, hls);
      DefaultIsPlainRotation(hls, values[j]);
      row := row + [cell];
    }
  }

  class ResonanceGrid {
    const hls: Colors.HlsToRgb
    var grid: seq<seq<Cell>>
    var currentFrequency: int
    ghost var Values: seq<seq<int>>  // the cell values, row by row
    ghost var Repr: set<Cell>        // the cells

    /** Every cell is its own object with the default schema, holds the
        value `Values` records, and shows that value's colour. */
    ghost predicate Valid()
      reads this, Repr
    {
      Grids.Rectangular(grid) && Grids.Distinct(grid) && Grids.SameShape(Values, grid) &&
      forall i, j {:trigger grid[i][j]} :: 0 <= i < |grid| && 0 <= j < |grid[i]| ==>
        grid[i][j] in Repr && grid[i][j].value == Values[i][j] &&
        grid[i][j].schema == DefaultSchema && grid[i][j].machineSet == DefaultSet &&
        grid[i][j].color == Colors.HueColor(hls, Colors.BaseHue(Values[i][j]))
    }

    /** `ResonanceGrid(matrix)`: one fresh default cell per entry, frequency 1. */
    constructor (matrix: seq<seq<int>>, hls: Colors.HlsToRgb)
      requires Grids.Rectangular(matrix)
      ensures Valid() && fresh(Repr)
      ensures Values == matrix && currentFrequency == 1 && this.hls == hls
    {
      this.hls := hls;
      var rows: seq<seq<Cell>> := [];
      ghost var cells: set<Cell> := {};
      for i := 0 to |matrix|
        invariant |rows| == i && forall k :: 0 <= k < i ==> |rows[k]| == |matrix[k]|
        invariant Grids.Distinct(rows) && fresh(cells)
        invariant forall k, l {:trigger rows[k][l]} :: 0 <= k < i && 0 <= l < |rows[k]| ==>
          rows[k][l] in cells && rows[k][l].value == matrix[k][l] &&
          rows[k][l].schema == DefaultSchema && rows[k][l].machineSet == DefaultSet &&
          rows[k][l].color == Colors.HueColor(hls, Colors.BaseHue(matrix[k][l]))
      {
        var row := NewRow(matrix[i], hls);
        assert forall l :: 0 <= l < |row| ==> row[l] !in cells;
        Grids.DistinctAppend(rows, row, cells);
        rows := rows + [row];
        cells := cells + set l | 0 <= l < |row| :: row[l];
      }
      grid := rows;
      currentFrequency := 1;
      Values := matrix;
      Repr := cells;
    }

    /** `average_color`: the channel totals of every cell's colour string,
        divided by `len(self.grid) * len(self.grid[0])` and truncated. */
    method AverageColor() returns (average: Result<string>)
      requires Valid()
      ensures average == Average(hls, Values)
    {
      if |grid| == 0 {
        return Err(IndexError);
      }
      var totalCells := |grid| * |grid[0]|;
      assert Grids.Rectangular(Values) && Grids.Cols(Values) == |grid[0]|;
      var totalR, totalG, totalB := 0, 0, 0;
      for i := 0 to |grid|
        invariant totalR == Colors.HueTotal(hls, Grids.Flatten(Values[..i]), 0)
        invariant totalG == Colors.HueTotal(hls, Grids.Flatten(Values[..i]), 1)
        invariant totalB == Colors.HueTotal(hls, Grids.Flatten(Values[..i]), 2)
      {
        var row := grid[i];
        ghost var before := Grids.Flatten(Values[..i]);
        ghost var vals := Values[i];
        assert before + vals[..0] == before;
        assert |row| == |vals|;
        for j := 0 to |row|
          invariant totalR == Colors.HueTotal(hls, before + vals[..j], 0)
          invariant totalG == Colors.HueTotal(hls, before + vals[..j], 1)
          invariant totalB == Colors.HueTotal(hls, before + vals[..j], 2)
        {
          var color := row[j].color;
          Colors.HueColorReads(hls, Colors.BaseHue(vals[j]));
          Colors.HueTotalExtend(hls, before, vals, j, 0);
          Colors.HueTotalExtend(hls, before, vals, j, 1);
          Colors.HueTotalExtend(hls, before, vals, j, 2);
          var rgb := Colors.Channels(color);
          totalR, totalG, totalB := totalR + rgb.r, totalG + rgb.g, totalB + rgb.b;
        }
        assert vals[..|row|] == vals;
        Grids.FlattenPrefix(Values, i);
      }
      assert Values[..|grid|] == Values;
      Grids.FlattenLength(Values);
      if totalCells == 0 {
        return Err(ZeroDivisionError);
      }
      ghost var colors := Colors.Paint(hls, Grids.Flatten(Values));
      Colors.HueTotalIsTotal(hls, Grids.Flatten(Values), 0);
      Colors.HueTotalIsTotal(hls, Grids.Flatten(Values), 1);
      Colors.HueTotalIsTotal(hls, Grids.Flatten(Values), 2);
      Colors.MeanFromTotals(colors, totalCells, totalR, totalG, totalB);
      var mean := Colors.Rgb(totalR / totalCells, totalG / totalCells, totalB / totalCells);
      assert |Values| != 0 && Grids.Cols(Values) != 0 && |Grids.Flatten(Values)| != 0;
      assert Average(hls, Values) == Ok(Colors.Format(Colors.Mean(colors)));
      average := Ok(Colors.Format(mean));
    }

    /** `apply_resonance`: record the frequency, move every value to
        `(value + frequency) % 10` with its colour, and report the new
        average colour (shown in the window title). */
    method ApplyResonance(frequency: int) returns (average: Result<string>)
      requires Valid()
      modifies this`currentFrequency, this`Values, Repr
      ensures Valid() && grid == old(grid) && Repr == old(Repr)
      ensures currentFrequency == frequency
      ensures Values == Resonance.Shifted(old(Values), frequency)
      ensures average == Average(hls, Values)
    {
      currentFrequency := frequency;
      ghost var start := Values;
      Resonance.ShiftedBeforeStart(start, frequency);
      for i := 0 to |grid|
        invariant Valid() && grid == old(grid) && Repr == old(Repr)
        invariant currentFrequency == frequency
        invariant Values == Resonance.ShiftedBefore(start, frequency, i, 0)
      {
        ShiftRow(i, frequency, start);
      }
      Resonance.ShiftedBeforeEnd(start, frequency);
      average := AverageColor();
    }

    /** The inner loop of `apply_resonance`: every cell of row `i` moves to
        `(value + frequency) % 10`. */
    method ShiftRow(i: nat, frequency: int, ghost start: seq<seq<int>>)
      requires Valid() && i < |grid| && Values == Resonance.ShiftedBefore(start, frequency, i, 0)
      modifies this`Values, Repr
      ensures Valid() && grid == old(grid) && Repr == old(Repr)
      ensures Values == Resonance.ShiftedBefore(start, frequency, i + 1, 0)
    {
      for j := 0 to |grid[i]|
        invariant Valid() && grid == old(grid) && Repr == old(Repr)
        invariant Values == Resonance.ShiftedBefore(start, frequency, i, j)
      {
        Resonance.ShiftedBeforeStep(start, frequency, i, j);
        ShiftCell(i, j, frequency);
      }
      Resonance.ShiftedBeforeRow(start, frequency, i);
    }

    /** One step of the resonance loop: the cell's next value and the colour
        `calculate_color` gives it with the cell's schema and set. */
    method ShiftCell(x: nat, y: nat, frequency: int)
      requires Valid() && x < |grid| && y < |grid[x]|
      modifies this`Values, Repr
      ensures Valid() && grid == old(grid) && Repr == old(Repr)
      ensures Values == old(Values)[x := old(Values)[x][y := (old(Values)[x][y] + frequency) % 10]]
    {
      var cell := grid[x][y];
      var v := (cell.value + frequency) % 10;
      var color := CellColor(hls, v, cell.schema, cell.machineSet);
      DefaultIsPlainRotation(hls, v);
      Repaint(x, y, v, color);
    }

    /** The two writes to the cell at `(x, y)`: its new value, then its
        recomputed colour. No other cell changes. */
    method Repaint(x: nat, y: nat, v: int, color: string)
      requires Valid() && x < |grid| && y < |grid[x]|
      requires color == Colors.HueColor(hls, Colors.BaseHue(v))
      modifies this`Values, Repr
      ensures Valid() && grid == old(grid) && Repr == old(Repr)
      ensures Values == old(Values)[x := old(Values)[x][y := v]]
    {
      var cell := grid[x][y];
      cell.value := v;
      cell.color := color;
      Values := Values[x := Values[x][y := v]];
      forall i, j | 0 <= i < |grid| && 0 <= j < |grid[i]|
        ensures grid[i][j].value == Values[i][j]
        ensures grid[i][j].color == Colors.HueColor(hls, Colors.BaseHue(Values[i][j]))
      {
        if i != x || j != y {
          assert grid[i][j] != cell;
        }
      }
    }
  }
}
