/** main.py's objects: a cell holds a value and the colour derived from it,
    and the resonance grid holds a matrix of cells that a bitstream is
    written onto and read back from. The specification of both directions
    lives in module Codec. */
module MainGrid {
  import opened Errors
  import Colors
  import Decimal
  import Grids
  import Codec

  /** `calculate_color`: hue `(value * 36) % 360` at lightness 0.5 and full
      saturation, written `#rrggbb`. */
  function CellColor(hls: Colors.HlsToRgb, value: int): string {
    Colors.HueColor(hls, Colors.BaseHue(value))
  }

  /** A cell's colour string is well formed and carries the converted
      channels of its hue. */
  lemma CellColorReads(hls: Colors.HlsToRgb, value: int)
    ensures Colors.IsColor(CellColor(hls, value))
    ensures Colors.Channels(CellColor(hls, value)) == hls(Colors.BaseHue(value))
  {
    Colors.HueColorReads(hls, Colors.BaseHue(value));
  }

  /** A cell's colour depends on its value's last decimal digit only. */
  lemma CellColorPeriodic(hls: Colors.HlsToRgb, v: int, w: int)
    requires v % 10 == w % 10
    ensures CellColor(hls, v) == CellColor(hls, w)
  {
    assert Colors.BaseHue(v) == Colors.BaseHue(w);
  }

  class Cell {
    var value: int
    var color: string

    constructor (value: int, hls: Colors.HlsToRgb)
      ensures this.value == value && color == CellColor(hls, value)
    {
      this.value := value;
      color := CellColor(hls, value);
    }
  }

  /** The cells of one row: `[Cell(value) for value in row]`. */
  method NewRow(values: seq<int>, hls: Colors.HlsToRgb) returns (row: seq<Cell>)
    ensures |row| == |values|
    ensures forall l {:trigger row[l]} :: 0 <= l < |row| ==>
      fresh(row[l]) && row[l].value == values[l] && row[l].color == CellColor(hls, values[l])
    ensures forall l, m :: 0 <= l < m < |row| ==> row[l] != row[m]
  {
    row := [];
    for j := 0 to |values|
      invariant |row| == j
      invariant forall l {:trigger row[l]} :: 0 <= l < j ==>
        fresh(row[l]) && row[l].value == values[l] && row[l].color == CellColor(hls, values[l])
      invariant forall l, m :: 0 <= l < m < j ==> row[l] != row[m]
    {
      var cell := new Cell(values[j], hls);
      row := row + [cell];
    }
  }

  class ResonanceGrid {
    const hls: Colors.HlsToRgb
    var grid: seq<seq<Cell>>
    ghost var Values: seq<seq<int>>  // the cell values, row by row
    ghost var Repr: set<Cell>        // the cells

    /** Every cell is its own object, holds the value `Values` records, and
        shows the colour of that value. */
    ghost predicate Valid()
      reads this, Repr
    {
      Grids.Rectangular(grid) && Grids.Distinct(grid) && Grids.SameShape(Values, grid) &&
      forall i, j {:trigger grid[i][j]} :: 0 <= i < |grid| && 0 <= j < |grid[i]| ==>
        grid[i][j] in Repr && grid[i][j].value == Values[i][j] &&
        grid[i][j].color == CellColor(hls, Values[i][j])
    }

    /** `ResonanceGrid(matrix)`: one fresh cell per entry. */
    constructor (matrix: seq<seq<int>>, hls: Colors.HlsToRgb)
      requires Grids.Rectangular(matrix)
      ensures Valid() && fresh(Repr)
      ensures Values == matrix && this.hls == hls
    {
      this.hls := hls;
      var rows: seq<seq<Cell>> := [];
      ghost var cells: set<Cell> := {};
      for i := 0 to |matrix|
        invariant |rows| == i && forall k :: 0 <= k < i ==> |rows[k]| == |matrix[k]|
        invariant Grids.Distinct(rows) && fresh(cells)
        invariant forall k, l {:trigger rows[k][l]} :: 0 <= k < i && 0 <= l < |rows[k]| ==>
          rows[k][l] in cells && rows[k][l].value == matrix[k][l] &&
          rows[k][l].color == CellColor(hls, matrix[k][l])
      {
        var row := NewRow(matrix[i], hls);
        assert forall l :: 0 <= l < |row| ==> row[l] !in cells;
        Grids.DistinctAppend(rows, row, cells);
        rows := rows + [row];
        cells := cells + set l | 0 <= l < |row| :: row[l];
      }
      grid := rows;
      Values := matrix;
      Repr := cells;
    }

    /** `map_bits_to_grid`: token `i` goes to row `i // cols`, column
        `i % cols`, until the stream or the grid runs out; an empty grid, a
        grid of empty rows and a reached non-digit raise, keeping the cells
        written before. */
    method MapBitsToGrid(bitstream: string) returns (status: Status)
      requires Valid()
      modifies this`Values, Repr
      ensures Valid() && grid == old(grid) && Repr == old(Repr)
      ensures status == Codec.DecodeStatus(old(Values), bitstream)
      ensures Values == Codec.Decoded(old(Values), bitstream)
    {
      ghost var start := Values;
      Codec.OverwriteNone(start, bitstream);
      var i := 0;
      while i < |bitstream|
        invariant 0 <= i <= |bitstream| && i <= Codec.Reach(start, bitstream)
        invariant forall k :: 0 <= k < i ==> Decimal.IsDigit(bitstream[k])
        invariant Valid() && grid == old(grid) && Repr == old(Repr)
        invariant Values == Codec.Overwrite(start, bitstream, i)
      {
        if |grid| == 0 {
          return Failed(IndexError);
        }
        var cols := |grid[0]|;
        if cols == 0 {
          return Failed(ZeroDivisionError);
        }
        assert |start| == |grid| && Grids.Cols(start) == cols;
        var x, y := i / cols, i % cols;
        Grids.RowInGrid(i, |grid|, cols);
        if x >= |grid| {
          assert i == Codec.Reach(start, bitstream);
          break;
        }
        Grids.Coords(i, |grid|, cols);
        if !Decimal.IsDigit(bitstream[i]) {
          assert Codec.FirstNonDigit(bitstream, Codec.Reach(start, bitstream)) == i;
          return Failed(ValueError);
        }
        Codec.OverwriteStep(start, bitstream, i);
        SetCell(x, y, Decimal.DigitValue(bitstream[i]));
        i := i + 1;
      }
      assert Codec.FirstNonDigit(bitstream, i) == i;
      status := Done;
    }

    /** The two assignments `map_bits_to_grid` makes per token: the cell's
        value, then its recomputed colour. No other cell changes. */
    method SetCell(x: nat, y: nat, v: int)
      requires Valid() && x < |grid| && y < |grid[x]|
      modifies this`Values, Repr
      ensures Valid() && grid == old(grid) && Repr == old(Repr)
      ensures Values == old(Values)[x := old(Values)[x][y := v]]
    {
      var cell := grid[x][y];
      cell.value := v;
      cell.color := CellColor(hls, v);
      Values := Values[x := Values[x][y := v]];
      forall i, j | 0 <= i < |grid| && 0 <= j < |grid[i]|
        ensures grid[i][j].value == Values[i][j] && grid[i][j].color == CellColor(hls, Values[i][j])
      {
        if i != x || j != y {
          assert grid[i][j] != cell;
        }
      }
    }

    /** `encode_grid_to_bitstream`: `str(cell.value)` for every cell, row
        by row. */
    method EncodeGridToBitstream() returns (bits: string)
      requires Valid()
      ensures bits == Codec.Encoding(Values)
    {
      bits := "";
      for i := 0 to |grid|
        invariant bits == Codec.EncodeValues(Grids.Flatten(Values[..i]))
      {
        bits := AppendRowBits(bits, grid[i], Grids.Flatten(Values[..i]), Values[i]);
        Grids.FlattenPrefix(Values, i);
      }
      assert Values[..|grid|] == Values;
    }
  }
  /** The inner loop of `encode_grid_to_bitstream`: the text of one row's
      values appended to the text of the rows before it. */
  method AppendRowBits(bits: string, row: seq<Cell>, ghost before: seq<int>, ghost vals: seq<int>)
    returns (out: string)
    requires bits == Codec.EncodeValues(before)
    requires |row| == |vals| && forall k :: 0 <= k < |row| ==> row[k].value == vals[k]
    ensures out == Codec.EncodeValues(before + vals)
  {
    out := bits;
    assert before + vals[..0] == before;
    for j := 0 to |row|
      invariant out == Codec.EncodeValues(before + vals[..j])
    {
      Codec.EncodeValuesExtend(before, vals, j);
      out := out + Decimal.IntString(row[j].value);
    }
    assert vals[..|row|] == vals;
  }
}
