/** server.py: cells that carry an id from a counting ULID generator, a
    grid manager that shifts every value by a frequency modulo 10, and the
    grid state the web server reports: a map from cell id to colour and the
    average colour of all cells. */
module GridServer {
  import Colors
  import Hex
  import Grids
  import Resonance

  const IdPrefix: string := "00000000-0000-0000-0000-"

  /** The id the generator hands out as its `n`-th: the fixed prefix, then
      `n` as at least twelve lower-case hexadecimal digits. */
  function IdFor(n: nat): string {
    IdPrefix + Hex.Padded(n, 12)
  }

  /** Different counter values give different ids. */
  lemma IdForInjective(m: nat, n: nat)
    ensures IdFor(m) == IdFor(n) <==> m == n
  {
    if IdFor(m) == IdFor(n) {
      assert IdFor(m)[|IdPrefix|..] == Hex.Padded(m, 12);
      assert IdFor(n)[|IdPrefix|..] == Hex.Padded(n, 12);
      Hex.PaddedInjective(m, n, 12);
    }
  }

  /** Every id is 36 characters long while the counter stays below 16^12;
      past that the hexadecimal part grows instead of wrapping. */
  lemma IdForLength(n: nat)
    ensures n < Hex.Pow16(12) ==> |IdFor(n)| == 36
    ensures n >= Hex.Pow16(12) ==> |IdFor(n)| > 36
  {
    if n < Hex.Pow16(12) {
      Hex.PaddedWidth(n, 12);
    } else {
      LongDigits(n, 12);
    }
  }

  /** A number of at least 16^k needs more than k hexadecimal digits. */
  lemma {:induction false} LongDigits(n: nat, k: nat)
    requires n >= Hex.Pow16(k)
    ensures |Hex.Digits(n)| > k
    decreases k
  {
    if k > 0 {
      assert n >= 16;
      assert n / 16 >= Hex.Pow16(k - 1);
      LongDigits(n / 16, k - 1);
    }
  }

  /** The ids of `n` cells made one after another when the counter stood
      at `first`. */
  function IdRange(first: nat, n: nat): seq<string> {
    seq(n, k requires 0 <= k < n => IdFor(first + k + 1))
  }

  /** Handing out `m` ids and then `n` more hands out `m + n` in a row. */
  lemma IdRangeSplit(first: nat, m: nat, n: nat)
    ensures IdRange(first, m) + IdRange(first + m, n) == IdRange(first, m + n)
  {
    var a, b := IdRange(first, m) + IdRange(first + m, n), IdRange(first, m + n);
    assert |a| == |b|;
    forall k | 0 <= k < |a| ensures a[k] == b[k] {
      if k >= m {
        assert a[k] == IdRange(first + m, n)[k - m];
      }
    }
  }

  /** Cells made row by row after `count` earlier ones continue the run of
      ids. */
  lemma AppendIdRow(ids: seq<seq<string>>, first: nat, count: nat, n: nat)
    requires Grids.Flatten(ids) == IdRange(first, count)
    ensures Grids.Flatten(ids + [IdRange(first + count, n)]) == IdRange(first, count + n)
  {
    assert (ids + [IdRange(first + count, n)])[..|ids|] == ids;
    IdRangeSplit(first, count, n);
  }

  /** Ids handed out in a row are pairwise different. */
  lemma IdRangeDistinct(first: nat, n: nat)
    ensures forall k, l :: 0 <= k < l < n ==> IdRange(first, n)[k] != IdRange(first, n)[l]
  {
    forall k, l | 0 <= k < l < n ensures IdRange(first, n)[k] != IdRange(first, n)[l] {
      IdForInjective(first + k + 1, first + l + 1);
    }
  }

  /** `Ulid`: a counter that starts at 0 and is raised before each id. */
  class Ulid {
    var counter: nat

    constructor ()
      ensures counter == 0
    {
      counter := 0;
    }

    method New() returns (id: string)
      modifies this
      ensures counter == old(counter) + 1 && id == IdFor(counter)
    {
      counter := counter + 1;
      id := IdFor(counter);
    }
  }

  /** `calculate_color`: hue `(value * 36) % 360` through the HLS
      conversion, written `#rrggbb`. */
  function CellColor(hls: Colors.HlsToRgb, value: int): string {
    Colors.HueColor(hls, Colors.BaseHue(value))
  }

  class Cell {
    const id: string
    var value: int
    var color: string

    /** `Cell(value)`: the next id of the shared generator, the value and
        its colour. */
    constructor (value: int, hls: Colors.HlsToRgb, ulid: Ulid)
      modifies ulid
      ensures ulid.counter == old(ulid.counter) + 1 && id == IdFor(ulid.counter)
      ensures this.value == value && color == CellColor(hls, value)
    {
      var newId := ulid.New();
      id := newId;
      this.value := value;
      color := CellColor(hls, value);
    }

    /** `set_value`: the new value, then its recomputed colour; the id
        stays. */
    method SetValue(newValue: int, hls: Colors.HlsToRgb)
      modifies this
      ensures value == newValue && color == CellColor(hls, newValue)
    {
      value := newValue;
      color := CellColor(hls, newValue);
    }
  }

  /** The `{cell.id: cell.color for cell in flat_grid}` dictionary: one
      entry per id, a later cell overwriting an earlier one with the same
      id. */
  function ColorCodes(ids: seq<string>, colors: seq<string>): map<string, string>
    requires |ids| == |colors|
  {
    if ids == [] then map[]
    else ColorCodes(ids[..|ids| - 1], colors[..|ids| - 1])[ids[|ids| - 1] := colors[|ids| - 1]]
  }

  /** The dictionary's keys are exactly the cells' ids. */
  lemma {:induction false} ColorCodesKeys(ids: seq<string>, colors: seq<string>)
    requires |ids| == |colors|
    ensures ColorCodes(ids, colors).Keys == set k | 0 <= k < |ids| :: ids[k]
  {
    if ids != [] {
      var n := |ids|;
      ColorCodesKeys(ids[..n - 1], colors[..n - 1]);
      assert forall k :: 0 <= k < n - 1 ==> ids[..n - 1][k] == ids[k];
    }
  }

  /** An id maps to the colour of the last cell that carries it. */
  lemma {:induction false} ColorCodesLastWins(ids: seq<string>, colors: seq<string>, k: nat)
    requires |ids| == |colors| && k < |ids|
    requires forall l :: k < l < |ids| ==> ids[l] != ids[k]
    ensures ids[k] in ColorCodes(ids, colors) && ColorCodes(ids, colors)[ids[k]] == colors[k]
  {
    var n := |ids|;
    if k < n - 1 {
      assert ids[..n - 1][k] == ids[k];
      ColorCodesLastWins(ids[..n - 1], colors[..n - 1], k);
    }
  }

  /** With pairwise different ids nothing is overwritten: the dictionary
      has one entry per cell, holding that cell's colour. */
  lemma {:induction false} DistinctIdsKeepEveryCell(ids: seq<string>, colors: seq<string>)
    requires |ids| == |colors|
    requires forall k, l :: 0 <= k < l < |ids| ==> ids[k] != ids[l]
    ensures |ColorCodes(ids, colors)| == |ids|
    ensures forall k :: 0 <= k < |ids| ==> ids[k] in ColorCodes(ids, colors) && ColorCodes(ids, colors)[ids[k]] == colors[k]
  {
    forall k | 0 <= k < |ids| ensures ids[k] in ColorCodes(ids, colors) && ColorCodes(ids, colors)[ids[k]] == colors[k] {
      ColorCodesLastWins(ids, colors, k);
    }
    if ids != [] {
      var n := |ids|;
      DistinctIdsKeepEveryCell(ids[..n - 1], colors[..n - 1]);
      ColorCodesKeys(ids[..n - 1], colors[..n - 1]);
      assert ids[n - 1] !in ColorCodes(ids[..n - 1], colors[..n - 1]);
    }
  }

  /** The cells a grid manager makes get consecutive ids, so its grid state
      lists every cell under its own id. */
  lemma StateListsEveryCell(first: nat, colors: seq<string>)
    ensures |ColorCodes(IdRange(first, |colors|), colors)| == |colors|
    ensures forall k :: 0 <= k < |colors| ==>
      IdRange(first, |colors|)[k] in ColorCodes(IdRange(first, |colors|), colors) &&
      ColorCodes(IdRange(first, |colors|), colors)[IdRange(first, |colors|)[k]] == colors[k]
  {
    IdRangeDistinct(first, |colors|);
    DistinctIdsKeepEveryCell(IdRange(first, |colors|), colors);
  }

  /** `calculate_average_color`: black for no cells, otherwise each channel
      the floor of its mean over the cells' colours. */
  function Average(colors: seq<string>): string
    requires Colors.AllColors(colors)
  {
    if colors == [] then "#000000" else Colors.Format(Colors.Mean(colors))
  }

  /** The average is a well-formed colour: black for no cells, the
      channel-wise mean otherwise. */
  lemma AverageReads(colors: seq<string>)
    requires Colors.AllColors(colors)
    ensures Colors.IsColor(Average(colors))
    ensures colors == [] ==> Colors.Channels(Average(colors)) == Colors.Rgb(0, 0, 0)
    ensures colors != [] ==> Colors.Channels(Average(colors)) == Colors.Mean(colors)
  {
    if colors == [] {
      Colors.FormatReads(Colors.Rgb(0, 0, 0));
      assert Colors.Format(Colors.Rgb(0, 0, 0)) == "#000000";
    } else {
      Colors.FormatReads(Colors.Mean(colors));
    }
  }

  /** Each channel of the average of some cells lies between the least and
      the greatest value of that channel over the cells. */
  lemma AverageWithin(colors: seq<string>, channel: nat, lo: int, hi: int)
    requires channel < 3 && |colors| > 0 && Colors.AllColors(colors)
    requires forall k :: 0 <= k < |colors| ==> lo <= Colors.Pick(Colors.Channels(colors[k]), channel) <= hi
    ensures Colors.IsColor(Average(colors))
    ensures lo <= Colors.Pick(Colors.Channels(Average(colors)), channel) <= hi
  {
    Colors.MeanWithin(colors, channel, lo, hi);
    AverageReads(colors);
  }

  /** Cells whose values all leave the same last digit average to their
      common colour. */
  lemma AverageOfUniform(hls: Colors.HlsToRgb, values: seq<int>, d: int)
    requires |values| > 0
    requires forall k :: 0 <= k < |values| ==> values[k] % 10 == d % 10
    ensures Colors.AllColors(Colors.Paint(hls, values))
    ensures Average(Colors.Paint(hls, values)) == CellColor(hls, d)
  {
    var colors := Colors.Paint(hls, values);
    forall k | 0 <= k < |colors| ensures colors[k] == Colors.Format(hls(Colors.BaseHue(d))) {
      assert Colors.BaseHue(values[k]) == Colors.BaseHue(d);
    }
    Colors.MeanOfUniform(colors, hls(Colors.BaseHue(d)));
  }

  /** The cells of one row: `[Cell(value) for value in row]`, each taking
      the generator's next id. */
  method NewRow(values: seq<int>, hls: Colors.HlsToRgb, ulid: Ulid) returns (row: seq<Cell>)
    modifies ulid
    ensures ulid.counter == old(ulid.counter) + |values|
    ensures |row| == |values|
    ensures forall l {:trigger row[l]} :: 0 <= l < |row| ==>
      fresh(row[l]) && row[l].id == IdFor(old(ulid.counter) + l + 1) &&
      row[l].value == values[l] && row[l].color == CellColor(hls, values[l])
    ensures forall l, m :: 0 <= l < m < |row| ==> row[l] != row[m]
  {
    row := [];
    for j := 0 to |values|
      invariant |row| == j && ulid.counter == old(ulid.counter) + j
      invariant forall l {:trigger row[l]} :: 0 <= l < j ==>
        fresh(row[l]) && row[l].id == IdFor(old(ulid.counter) + l + 1) &&
        row[l].value == values[l] && row[l].color == CellColor(hls, values[l])
      invariant forall l, m :: 0 <= l < m < j ==> row[l] != row[m]
    {
      var cell := new Cell(values[j], hls, ulid);
      row := row + [cell];
    }
  }

  /** Row by row, the cells of `rows` belong to `cells`, carry the ids
      `ids` and the values `vals`, and show those values' colours. */
  ghost predicate Built(rows: seq<seq<Cell>>, ids: seq<seq<string>>, vals: seq<seq<int>>, cells: set<Cell>, hls: Colors.HlsToRgb)
    reads cells
  {
    Grids.SameShape(ids, rows) && Grids.SameShape(vals, rows) &&
    forall i, j {:trigger rows[i][j]} :: 0 <= i < |rows| && 0 <= j < |rows[i]| ==>
      rows[i][j] in cells && rows[i][j].id == ids[i][j] && rows[i][j].value == vals[i][j] &&
      rows[i][j].color == CellColor(hls, vals[i][j])
  }

  /** A further row of cells, with its ids, values and colours, extends
      what has been built. */
  lemma BuiltAppend(rows: seq<seq<Cell>>, ids: seq<seq<string>>, vals: seq<seq<int>>, cells: set<Cell>,
                    row: seq<Cell>, rowIds: seq<string>, rowVals: seq<int>, hls: Colors.HlsToRgb)
    requires Built(rows, ids, vals, cells, hls)
    requires |row| == |rowIds| == |rowVals|
    requires forall l :: 0 <= l < |row| ==>
      row[l].id == rowIds[l] && row[l].value == rowVals[l] && row[l].color == CellColor(hls, rowVals[l])
    ensures Built(rows + [row], ids + [rowIds], vals + [rowVals], cells + set l | 0 <= l < |row| :: row[l], hls)
  {
    var rows': seq<seq<Cell>>, ids', vals' := rows + [row], ids + [rowIds], vals + [rowVals];
    var cells' := cells + set l | 0 <= l < |row| :: row[l];
    forall i, j | 0 <= i < |rows'| && 0 <= j < |rows'[i]|
      ensures rows'[i][j] in cells' && rows'[i][j].id == ids'[i][j] && rows'[i][j].value == vals'[i][j]
      ensures rows'[i][j].color == CellColor(hls, vals'[i][j])
    {
      if i < |rows| {
        assert rows'[i] == rows[i] && ids'[i] == ids[i] && vals'[i] == vals[i];
      } else {
        assert rows'[i] == row && ids'[i] == rowIds && vals'[i] == rowVals;
      }
    }
  }

  /** The cells `flat` hold, in order, the ids `ids` and the values
      `vals`, and show those values' colours. */
  ghost predicate Listed(flat: seq<Cell>, ids: seq<string>, vals: seq<int>, hls: Colors.HlsToRgb)
    reads flat
  {
    |flat| == |ids| == |vals| &&
    forall k :: 0 <= k < |flat| ==>
      flat[k].id == ids[k] && flat[k].value == vals[k] && flat[k].color == CellColor(hls, vals[k])
  }

  /** Listing one more row after the others lists both. */
  lemma ListedAppend(flat: seq<Cell>, ids: seq<string>, vals: seq<int>,
                     row: seq<Cell>, rowIds: seq<string>, rowVals: seq<int>, hls: Colors.HlsToRgb)
    requires Listed(flat, ids, vals, hls) && Listed(row, rowIds, rowVals, hls)
    ensures Listed(flat + row, ids + rowIds, vals + rowVals, hls)
  {
    var n := |flat|;
    forall k | n <= k < n + |row|
      ensures (flat + row)[k] == row[k - n] && (ids + rowIds)[k] == rowIds[k - n] && (vals + rowVals)[k] == rowVals[k - n]
    {
    }
  }

  /** One step of `[[Cell(value) for value in row] for row in matrix]`:
      the cells of row `i`, appended to the rows made so far, each taking
      the generator's next id. */
  method AddRow(matrix: seq<seq<int>>, i: nat, rows: seq<seq<Cell>>, ghost ids: seq<seq<string>>, ghost cells: set<Cell>,
                ghost first: nat, ghost count: nat, hls: Colors.HlsToRgb, ulid: Ulid)
    returns (rows': seq<seq<Cell>>, ghost ids': seq<seq<string>>, ghost cells': set<Cell>, ghost count': nat)
    requires i < |matrix| && |rows| == i && Built(rows, ids, matrix[..i], cells, hls)
    requires ulid.counter == first + count && count == |Grids.Flatten(matrix[..i])|
    requires Grids.Flatten(ids) == IdRange(first, count)
    requires Grids.Distinct(rows)
    modifies ulid
    ensures |rows'| == i + 1 && Built(rows', ids', matrix[..i + 1], cells', hls)
    ensures ulid.counter == first + count' && count' == |Grids.Flatten(matrix[..i + 1])|
    ensures Grids.Flatten(ids') == IdRange(first, count')
    ensures Grids.Distinct(rows') && cells <= cells' && fresh(cells' - cells)
  {
    var row := NewRow(matrix[i], hls, ulid);
    assert forall l :: 0 <= l < |row| ==> row[l] !in cells;
    Grids.DistinctAppend(rows, row, cells);
    AppendIdRow(ids, first, count, |row|);
    Grids.FlattenPrefix(matrix, i);
    ghost var rowIds := IdRange(first + count, |row|);
    BuiltAppend(rows, ids, matrix[..i], cells, row, rowIds, matrix[i], hls);
    assert matrix[..i] + [matrix[i]] == matrix[..i + 1];
    rows' := rows + [row];
    ids' := ids + [rowIds];
    cells' := cells + set l | 0 <= l < |row| :: row[l];
    count' := count + |row|;
  }

  class GridManager {
    const hls: Colors.HlsToRgb
    const grid: seq<seq<Cell>>
    ghost const First: nat           // the generator's counter before the first cell
    ghost const Ids: seq<seq<string>>  // the cell ids, row by row
    ghost var Values: seq<seq<int>>  // the cell values, row by row
    ghost var Repr: set<Cell>        // the cells

    /** Every cell is its own object, carries the id and the value recorded
        for it and shows that value's colour; in row-major order the ids are
        the ones the generator handed out after `First`. */
    ghost predicate Valid()
      reads this, Repr
    {
      Grids.Distinct(grid) && Built(grid, Ids, Values, Repr, hls) &&
      Grids.Flatten(Ids) == IdRange(First, |Grids.Flatten(Ids)|)
    }

    /** `GridManager(matrix)`: one fresh cell per entry, row by row, each
        taking the shared generator's next id. Rows may differ in length. */
    constructor (matrix: seq<seq<int>>, hls: Colors.HlsToRgb, ulid: Ulid)
      modifies ulid
      ensures Valid() && fresh(Repr)
      ensures Values == matrix && this.hls == hls && First == old(ulid.counter)
      ensures ulid.counter == old(ulid.counter) + |Grids.Flatten(matrix)|
    {
      this.hls := hls;
      var rows: seq<seq<Cell>> := [];
      ghost var ids: seq<seq<string>> := [];
      ghost var cells: set<Cell> := {};
      ghost var first, count := ulid.counter, 0;
      for i := 0 to |matrix|
        invariant |rows| == i && Built(rows, ids, matrix[..i], cells, hls)
        invariant ulid.counter == first + count && count == |Grids.Flatten(matrix[..i])|
        invariant Grids.Flatten(ids) == IdRange(first, count)
        invariant Grids.Distinct(rows) && fresh(cells)
      {
        rows, ids, cells, count := AddRow(matrix, i, rows, ids, cells, first, count, hls, ulid);
      }
      assert matrix[..|matrix|] == matrix;
      grid := rows;
      First := first;
      Ids := ids;
      Values := matrix;
      Repr := cells;
    }

    /** `apply_resonance`: every value moves to `(value + frequency) % 10`
        with its colour, row by row; the ids stay. */
    method ApplyResonance(frequency: int)
      requires Valid()
      modifies this`Values, Repr
      ensures Valid() && Repr == old(Repr)
      ensures Values == Resonance.Shifted(old(Values), frequency)
    {
      ghost var start := Values;
      Resonance.ShiftedBeforeStart(start, frequency);
      for i := 0 to |grid|
        invariant Valid() && Repr == old(Repr)
        invariant Values == Resonance.ShiftedBefore(start, frequency, i, 0)
      {
        ShiftRow(i, frequency, start);
      }
      Resonance.ShiftedBeforeEnd(start, frequency);
    }

    /** The inner loop of `apply_resonance` over row `i`. */
    method ShiftRow(i: nat, frequency: int, ghost start: seq<seq<int>>)
      requires Valid() && i < |grid| && Values == Resonance.ShiftedBefore(start, frequency, i, 0)
      modifies this`Values, Repr
      ensures Valid() && Repr == old(Repr)
      ensures Values == Resonance.ShiftedBefore(start, frequency, i + 1, 0)
    {
      for j := 0 to |grid[i]|
        invariant Valid() && Repr == old(Repr)
        invariant Values == Resonance.ShiftedBefore(start, frequency, i, j)
      {
        Resonance.ShiftedBeforeStep(start, frequency, i, j);
        ShiftCell(i, j, frequency);
      }
      Resonance.ShiftedBeforeRow(start, frequency, i);
    }

    /** One step of `apply_resonance`: `cell.set_value((cell.value +
        frequency) % 10)`. No other cell changes. */
    method ShiftCell(x: nat, y: nat, frequency: int)
      requires Valid() && x < |grid| && y < |grid[x]|
      modifies this`Values, Repr
      ensures Valid() && Repr == old(Repr)
      ensures Values == old(Values)[x := old(Values)[x][y := (old(Values)[x][y] + frequency) % 10]]
    {
      var cell := grid[x][y];
      var v := (cell.value + frequency) % 10;
      cell.SetValue(v, hls);
      Values := Values[x := Values[x][y := v]];
      forall i, j | 0 <= i < |grid| && 0 <= j < |grid[i]|
        ensures grid[i][j].value == Values[i][j] && grid[i][j].color == CellColor(hls, Values[i][j])
      {
        if i != x || j != y {
          assert grid[i][j] != cell;
        }
      }
    }

    /** `[cell for row in self.grid for cell in row]`: the cells in
        row-major order. */
    method FlatCells() returns (flat: seq<Cell>)
      requires Valid()
      ensures flat == Grids.Flatten(grid)
      ensures Listed(flat, Grids.Flatten(Ids), Grids.Flatten(Values), hls)
    {
      flat := [];
      for i := 0 to |grid|
        invariant flat == Grids.Flatten(grid[..i])
        invariant Listed(flat, Grids.Flatten(Ids[..i]), Grids.Flatten(Values[..i]), hls)
      {
        Grids.FlattenPrefix(grid, i);
        Grids.FlattenPrefix(Ids, i);
        Grids.FlattenPrefix(Values, i);
        assert Listed(grid[i], Ids[i], Values[i], hls);
        ListedAppend(flat, Grids.Flatten(Ids[..i]), Grids.Flatten(Values[..i]), grid[i], Ids[i], Values[i], hls);
        flat := flat + grid[i];
      }
      assert grid[..|grid|] == grid && Ids[..|grid|] == Ids && Values[..|grid|] == Values;
    }

    /** `get_grid_state`: the id-to-colour map of all cells and their
        average colour. */
    method GetGridState() returns (codes: map<string, string>, average: string)
      requires Valid()
      ensures |Grids.Flatten(Ids)| == |Grids.Flatten(Values)|
      ensures Colors.AllColors(Colors.Paint(hls, Grids.Flatten(Values)))
      ensures codes == ColorCodes(Grids.Flatten(Ids), Colors.Paint(hls, Grids.Flatten(Values)))
      ensures average == Average(Colors.Paint(hls, Grids.Flatten(Values)))
    {
      var flat := FlatCells();
      ghost var ids, vals := Grids.Flatten(Ids), Grids.Flatten(Values);
      ghost var colors := Colors.Paint(hls, vals);
      Colors.PaintColors(hls, vals);
      assert forall k :: 0 <= k < |flat| ==> flat[k].color == colors[k];
      codes := CollectColorCodes(flat, ids, colors);
      average := CalculateAverageColor(flat, colors);
    }

    /** The dictionary comprehension of `get_grid_state`, one cell after
        the other. */
    method CollectColorCodes(flat: seq<Cell>, ghost ids: seq<string>, ghost colors: seq<string>)
      returns (codes: map<string, string>)
      requires |flat| == |ids| == |colors|
      requires forall k :: 0 <= k < |flat| ==> flat[k].id == ids[k] && flat[k].color == colors[k]
      ensures codes == ColorCodes(ids, colors)
    {
      codes := map[];
      for k := 0 to |flat|
        invariant codes == ColorCodes(ids[..k], colors[..k])
      {
        assert ids[..k + 1][..k] == ids[..k] && colors[..k + 1][..k] == colors[..k];
        codes := codes[flat[k].id := flat[k].color];
      }
      assert ids[..|flat|] == ids && colors[..|flat|] == colors;
    }

    /** `calculate_average_color`: the channel totals of the cells' colour
        strings, each divided by the number of cells and truncated; black
        when there are no cells. */
    method CalculateAverageColor(cells: seq<Cell>, ghost colors: seq<string>) returns (average: string)
      requires |cells| == |colors| && Colors.AllColors(colors)
      requires forall k :: 0 <= k < |cells| ==> cells[k].color == colors[k]
      ensures average == Average(colors)
    {
      var numCells := |cells|;
      if numCells == 0 {
        return "#000000";
      }
      var totalR, totalG, totalB := 0, 0, 0;
      for k := 0 to numCells
        invariant Colors.AllColors(colors[..k])
        invariant totalR == Colors.Total(colors[..k], 0)
        invariant totalG == Colors.Total(colors[..k], 1)
        invariant totalB == Colors.Total(colors[..k], 2)
      {
        var rgb := Colors.Channels(cells[k].color);
        assert colors[..k + 1] == colors[..k] + [colors[k]];
        Colors.TotalSnoc(colors[..k], colors[k], 0);
        Colors.TotalSnoc(colors[..k], colors[k], 1);
        Colors.TotalSnoc(colors[..k], colors[k], 2);
        totalR, totalG, totalB := totalR + rgb.r, totalG + rgb.g, totalB + rgb.b;
      }
      assert colors[..numCells] == colors;
      Colors.MeanFromTotals(colors, numCells, totalR, totalG, totalB);
      average := Colors.Format(Colors.Rgb(totalR / numCells, totalG / numCells, totalB / numCells));
    }
  }
}
