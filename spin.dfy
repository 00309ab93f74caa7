/** rekeying.py: a "spin" replaces every cell's value by the mean of its
    (up to eight) neighbours' values, sweeping the grid row by row and
    reading values that earlier steps of the same sweep have already
    replaced; a second sweep then colours each cell by its new value.
    Values are exact reals here: the script's floating-point rounding is
    not part of the model. */
module SpinGrid {
  import opened Errors
  import Grids

  /** `sum(neighbors)`, added up from the left. */
  function Sum(ns: seq<real>): real {
    if ns == [] then 0.0 else Sum(ns[..|ns| - 1]) + ns[|ns| - 1]
  }

  /** The value `spin_effect` computes, `sum(neighbors) / len(neighbors)`:
      the mean, or `ZeroDivisionError` for an empty list. */
  function Average(ns: seq<real>): (r: Result<real>)
    ensures r.Err? <==> ns == []
    ensures r.Err? ==> r.error == ZeroDivisionError
    ensures r.Ok? ==> r.value * (|ns| as real) == Sum(ns)
  {
    if |ns| == 0 then Err(ZeroDivisionError) else Ok(Sum(ns) / (|ns| as real))
  }

  lemma {:induction false} SumWithin(ns: seq<real>, lo: real, hi: real)
    requires forall k :: 0 <= k < |ns| ==> lo <= ns[k] <= hi
    ensures lo * (|ns| as real) <= Sum(ns) <= hi * (|ns| as real)
  {
    if ns != [] {
      SumWithin(ns[..|ns| - 1], lo, hi);
    }
  }

  /** The mean of a non-empty list lies between any lower and upper bound
      of its elements (in particular between its minimum and maximum). */
  lemma AverageWithin(ns: seq<real>, lo: real, hi: real)
    requires ns != []
    requires forall k :: 0 <= k < |ns| ==> lo <= ns[k] <= hi
    ensures Average(ns).Ok? && lo <= Average(ns).value <= hi
  {
    SumWithin(ns, lo, hi);
    QuotientWithin(Sum(ns), |ns| as real, lo, hi);
  }

  lemma QuotientWithin(s: real, n: real, lo: real, hi: real)
    requires 0.0 < n && lo * n <= s <= hi * n
    ensures lo <= s / n <= hi
  {
    assert (s / n - hi) * n == s - hi * n;
    assert (s / n - lo) * n == s - lo * n;
  }

  /** `update_color`'s colour name for a value. */
  function Shade(value: real): (c: string)
    ensures c == "blue" <==> value < 2.0
    ensures c == "green" <==> 2.0 <= value < 3.0
    ensures c == "red" <==> 3.0 <= value
  {
    if value < 2.0 then "blue" else if value < 3.0 then "green" else "red"
  }

  /** The neighbour at offset `(a - 1, b - 1)` of `(x, y)`, appended to the
      values gathered so far when it lies inside the grid (rows
      `0 <= nx < len(grid)`, columns `0 <= ny < len(grid[0])`) and is not
      the cell itself. A row shorter than the first raises `IndexError`. */
  function Visit(r: Result<seq<real>>, vals: seq<seq<real>>, x: int, y: int, a: int, b: int): Result<seq<real>> {
    match r
    case Err(e) => Err(e)
    case Ok(ns) =>
      var nx, ny := x + a - 1, y + b - 1;
      if 0 <= nx < |vals| && 0 <= ny < Grids.Cols(vals) && (a - 1, b - 1) != (0, 0) then
        if ny < |vals[nx]| then Ok(ns + [vals[nx][ny]]) else Err(IndexError)
      else Ok(ns)
  }

  /** The neighbour values gathered before offset `(a - 1, b - 1)`, with
      `dx` in `[-1, 0, 1]` outermost and `dy` in `[-1, 0, 1]` innermost. */
  function Gathered(vals: seq<seq<real>>, x: int, y: int, a: nat, b: nat): Result<seq<real>>
    requires a <= 3 && b <= 3
    decreases a, b
  {
    if b > 0 then Visit(Gathered(vals, x, y, a, b - 1), vals, x, y, a, b - 1)
    else if a > 0 then Gathered(vals, x, y, a - 1, 3)
    else Ok([])
  }

  /** `get_neighbors_values(x, y)`. */
  function Neighbors(vals: seq<seq<real>>, x: int, y: int): Result<seq<real>> {
    Gathered(vals, x, y, 3, 0)
  }

  /** How many of `x - 1`, `x`, `x + 1` lie in `0 .. n - 1`. */
  function Span(x: int, n: int): nat {
    (if 0 <= x - 1 < n then 1 else 0) + (if 0 <= x < n then 1 else 0) + (if 0 <= x + 1 < n then 1 else 0)
  }

  /** How many of the offsets `dy` in `-1 .. b - 2` lead into `0 .. n - 1`. */
  function SpanBefore(y: int, b: nat, n: int): nat
    requires b <= 3
  {
    if b == 0 then 0 else SpanBefore(y, b - 1, n) + (if 0 <= y + b - 2 < n then 1 else 0)
  }

  lemma SpanBeforeAll(y: int, n: int)
    ensures SpanBefore(y, 3, n) == Span(y, n)
  {
    assert SpanBefore(y, 1, n) == (if 0 <= y - 1 < n then 1 else 0);
    assert SpanBefore(y, 2, n) == SpanBefore(y, 1, n) + (if 0 <= y < n then 1 else 0);
  }

  /** How many values a rectangular grid has gathered before offset
      `(a - 1, b - 1)`: whole rows of offsets before `a`, then part of row
      `a`, less the cell itself once it has been passed. */
  lemma {:induction false} GatheredCount(vals: seq<seq<real>>, x: int, y: int, a: nat, b: nat)
    requires Grids.Rectangular(vals) && 0 <= x < |vals| && 0 <= y < Grids.Cols(vals)
    requires a <= 3 && b <= 3
    decreases a, b
    ensures Gathered(vals, x, y, a, b).Ok?
    ensures |Gathered(vals, x, y, a, b).value|
         == SpanBefore(x, a, |vals|) * Span(y, Grids.Cols(vals))
          + (if 0 <= x + a - 1 < |vals| then SpanBefore(y, b, Grids.Cols(vals)) else 0)
          - (if a > 1 || (a == 1 && b > 1) then 1 else 0)
  {
    var n := Grids.Cols(vals);
    if b > 0 {
      GatheredCount(vals, x, y, a, b - 1);
    } else if a > 0 {
      GatheredCount(vals, x, y, a - 1, 3);
      SpanBeforeAll(y, n);
      var rows, s := SpanBefore(x, a - 1, |vals|), Span(y, n);
      assert SpanBefore(x, a, |vals|) * s == rows * s + (if 0 <= x + a - 2 < |vals| then s else 0);
    }
  }

  /** A cell of a rectangular grid has (valid rows) times (valid columns)
      minus one neighbours: 3 in a corner, 5 on an edge, 8 inside. */
  lemma NeighborCount(vals: seq<seq<real>>, x: int, y: int)
    requires Grids.Rectangular(vals) && 0 <= x < |vals| && 0 <= y < Grids.Cols(vals)
    ensures Neighbors(vals, x, y).Ok?
    ensures |Neighbors(vals, x, y).value| == Span(x, |vals|) * Span(y, Grids.Cols(vals)) - 1
  {
    GatheredCount(vals, x, y, 3, 0);
    SpanBeforeAll(x, |vals|);
  }

  /** The corner, edge and interior counts of a grid at least 2 by 2. */
  lemma NeighborCountCases(vals: seq<seq<real>>, x: int, y: int)
    requires Grids.Rectangular(vals) && 0 <= x < |vals| && 0 <= y < Grids.Cols(vals)
    requires 2 <= |vals| && 2 <= Grids.Cols(vals)
    ensures Neighbors(vals, x, y).Ok?
    ensures (x == 0 || x == |vals| - 1) && (y == 0 || y == Grids.Cols(vals) - 1)
      ==> |Neighbors(vals, x, y).value| == 3
    ensures ((0 < x < |vals| - 1) && (y == 0 || y == Grids.Cols(vals) - 1)) ||
            ((x == 0 || x == |vals| - 1) && (0 < y < Grids.Cols(vals) - 1))
      ==> |Neighbors(vals, x, y).value| == 5
    ensures 0 < x < |vals| - 1 && 0 < y < Grids.Cols(vals) - 1
      ==> |Neighbors(vals, x, y).value| == 8
  {
    NeighborCount(vals, x, y);
  }

  /** A one-cell grid has no neighbours. */
  lemma SingleCellAlone(vals: seq<seq<real>>)
    requires |vals| == 1 && |vals[0]| == 1
    ensures Neighbors(vals, 0, 0) == Ok([])
  {
  }

  /** Every value gathered lies within bounds that hold for every cell. */
  lemma {:induction false} GatheredWithin(vals: seq<seq<real>>, x: int, y: int, a: nat, b: nat, lo: real, hi: real)
    requires a <= 3 && b <= 3
    requires Within(vals, lo, hi)
    decreases a, b
    ensures Gathered(vals, x, y, a, b).Ok? ==>
      forall k :: 0 <= k < |Gathered(vals, x, y, a, b).value| ==> lo <= Gathered(vals, x, y, a, b).value[k] <= hi
  {
    if b > 0 {
      GatheredWithin(vals, x, y, a, b - 1, lo, hi);
    } else if a > 0 {
      GatheredWithin(vals, x, y, a - 1, 3, lo, hi);
    }
  }

  /** Once gathering has raised, the rest of `get_neighbors_values` is
      never reached. */
  lemma {:induction false} GatheredErrorStays(vals: seq<seq<real>>, x: int, y: int, a: nat, b: nat, a': nat, b': nat)
    requires a <= 3 && b <= 3 && a' <= 3 && b' <= 3
    requires a < a' || (a == a' && b <= b')
    requires Gathered(vals, x, y, a, b).Err?
    decreases a', b'
    ensures Gathered(vals, x, y, a', b') == Gathered(vals, x, y, a, b)
  {
    if a == a' && b == b' {
    } else if b' > 0 {
      GatheredErrorStays(vals, x, y, a, b, a', b' - 1);
    } else {
      GatheredErrorStays(vals, x, y, a, b, a' - 1, 3);
    }
  }

  /** The grid values and how the sweep has gone so far. */
  datatype Outcome = Outcome(vals: seq<seq<real>>, status: Status)

  /** One visit of `spin_cells` to `(x, y)`: gather the neighbours, reach
      the cell, take the mean; any of the three may raise. */
  function SpinAt(vals: seq<seq<real>>, x: nat, y: nat): (r: Result<real>)
    requires x < |vals|
    ensures r.Ok? ==> y < |vals[x]|
  {
    match Neighbors(vals, x, y)
    case Err(e) => Err(e)
    case Ok(ns) => if y < |vals[x]| then Average(ns) else Err(IndexError)
  }

  /** The visit to `(x, y)` applied to the values it finds; a raised error
      ends the sweep with the values as they are. */
  function Step(o: Outcome, x: nat, y: nat): (r: Outcome)
    requires x < |o.vals|
    ensures Grids.SameShape(r.vals, o.vals)
  {
    if o.status.Failed? then o
    else match SpinAt(o.vals, x, y)
      case Err(e) => Outcome(o.vals, Failed(e))
      case Ok(v) => Outcome(o.vals[x := o.vals[x][y := v]], Done)
  }

  /** The first sweep of `spin_cells` over rows `0 .. |vals| - 1` and
      columns `0 .. cols - 1`, up to but not including `(x, y)`: each visit
      reads the values the earlier visits left, not a snapshot. */
  function SweptBefore(vals: seq<seq<real>>, cols: nat, x: nat, y: nat): (r: Outcome)
    requires x <= |vals| && y <= cols && (y > 0 ==> x < |vals|)
    ensures Grids.SameShape(r.vals, vals)
    decreases x, y
  {
    if y > 0 then Step(SweptBefore(vals, cols, x, y - 1), x, y - 1)
    else if x > 0 then SweptBefore(vals, cols, x - 1, cols)
    else Outcome(vals, Done)
  }

  /** The whole first sweep, with `len(grid[0])` columns. */
  function Spun(vals: seq<seq<real>>): Outcome {
    SweptBefore(vals, Grids.Cols(vals), |vals|, 0)
  }

  /** Once a visit has raised, the sweep is over: later positions change
      nothing. */
  lemma {:induction false} FailureStays(vals: seq<seq<real>>, cols: nat, x: nat, y: nat, x': nat, y': nat)
    requires x <= |vals| && y <= cols && (y > 0 ==> x < |vals|)
    requires x' <= |vals| && y' <= cols && (y' > 0 ==> x' < |vals|)
    requires x < x' || (x == x' && y <= y')
    requires SweptBefore(vals, cols, x, y).status.Failed?
    decreases x', y'
    ensures SweptBefore(vals, cols, x', y') == SweptBefore(vals, cols, x, y)
  {
    if x == x' && y == y' {
    } else if y' > 0 {
      FailureStays(vals, cols, x, y, x', y' - 1);
    } else {
      FailureStays(vals, cols, x, y, x' - 1, cols);
    }
  }

  /** A sweep that has not raised has found every row it finished at least
      `cols` long, and the current row long enough for the columns so far. */
  lemma {:induction false} SweptRowsLong(vals: seq<seq<real>>, cols: nat, x: nat, y: nat)
    requires x <= |vals| && y <= cols && (y > 0 ==> x < |vals|)
    requires SweptBefore(vals, cols, x, y).status == Done
    decreases x, y
    ensures forall r :: 0 <= r < x ==> cols <= |vals[r]|
    ensures x < |vals| ==> y <= |vals[x]|
  {
    if y > 0 {
      var o := SweptBefore(vals, cols, x, y - 1);
      assert o.status == Done;
      SweptRowsLong(vals, cols, x, y - 1);
      assert SpinAt(o.vals, x, y - 1).Ok?;
    } else if x > 0 {
      SweptRowsLong(vals, cols, x - 1, cols);
    }
  }

  /** Every value of the grid lies in `lo .. hi`. */
  predicate Within(vals: seq<seq<real>>, lo: real, hi: real) {
    forall i, j :: 0 <= i < |vals| && 0 <= j < |vals[i]| ==> lo <= vals[i][j] <= hi
  }

  /** A visit keeps every value within bounds that held before it. */
  lemma StepWithin(o: Outcome, x: nat, y: nat, lo: real, hi: real)
    requires x < |o.vals| && Within(o.vals, lo, hi)
    ensures Within(Step(o, x, y).vals, lo, hi)
  {
    GatheredWithin(o.vals, x, y, 3, 0, lo, hi);
    if o.status == Done && SpinAt(o.vals, x, y).Ok? {
      AverageWithin(Neighbors(o.vals, x, y).value, lo, hi);
    }
  }

  /** Values stay within any bounds that hold for every cell before the
      spin: each new value is a mean of values within them. */
  lemma {:induction false} SweptWithin(vals: seq<seq<real>>, cols: nat, x: nat, y: nat, lo: real, hi: real)
    requires x <= |vals| && y <= cols && (y > 0 ==> x < |vals|)
    requires Within(vals, lo, hi)
    decreases x, y
    ensures Within(SweptBefore(vals, cols, x, y).vals, lo, hi)
  {
    if y > 0 {
      SweptWithin(vals, cols, x, y - 1, lo, hi);
      StepWithin(SweptBefore(vals, cols, x, y - 1), x, y - 1, lo, hi);
    } else if x > 0 {
      SweptWithin(vals, cols, x - 1, cols, lo, hi);
    }
  }

  /** A one-cell grid has nothing to average: the spin raises
      `ZeroDivisionError` and leaves the value as it was. */
  lemma SingleCellSpinFails(vals: seq<seq<real>>)
    requires |vals| == 1 && |vals[0]| == 1
    ensures Spun(vals) == Outcome(vals, Failed(ZeroDivisionError))
  {
    SingleCellAlone(vals);
    assert SweptBefore(vals, 1, 1, 0) == SweptBefore(vals, 1, 0, 1);
  }

  /** `get_neighbors_values` visits the offsets in this order. */
  lemma GatheredUnrolled(vals: seq<seq<real>>, x: int, y: int)
    ensures Neighbors(vals, x, y)
         == Visit(Visit(Visit(Visit(Visit(Visit(Visit(Visit(Visit(Ok([]),
              vals, x, y, 0, 0), vals, x, y, 0, 1), vals, x, y, 0, 2),
              vals, x, y, 1, 0), vals, x, y, 1, 1), vals, x, y, 1, 2),
              vals, x, y, 2, 0), vals, x, y, 2, 1), vals, x, y, 2, 2)
  {
    assert Gathered(vals, x, y, 1, 0) == Gathered(vals, x, y, 0, 3);
    assert Gathered(vals, x, y, 2, 0) == Gathered(vals, x, y, 1, 3);
    assert Gathered(vals, x, y, 3, 0) == Gathered(vals, x, y, 2, 3);
  }

  /** In a rectangular grid with at least two cells every cell has a
      neighbour. */
  lemma SomeNeighbor(vals: seq<seq<real>>, x: int, y: int)
    requires Grids.Rectangular(vals) && 0 <= x < |vals| && 0 <= y < Grids.Cols(vals)
    requires 2 <= |vals| || 2 <= Grids.Cols(vals)
    ensures Neighbors(vals, x, y).Ok? && Neighbors(vals, x, y).value != []
  {
    NeighborCount(vals, x, y);
    var p, q := Span(x, |vals|), Span(y, Grids.Cols(vals));
    assert 1 <= p && 1 <= q && (2 <= p || 2 <= q);
    assert p * q >= p && p * q >= q;
  }

  /** A visit to a rectangular grid of one value with at least two cells
      changes nothing: every neighbour mean is that value. */
  lemma StepUniform(o: Outcome, x: nat, y: nat, c: real)
    requires o.status == Done && Grids.Rectangular(o.vals) && Within(o.vals, c, c)
    requires x < |o.vals| && y < Grids.Cols(o.vals) && (2 <= |o.vals| || 2 <= Grids.Cols(o.vals))
    ensures Step(o, x, y) == o
  {
    SomeNeighbor(o.vals, x, y);
    GatheredWithin(o.vals, x, y, 3, 0, c, c);
    AverageWithin(Neighbors(o.vals, x, y).value, c, c);
    assert o.vals[x][y] == c;
    assert o.vals[x][y := c] == o.vals[x];
  }

  lemma {:induction false} SweptUniform(vals: seq<seq<real>>, x: nat, y: nat, c: real)
    requires Grids.Rectangular(vals) && Within(vals, c, c) && (2 <= |vals| || 2 <= Grids.Cols(vals))
    requires x <= |vals| && y <= Grids.Cols(vals) && (y > 0 ==> x < |vals|)
    decreases x, y
    ensures SweptBefore(vals, Grids.Cols(vals), x, y) == Outcome(vals, Done)
  {
    if y > 0 {
      SweptUniform(vals, x, y - 1, c);
      StepUniform(Outcome(vals, Done), x, y - 1, c);
    } else if x > 0 {
      SweptUniform(vals, x - 1, Grids.Cols(vals), c);
    }
  }

  /** A rectangular grid holding one value in at least two cells is a fixed
      point of the spin. */
  lemma SpunUniform(vals: seq<seq<real>>, c: real)
    requires Grids.Rectangular(vals) && Within(vals, c, c) && (2 <= |vals| || 2 <= Grids.Cols(vals))
    ensures Spun(vals) == Outcome(vals, Done)
  {
    SweptUniform(vals, |vals|, 0, c);
  }

  lemma SumOfThree(a: real, b: real, c: real)
    ensures Sum([a, b, c]) == a + b + c
  {
    assert [a, b, c][..2] == [a, b] && [a, b][..1] == [a] && [a][..0] == [];
    assert Sum([a]) == a;
    assert Sum([a, b]) == a + b;
  }

  /** On the grid `[[0, 3], [3, 3]]` cell `(0, 0)` has the neighbours 3, 3
      and 3, and cell `(0, 1)` has 0, 3 and 3; once `(0, 0)` holds 3, cell
      `(0, 1)` has 3, 3 and 3. */
  lemma ExampleNeighbors()
    ensures Neighbors([[0.0, 3.0], [3.0, 3.0]], 0, 0) == Ok([3.0, 3.0, 3.0])
    ensures Neighbors([[0.0, 3.0], [3.0, 3.0]], 0, 1) == Ok([0.0, 3.0, 3.0])
    ensures Neighbors([[3.0, 3.0], [3.0, 3.0]], 0, 1) == Ok([3.0, 3.0, 3.0])
  {
    var v0, v1 := [[0.0, 3.0], [3.0, 3.0]], [[3.0, 3.0], [3.0, 3.0]];
    assert [] + [3.0] == [3.0] && [3.0] + [3.0] == [3.0, 3.0] && [3.0, 3.0] + [3.0] == [3.0, 3.0, 3.0];
    assert [] + [0.0] == [0.0] && [0.0] + [3.0] == [0.0, 3.0] && [0.0, 3.0] + [3.0] == [0.0, 3.0, 3.0];
    GatheredUnrolled(v0, 0, 0);
    GatheredUnrolled(v0, 0, 1);
    GatheredUnrolled(v1, 0, 1);
  }

  /** The sweep reads values it has already replaced. On `[[0, 3], [3,
      3]]` the first visit turns cell `(0, 0)` into 3, so the visit to
      `(0, 1)` reads 3, 3 and 3 and keeps 3, where a snapshot of the grid
      would have given it the mean 2 of 0, 3 and 3. */
  lemma SweepIsSequential()
    ensures SweptBefore([[0.0, 3.0], [3.0, 3.0]], 2, 0, 1) == Outcome([[3.0, 3.0], [3.0, 3.0]], Done)
    ensures SpinAt([[3.0, 3.0], [3.0, 3.0]], 0, 1) == Ok(3.0)
    ensures SpinAt([[0.0, 3.0], [3.0, 3.0]], 0, 1) == Ok(2.0)
  {
    var v0 := [[0.0, 3.0], [3.0, 3.0]];
    SumOfThree(3.0, 3.0, 3.0);
    SumOfThree(0.0, 3.0, 3.0);
    ExampleNeighbors();
    assert v0[0][0 := 3.0] == [3.0, 3.0];
  }

  /** A cell the sweep has passed keeps the value its own visit gave it:
      later visits change only the cell they visit. */
  lemma {:induction false} VisitedKeep(vals: seq<seq<real>>, cols: nat, x': nat, y': nat, x: nat, y: nat)
    requires x <= |vals| && y <= cols && (y > 0 ==> x < |vals|)
    requires x' < |vals| && y' < cols && y' < |vals[x']|
    requires x' < x || (x' == x && y' < y)
    decreases x, y
    ensures SweptBefore(vals, cols, x, y).vals[x'][y'] == SweptBefore(vals, cols, x', y' + 1).vals[x'][y']
  {
    if x == x' && y == y' + 1 {
    } else if y > 0 {
      VisitedKeep(vals, cols, x', y', x, y - 1);
    } else {
      VisitedKeep(vals, cols, x', y', x - 1, cols);
    }
  }

  /** The colours after the second sweep of `spin_cells`: the first `cols`
      cells of each row take the colour of their value, the others keep
      theirs. */
  function Recolored(vals: seq<seq<real>>, colors: seq<seq<string>>, cols: nat): (r: seq<seq<string>>)
    requires Grids.SameShape(vals, colors)
    ensures Grids.SameShape(r, colors)
  {
    seq(|colors|, i requires 0 <= i < |colors| =>
      seq(|colors[i]|, j requires 0 <= j < |colors[i]| => if j < cols then Shade(vals[i][j]) else colors[i][j]))
  }

  /** The colours part way through the second sweep, before `(x, y)`. */
  function RecoloredBefore(vals: seq<seq<real>>, colors: seq<seq<string>>, cols: nat, x: int, y: int): (r: seq<seq<string>>)
    requires Grids.SameShape(vals, colors)
    ensures Grids.SameShape(r, colors)
  {
    seq(|colors|, i requires 0 <= i < |colors| =>
      seq(|colors[i]|, j requires 0 <= j < |colors[i]| =>
        if (i < x || (i == x && j < y)) && j < cols then Shade(vals[i][j]) else colors[i][j]))
  }

  lemma RecoloredBeforeStart(vals: seq<seq<real>>, colors: seq<seq<string>>, cols: nat)
    requires Grids.SameShape(vals, colors)
    ensures RecoloredBefore(vals, colors, cols, 0, 0) == colors
  {
    var r := RecoloredBefore(vals, colors, cols, 0, 0);
    forall i | 0 <= i < |colors| ensures r[i] == colors[i] {
      assert |r[i]| == |colors[i]|;
    }
  }

  lemma RecoloredBeforeStep(vals: seq<seq<real>>, colors: seq<seq<string>>, cols: nat, x: nat, y: nat)
    requires Grids.SameShape(vals, colors) && x < |colors| && y < |colors[x]| && y < cols
    ensures var before := RecoloredBefore(vals, colors, cols, x, y);
      RecoloredBefore(vals, colors, cols, x, y + 1) == before[x := before[x][y := Shade(vals[x][y])]]
  {
    var before, after := RecoloredBefore(vals, colors, cols, x, y), RecoloredBefore(vals, colors, cols, x, y + 1);
    var expected := before[x := before[x][y := Shade(vals[x][y])]];
    forall i | 0 <= i < |colors| ensures after[i] == expected[i] {
      assert |after[i]| == |expected[i]|;
    }
  }

  lemma RecoloredBeforeRow(vals: seq<seq<real>>, colors: seq<seq<string>>, cols: nat, x: nat)
    requires Grids.SameShape(vals, colors)
    ensures RecoloredBefore(vals, colors, cols, x, cols) == RecoloredBefore(vals, colors, cols, x + 1, 0)
  {
    var a, b := RecoloredBefore(vals, colors, cols, x, cols), RecoloredBefore(vals, colors, cols, x + 1, 0);
    forall i | 0 <= i < |colors| ensures a[i] == b[i] {
      assert |a[i]| == |b[i]|;
    }
  }

  lemma RecoloredBeforeEnd(vals: seq<seq<real>>, colors: seq<seq<string>>, cols: nat)
    requires Grids.SameShape(vals, colors)
    ensures RecoloredBefore(vals, colors, cols, |colors|, 0) == Recolored(vals, colors, cols)
  {
    var a, b := RecoloredBefore(vals, colors, cols, |colors|, 0), Recolored(vals, colors, cols);
    forall i | 0 <= i < |colors| ensures a[i] == b[i] {
      assert |a[i]| == |b[i]|;
    }
  }

  /** A grid of `'white'` shaped like `m`: the colour of every cell before
      its first spin. */
  function White(m: seq<seq<real>>): (r: seq<seq<string>>)
    ensures Grids.SameShape(r, m)
  {
    seq(|m|, i requires 0 <= i < |m| => seq(|m[i]|, j => "white"))
  }

  class Cell {
    var value: real
    var color: string

    /** `Cell(value)`: colourless until the first spin. */
    constructor (value: real)
      ensures this.value == value && color == "white"
    {
      this.value := value;
      color := "white";
    }

    /** `spin_effect`: the value becomes the mean of the neighbour values;
        an empty list raises `ZeroDivisionError` before anything changes. */
    method SpinEffect(neighbors: seq<real>) returns (status: Status)
      modifies this
      ensures color == old(color)
      ensures Average(neighbors).Ok? ==> status == Done && value == Average(neighbors).value
      ensures Average(neighbors).Err? ==> status == Failed(Average(neighbors).error) && value == old(value)
    {
      if |neighbors| == 0 {
        return Failed(ZeroDivisionError);
      }
      value := Sum(neighbors) / (|neighbors| as real);
      status := Done;
    }

    /** `update_color`: blue below 2, green below 3, red from 3 up. */
    method UpdateColor()
      modifies this
      ensures value == old(value) && color == Shade(value)
    {
      if value < 2.0 {
        color := "blue";
      } else if value < 3.0 {
        color := "green";
      } else {
        color := "red";
      }
    }
  }

  /** Row by row, the cells of `rows` belong to `cells` and hold the values
      `vals` and the colours `colors`. */
  ghost predicate Built(rows: seq<seq<Cell>>, vals: seq<seq<real>>, colors: seq<seq<string>>, cells: set<Cell>)
    reads cells
  {
    Grids.SameShape(vals, rows) && Grids.SameShape(colors, rows) &&
    forall i, j {:trigger rows[i][j]} :: 0 <= i < |rows| && 0 <= j < |rows[i]| ==>
      rows[i][j] in cells && rows[i][j].value == vals[i][j] && rows[i][j].color == colors[i][j]
  }

  lemma BuiltAppend(rows: seq<seq<Cell>>, vals: seq<seq<real>>, colors: seq<seq<string>>, cells: set<Cell>,
                    row: seq<Cell>, rowVals: seq<real>)
    requires Built(rows, vals, colors, cells)
    requires |row| == |rowVals|
    requires forall l :: 0 <= l < |row| ==> row[l].value == rowVals[l] && row[l].color == "white"
    ensures Built(rows + [row], vals + [rowVals], colors + [seq(|rowVals|, j => "white")],
                  cells + set l | 0 <= l < |row| :: row[l])
  {
    var rows': seq<seq<Cell>>, vals', colors' := rows + [row], vals + [rowVals], colors + [seq(|rowVals|, j => "white")];
    var cells' := cells + set l | 0 <= l < |row| :: row[l];
    forall i, j | 0 <= i < |rows'| && 0 <= j < |rows'[i]|
      ensures rows'[i][j] in cells' && rows'[i][j].value == vals'[i][j] && rows'[i][j].color == colors'[i][j]
    {
      if i < |rows| {
        assert rows'[i] == rows[i] && vals'[i] == vals[i] && colors'[i] == colors[i];
      } else {
        assert rows'[i] == row && vals'[i] == rowVals;
      }
    }
  }

  /** The cells of one row: `[Cell(value) for value in row]`. */
  method NewRow(values: seq<real>) returns (row: seq<Cell>)
    ensures |row| == |values|
    ensures forall l {:trigger row[l]} :: 0 <= l < |row| ==>
      fresh(row[l]) && row[l].value == values[l] && row[l].color == "white"
    ensures forall l, m :: 0 <= l < m < |row| ==> row[l] != row[m]
  {
    row := [];
    for y := 0 to |values|
      invariant |row| == y
      invariant forall l {:trigger row[l]} :: 0 <= l < y ==>
        fresh(row[l]) && row[l].value == values[l] && row[l].color == "white"
      invariant forall l, m :: 0 <= l < m < y ==> row[l] != row[m]
    {
      var cell := new Cell(values[y]);
      row := row + [cell];
    }
  }

  class GameGrid {
    const grid: seq<seq<Cell>>
    ghost var Values: seq<seq<real>>   // the cell values, row by row
    ghost var Colors: seq<seq<string>> // the cell colours, row by row
    ghost var Repr: set<Cell>          // the cells

    ghost predicate Valid()
      reads this, Repr
    {
      Grids.Distinct(grid) && Built(grid, Values, Colors, Repr)
    }

    /** `GameGrid(matrix)`: one fresh white cell per entry. */
    constructor (matrix: seq<seq<real>>)
      ensures Valid() && fresh(Repr)
      ensures Values == matrix && Colors == White(matrix)
    {
      var rows: seq<seq<Cell>> := [];
      ghost var cells: set<Cell> := {};
      for i := 0 to |matrix|
        invariant |rows| == i && Built(rows, matrix[..i], White(matrix)[..i], cells)
        invariant Grids.Distinct(rows) && fresh(cells)
      {
        var row := NewRow(matrix[i]);
        assert forall l :: 0 <= l < |row| ==> row[l] !in cells;
        Grids.DistinctAppend(rows, row, cells);
        BuiltAppend(rows, matrix[..i], White(matrix)[..i], cells, row, matrix[i]);
        assert matrix[..i] + [matrix[i]] == matrix[..i + 1];
        assert White(matrix)[..i] + [seq(|matrix[i]|, j => "white")] == White(matrix)[..i + 1];
        rows := rows + [row];
        cells := cells + set l | 0 <= l < |row| :: row[l];
      }
      assert matrix[..|matrix|] == matrix;
      assert White(matrix)[..|matrix|] == White(matrix);
      grid := rows;
      Values := matrix;
      Colors := White(matrix);
      Repr := cells;
    }

    /** `get_neighbors_values(x, y)`. */
    method GetNeighborsValues(x: int, y: int) returns (r: Result<seq<real>>)
      requires Valid()
      ensures r == Neighbors(Values, x, y)
    {
      var neighbors: seq<real> := [];
      for a := 0 to 3
        invariant Gathered(Values, x, y, a, 0) == Ok(neighbors)
      {
        for b := 0 to 3
          invariant Gathered(Values, x, y, a, b) == Ok(neighbors)
        {
          var dx, dy := a - 1, b - 1;
          var nx, ny := x + dx, y + dy;
          if 0 <= nx < |grid| && 0 <= ny < |grid[0]| && (dx, dy) != (0, 0) {
            if ny >= |grid[nx]| {
              GatheredErrorStays(Values, x, y, a, b + 1, 3, 0);
              return Err(IndexError);
            }
            neighbors := neighbors + [grid[nx][ny].value];
          }
        }
      }
      r := Ok(neighbors);
    }

    /** `spin_cells`: the first sweep replaces each value, row by row, by
        the mean of its neighbours' current values; if it gets through, the
        second sweep colours the same cells by their new values. An error
        stops the spin with the values replaced so far and no colour
        changed. */
    method SpinCells() returns (status: Status)
      requires Valid()
      modifies this`Values, this`Colors, Repr
      ensures Valid() && Repr == old(Repr)
      ensures Values == Spun(old(Values)).vals && status == Spun(old(Values)).status
      ensures status.Failed? ==> Colors == old(Colors)
      ensures status == Done ==> Colors == Recolored(Values, old(Colors), Grids.Cols(Values))
    {
      ghost var start := Values;
      var cols := if |grid| == 0 then 0 else |grid[0]|;
      assert |start| == |grid| && cols == Grids.Cols(start);
      status := Done;
      for x := 0 to |grid|
        invariant Valid() && Repr == old(Repr) && Colors == old(Colors) && status == Done
        invariant SweptBefore(start, cols, x, 0) == Outcome(Values, Done)
      {
        status := SpinRow(x, cols, start);
        if status.Failed? {
          return;
        }
      }
      SweptRowsLong(start, cols, |grid|, 0);
      assert Grids.Cols(Values) == cols;
      RecolorCells(cols);
    }

    /** The first sweep over row `x`. */
    method SpinRow(x: nat, cols: nat, ghost start: seq<seq<real>>) returns (status: Status)
      requires Valid() && x < |grid| && |start| == |grid| && cols == Grids.Cols(start)
      requires SweptBefore(start, cols, x, 0) == Outcome(Values, Done)
      modifies this`Values, Repr
      ensures Valid() && Repr == old(Repr)
      ensures status == Done ==> SweptBefore(start, cols, x + 1, 0) == Outcome(Values, Done)
      ensures status.Failed? ==> Spun(start) == Outcome(Values, status)
    {
      status := Done;
      for y := 0 to cols
        invariant Valid() && Repr == old(Repr) && status == Done
        invariant SweptBefore(start, cols, x, y) == Outcome(Values, Done)
      {
        status := SpinOne(x, y, cols, start);
        if status.Failed? {
          FailureStays(start, cols, x, y + 1, |start|, 0);
          return;
        }
      }
    }

    /** One visit of the first sweep, to `(x, y)`. */
    method SpinOne(x: nat, y: nat, cols: nat, ghost start: seq<seq<real>>) returns (status: Status)
      requires Valid() && x < |grid| && y < cols && |start| == |grid| && cols == Grids.Cols(start)
      requires SweptBefore(start, cols, x, y) == Outcome(Values, Done)
      modifies this`Values, Repr
      ensures Valid() && Repr == old(Repr)
      ensures SweptBefore(start, cols, x, y + 1) == Outcome(Values, status)
    {
      var neighbors := GetNeighborsValues(x, y);
      if neighbors.Err? {
        return Failed(neighbors.error);
      }
      if y >= |grid[x]| {
        return Failed(IndexError);
      }
      var cell := grid[x][y];
      status := cell.SpinEffect(neighbors.value);
      if status == Done {
        Values := Values[x := Values[x][y := cell.value]];
      }
      forall i, j | 0 <= i < |grid| && 0 <= j < |grid[i]|
        ensures grid[i][j].value == Values[i][j] && grid[i][j].color == Colors[i][j]
      {
        if i != x || j != y {
          assert grid[i][j] != cell;
        }
      }
    }

    /** The second sweep of `spin_cells`, over the same rows and columns. */
    method RecolorCells(cols: nat)
      requires Valid() && forall x :: 0 <= x < |grid| ==> cols <= |grid[x]|
      modifies this`Colors, Repr
      ensures Valid() && Repr == old(Repr)
      ensures Colors == Recolored(Values, old(Colors), cols)
    {
      ghost var start := Colors;
      RecoloredBeforeStart(Values, start, cols);
      for x := 0 to |grid|
        invariant Valid() && Repr == old(Repr)
        invariant Colors == RecoloredBefore(Values, start, cols, x, 0)
      {
        RecolorRow(x, cols, start);
      }
      RecoloredBeforeEnd(Values, start, cols);
    }

    /** The second sweep over row `x`. */
    method RecolorRow(x: nat, cols: nat, ghost start: seq<seq<string>>)
      requires Valid() && x < |grid| && cols <= |grid[x]| && Grids.SameShape(Values, start)
      requires Colors == RecoloredBefore(Values, start, cols, x, 0)
      modifies this`Colors, Repr
      ensures Valid() && Repr == old(Repr)
      ensures Colors == RecoloredBefore(Values, start, cols, x + 1, 0)
    {
      for y := 0 to cols
        invariant Valid() && Repr == old(Repr)
        invariant Colors == RecoloredBefore(Values, start, cols, x, y)
      {
        RecoloredBeforeStep(Values, start, cols, x, y);
        RecolorCell(x, y);
      }
      RecoloredBeforeRow(Values, start, cols, x);
    }

    /** `self.grid[x][y].update_color()`. No other cell changes. */
    method RecolorCell(x: nat, y: nat)
      requires Valid() && x < |grid| && y < |grid[x]|
      modifies this`Colors, Repr
      ensures Valid() && Repr == old(Repr)
      ensures Colors == old(Colors)[x := old(Colors)[x][y := Shade(Values[x][y])]]
    {
      var cell := grid[x][y];
      cell.UpdateColor();
      Colors := Colors[x := Colors[x][y := cell.color]];
      forall i, j | 0 <= i < |grid| && 0 <= j < |grid[i]|
        ensures grid[i][j].value == Values[i][j] && grid[i][j].color == Colors[i][j]
      {
        if i != x || j != y {
          assert grid[i][j] != cell;
        }
      }
    }
  }
}
