/** Shape and row-major order of a grid stored as a list of rows, as every
    script keeps it (`self.grid[x][y]`, row `x`, column `y`). */
module Grids {
  import Arith

  /** `len(self.grid[0])`, read as 0 for a grid without rows. */
  function Cols<T>(g: seq<seq<T>>): nat {
    if |g| == 0 then 0 else |g[0]|
  }

  /** Every row as long as the first. */
  predicate Rectangular<T>(g: seq<seq<T>>) {
    forall i :: 0 <= i < |g| ==> |g[i]| == Cols(g)
  }

  predicate SameShape<T, U>(a: seq<seq<T>>, b: seq<seq<U>>) {
    |a| == |b| && forall i :: 0 <= i < |a| ==> |a[i]| == |b[i]|
  }

  /** No element occurs at two positions (no cell object is shared). */
  predicate Distinct<T(==)>(g: seq<seq<T>>) {
    forall i, j, k, l ::
      0 <= i < |g| && 0 <= j < |g[i]| && 0 <= k < |g| && 0 <= l < |g[k]| && (i != k || j != l)
      ==> g[i][j] != g[k][l]
  }

  /** Appending a row of new elements to a grid of distinct elements keeps
      them distinct. */
  lemma DistinctAppend<T>(rows: seq<seq<T>>, row: seq<T>, earlier: set<T>)
    requires Distinct(rows)
    requires forall k, l :: 0 <= k < |rows| && 0 <= l < |rows[k]| ==> rows[k][l] in earlier
    requires forall l :: 0 <= l < |row| ==> row[l] !in earlier
    requires forall l, m :: 0 <= l < m < |row| ==> row[l] != row[m]
    ensures Distinct(rows + [row])
  {
    var g := rows + [row];
    forall i, j, k, l |
      0 <= i < |g| && 0 <= j < |g[i]| && 0 <= k < |g| && 0 <= l < |g[k]| && (i != k || j != l)
      ensures g[i][j] != g[k][l]
    {
      if i == |rows| && k == |rows| {
        if j > l { assert row[l] != row[j]; }
      } else if i < |rows| && k < |rows| {
        assert g[i][j] == rows[i][j] && g[k][l] == rows[k][l];
      }
    }
  }

  /** The elements in row-major order: row by row, each row left to right. */
  function Flatten<T>(g: seq<seq<T>>): seq<T> {
    if g == [] then [] else Flatten(g[..|g| - 1]) + g[|g| - 1]
  }

  /** The row-major index `i` of a position in a `rows` by `cols` grid lies
      at row `i // cols`, column `i % cols`. */
  lemma Coords(i: int, rows: nat, cols: nat)
    requires 0 <= i < rows * cols
    ensures cols > 0
    ensures 0 <= i / cols < rows && 0 <= i % cols < cols
    ensures (i / cols) * cols + i % cols == i
  {
    Arith.FloorDiv(i, cols);
    if i / cols >= rows {
      Arith.MulMonotone(rows, i / cols, cols);
    }
  }

  /** Row `x`, column `y` has row-major index `x * cols + y`, and dividing it
      back by `cols` recovers the row and the column. */
  lemma Index(x: int, y: int, rows: nat, cols: nat)
    requires 0 <= x < rows && 0 <= y < cols
    ensures 0 <= x * cols + y < rows * cols
    ensures (x * cols + y) / cols == x && (x * cols + y) % cols == y
  {
    Arith.MulStep(x, rows, cols);
    Arith.DivModUnique(x * cols + y, cols, x, y);
  }

  /** The listing of the first `i + 1` rows extends that of the first `i`
      by row `i`. */
  lemma FlattenPrefix<T>(g: seq<seq<T>>, i: nat)
    requires i < |g|
    ensures Flatten(g[..i + 1]) == Flatten(g[..i]) + g[i]
  {
    assert g[..i + 1][..i] == g[..i];
  }

  /** A row-major index lands inside the grid's rows exactly when it is
      below `rows * cols`. */
  lemma RowInGrid(i: int, rows: nat, cols: nat)
    requires 0 <= i && 0 < cols
    ensures i / cols < rows <==> i < rows * cols
  {
    Arith.FloorDiv(i, cols);
    if i / cols < rows {
      Arith.MulStep(i / cols, rows, cols);
    } else {
      Arith.MulMonotone(rows, i / cols, cols);
    }
  }

  /** Row-major index order is lexicographic order on (row, column). */
  lemma IndexOrder(i: int, j: int, k: int, l: int, cols: nat)
    requires 0 <= j < cols && 0 <= l < cols
    ensures i * cols + j < k * cols + l <==> (i < k || (i == k && j < l))
    ensures i * cols + j == k * cols + l <==> (i == k && j == l)
  {
    if i < k {
      Arith.MulStep(i, k, cols);
    } else if k < i {
      Arith.MulStep(k, i, cols);
    }
  }

  lemma {:induction false} FlattenLength<T>(g: seq<seq<T>>)
    requires Rectangular(g)
    ensures |Flatten(g)| == |g| * Cols(g)
  {
    if g != [] {
      var n, c := |g|, Cols(g);
      var init := g[..n - 1];
      assert Flatten(g) == Flatten(init) + g[n - 1];
      assert Rectangular(init) && (n > 1 ==> Cols(init) == c);
      FlattenLength(init);
      assert |Flatten(init)| == (n - 1) * c;
      assert |g[n - 1]| == c;
      Arith.MulSucc(c, n - 1);
    }
  }

  /** Element `x * cols + y` of the row-major listing is the element at row
      `x`, column `y`. */
  lemma {:induction false} FlattenAt<T>(g: seq<seq<T>>, x: int, y: int)
    requires Rectangular(g) && 0 <= x < |g| && 0 <= y < Cols(g)
    ensures |Flatten(g)| == |g| * Cols(g)
    ensures 0 <= x * Cols(g) + y < |Flatten(g)| && Flatten(g)[x * Cols(g) + y] == g[x][y]
    decreases |g|
  {
    FlattenLength(g);
    Index(x, y, |g|, Cols(g));
    var n := |g|;
    var init := g[..n - 1];
    assert Rectangular(init);
    FlattenLength(init);
    if x < n - 1 {
      assert Cols(init) == Cols(g);
      FlattenAt(init, x, y);
      Index(x, y, n - 1, Cols(g));
    } else {
      assert x * Cols(g) + y - |Flatten(init)| == y;
    }
  }
}
