/** main.py: the resonance grid codec. A token stream is written onto the
    grid in row-major order and read back, a byte buffer is reshaped into a
    square matrix, a grayscale image is thresholded to a 0/1 matrix, and the
    cell colours are concatenated for the digest. */
module Codec {
  import opened Errors
  import Arith
  import Colors
  import Decimal
  import Grids

  // ---------------------------------------------------------------------
  // Encoding: `encode_grid_to_bitstream` appends `str(cell.value)` for each
  // cell in row-major order.
  // ---------------------------------------------------------------------

  /** The concatenation of `str(v)` over a list of values. */
  function EncodeValues(vs: seq<int>): string {
    if vs == [] then "" else EncodeValues(vs[..|vs| - 1]) + Decimal.IntString(vs[|vs| - 1])
  }

  /** The bitstream of a grid of values, row by row. */
  function Encoding(vals: seq<seq<int>>): string {
    EncodeValues(Grids.Flatten(vals))
  }

  /** Appending a value appends its text. */
  lemma EncodeValuesSnoc(vs: seq<int>, v: int)
    ensures EncodeValues(vs + [v]) == EncodeValues(vs) + Decimal.IntString(v)
  {
    assert (vs + [v])[..|vs|] == vs;
  }

  /** Encoding one more value of a row appends that value's text. */
  lemma EncodeValuesExtend(before: seq<int>, row: seq<int>, j: nat)
    requires j < |row|
    ensures EncodeValues(before + row[..j + 1]) == EncodeValues(before + row[..j]) + Decimal.IntString(row[j])
  {
    assert before + row[..j + 1] == (before + row[..j]) + [row[j]];
    EncodeValuesSnoc(before + row[..j], row[j]);
  }

  predicate AllDigits(vs: seq<int>) {
    forall k :: 0 <= k < |vs| ==> 0 <= vs[k] <= 9
  }

  predicate GridDigits(vals: seq<seq<int>>) {
    forall i, j :: 0 <= i < |vals| && 0 <= j < |vals[i]| ==> 0 <= vals[i][j] <= 9
  }

  /** Single-digit values encode one character each, the digit itself. */
  lemma {:induction false} EncodeDigitValues(vs: seq<int>)
    requires AllDigits(vs)
    ensures |EncodeValues(vs)| == |vs|
    ensures forall k :: 0 <= k < |vs| ==> EncodeValues(vs)[k] == Decimal.DigitChar(vs[k])
  {
    if vs != [] {
      EncodeDigitValues(vs[..|vs| - 1]);
    }
  }

  lemma {:induction false} FlattenDigits(vals: seq<seq<int>>)
    requires GridDigits(vals)
    ensures AllDigits(Grids.Flatten(vals))
  {
    if vals != [] {
      FlattenDigits(vals[..|vals| - 1]);
    }
  }

  /** A grid of single digits encodes to a string of digit characters. */
  lemma EncodingDigits(vals: seq<seq<int>>)
    requires GridDigits(vals)
    ensures forall k :: 0 <= k < |Encoding(vals)| ==> Decimal.IsDigit(Encoding(vals)[k])
  {
    FlattenDigits(vals);
    EncodeDigitValues(Grids.Flatten(vals));
  }

  /** For a rectangular grid of digits, character `x * cols + y` of the
      bitstream is the digit of the cell at row `x`, column `y`. */
  lemma EncodingAt(vals: seq<seq<int>>, x: int, y: int)
    requires Grids.Rectangular(vals) && GridDigits(vals)
    requires 0 <= x < |vals| && 0 <= y < Grids.Cols(vals)
    ensures 0 <= x * Grids.Cols(vals) + y < |Encoding(vals)|
    ensures Encoding(vals)[x * Grids.Cols(vals) + y] == Decimal.DigitChar(vals[x][y])
  {
    FlattenDigits(vals);
    EncodeDigitValues(Grids.Flatten(vals));
    Grids.FlattenAt(vals, x, y);
  }

  lemma EncodingLength(vals: seq<seq<int>>)
    requires Grids.Rectangular(vals) && GridDigits(vals)
    ensures |Encoding(vals)| == |vals| * Grids.Cols(vals)
  {
    FlattenDigits(vals);
    EncodeDigitValues(Grids.Flatten(vals));
    Grids.FlattenLength(vals);
  }

  // ---------------------------------------------------------------------
  // Decoding: `map_bits_to_grid` walks the stream with `enumerate`, sends
  // token `i` to row `i // cols`, column `i % cols`, stops at the first row
  // past the grid, and sets each reached cell to `int(bit)`.
  // ---------------------------------------------------------------------

  /** How many tokens the loop reaches before `x >= len(self.grid)` breaks
      it: the shorter of the stream and the grid. */
  function Reach(vals: seq<seq<int>>, s: string): (n: nat)
    ensures n <= |s| && n <= |vals| * Grids.Cols(vals)
    ensures n == |s| || n == |vals| * Grids.Cols(vals)
  {
    var size := |vals| * Grids.Cols(vals);
    if |s| < size then |s| else size
  }

  /** The position of the first character among the first `n` that is not a
      decimal digit, or `n` when there is none. */
  function FirstNonDigit(s: string, n: nat): (k: nat)
    requires n <= |s|
    ensures k <= n
    ensures forall i :: 0 <= i < k ==> Decimal.IsDigit(s[i])
    ensures k < n ==> !Decimal.IsDigit(s[k])
  {
    if n == 0 then 0
    else
      var k := FirstNonDigit(s, n - 1);
      if k < n - 1 then k else if Decimal.IsDigit(s[n - 1]) then n else n - 1
  }

  /** How `map_bits_to_grid` ends on a rectangular grid: a non-empty stream
      on a grid without rows fails on `self.grid[0]`, on rows without columns
      fails on `i // 0`, and a reached character that is not a digit fails in
      `int(bit)`. A ragged grid, whose short rows would raise IndexError, is
      outside this description. */
  function DecodeStatus(vals: seq<seq<int>>, s: string): Status {
    if |s| == 0 then Done
    else if |vals| == 0 then Failed(IndexError)
    else if Grids.Cols(vals) == 0 then Failed(ZeroDivisionError)
    else if FirstNonDigit(s, Reach(vals, s)) < Reach(vals, s) then Failed(ValueError)
    else Done
  }

  /** How many tokens are written before the loop ends or raises. */
  function Written(vals: seq<seq<int>>, s: string): (n: nat)
    ensures n <= Reach(vals, s)
    ensures forall k :: 0 <= k < n ==> Decimal.IsDigit(s[k])
  {
    if |s| == 0 || |vals| == 0 || Grids.Cols(vals) == 0 then 0
    else FirstNonDigit(s, Reach(vals, s))
  }

  /** The values after the first `n` tokens have been written. */
  function Overwrite(vals: seq<seq<int>>, s: string, n: nat): (r: seq<seq<int>>)
    requires n <= |s| && forall k :: 0 <= k < n ==> Decimal.IsDigit(s[k])
    ensures Grids.SameShape(r, vals)
  {
    var cols := Grids.Cols(vals);
    seq(|vals|, i requires 0 <= i < |vals| =>
      seq(|vals[i]|, j requires 0 <= j < |vals[i]| =>
        if i * cols + j < n then Decimal.DigitValue(s[i * cols + j]) else vals[i][j]))
  }

  /** The values `map_bits_to_grid` leaves on a rectangular grid, whether it
      completes or raises part way. */
  function Decoded(vals: seq<seq<int>>, s: string): seq<seq<int>> {
    Overwrite(vals, s, Written(vals, s))
  }

  /** Writing no token changes nothing. */
  lemma OverwriteNone(vals: seq<seq<int>>, s: string)
    ensures Overwrite(vals, s, 0) == vals
  {
    var r := Overwrite(vals, s, 0);
    forall i | 0 <= i < |vals| ensures r[i] == vals[i] {
      assert forall j :: 0 <= j < |vals[i]| ==> r[i][j] == vals[i][j];
    }
  }

  /** Writing token `n` changes exactly the cell at row `n // cols`, column
      `n % cols`. */
  lemma OverwriteStep(vals: seq<seq<int>>, s: string, n: nat)
    requires Grids.Rectangular(vals) && n < |vals| * Grids.Cols(vals)
    requires n < |s| && forall k :: 0 <= k <= n ==> Decimal.IsDigit(s[k])
    ensures Grids.Cols(vals) > 0 && n / Grids.Cols(vals) < |vals| && n % Grids.Cols(vals) < Grids.Cols(vals)
    ensures
      var cols := Grids.Cols(vals);
      var x, y := n / cols, n % cols;
      var before := Overwrite(vals, s, n);
      Overwrite(vals, s, n + 1) == before[x := before[x][y := Decimal.DigitValue(s[n])]]
  {
    var cols := Grids.Cols(vals);
    Grids.Coords(n, |vals|, cols);
    var x, y := n / cols, n % cols;
    var before, after := Overwrite(vals, s, n), Overwrite(vals, s, n + 1);
    var expected := before[x := before[x][y := Decimal.DigitValue(s[n])]];
    forall i | 0 <= i < |vals|
      ensures after[i] == expected[i]
    {
      forall j | 0 <= j < |vals[i]|
        ensures after[i][j] == expected[i][j]
      {
        Grids.IndexOrder(i, j, x, y, cols);
      }
    }
  }

  /** Token `i` of the stream lands in the cell at row `i // cols`, column
      `i % cols` when the decoder reaches it without raising. */
  lemma DecodeWrites(vals: seq<seq<int>>, s: string, i: nat)
    requires Grids.Rectangular(vals) && i < |vals| * Grids.Cols(vals)
    requires i < |s| && DecodeStatus(vals, s) == Done
    ensures Grids.Cols(vals) > 0 && Decimal.IsDigit(s[i])
    ensures i / Grids.Cols(vals) < |vals| && i % Grids.Cols(vals) < Grids.Cols(vals)
    ensures Decoded(vals, s)[i / Grids.Cols(vals)][i % Grids.Cols(vals)] == Decimal.DigitValue(s[i])
  {
    var cols := Grids.Cols(vals);
    Grids.Coords(i, |vals|, cols);
    var x, y := i / cols, i % cols;
    var w := Written(vals, s);
    assert w == Reach(vals, s) && i < w;
    assert Decoded(vals, s)[x][y] == Overwrite(vals, s, w)[x][y];
  }

  /** A cell whose row-major index is at or past the end of a short stream
      keeps its value. */
  lemma DecodeKeeps(vals: seq<seq<int>>, s: string, i: nat)
    requires Grids.Rectangular(vals) && i < |vals| * Grids.Cols(vals)
    requires i >= |s|
    ensures Grids.Cols(vals) > 0
    ensures i / Grids.Cols(vals) < |vals| && i % Grids.Cols(vals) < Grids.Cols(vals)
    ensures Decoded(vals, s)[i / Grids.Cols(vals)][i % Grids.Cols(vals)]
         == vals[i / Grids.Cols(vals)][i % Grids.Cols(vals)]
  {
    var cols := Grids.Cols(vals);
    Grids.Coords(i, |vals|, cols);
    var x, y := i / cols, i % cols;
    var w := Written(vals, s);
    assert x * cols + y == i;
    assert w <= i;
    var r := Overwrite(vals, s, w);
    assert r[x][y] == vals[x][y];
  }

  /** Tokens past the first `rows * cols` are never read: appending to a
      stream that already covers the grid changes neither the values written
      nor the outcome. */
  lemma DecodeIgnoresTail(vals: seq<seq<int>>, s: string, tail: string)
    requires |s| >= |vals| * Grids.Cols(vals) && |s| > 0
    ensures Decoded(vals, s + tail) == Decoded(vals, s)
    ensures DecodeStatus(vals, s + tail) == DecodeStatus(vals, s)
  {
    var n := Reach(vals, s);
    assert Reach(vals, s + tail) == n;
    FirstNonDigitPrefix(s, s + tail, n);
    var w := Written(vals, s);
    assert Written(vals, s + tail) == w;
    var a, b := Overwrite(vals, s + tail, w), Overwrite(vals, s, w);
    forall i | 0 <= i < |vals| ensures a[i] == b[i] {
      assert forall j :: 0 <= j < |vals[i]| ==> a[i][j] == b[i][j];
    }
  }

  lemma {:induction false} FirstNonDigitPrefix(s: string, t: string, n: nat)
    requires n <= |s| <= |t| && s == t[..|s|]
    ensures FirstNonDigit(s, n) == FirstNonDigit(t, n)
  {
    if n > 0 {
      FirstNonDigitPrefix(s, t, n - 1);
    }
  }

  /** `map_bits_to_grid` raises exactly when the stream is non-empty and the
      grid has no row, or no column, or a character it reaches is not a
      digit; an empty stream never raises. */
  lemma DecodeFailsIff(vals: seq<seq<int>>, s: string)
    requires Grids.Rectangular(vals)
    ensures DecodeStatus(vals, s).Failed? <==>
      |s| > 0 && (|vals| == 0 || Grids.Cols(vals) == 0 ||
                  exists k :: 0 <= k < Reach(vals, s) && !Decimal.IsDigit(s[k]))
    ensures DecodeStatus(vals, s) == Failed(ValueError) ==>
      !Decimal.IsDigit(s[Written(vals, s)]) && Written(vals, s) < Reach(vals, s)
  {
    var n := Reach(vals, s);
    var k := FirstNonDigit(s, n);
    if exists k' :: 0 <= k' < n && !Decimal.IsDigit(s[k']) {
      var k' :| 0 <= k' < n && !Decimal.IsDigit(s[k']);
      assert k <= k';
    }
  }

  /** Round trip: decoding a grid's own bitstream into any grid of the same
      shape succeeds and reproduces every value, provided every value is a
      single digit 0..9. */
  lemma RoundTrip(vals: seq<seq<int>>, target: seq<seq<int>>)
    requires Grids.Rectangular(vals) && GridDigits(vals) && Grids.SameShape(target, vals)
    ensures DecodeStatus(target, Encoding(vals)) == Done
    ensures Decoded(target, Encoding(vals)) == vals
  {
    var s, cols := Encoding(vals), Grids.Cols(vals);
    EncodingLength(vals);
    assert Grids.Cols(target) == cols;
    assert Reach(target, s) == |s|;
    EncodingDigits(vals);
    assert FirstNonDigit(s, |s|) == |s|;
    var r := Decoded(target, s);
    forall i | 0 <= i < |vals| ensures r[i] == vals[i] {
      forall j | 0 <= j < |vals[i]| ensures r[i][j] == vals[i][j] {
        Grids.Index(i, j, |vals|, cols);
        EncodingAt(vals, i, j);
      }
    }
  }

  /** A value of 10 or more breaks the round trip: `str(10)` is two tokens,
      so the one cell of a 1 by 1 grid holding 10 decodes to 1. */
  lemma RoundTripNeedsDigits()
    ensures Encoding([[10]]) == "10"
    ensures Decoded([[0]], Encoding([[10]])) == [[1]]
  {
    assert Grids.Flatten([[10]]) == [10] by {
      assert [[10]][..0] == [];
    }
    assert Decimal.IntString(10) == "10" by {
      assert Decimal.NatString(10) == Decimal.NatString(1) + [Decimal.DigitChar(0)];
    }
    assert EncodeValues([10]) == "10" by {
      assert [10][..0] == [];
    }
    assert Reach([[0]], "10") == 1;
    assert FirstNonDigit("10", 1) == 1;
    assert Written([[0]], "10") == 1;
    var r := Decoded([[0]], "10");
    assert Grids.Cols([[0]]) == 1 && "10"[0] == '1' && Decimal.DigitValue('1') == 1;
    assert r[0][0] == Overwrite([[0]], "10", 1)[0][0];
    assert |r| == 1 && |r[0]| == 1 && r[0][0] == 1;
    assert r[0] == [1];
  }

  // ---------------------------------------------------------------------
  // Files: `file_to_grid` reshapes the bytes of a file into the largest
  // square that fits; `grid_to_file` writes the values back as decimal
  // text; the bitstream loader reshapes a digit string the same way.
  // ---------------------------------------------------------------------

  type Byte = b: int | 0 <= b < 256

  /** The first `side * side` elements of `content` as `side` rows of
      `side` elements, in row-major order. */
  function Reshape<T>(content: seq<T>, side: nat): (m: seq<seq<T>>)
    requires side * side <= |content|
    ensures |m| == side && forall i :: 0 <= i < side ==> |m[i]| == side
  {
    seq(side, i requires 0 <= i < side =>
      seq(side, j requires 0 <= j < side =>
        Grids.Index(i, j, side, side); content[i * side + j]))
  }

  /** Row `i`, column `j` of the reshaped square holds element
      `i * side + j`. */
  lemma ReshapeAt<T>(content: seq<T>, side: nat, i: int, j: int)
    requires side * side <= |content| && 0 <= i < side && 0 <= j < side
    ensures i * side + j < side * side && Reshape(content, side)[i][j] == content[i * side + j]
  {
    Grids.Index(i, j, side, side);
  }

  /** Elements past the first `side * side` do not reach the square. */
  lemma ReshapePrefix<T>(content: seq<T>, side: nat, n: nat)
    requires side * side <= n <= |content|
    ensures Reshape(content[..n], side) == Reshape(content, side)
  {
    var a, b := Reshape(content[..n], side), Reshape(content, side);
    forall i | 0 <= i < side ensures a[i] == b[i] {
      forall j | 0 <= j < side ensures a[i][j] == b[i][j] {
        ReshapeAt(content[..n], side, i, j);
        ReshapeAt(content, side, i, j);
      }
    }
  }

  /** The largest square of `content` in row-major order; the rest is
      dropped. */
  function SquareReshape<T>(content: seq<T>): (m: seq<seq<T>>)
    ensures |m| == Arith.FloorSqrt(|content|)
    ensures forall i :: 0 <= i < |m| ==> |m[i]| == |m|
  {
    Reshape(content, Arith.FloorSqrt(|content|))
  }

  /** Row `i`, column `j` of the square holds element `i * side + j`. */
  lemma SquareReshapeAt<T>(content: seq<T>, i: int, j: int)
    requires 0 <= i < Arith.FloorSqrt(|content|) && 0 <= j < Arith.FloorSqrt(|content|)
    ensures
      var side := Arith.FloorSqrt(|content|);
      i * side + j < |content| && SquareReshape(content)[i][j] == content[i * side + j]
  {
    ReshapeAt(content, Arith.FloorSqrt(|content|), i, j);
  }

  /** `file_to_grid`: a `side` by `side` matrix of the file's bytes, with
      `side = int(len(content) ** 0.5)`; the trailing
      `len(content) - side * side` bytes are dropped without error. */
  function FileToGrid(content: seq<Byte>): (m: seq<seq<int>>)
    ensures |m| * |m| <= |content| < (|m| + 1) * (|m| + 1)
    ensures Grids.Rectangular(m) && (|m| > 0 ==> Grids.Cols(m) == |m|)
  {
    SquareReshape(content)
  }

  /** Row `i`, column `j` of the file's matrix is byte `i * side + j`. */
  lemma FileToGridAt(content: seq<Byte>, i: int, j: int)
    requires 0 <= i < |FileToGrid(content)| && 0 <= j < |FileToGrid(content)|
    ensures
      var side := |FileToGrid(content)|;
      i * side + j < |content| && FileToGrid(content)[i][j] == content[i * side + j]
  {
    SquareReshapeAt(content, i, j);
  }

  /** Only the first `side * side` bytes matter: cutting the dropped tail
      off first gives the same matrix. */
  lemma FileToGridIgnoresTail(content: seq<Byte>)
    ensures
      var side := Arith.FloorSqrt(|content|);
      side * side <= |content| && FileToGrid(content[..side * side]) == FileToGrid(content)
  {
    var side := Arith.FloorSqrt(|content|);
    Arith.FloorSqrtOfSquare(side);
    assert |content[..side * side]| == side * side;
    ReshapePrefix(content, side, side * side);
  }

  /** A ten-byte file gives a 3 by 3 grid from the first nine bytes. */
  lemma TenBytesMakeThreeByThree(content: seq<Byte>)
    requires |content| == 10
    ensures |FileToGrid(content)| == 3
    ensures FileToGrid(content)[2][2] == content[8]
  {
    var side := Arith.FloorSqrt(10);
    if side < 3 {
      Arith.MulMonotone(side + 1, 3, side + 1);
    } else if side > 3 {
      Arith.MulMonotone(4, side, side);
    }
    FileToGridAt(content, 2, 2);
  }

  /** The bitstream loader: the same square reshape of a digit string, each
      character read with `int(c)`, which raises for a non-digit. */
  function LoadBitstream(s: string): Result<seq<seq<int>>> {
    var side := Arith.FloorSqrt(|s|);
    var m := SquareReshape(s);
    Grids.Index(0, 0, 1, 1);
    if FirstNonDigit(s, side * side) < side * side then Err(ValueError)
    else
      Ok(seq(side, i requires 0 <= i < side =>
        seq(side, j requires 0 <= j < side =>
          Grids.Index(i, j, side, side); Decimal.DigitValue(m[i][j]))))
  }

  /** Saving the bitstream of a square grid of digits and loading it back
      gives the same values. */
  lemma BitstreamRoundTrip(vals: seq<seq<int>>)
    requires Grids.Rectangular(vals) && GridDigits(vals) && Grids.Cols(vals) == |vals|
    ensures LoadBitstream(Encoding(vals)) == Ok(vals)
  {
    var s, n := Encoding(vals), |vals|;
    EncodingLength(vals);
    Arith.FloorSqrtOfSquare(n);
    EncodingDigits(vals);
    assert Arith.FloorSqrt(|s|) == n;
    assert FirstNonDigit(s, n * n) == n * n;
    assert LoadBitstream(s).Ok?;
    var m := LoadBitstream(s).value;
    assert |m| == n;
    forall i | 0 <= i < n ensures m[i] == vals[i] {
      assert |m[i]| == n == |vals[i]|;
      forall j | 0 <= j < n ensures m[i][j] == vals[i][j] {
        BitstreamCell(vals, i, j);
      }
    }
    assert m == vals;
  }

  /** One cell of the round trip: the character at `i * n + j` of the
      bitstream is the digit of `vals[i][j]`. */
  lemma BitstreamCell(vals: seq<seq<int>>, i: int, j: int)
    requires Grids.Rectangular(vals) && GridDigits(vals) && Grids.Cols(vals) == |vals|
    requires 0 <= i < |vals| && 0 <= j < |vals|
    ensures
      var s := Encoding(vals);
      Arith.FloorSqrt(|s|) == |vals| &&
      SquareReshape(s)[i][j] == Decimal.DigitChar(vals[i][j])
  {
    var s, n := Encoding(vals), |vals|;
    EncodingLength(vals);
    assert |s| == n * n;
    Arith.FloorSqrtOfSquare(n);
    assert Arith.FloorSqrt(|s|) == n;
    var k := i * n + j;
    EncodingAt(vals, i, j);
    assert s[k] == Decimal.DigitChar(vals[i][j]);
    SquareReshapeAt(s, i, j);
    assert SquareReshape(s)[i][j] == s[k];
  }

  /** `grid_to_file`'s content: `str(matrix[i][j])` for `i` and `j` both
      below `len(matrix)`, joined in row-major order. A row shorter than the
      row count raises; columns past it are not written. */
  function GridToFileContent(matrix: seq<seq<int>>): Result<string> {
    var n := |matrix|;
    if exists i :: 0 <= i < n && |matrix[i]| < n then Err(IndexError)
    else Ok(Encoding(seq(n, i requires 0 <= i < n => matrix[i][..n])))
  }

  /** For a square matrix the file content is exactly the bitstream. */
  lemma FileContentIsBitstream(matrix: seq<seq<int>>)
    requires Grids.Rectangular(matrix) && Grids.Cols(matrix) == |matrix|
    ensures GridToFileContent(matrix) == Ok(Encoding(matrix))
  {
    var n := |matrix|;
    var cut := seq(n, i requires 0 <= i < n => matrix[i][..n]);
    forall i | 0 <= i < n ensures cut[i] == matrix[i] {
    }
    assert cut == matrix;
  }

  /** `content.encode()` for text made of ASCII characters: UTF-8 writes
      each character below 128 as the single byte of its code. */
  function Ascii(s: string): (b: seq<Byte>)
    requires forall k :: 0 <= k < |s| ==> s[k] as int < 128
    ensures |b| == |s| && forall k :: 0 <= k < |s| ==> b[k] == s[k] as int
  {
    seq(|s|, k requires 0 <= k < |s| => s[k] as int)
  }

  /** `file_to_grid` does not invert `grid_to_file`: reading back the file
      written for a square grid of digits gives each digit's character code,
      the digit plus 48. */
  lemma FileRoundTripAddsAsciiZero(matrix: seq<seq<int>>)
    requires Grids.Rectangular(matrix) && GridDigits(matrix) && Grids.Cols(matrix) == |matrix|
    ensures GridToFileContent(matrix).Ok?
    ensures forall k :: 0 <= k < |GridToFileContent(matrix).value| ==> GridToFileContent(matrix).value[k] as int < 128
    ensures
      var back := FileToGrid(Ascii(GridToFileContent(matrix).value));
      Grids.SameShape(back, matrix) &&
      forall i, j :: 0 <= i < |matrix| && 0 <= j < |matrix| ==> back[i][j] == matrix[i][j] + 48
  {
    FileContentIsBitstream(matrix);
    var s, n := Encoding(matrix), |matrix|;
    EncodingLength(matrix);
    EncodingDigits(matrix);
    Arith.FloorSqrtOfSquare(n);
    var back := FileToGrid(Ascii(s));
    forall i, j | 0 <= i < n && 0 <= j < n ensures back[i][j] == matrix[i][j] + 48 {
      EncodingAt(matrix, i, j);
      FileToGridAt(Ascii(s), i, j);
    }
  }

  // ---------------------------------------------------------------------
  // Images: `load_image` thresholds each pixel's gray level.
  // ---------------------------------------------------------------------

  /** `int((r + g + b) / 3)`: the gray level of a pixel. Above 128 exactly
      when the channel sum reaches 387. */
  function Gray(p: Colors.Rgb): (g: nat)
    ensures g <= 255
    ensures g > 128 <==> p.r + p.g + p.b >= 387
  {
    (p.r + p.g + p.b) / 3
  }

  /** `load_image` on decoded pixels, `pixels[y][x]` being `getpixel((x, y))`:
      a `height` by `width` matrix holding 1 where the gray level exceeds 128
      and 0 elsewhere. */
  method LoadImage(width: nat, height: nat, pixels: seq<seq<Colors.Rgb>>) returns (matrix: seq<seq<int>>)
    requires |pixels| == height && forall y :: 0 <= y < height ==> |pixels[y]| == width
    ensures |matrix| == height && forall y :: 0 <= y < height ==> |matrix[y]| == width
    ensures forall y, x :: 0 <= y < height && 0 <= x < width ==>
      (matrix[y][x] == 0 || matrix[y][x] == 1) && (matrix[y][x] == 1 <==> Gray(pixels[y][x]) > 128)
  {
    matrix := seq(height, _ => seq(width, _ => 0));
    for x := 0 to width
      invariant |matrix| == height && forall y :: 0 <= y < height ==> |matrix[y]| == width
      invariant forall y, x' :: 0 <= y < height && 0 <= x' < width ==>
        matrix[y][x'] == if x' < x then (if Gray(pixels[y][x']) > 128 then 1 else 0) else 0
    {
      for y := 0 to height
        invariant |matrix| == height && forall y' :: 0 <= y' < height ==> |matrix[y']| == width
        invariant forall y', x' :: 0 <= y' < height && 0 <= x' < width ==>
          matrix[y'][x'] == if x' < x || (x' == x && y' < y) then (if Gray(pixels[y'][x']) > 128 then 1 else 0) else 0
      {
        var p := pixels[y][x];
        var grayValue := (p.r + p.g + p.b) / 3;
        matrix := matrix[y := matrix[y][x := if grayValue > 128 then 1 else 0]];
      }
    }
  }

  // ---------------------------------------------------------------------
  // Digest input: `generate_hash_from_grid` hashes the cell colours joined
  // in row-major order. The hash itself is not modelled.
  // ---------------------------------------------------------------------

  /** The colour strings joined without separator. */
  function Joined(colors: seq<string>): string {
    if colors == [] then "" else Joined(colors[..|colors| - 1]) + colors[|colors| - 1]
  }

  /** Each colour occupies its own seven characters of the joined text. */
  lemma {:induction false} JoinedBlocks(colors: seq<string>)
    requires Colors.AllColors(colors)
    ensures |Joined(colors)| == 7 * |colors|
    ensures forall k :: 0 <= k < |colors| ==> Joined(colors)[7 * k..7 * k + 7] == colors[k]
  {
    if colors != [] {
      var n := |colors|;
      JoinedBlocks(colors[..n - 1]);
      var j := Joined(colors);
      forall k | 0 <= k < n ensures j[7 * k..7 * k + 7] == colors[k] {
        if k < n - 1 {
          assert j[7 * k..7 * k + 7] == Joined(colors[..n - 1])[7 * k..7 * k + 7];
        }
      }
    }
  }

  /** The digest input determines every colour: two grids whose joined
      colours agree show the same colour in every cell. */
  lemma JoinedInjective(a: seq<string>, b: seq<string>)
    requires Colors.AllColors(a) && Colors.AllColors(b) && Joined(a) == Joined(b)
    ensures a == b
  {
    JoinedBlocks(a);
    JoinedBlocks(b);
    forall k | 0 <= k < |a| ensures a[k] == b[k] {
    }
  }
}
