# Grid-of-cells codec and transforms

This project models the small engine shared by the five scripts of the
`sight` repository. The engine is a grid of `Cell` objects stored as a list
of rows. Each cell holds a value and a colour string derived from that
value. Each script contributes its part, and each part is one Dafny module:

| script | module | what it does with the grid |
|---|---|---|
| `main.py` | `Codec`, `MainGrid` | writes a digit stream onto the grid in row-major order and reads it back; reshapes a byte buffer into a square matrix; thresholds a grayscale image to 0/1; joins the colours for the digest |
| `random7.py` | `SchemaGrid` | hue with a schema offset; a resonance step `(v + f) % 10`; the grid's average colour |
| `server.py` | `GridServer` | a counter-based id generator; cells that repaint on `set_value`; the resonance step; the id-to-colour map and the average colour |
| `network.py` | `SpiralGrid` | a positional integer colour; a spiral update `(v + p) % 360` of every cell within an inclusive Euclidean radius |
| `rekeying.py` | `SpinGrid` | an in-place neighbour-averaging sweep over real values, then a blue/green/red recolouring |

Shared pure modules:
- `Errors` holds the Python exceptions the code can raise, as values: `IndexError`, `ZeroDivisionError` and `ValueError`.
- `Hex` is `{:0Nx}` formatting and `int(s, 16)` parsing.
- `Decimal` is `str(v)` and `int(c)`.
- `Colors` holds the `#rrggbb` colour strings, the hue rotation `(v * 36) % 360` and channel averaging.
- `Grids` covers shape and row-major index arithmetic.
- `Resonance` specifies the modular shift.
- `Arith` holds integer lemmas.

Objects the scripts update in place are classes:
- Each grid class keeps its cells in a `grid: seq<seq<Cell>>`.
- A ghost `Values` mirrors the cell values, and a ghost `Repr` holds the set of cells.
- `Valid()` says that no cell object is shared and that every cell holds its recorded value.
- In `MainGrid`, `SchemaGrid`, `GridServer` and `SpiralGrid`, `Valid()` also says that every cell shows the colour of its value, because those scripts recompute the colour on every value change.
- In `SpinGrid` the colours are a separate ghost `Colors` grid. It starts all white and changes only in the recolour pass of `spin_cells`, so a cell's colour can lag behind its value, as in `rekeying.py`.
- The loops that update cells or accumulate results are methods with loops: decoding, encoding, image thresholding, the resonance, spiral and spin sweeps, the recolour pass, neighbour gathering, id and colour-map collection, and the colour averages. Each method's contract ties its result or the new `Values` to a specification function, whose properties are proved as lemmas.
- The list comprehensions remain functions: `file_to_grid`'s reshape (`Codec.FileToGrid`), the bitstream loader (`Codec.LoadBitstream`) and `grid_to_file`'s join (`Codec.GridToFileContent`).

HLS conversion (`colorsys.hls_to_rgb` followed by `int(x * 255)`) is floating point. The model takes it as a parameter `hls: int -> Rgb`, a function from the integer hue to three channels in 0..255.

The code is followed where it differs from the design described for the system:
- `spin_cells` updates the values in place while it sweeps. Later cells therefore read their earlier neighbours' new values. The model is this sequential sweep, not a snapshot-then-write diffusion. `SpinGrid.SweepIsSequential` exhibits the difference.
- The only path from an image to a grid is a grayscale threshold. The code has no nearest-palette quantizer.
- The stream codec writes `str(value)`, which is one digit only for values 0..9. It is not a fixed-width token.

## Model

| member | source | states |
|---|---|---|
| Hex.ParsePadded | server.py:59 | reading back a number written as zero-padded hex gives the number |
| Hex.PaddedInjective | server.py:17 | two numbers with the same zero-padded hex text are equal |
| Hex.PaddedWidth | server.py:17 | a number below 16^w is written with exactly w hex digits |
| Decimal.DigitValue | main.py:38 | `int(c)` of a decimal digit is in 0..9, and `str` of it gives back the same character |
| Decimal.IntString | main.py:45 | `str(v)` is non-empty; it is one character exactly when v is in 0..9, and then it is v's digit |
| Colors.Hex2Reads | server.py:66 | a channel written with `:02x` is two hex digits that parse back to the channel |
| Colors.FormatReads | server.py:59 | `#rrggbb` built from three channels is a well-formed colour whose three pairs parse back to those channels |
| Colors.BaseHue | main.py:15 | the hue `(v * 36) % 360` is a multiple of 36 in [0, 360), equal to 36 times v mod 10 |
| Colors.HueColorReads | main.py:16-17 | the colour of a hue is well formed and carries the converted channels of that hue |
| Colors.HueColorPeriodic | main.py:15 | values that differ by a multiple of 10 get the same colour |
| Colors.Total | server.py:56-62 | a channel total over n colours is at most 255 * n |
| Colors.MeanChannel | server.py:63-65 | the averaged channel c is the floor of total / n: c * n <= total < c * n + n |
| Colors.HueTotalIsTotal | random7.py:48-54 | summing the channels of each value's hue colour equals summing the parsed channels of the painted colour strings |
| Colors.TotalWithin | server.py:57-62 | channel totals lie between n * lo and n * hi when each colour's channel lies in [lo, hi] |
| Colors.MeanWithin | server.py:63-65 | each mean channel lies between the least and greatest channel of the averaged colours |
| Colors.MeanOfUniform | server.py:52-66 | the average of n copies of one colour is that colour |
| Grids.Coords | main.py:34-35 | row-major index i below rows * cols lands at row `i // cols` < rows and column `i % cols` < cols, and they recompose to i |
| Grids.Index | main.py:34-35 | the index `x * cols + y` of a cell divides back to row x and column y |
| Grids.RowInGrid | main.py:36-37 | the `x >= len(self.grid)` break fires exactly when the index reaches rows * cols |
| Grids.IndexOrder | main.py:33-35 | row-major index order is lexicographic (row, column) order, and distinct cells get distinct indices |
| Grids.FlattenLength | server.py:47 | flattening a rectangular grid lists rows * cols cells |
| Grids.FlattenAt | server.py:47 | entry `x * cols + y` of the flattened list is the cell at row x, column y |
| Resonance.Shifted | random7.py:63-65 | the resonance step keeps the grid's shape |
| Resonance.ShiftedInDomain | random7.py:65 | after a resonance step every value lies in [0, 10) |
| Resonance.ShiftedCompose | random7.py:65 | shifting by f1 and then by f2 equals one shift by f1 + f2 |
| Resonance.ShiftedPeriodic | random7.py:65 | frequencies that differ by 10 act alike, and a shift by 10 leaves in-domain values unchanged |
| Resonance.ShiftedBeforeStep | random7.py:63-66 | visiting one cell in row-major order sets it to `(v + f) % 10` and changes no other cell |
| Resonance.ShiftedBeforeEnd | random7.py:63-66 | after every row has been visited, the grid is the shifted grid |
| Codec.EncodeDigitValues | main.py:43-45 | for single-digit values the stream has one character per value, and that character is the value's digit |
| Codec.Encoding | main.py:41-46 | the bitstream: `str` of every value in row-major order; its length and positions are stated by `Codec.EncodingLength` and `Codec.EncodingAt` |
| Codec.EncodingDigits | main.py:45 | a grid of digit values encodes to a string of decimal digits only |
| Codec.EncodingAt | main.py:41-46 | character `x * cols + y` of the bitstream is the digit of cell (x, y) |
| Codec.EncodingLength | main.py:41-46 | a rectangular grid of digits encodes to exactly rows * cols characters |
| Codec.Reach | main.py:33-37 | the decode loop reaches min(len(stream), rows * cols) tokens before it breaks |
| Codec.FirstNonDigit | main.py:38 | the first reached character that is not a digit, where `int(bit)` raises; every earlier one is a digit |
| Codec.Written | main.py:33-39 | the tokens written before the loop ends or raises are all digits and all within reach |
| Codec.DecodeStatus | main.py:32-39 | the outcome of decoding on a rectangular grid: IndexError for no rows, ZeroDivisionError for no columns, ValueError at a reached non-digit, otherwise done; characterised by `Codec.DecodeFailsIff` |
| Codec.Overwrite | main.py:38 | writing tokens keeps the grid's shape |
| Codec.Decoded | main.py:32-39 | the values decoding leaves, including those written before an exception; stated cell by cell by `Codec.DecodeWrites` and `Codec.DecodeKeeps` |
| Codec.OverwriteStep | main.py:38 | writing token n changes only cell (n // cols, n % cols), to `int(s[n])` |
| Codec.DecodeWrites | main.py:32-39 | a completed decode sets cell (i // cols, i % cols) to `int(stream[i])` for every reached i |
| Codec.DecodeKeeps | main.py:33 | cells whose index is at least len(stream) keep their prior value |
| Codec.DecodeIgnoresTail | main.py:36-37 | characters past rows * cols change neither the result nor the outcome |
| Codec.DecodeFailsIff | main.py:34-38 | on a rectangular grid, decoding a non-empty stream fails exactly when the grid has no rows, has no columns, or a reached character is not a digit, and a ValueError sits at the first such character |
| Codec.RoundTrip | main.py:32-46 | decoding a grid's own bitstream into a grid of the same shape succeeds and reproduces every value in 0..9 |
| Codec.RoundTripNeedsDigits | main.py:38-45 | the round trip fails for a value of 10: `[[10]]` encodes to "10" and decodes to `[[1]]` |
| Codec.Reshape | main.py:63-64 | the comprehension yields a side-by-side matrix |
| Codec.ReshapeAt | main.py:63-64 | `matrix[i][j]` is `content[i * side + j]` |
| Codec.SquareReshape | main.py:62-64 | the side is the integer square root of the length, and the matrix is square |
| Codec.SquareReshapeAt | main.py:62-64 | entry (i, j) of the square is element `i * side + j`, which lies inside the content |
| Codec.FileToGrid | main.py:59-65 | `file_to_grid` gives a square matrix whose side satisfies side² <= len < (side + 1)² |
| Codec.FileToGridAt | main.py:63-64 | entry (i, j) of the file's matrix is byte `i * side + j` |
| Codec.FileToGridIgnoresTail | main.py:62-64 | the trailing len - side² bytes are dropped: cutting them first gives the same matrix |
| Codec.TenBytesMakeThreeByThree | main.py:62-64 | a ten-byte file gives a 3 by 3 grid that ends with the ninth byte |
| Codec.LoadBitstream | main.py:177-179 | the bitstream loader: the square reshape of the text with `int(c)` on each kept character, ValueError for a non-digit; inverted by `Codec.BitstreamRoundTrip` |
| Codec.BitstreamRoundTrip | main.py:177-179 | loading the saved bitstream of a square grid of digits gives back the grid |
| Codec.BitstreamCell | main.py:177-179 | the loader's side for such a bitstream is the grid's side, and its entry (i, j) is the digit of cell (i, j) |
| Codec.GridToFileContent | main.py:68-71 | `grid_to_file`'s text: `str(matrix[i][j])` for i and j below the row count, IndexError when a row is shorter; equal to the bitstream for square matrices (`Codec.FileContentIsBitstream`) |
| Codec.FileContentIsBitstream | main.py:69-71 | the text `grid_to_file` writes for a square matrix is its bitstream |
| Codec.Ascii | main.py:73 | UTF-8 `encode()` of text whose characters are all below 128 keeps the length and gives each character's code |
| Codec.FileRoundTripAddsAsciiZero | main.py:59-73 | `grid_to_file` then `file_to_grid` is not the identity: each digit comes back as its character code, the digit plus 48 |
| Codec.Gray | main.py:88-89 | the gray level is at most 255, and exceeds 128 exactly when r + g + b >= 387 |
| Codec.LoadImage | main.py:84-89 | the matrix is height by width, each entry is 0 or 1, and it is 1 exactly when the pixel's gray level exceeds 128 |
| Codec.JoinedBlocks | main.py:77 | the digest input is seven characters per cell, and block k is cell k's colour |
| Codec.JoinedInjective | main.py:76-78 | two colour lists with the same digest input are equal |
| MainGrid.CellColorReads | main.py:14-17 | a cell's colour is well formed and carries the converted channels of its hue |
| MainGrid.CellColorPeriodic | main.py:15 | values with equal last digits show equal colours |
| MainGrid.Cell.constructor | main.py:10-12 | a new cell holds its value and that value's colour |
| MainGrid.ResonanceGrid.constructor | main.py:21-22 | one fresh cell per matrix entry, each with its value and colour |
| MainGrid.ResonanceGrid.MapBitsToGrid | main.py:32-39 | the outcome and the new values are the decode specification's, including the cells written before an exception; the colours stay in step |
| MainGrid.ResonanceGrid.SetCell | main.py:38-39 | one cell gets the new value and its recomputed colour, and the others are untouched |
| MainGrid.ResonanceGrid.EncodeGridToBitstream | main.py:41-46 | the returned string is the bitstream of the current values |
| MainGrid.AppendRowBits | main.py:44-45 | walking a row appends the `str` of each of its values |
| SchemaGrid.SchemaOffset | random7.py:20-23 | the offset is 50 exactly for (schema1, set1), 100 exactly for (schema2, set2), and 0 otherwise |
| SchemaGrid.Hue | random7.py:19-23 | the hue is the base rotation plus the offset, in [0, 460); it is not reduced again |
| SchemaGrid.CellColorReads | random7.py:18-25 | a cell's colour is well formed and carries the converted channels of its offset hue |
| SchemaGrid.DefaultIsPlainRotation | random7.py:11-25 | a default-schema cell shows the plain hue rotation |
| SchemaGrid.Average | random7.py:45-58 | `average_color` on values: IndexError for no rows, ZeroDivisionError for no cells, otherwise the floor-mean of the painted colours; its error cases and bounds are stated by `AverageFails`, `AverageWithin` and `AverageOfUniform` |
| SchemaGrid.AverageFails | random7.py:47-55 | on a rectangular grid the average fails exactly for no rows (IndexError) or no columns (ZeroDivisionError) |
| SchemaGrid.AverageWithin | random7.py:45-58 | the average colour is well formed, and each channel lies within the range of the cells' channels |
| SchemaGrid.AverageOfUniform | random7.py:45-58 | a grid whose values share one last digit averages to that digit's colour |
| SchemaGrid.Cell.constructor | random7.py:11-15 | a new cell keeps its value, schema and machine set and shows the offset-hue colour |
| SchemaGrid.ResonanceGrid.constructor | random7.py:31-33 | one fresh default cell per entry, and the frequency starts at 1 |
| SchemaGrid.ResonanceGrid.AverageColor | random7.py:45-58 | the running channel totals divided by rows * cols give the average colour specification, errors included |
| SchemaGrid.ResonanceGrid.ApplyResonance | random7.py:61-67 | records the frequency, shifts every value `(v + f) % 10` with its colour, and reports the new average colour |
| SchemaGrid.ResonanceGrid.ShiftRow | random7.py:63-66 | one row of the sweep moves the values to the next row-major prefix of the shift |
| SchemaGrid.ResonanceGrid.ShiftCell | random7.py:65-66 | one cell is shifted and recoloured, and the others are untouched |
| GridServer.IdFor | server.py:17 | the id for a counter: the fixed prefix followed by the counter in hex, zero-padded to 12 digits; injective and 36 characters wide below 16^12 (`IdForInjective`, `IdForLength`) |
| GridServer.IdForInjective | server.py:17 | two counters give the same id exactly when they are equal |
| GridServer.IdForLength | server.py:17 | ids are 36 characters while the counter is below 16^12, and longer after |
| GridServer.IdRangeDistinct | server.py:15-17 | successive ids are pairwise distinct |
| GridServer.Ulid.constructor | server.py:12-13 | the counter starts at 0 |
| GridServer.Ulid.New | server.py:15-17 | the counter grows by exactly 1 and the id is the prefix followed by the new counter in 12-digit hex |
| GridServer.Cell.constructor | server.py:22-25 | the cell takes the generator's next id, and holds its value and that value's colour |
| GridServer.Cell.SetValue | server.py:32-34 | the value is replaced and the colour is recomputed from it |
| GridServer.ColorCodes | server.py:48 | the dict comprehension from cell ids to colours, later cells overwriting earlier ones with the same id; its keys and entries are stated by `ColorCodesKeys` and `ColorCodesLastWins` |
| GridServer.ColorCodesKeys | server.py:48 | the keys of the id-to-colour map are exactly the cell ids |
| GridServer.ColorCodesLastWins | server.py:48 | an id that does not occur later maps to its own cell's colour |
| GridServer.DistinctIdsKeepEveryCell | server.py:48 | with distinct ids the map has one entry per cell, each holding that cell's colour |
| GridServer.StateListsEveryCell | server.py:46-48 | the ids handed out in a row-major walk give a map with one entry per cell |
| GridServer.Average | server.py:52-66 | `calculate_average_color` on colour strings: `#000000` for none, otherwise the floor-mean of the parsed channels (`AverageReads`, `AverageWithin`) |
| GridServer.AverageReads | server.py:52-66 | the average of no cells is `#000000`, otherwise it is the floor-mean colour |
| GridServer.AverageWithin | server.py:56-66 | each averaged channel lies within the range of the cells' channels |
| GridServer.AverageOfUniform | server.py:52-66 | cells whose values share one last digit average to that digit's colour |
| GridServer.GridManager.constructor | server.py:37-38 | one fresh cell per entry; ids are consecutive from the generator's counter, which advances by the number of cells |
| GridServer.GridManager.ApplyResonance | server.py:40-44 | every value moves to `(v + f) % 10` through `set_value`; no cell is added or removed |
| GridServer.GridManager.ShiftRow | server.py:41-44 | one row of the sweep moves the values to the next row-major prefix of the shift |
| GridServer.GridManager.ShiftCell | server.py:43-44 | one cell is shifted and recoloured, and the others are untouched |
| GridServer.GridManager.FlatCells | server.py:47 | the flat list is the cells in row-major order, with their ids, values and colours |
| GridServer.GridManager.GetGridState | server.py:46-50 | returns the id-to-colour map of the row-major cells and their average colour |
| GridServer.GridManager.CollectColorCodes | server.py:48 | builds the map from each cell's id to its colour |
| GridServer.GridManager.CalculateAverageColor | server.py:52-66 | the loop's totals give the specified average, `#000000` for no cells |
| SpiralGrid.PositionalColor | network.py:13-18 | the positional colour `#rrggbb` of the three channel formulas; read back by `PositionalColorReads` |
| SpiralGrid.PositionalColorReads | network.py:13-18 | the colour is well formed, with red, green and blue equal to the three positional formulas mod 256 |
| SpiralGrid.PositionalColorPeriodic | network.py:15-17 | values equal mod 256 give the same colour at a position |
| SpiralGrid.SpiralValue | network.py:21 | the spiral value lies in [0, 360) |
| SpiralGrid.Spiraled | network.py:30-35 | the spiral keeps the grid's shape |
| SpiralGrid.InRadiusBounded | network.py:33-34 | a cell within the radius lies within power of the centre on both axes |
| SpiralGrid.InRadiusAxes | network.py:33-34 | with power >= 0, the cells on the centre's row and column within power are inside the radius (inclusive) |
| SpiralGrid.NegativePowerIsIdentity | network.py:33-34 | a negative power updates no cell |
| SpiralGrid.SpiraledTwice | network.py:30-35 | two spirals add 2p mod 360 inside the radius and leave the rest unchanged |
| SpiralGrid.SpiraledBeforeStep | network.py:31-35 | visiting one cell updates it only when it is within the radius, and changes no other cell |
| SpiralGrid.SpiraledBeforeEnd | network.py:31-35 | after every row has been visited, the grid is the spiralled grid |
| SpiralGrid.Cell.constructor | network.py:7-11 | the cell keeps its value and coordinates and shows the positional colour |
| SpiralGrid.Cell.UpdateValueBasedOnSpiral | network.py:20-22 | the value becomes `(v + p) % 360` and the colour is recomputed at the same position |
| SpiralGrid.GameGrid.constructor | network.py:26-28 | one fresh cell per entry, with x its row index and y its column index |
| SpiralGrid.GameGrid.ApplySpiralEffect | network.py:30-35 | the new values are the spiralled grid; coordinates and colours stay in step |
| SpiralGrid.GameGrid.SpiralRow | network.py:32-35 | one row of the sweep moves the values to the next row-major prefix of the spiral |
| SpiralGrid.GameGrid.UpdateCell | network.py:34-35 | one cell gets the spiral value and its colour, and the others are untouched |
| SpinGrid.Average | rekeying.py:13 | `sum / len` fails with ZeroDivisionError exactly for no neighbours; otherwise the result times the count is the sum |
| SpinGrid.AverageWithin | rekeying.py:13 | the mean of values in [lo, hi] lies in [lo, hi] |
| SpinGrid.Shade | rekeying.py:18-23 | blue exactly below 2, green exactly in [2, 3), red exactly from 3 |
| SpinGrid.Neighbors | rekeying.py:44-52 | the in-bounds neighbour values in dx-major order, IndexError for a short row; counted by `NeighborCount` and bounded by `GatheredWithin` |
| SpinGrid.GatheredCount | rekeying.py:47-51 | the partial enumeration counts the in-bounds offsets visited so far, minus the centre |
| SpinGrid.NeighborCount | rekeying.py:47-51 | the neighbour count is (valid rows among x-1..x+1) × (valid columns among y-1..y+1) − 1 |
| SpinGrid.NeighborCountCases | rekeying.py:47-51 | on a grid of at least 2 × 2 a corner has 3 neighbours, an edge cell 5 and an interior cell 8 |
| SpinGrid.SingleCellAlone | rekeying.py:47-51 | the only cell of a 1 × 1 grid has no neighbours |
| SpinGrid.SomeNeighbor | rekeying.py:47-51 | a grid with two rows or two columns gives every cell at least one neighbour |
| SpinGrid.GatheredWithin | rekeying.py:46-52 | gathered neighbour values lie within the bounds of the grid's values |
| SpinGrid.GatheredErrorStays | rekeying.py:50-51 | once an out-of-range read on a short row raises, the rest of the enumeration does not run |
| SpinGrid.GatheredUnrolled | rekeying.py:47-51 | the enumeration visits dx = -1, 0, 1 outermost and dy = -1, 0, 1 inside |
| SpinGrid.ExampleNeighbors | rekeying.py:46-52 | the neighbour lists of concrete cells, in enumeration order |
| SpinGrid.SpinAt | rekeying.py:37-38 | a cell's spin succeeds only when the cell exists |
| SpinGrid.Spun | rekeying.py:34-38 | the sequential in-place sweep over all rows and the first row's columns, stopping at the first exception; its properties are `SweptWithin`, `SpunUniform`, `VisitedKeep` and `SweepIsSequential` |
| SpinGrid.FailureStays | rekeying.py:35-38 | an exception ends the sweep: later steps change neither values nor outcome |
| SpinGrid.SweptRowsLong | rekeying.py:36-38 | a sweep that completes has read only rows at least as long as the first |
| SpinGrid.StepWithin | rekeying.py:13 | one step keeps every value within the grid's bounds |
| SpinGrid.SweptWithin | rekeying.py:35-38 | the whole sweep keeps every value within the bounds of the original values |
| SpinGrid.SingleCellSpinFails | rekeying.py:13 | spinning a 1 × 1 grid raises ZeroDivisionError and changes nothing |
| SpinGrid.StepUniform | rekeying.py:37-38 | on a uniform grid with a neighbour for every cell, a step changes nothing |
| SpinGrid.SweptUniform | rekeying.py:35-38 | every prefix of the sweep of such a grid leaves it unchanged and completes |
| SpinGrid.SpunUniform | rekeying.py:35-38 | a uniform grid of at least two cells is a fixed point of the sweep |
| SpinGrid.SweepIsSequential | rekeying.py:35-38 | the second cell averages the first cell's new value: on `[[0, 3], [3, 3]]` it reads 3 and gets 3, while a snapshot would give 2 |
| SpinGrid.VisitedKeep | rekeying.py:35-38 | a cell keeps the value it got when it was visited for the rest of the sweep |
| SpinGrid.Recolored | rekeying.py:40-42 | the recolour pass: each cell in the first row's columns gets the shade of its value, others keep their colour; reached step by step by `RecoloredBeforeStep` and `RecoloredBeforeEnd` |
| SpinGrid.RecoloredBeforeStep | rekeying.py:40-42 | recolouring one cell gives it the shade of its value and changes no other colour |
| SpinGrid.RecoloredBeforeEnd | rekeying.py:40-42 | after every row has been recoloured, the colours are the recolouring specification |
| SpinGrid.Cell.constructor | rekeying.py:6-8 | a new cell holds its value and is white |
| SpinGrid.Cell.SpinEffect | rekeying.py:10-13 | the value becomes the neighbours' mean; with no neighbours it raises ZeroDivisionError and keeps its value |
| SpinGrid.Cell.UpdateColor | rekeying.py:15-23 | the colour becomes the shade of the value |
| SpinGrid.GameGrid.constructor | rekeying.py:27-28 | one fresh cell per entry, every cell white |
| SpinGrid.GameGrid.GetNeighborsValues | rekeying.py:44-52 | the returned list is the in-bounds neighbour values in enumeration order, or IndexError for a short row |
| SpinGrid.GameGrid.SpinCells | rekeying.py:34-42 | values and outcome are those of the sequential sweep; on success every colour becomes the shade of its new value, and on an exception the colours are untouched |
| SpinGrid.GameGrid.SpinRow | rekeying.py:36-38 | one row of the sweep either reaches the next row's prefix or ends the sweep with its exception |
| SpinGrid.GameGrid.SpinOne | rekeying.py:37-38 | one cell's step is the next step of the sweep specification |
| SpinGrid.GameGrid.RecolorCells | rekeying.py:40-42 | every cell in the first `cols` columns gets the shade of its value |
| SpinGrid.GameGrid.RecolorRow | rekeying.py:41-42 | one row of the recolouring moves the colours to the next row's prefix |
| SpinGrid.GameGrid.RecolorCell | rekeying.py:42 | one cell gets the shade of its value, and the others are untouched |

## Left out

- HLS conversion (`colorsys.hls_to_rgb` and `int(x * 255)`) is floating point. It is a parameter `hls: int -> Rgb` of the cell colour functions, so no property depends on the actual RGB values it gives.
- SHA-256 in `generate_hash_from_grid` is a foreign library call. Only the joined colour string fed to it is modelled (`Codec.JoinedBlocks`, `Codec.JoinedInjective`).
- Tkinter is not modelled: `display`, canvas drawing, buttons, `mainloop`, `root.title` and the `on_click` handlers. This includes the row/column swap in network.py's handler and the scoping slip in main.py's `load_file`.
- `save_grid_as_image` and all file, CSV and image I/O are not modelled. `load_image` is modelled on an already-decoded pixel array, and `file_to_grid` on the byte content.
- The Flask app, CORS, routes, JSON and the startup fallback data are not modelled. The module-level `ulid` generator is passed to cell construction as an object.
- `random.randint` parameter choices and the interactive loops are not modelled. Frequencies and matrices are parameters.
- `file_to_grid` and the bitstream loader compute `int(len ** 0.5)`. The model uses the exact integer square root, so float rounding for very long inputs is not captured.
- The averages use `int(total / n)`. They are modelled as floor division of non-negative integers, which agrees with float truncation except for rounding on very large totals.
- SpinGrid.Average: values are exact reals, so float rounding in `sum(neighbors) / len(neighbors)` is not captured.
- SpiralGrid.SpiraledBeforeStep: the float comparison `sqrt(d) <= p` is modelled as the exact integer test d <= p² for p >= 0. A negative power matches no cell, as in the code. Float rounding of the square root is not captured.
- Decimal.DigitValue: `int()` also accepts non-ASCII decimal digits, signs and surrounding whitespace. Only the ASCII digits '0'..'9' are modelled. Any other reached character is a ValueError.
- MainGrid.ResonanceGrid.constructor: requires a rectangular matrix. Every caller passes a square or CSV matrix, and `map_bits_to_grid` divides by the first row's length. Ragged grids are not modelled.
- SchemaGrid.ResonanceGrid.constructor: requires a rectangular matrix. Every caller passes a CSV or square matrix, and `average_color` divides by rows times the first row's length. Ragged grids are not modelled.
- main.py's `save_grid` passes the grid of `Cell` objects to `grid_to_file`, which would write `str` of each cell object. `Codec.GridToFileContent` models the function as defined, on a matrix of values.
