# AscMap in Dafny

A model of `AscMap`, a small Ruby class that holds an ESRI ASCII Grid. A grid
is a header of named parameters (`ncols`, `nrows`, `xllcorner`, `yllcorner`,
`cellsize`, `NODATA_value`) and rows of numeric cells. The class reads a grid
file and walks the cells that do not hold the `NODATA_value` sentinel. It
sums, rescales, rounds and resets those cells, converts between cell indices
and map coordinates, and writes the grid back out.

The modules follow the class:

- `Optional`: `Option`, used for Ruby's `nil`.
- `Text`: `Integer#to_s`, `String#to_i`, `String#split` and `join(" ")`.
- `AscGrid`: the grid, the parameter values (Integer, Float or String), `to_i`, `to_s` and the sentinel test.
- `Loader`: `initialize`, meaning the line loop and the header post-processing.
- `Traversal`: `each_data`, `data_values` and `data_coord`.
- `Aggregate`: `sum_values`.
- `Transforms`: `multiply!`, `normalize!`, `round`, `reset_data!` and `reset!`.
- `Writer`: `write_asc`, plus the write-then-read round trip.
- `Coords`: `coord_x`, `coord_y` and `cell_value`.

Design choices:

- **Cells are exact reals.**
- **Two conversions are parameters.** `String#to_f` is a function parameter `toNum`, and `Float#to_s` is a function parameter `showReal`.
- **`to_s` and `to_i` are written out.** `Integer#to_s` and `String#to_i` are modelled concretely, because the corner fixup produces Strings that `coord_x` later reads with `to_i`.
- **The loader takes tokenised lines.** It receives each line as its `String#split` tokens. `Writer.Tokenise` connects the written text to that input.
- **Row 0 is the first data line**, the northern edge of the map.

A row of data with exactly two values is read as a header entry, because
the loader's only test is "two tokens". A grid with two columns therefore
loads with no cells at all (`Loader.TwoValueRowsLoadAsHeaders`), and
writing such a grid does not read back (`Writer.TwoCellRowReadBackAsHeader`).
The model follows the code here, not the format's documentation.

## Model

| member | source | states |
|---|---|---|
| Text.IntToString | asc_map.rb:85 | `Integer#to_s` is one token of digits, with a leading `-` for a negative number |
| Text.StrToIInvertsIntToString | asc_map.rb:94 | `to_i` on the text `Integer#to_s` writes gives the integer back |
| Text.Split | asc_map.rb:10 | `split` returns only non-empty tokens free of separators |
| Text.SplitPair | asc_map.rb:10 | two tokens joined by a space split back into those two tokens |
| Text.SplitJoin | asc_map.rb:10 | splitting a space-joined list of tokens returns the list, the inverse of `join(" ")` |
| AscGrid.Trunc | asc_map.rb:18 | `Float#to_i` truncates toward zero: within 1 of the value, never farther from zero |
| Loader.ParseLines | asc_map.rb:9-16 | the line loop stores every header value as a Float and appends at most one row per line |
| Loader.ParseCells | asc_map.rb:9-16 | the rows are exactly the lines without two tokens, converted with `to_f`, in file order |
| Loader.ParseParams | asc_map.rb:11-12 | a key is in the header iff some two-token line names it; the last such line sets its value |
| Loader.TruncDim | asc_map.rb:18 | a present dimension becomes its `to_i`; no other key changes and no key is added |
| Loader.FixCorner | asc_map.rb:23-27 | the result's text always starts with "31"; a value already starting "31" is kept; otherwise it becomes the String "31" followed by its text, and `nil` becomes "31" |
| Loader.FixCornerIdempotent | asc_map.rb:24 | applying the corner fixup twice equals applying it once |
| Loader.Load | asc_map.rb:5-28 | after loading, the sentinel is present and numeric, the dimensions are Integers, both corners start with "31", and the cells are the non-header lines |
| Loader.LoadFromParsed | asc_map.rb:18-27 | for each key, the relation between the header the loop read and the loaded header |
| Loader.LoadDimension | asc_map.rb:18 | `nrows`/`ncols` are present iff a line names them, holding the truncated value of the last such line |
| Loader.LoadNoData | asc_map.rb:19 | the sentinel is the last value given for it, or -9999 when none is given |
| Loader.LoadCorner | asc_map.rb:23-27 | a missing corner becomes "31"; a given corner keeps its Float if its text starts "31", else becomes "31" + text |
| Loader.LoadOtherHeader | asc_map.rb:11-12 | any other key is present iff a line names it, with the Float of the last such line |
| Loader.LoadKeys | asc_map.rb:18-27 | the loaded keys are the keys read plus the sentinel and both corners |
| Loader.TwoValueRowsLoadAsHeaders | asc_map.rb:11-15 | a file whose data rows have two values loads no cells; the rows become header keys |
| Loader.LoadHeadersThenRows | asc_map.rb:9-16 | header lines followed by non-header lines load as exactly those rows |
| Traversal.RowCoords | asc_map.rb:55-59 | each entry is a data cell of row `r`, in strictly increasing column order |
| Traversal.CoordsAbove | asc_map.rb:54-60 | each entry is a data cell of an earlier row, in strict row-major order |
| Traversal.RowCoordsComplete | asc_map.rb:55-59 | every data cell of the row is listed |
| Traversal.CoordsAboveComplete | asc_map.rb:54-60 | every data cell of the earlier rows is listed |
| Traversal.DataCoord | asc_map.rb:52-62 | `data_coord` lists exactly the data cells of the window, in strict row-major order |
| Traversal.DataCoordDistinct | asc_map.rb:52-62 | no position is listed twice |
| Traversal.RowValuesAlongCoords | asc_map.rb:43-47 | a row's values are the cells at that row's listed positions |
| Traversal.ValuesAboveAlongCoords | asc_map.rb:42-48 | the values of the earlier rows are the cells at their listed positions |
| Traversal.DataValuesAlongCoord | asc_map.rb:40-50 | `data_values` has the same length as `data_coord`, and entry i is the cell at position i |
| Traversal.DataValuesEmptyIffNoData | asc_map.rb:40-50 | `data_values` is empty iff every cell of the window holds the sentinel |
| Traversal.EachData | asc_map.rb:30-38 | `each_data`'s nested loop yields exactly `data_coord`, in order |
| Aggregate.Inject | asc_map.rb:108 | the `nil`-seeded fold is `nil` iff it starts at `nil` with no elements, and otherwise is the sum |
| Aggregate.SumValues | asc_map.rb:107-109 | `sum_values` is `nil` iff there are no data values, and otherwise is their sum |
| Aggregate.SumValuesNoneIffNoData | asc_map.rb:107-109 | `sum_values` is `nil` iff every cell of the window holds the sentinel |
| Aggregate.SumScale | asc_map.rb:118 | scaling every element by m scales the sum by m |
| Transforms.MapData | asc_map.rb:112-114 | an `each_data` rewrite keeps the header and the shape, applies `f` to the data cells and keeps every other cell |
| Transforms.MapDataInPlace | asc_map.rb:112-114 | the in-place loop, which tests each cell as it finds it, ends with the grid `MapData` describes |
| Transforms.MapDataFrame | asc_map.rb:112-114 | the cells at `data_coord` positions go through `f`; no other cell changes |
| Transforms.DataValuesAfterMap | asc_map.rb:112-114 | when `f` sends no data cell to the sentinel, the new data values are the old ones through `f`, in the same order |
| Transforms.Multiply | asc_map.rb:111-115 | `multiply!` multiplies every data cell by `mul` and leaves every other cell and the header alone |
| Transforms.MultiplyScalesSum | asc_map.rb:111-115 | unless a product equals the sentinel, `multiply!` scales the data values and their sum by `mul` |
| Transforms.Normalize | asc_map.rb:117-119 | `normalize!` multiplies each data cell by `total / sum_values` and leaves the header, the row lengths and every other cell alone |
| Transforms.NormalizeReachesTotal | asc_map.rb:117-119 | after `normalize!(total)`, `sum_values` is `total`, unless a rescaled cell lands on the sentinel |
| Transforms.Round | asc_map.rb:121-125 | `round` applies `Float#round(n)` to the data cells only, keeping the header, the shape and every other cell |
| Transforms.ResetData | asc_map.rb:64-72 | `reset_data!` writes `value.to_f` into every data cell (0.0 when `value` is `nil`) and keeps every other cell |
| Transforms.ResetDataKeepsCount | asc_map.rb:64-72 | when the written value is not the sentinel, there are as many data values as before, each equal to it |
| Transforms.ResetDataToSentinelClears | asc_map.rb:64-72 | writing the sentinel leaves no data values |
| Transforms.ResetDataWithoutValueKeepsData | asc_map.rb:68 | with no value and a sentinel other than 0.0, a grid with data keeps data, and its sum becomes 0.0 |
| Transforms.ResetDataIntended | asc_map.rb:68 | the corrected `reset_data!` writes the value, or `NODATA_value.to_f` when none is given |
| Transforms.ResetDataIntendedClears | asc_map.rb:68 | the corrected `reset_data!` with no value leaves no data values |
| Transforms.NoDataFill | asc_map.rb:77 | `NODATA_value.to_f` is a value the sentinel test recognises when the sentinel is numeric; a String sentinel gives its `to_f`, which the test never matches; no sentinel gives 0.0 |
| Transforms.Reset | asc_map.rb:74-79 | `reset!` keeps the header and builds `nrows` rows of `ncols` cells holding `NODATA_value.to_f`; with a numeric sentinel there are then no data values and `sum_values` is `nil` |
| Writer.WrittenKeys | asc_map.rb:84-86 | a key is written iff it is a canonical key the grid holds |
| Writer.WriteAscHeaderOrder | asc_map.rb:82-86 | header lines name exactly the canonical keys held, each once, in the fixed order |
| Writer.HeaderLines | asc_map.rb:84-86 | one line `"key value"` per written key |
| Writer.WriteAsc | asc_map.rb:81-91 | the file is the header lines followed by one space-joined line per row of cells |
| Writer.RowLineSplits | asc_map.rb:88 | a written row line splits back into the texts of the row's values |
| Writer.HeaderLineSplits | asc_map.rb:85 | a written header line splits back into the key and its value's text |
| Writer.WriteThenLoadCells | asc_map.rb:81-91 | writing and then loading returns every row of cells, if each value is one token that `to_f` reads back exactly and no row has two cells |
| Writer.WriteThenLoadKeys | asc_map.rb:81-91 | writing and then loading keeps exactly the canonical keys held, plus the sentinel and both corners |
| Writer.WriteThenLoadDimension | asc_map.rb:81-91 | after writing and loading again, `nrows`/`ncols` are present iff they were, and hold the Integer their `to_i` gave before |
| Writer.WriteThenLoadCellSize | asc_map.rb:81-91 | after writing and loading again, `cellsize` is present iff it was: a Float returns unchanged, an Integer returns as the equal Float, and its `to_i` is the same |
| Writer.WriteThenLoadNoData | asc_map.rb:81-91 | after writing and loading again, a numeric sentinel matches exactly the values it matched before |
| Writer.WriteThenLoadCorner | asc_map.rb:81-91 | after writing and loading again, a corner already prefixed "31" writes the same text and has the same `to_i`; a Float corner returns unchanged |
| Writer.TwoCellRowReadBackAsHeader | asc_map.rb:11-12 | a written two-cell row reads back as a header entry, not as cells |
| Coords.FloorDiv | asc_map.rb:102 | Ruby's `Integer#/` rounds toward negative infinity, for either sign of divisor |
| Coords.FloorDivOfMultiple | asc_map.rb:102 | dividing an exact multiple returns the multiplier |
| Coords.CellRowInvertsCoordY | asc_map.rb:97-102 | the `cell_value` row formula maps `coord_y(r)` back to `r` |
| Coords.CellValue | asc_map.rb:101-105 | `cell_value` as written returns a value from the row its row formula selects |
| Coords.CellValueAsWrittenReads | asc_map.rb:101-105 | as written, `cell_value` at the north edge of row r and at x = c + `xllcorner / cellsize` returns the cell at (r, c), for every cell of the window |
| Coords.CellRowInsideRow | asc_map.rb:102 | the row formula matches rows on their north edges: with a positive cell size, a point less than one cell below row r's north edge maps to row r + 1 |
| Coords.CellColAsWrittenMissesCoordX | asc_map.rb:103 | with `xllcorner` 3100 and `cellsize` 10, the written column formula maps `coord_x(0)` to column 2790 |
| Coords.CellColIntendedInvertsCoordX | asc_map.rb:93-95 | the corrected column formula `(x - xllcorner) / cellsize` maps `coord_x(c)` back to `c` |
| Coords.CellValueIntended | asc_map.rb:101-105 | the corrected `cell_value` returns a value from the selected row |
| Coords.CellValueIntendedInvertsCoords | asc_map.rb:93-105 | looking up `(coord_x(c), coord_y(r))` with the corrected formula gives the cell at (r, c) |

## Left out

- File I/O: `File.foreach` and `open(filename, "w")` are replaced by a sequence of lines, already split into tokens when read.
- `String#to_f`, `Float#to_s` and `Float#round`: they are left abstract as the parameters `toNum`, `showReal` and `roundTo`. Their decimal formatting and parsing rules are not modelled.
- Floating point: cells hold exact reals. Rounding error, NaN and Infinity are not modelled.
- Transforms.Normalize: requires a non-nil, non-zero `sum_values`. Ruby would raise on `nil` and would produce Infinity or NaN for zero, so this is weaker than the source.
- Traversal.EachData: returns the yielded positions instead of calling a block. A block that changes the grid while it is being walked is covered only for `multiply!`, `round` and `reset_data!`, through `Transforms.MapDataInPlace`.
- Traversable: requires the window to fit inside the cell rows. In Ruby a short row yields `nil` cells and a missing row raises `NoMethodError`; neither case is modelled.
- HasDims: requires `nrows` and `ncols` to be Integers, so the walks do not cover a `nil` dimension. A file without an `nrows` or `ncols` line leaves that dimension `nil`, because asc_map.rb:18 converts only a present key. In Ruby 2.6 and later `(0...nil)` is an endless range, which gives three cases. With `ncols` missing, the inner walk never ends: past a row's end the cell is `nil`, which is not the sentinel, so `each_data` keeps yielding and `data_values` keeps appending `nil`. With `nrows` missing and `ncols` at most 0, the outer walk never ends. With `nrows` missing and `ncols` positive, the walk raises `NoMethodError` at the first missing row. A Float dimension, which only a hand-built grid can hold, is not modelled either.
- Coords.CellValue: requires the indices to be in range. Out of range, Ruby wraps a negative index, gives `nil` for a column past the end of its row and raises `NoMethodError` for a row past the end.
- Coords.CellValue: requires a cell size whose `to_i` is not zero, as do Coords.CellRow, Coords.CellColAsWritten, Coords.CellColIntended and Coords.CellValueIntended. Ruby raises `ZeroDivisionError` there for any `cellsize` strictly between -1 and 1, such as 0.5, because `to_i` truncates it to 0.
- Transforms.Reset: excludes a negative `ncols` with positive `nrows`, where Ruby raises `ArgumentError`.
- Transforms.Normalize: takes `total` as a parameter; the Ruby default `total=1.0` (asc_map.rb:117) is the call `Normalize(g, 1.0)`.
- Transforms.Round: keeps every cell a real. In Ruby, `Float#round(n)` returns an Integer when `n <= 0`, and `n = 0` is the default (asc_map.rb:121). After `round` the data cells are then Integers, and `write_asc` prints them with `Integer#to_s` ("2", not "2.0"). The model renders every cell through `showReal`.
- Writer.WriteThenLoadNoData: speaks only of a numeric sentinel. A String sentinel matches no cell before the round trip, but after it the sentinel is its `to_f`, which can match cells.
- Writer.WriteThenLoadCorner: speaks only of a Float or String corner that already starts with "31", as every loaded corner does. Any other corner gets the prefix added on reload.
- Text.StrToI: does not model underscores between digits, or radix prefixes.
- `params` and `cells` accessors (`attr_accessor`): the model takes grids as values, so the accessors are plain datatype fields.

## Findings

| source | as written | input that shows it | evidently intended | confidence | as-written member | corrected member |
|---|---|---|---|---|---|---|
| asc_map.rb:103 | `col = x - xllcorner.to_i / cellsize.to_i` divides only the corner | `xllcorner` 3100, `cellsize` 10, x = `coord_x(0)` = 3100 gives column 2790 | `(x - xllcorner) / cellsize`, which inverts `coord_x` the way the row formula inverts `coord_y` | high, not executed | Coords.CellColAsWrittenMissesCoordX | Coords.CellValueIntendedInvertsCoords |
| asc_map.rb:68 | `value.to_f \|\| @params["NODATA_value"]` never reaches its fallback, because `nil.to_f` is 0.0 | `reset_data!` with no argument on a grid whose sentinel is -9999 writes 0.0 into every data cell | a missing value writes the sentinel, clearing the data | medium, not executed | Transforms.ResetDataWithoutValueKeepsData | Transforms.ResetDataIntendedClears |
