/** `coord_x`, `coord_y` and `cell_value`: integer arithmetic between cell
    indices and map coordinates. Every parameter goes through `to_i` first, so
    the corners and the cell size are truncated integers. */
module Coords {
  import opened AscGrid

  /** Ruby's `Integer#/`: the quotient rounded toward negative infinity. A zero
      divisor raises `ZeroDivisionError` and is excluded. */
  function FloorDiv(a: int, b: int): (q: int)
    requires b != 0
    ensures b > 0 ==> q * b <= a < q * b + b
    ensures b < 0 ==> q * b + b < a <= q * b
  {
    if b > 0 then a / b else (-a) / (-b)
  }

  /** Dividing an exact multiple gives the multiplier back. */
  lemma FloorDivOfMultiple(k: int, b: int)
    requires b != 0
    ensures FloorDiv(k * b, b) == k
  {
    var q := FloorDiv(k * b, b);
    if b > 0 {
      assert (k - q) * b >= 0 && (k - q) * b < b;
      ZeroMultiplier(k - q, b);
    } else {
      assert (k - q) * (-b) >= 0 && (k - q) * (-b) < -b;
      ZeroMultiplier(k - q, -b);
    }
  }

  /** A multiple of a positive `b` that lies in [0, b) is zero times `b`. */
  lemma ZeroMultiplier(d: int, b: int)
    requires b > 0 && 0 <= d * b < b
    ensures d == 0
  {
    MultipleBounds(d, b);
  }

  lemma MultipleBounds(d: int, b: int)
    requires b > 0
    ensures d >= 1 ==> d * b >= b
    ensures d <= -1 ==> d * b <= -b
  {
    if d >= 1 {
      assert d * b == b + (d - 1) * b;
    }
    if d <= -1 {
      assert d * b == -b + (d + 1) * b;
    }
  }

  /** `@params["xllcorner"].to_i`. */
  function CornerX(g: Grid): int {
    ToI(Param(g.params, XLLCORNER))
  }

  function CornerY(g: Grid): int {
    ToI(Param(g.params, YLLCORNER))
  }

  function CellSize(g: Grid): int {
    ToI(Param(g.params, CELLSIZE))
  }

  /** `@params["nrows"]` is an Integer; `nil - row` would raise. */
  predicate HasRowCount(g: Grid) {
    NROWS in g.params && g.params[NROWS].Int?
  }

  /** `coord_x(col)`: west edge of column `col`. */
  function CoordX(g: Grid, col: int): int
  {
    CornerX(g) + col * CellSize(g)
  }

  /** `coord_y(row)`: north edge of row `row`, counting rows down from the top. */
  function CoordY(g: Grid, row: int): int
    requires HasRowCount(g)
  {
    CornerY(g) + (g.params[NROWS].i - row) * CellSize(g)
  }

  /** The row `cell_value` reads: `nrows - (y - yllcorner) / cellsize`. */
  function CellRow(g: Grid, y: int): int
    requires HasRowCount(g) && CellSize(g) != 0
  {
    g.params[NROWS].i - FloorDiv(y - CornerY(g), CellSize(g))
  }

  /** The column `cell_value` reads as written: `x - xllcorner / cellsize`,
      dividing only the corner. */
  function CellColAsWritten(g: Grid, x: int): int
    requires CellSize(g) != 0
  {
    x - FloorDiv(CornerX(g), CellSize(g))
  }

  /** `cell_value(x, y)` as written. Out of range, Ruby wraps a negative index,
      gives `nil` for a column past the end of its row and raises
      `NoMethodError` for a row past the end; indices are required to be in
      range instead. */
  function CellValue(g: Grid, x: int, y: int): (v: real)
    requires HasRowCount(g) && CellSize(g) != 0
    requires 0 <= CellRow(g, y) < |g.cells|
    requires 0 <= CellColAsWritten(g, x) < |g.cells[CellRow(g, y)]|
    ensures v in g.cells[CellRow(g, y)]
  {
    g.cells[CellRow(g, y)][CellColAsWritten(g, x)]
  }

  /** The row formula inverts `coord_y`: the north edge of row `r` maps back to `r`. */
  lemma CellRowInvertsCoordY(g: Grid, r: int)
    requires HasRowCount(g) && CellSize(g) != 0
    ensures CellRow(g, CoordY(g, r)) == r
  {
    FloorDivOfMultiple(g.params[NROWS].i - r, CellSize(g));
  }

  /** As written, `cell_value` reads the cell at (r, c) when given the north
      edge of row `r` and the column index shifted by `xllcorner / cellsize`:
      the column formula subtracts only that quotient from `x`. */
  lemma CellValueAsWrittenReads(g: Grid, r: int, c: int)
    requires Traversable(g) && InWindow(g, r, c) && CellSize(g) != 0
    ensures HasRowCount(g)
    ensures CellRow(g, CoordY(g, r)) == r
    ensures CellColAsWritten(g, c + FloorDiv(CornerX(g), CellSize(g))) == c
    ensures 0 <= CellRow(g, CoordY(g, r)) < |g.cells|
    ensures 0 <= CellColAsWritten(g, c + FloorDiv(CornerX(g), CellSize(g))) < |g.cells[CellRow(g, CoordY(g, r))]|
    ensures CellValue(g, c + FloorDiv(CornerX(g), CellSize(g)), CoordY(g, r)) == Cell(g, r, c)
  {
    CellRowInvertsCoordY(g, r);
    assert RowCovers(g, r);
  }

  /** Just below a multiple of a positive `b`, the floor quotient is one less. */
  lemma FloorDivBelowMultiple(k: int, b: int, d: int)
    requires b > 0 && 0 < d < b
    ensures FloorDiv(k * b - d, b) == k - 1
  {
    var q := FloorDiv(k * b - d, b);
    assert (k - q) * b == k * b - q * b;
    assert (k - q - 1) * b == (k - q) * b - b;
    MultipleBounds(k - q, b);
    MultipleBounds(k - q - 1, b);
  }

  /** The row formula matches rows on their north edges: with a positive cell
      size, a point strictly inside row `r` (below its north edge by less than
      one cell) maps to row `r + 1`. */
  lemma CellRowInsideRow(g: Grid, r: int, d: int)
    requires HasRowCount(g) && CellSize(g) > 0 && 0 < d < CellSize(g)
    ensures CellRow(g, CoordY(g, r) - d) == r + 1
  {
    var n := g.params[NROWS].i;
    assert CoordY(g, r) - d - CornerY(g) == (n - r) * CellSize(g) - d;
    FloorDivBelowMultiple(n - r, CellSize(g), d);
  }

  /** The column formula as written does not invert `coord_x`: with the corner
      at x = 3100 and cells 10 wide, the west edge of column 0 maps to
      column 2790. */
  lemma CellColAsWrittenMissesCoordX()
    ensures var g := Grid(map[XLLCORNER := Num(3100.0), CELLSIZE := Num(10.0)], []);
            CoordX(g, 0) == 3100 && CellColAsWritten(g, CoordX(g, 0)) == 2790
  {
    var g := Grid(map[XLLCORNER := Num(3100.0), CELLSIZE := Num(10.0)], []);
    assert Trunc(3100.0) == 3100;
    assert Trunc(10.0) == 10;
    assert CornerX(g) == 3100 && CellSize(g) == 10;
  }

  /** The evidently intended column: `(x - xllcorner) / cellsize`. */
  function CellColIntended(g: Grid, x: int): int
    requires CellSize(g) != 0
  {
    FloorDiv(x - CornerX(g), CellSize(g))
  }

  /** The intended column formula inverts `coord_x`. */
  lemma CellColIntendedInvertsCoordX(g: Grid, c: int)
    requires CellSize(g) != 0
    ensures CellColIntended(g, CoordX(g, c)) == c
  {
    FloorDivOfMultiple(c, CellSize(g));
  }

  /** `cell_value` with the intended column formula. */
  function CellValueIntended(g: Grid, x: int, y: int): (v: real)
    requires HasRowCount(g) && CellSize(g) != 0
    requires 0 <= CellRow(g, y) < |g.cells|
    requires 0 <= CellColIntended(g, x) < |g.cells[CellRow(g, y)]|
    ensures v in g.cells[CellRow(g, y)]
  {
    g.cells[CellRow(g, y)][CellColIntended(g, x)]
  }

  /** With the intended formula, looking up the corner coordinates of any
      cell of the window gives that cell's value. */
  lemma CellValueIntendedInvertsCoords(g: Grid, r: int, c: int)
    requires Traversable(g) && InWindow(g, r, c) && CellSize(g) != 0
    ensures HasRowCount(g)
    ensures 0 <= CellRow(g, CoordY(g, r)) < |g.cells|
    ensures 0 <= CellColIntended(g, CoordX(g, c)) < |g.cells[CellRow(g, CoordY(g, r))]|
    ensures CellValueIntended(g, CoordX(g, c), CoordY(g, r)) == Cell(g, r, c)
  {
    CellRowInvertsCoordY(g, r);
    CellColIntendedInvertsCoordX(g, c);
    assert RowCovers(g, r);
  }
}
