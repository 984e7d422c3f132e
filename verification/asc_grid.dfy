/** The in-memory ESRI ASCII Grid: header parameters plus rows of cell values,
    and the Ruby conversions (`to_i`, `to_s`, `==`) the operations apply to
    parameter values. */
module AscGrid {
  import opened Optional
  import Text

  /** A header value as the loaded grid holds it: a Float read from the file,
      an Integer (`nrows`/`ncols` after `to_i`, the -9999 default), or a String
      (a corner after the "31" fixup). */
  datatype ParamVal = Int(i: int) | Num(r: real) | Str(s: string)

  /** Row 0 is the first data line of the file, the northernmost row. */
  datatype Grid = Grid(params: map<string, ParamVal>, cells: seq<seq<real>>)

  const NCOLS := "ncols"
  const NROWS := "nrows"
  const XLLCORNER := "xllcorner"
  const YLLCORNER := "yllcorner"
  const CELLSIZE := "cellsize"
  const NODATA_VALUE := "NODATA_value"

  /** The sentinel used when the file gives no `NODATA_value`. */
  const DEFAULT_NODATA: int := -9999

  /** `@params[key]`, with `nil` for a missing key. */
  function Param(params: map<string, ParamVal>, key: string): (v: Option<ParamVal>)
    ensures v.Some? <==> key in params
    ensures v.Some? ==> v.value == params[key]
  {
    if key in params then Some(params[key]) else None
  }

  /** `Float#to_i`: truncation toward zero. */
  function Trunc(x: real): (t: int)
    ensures x >= 0.0 ==> t as real <= x < t as real + 1.0
    ensures x < 0.0 ==> t as real - 1.0 < x <= t as real
  {
    if x >= 0.0 then x.Floor else -((-x).Floor)
  }

  /** `to_i` on a parameter value: `nil.to_i` is 0, a String reads its leading
      integer. */
  function ToI(v: Option<ParamVal>): int
  {
    match v
    case None => 0
    case Some(Int(i)) => i
    case Some(Num(r)) => Trunc(r)
    case Some(Str(s)) => Text.StrToI(s)
  }

  /** `to_s` on a parameter value; `showReal` stands for `Float#to_s`. */
  function Show(v: ParamVal, showReal: real -> string): string
  {
    match v
    case Int(i) => Text.IntToString(i)
    case Num(r) => showReal(r)
    case Str(s) => s
  }

  /** Ruby's `cell == @params["NODATA_value"]`: numeric equality with an
      Integer or Float sentinel; a String or `nil` sentinel equals no Float. */
  predicate IsNoData(g: Grid, x: real) {
    NODATA_VALUE in g.params &&
    match g.params[NODATA_VALUE]
    case Int(i) => x == i as real
    case Num(r) => x == r
    case Str(_) => false
  }

  /** Both dimensions are Integers, as `(0...n).each` needs. */
  predicate HasDims(g: Grid) {
    NROWS in g.params && g.params[NROWS].Int? &&
    NCOLS in g.params && g.params[NCOLS].Int?
  }

  /** How many rows `(0...nrows)` visits: a negative count visits none. */
  function Rows(g: Grid): nat
    requires HasDims(g)
  {
    if g.params[NROWS].i < 0 then 0 else g.params[NROWS].i
  }

  function Cols(g: Grid): nat
    requires HasDims(g)
  {
    if g.params[NCOLS].i < 0 then 0 else g.params[NCOLS].i
  }

  /** Every cell the `nrows`×`ncols` loops read exists; cells beyond that
      window may exist too and are never visited. */
  predicate Traversable(g: Grid) {
    HasDims(g) &&
    forall r :: 0 <= r < Rows(g) && Cols(g) > 0 ==> RowCovers(g, r)
  }

  predicate RowCovers(g: Grid, r: int)
    requires HasDims(g)
  {
    0 <= r < |g.cells| && Cols(g) <= |g.cells[r]|
  }

  predicate InWindow(g: Grid, r: int, c: int)
    requires HasDims(g)
  {
    0 <= r < Rows(g) && 0 <= c < Cols(g)
  }

  /** `@cells[r][c]` for a cell inside the window. */
  function Cell(g: Grid, r: int, c: int): real
    requires Traversable(g) && InWindow(g, r, c)
  {
    assert RowCovers(g, r);
    g.cells[r][c]
  }

  /** The cell at (r, c) is visited by the loops and does not hold the sentinel. */
  predicate IsDataCell(g: Grid, r: int, c: int)
    requires Traversable(g)
  {
    InWindow(g, r, c) && !IsNoData(g, Cell(g, r, c))
  }
}
