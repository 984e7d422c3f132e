/** The in-place operations `multiply!`, `normalize!`, `round`, `reset_data!`
    and `reset!`, as functions from the grid before to the grid after. All but
    `reset!` walk `each_data` and rewrite only the cells it yields. */
module Transforms {
  import opened Optional
  import opened AscGrid
  import opened Traversal
  import opened Aggregate

  /** What a walk over `each_data` applying `f` leaves at (r, c): data cells go
      through `f`, every other cell (sentinel, or outside the window) is kept. */
  function Touch(g: Grid, r: int, c: int, f: real -> real): real
    requires Traversable(g) && 0 <= r < |g.cells| && 0 <= c < |g.cells[r]|
  {
    if IsDataCell(g, r, c) then f(g.cells[r][c]) else g.cells[r][c]
  }

  function MapData(g: Grid, f: real -> real): (h: Grid)
    requires Traversable(g)
    ensures Traversable(h)
    ensures h.params == g.params
    ensures |h.cells| == |g.cells|
    ensures forall r :: 0 <= r < |g.cells| ==> |h.cells[r]| == |g.cells[r]|
    ensures forall r, c :: 0 <= r < |g.cells| && 0 <= c < |g.cells[r]| ==> h.cells[r][c] == Touch(g, r, c, f)
  {
    var h := Grid(g.params, seq(|g.cells|, r requires 0 <= r < |g.cells| =>
      seq(|g.cells[r]|, c requires 0 <= c < |g.cells[r]| => Touch(g, r, c, f))));
    forall r | 0 <= r < Rows(h) && Cols(h) > 0
      ensures RowCovers(h, r)
    {
      assert RowCovers(g, r);
      assert |h.cells[r]| == |g.cells[r]|;
    }
    h
  }

  /** The cell-by-cell loop of `each_data` with an assignment in its block: the
      sentinel test reads the cell as the loop finds it, after the earlier
      cells have been rewritten. It ends with the grid `MapData` describes. */
  method MapDataInPlace(g: Grid, f: real -> real) returns (h: Grid)
    requires Traversable(g)
    ensures h == MapData(g, f)
  {
    var cells := g.cells;
    var row := 0;
    while row < Rows(g)
      invariant 0 <= row <= Rows(g)
      invariant |cells| == |g.cells|
      invariant forall r :: 0 <= r < |cells| ==> |cells[r]| == |g.cells[r]|
      invariant forall r, c :: 0 <= r < |cells| && 0 <= c < |cells[r]| ==>
        cells[r][c] == if r < row then Touch(g, r, c, f) else g.cells[r][c]
    {
      var col := 0;
      assert Cols(g) > 0 ==> RowCovers(g, row);
      while col < Cols(g)
        invariant 0 <= col <= Cols(g)
        invariant |cells| == |g.cells|
        invariant forall r :: 0 <= r < |cells| ==> |cells[r]| == |g.cells[r]|
        invariant forall r, c :: 0 <= r < |cells| && 0 <= c < |cells[r]| ==>
          cells[r][c] == if r < row || (r == row && c < col) then Touch(g, r, c, f) else g.cells[r][c]
      {
        var x := cells[row][col];
        if !IsNoData(g, x) {
          cells := cells[row := cells[row][col := f(x)]];
        }
        col := col + 1;
      }
      row := row + 1;
    }
    h := Grid(g.params, cells);
    var m := MapData(g, f);
    forall r | 0 <= r < |cells|
      ensures cells[r] == m.cells[r]
    {
      assert forall c :: 0 <= c < |cells[r]| ==> cells[r][c] == m.cells[r][c];
    }
    assert cells == m.cells;
  }

  /** The cells `each_data` yields go through `f`; every other cell, inside
      the window or not, keeps its value. */
  lemma MapDataFrame(g: Grid, f: real -> real)
    requires Traversable(g)
    ensures forall i :: 0 <= i < |DataCoord(g)| ==>
      Cell(MapData(g, f), DataCoord(g)[i].0, DataCoord(g)[i].1) == f(Cell(g, DataCoord(g)[i].0, DataCoord(g)[i].1))
    ensures forall r, c :: 0 <= r < |g.cells| && 0 <= c < |g.cells[r]| && (r, c) !in DataCoord(g) ==>
      MapData(g, f).cells[r][c] == g.cells[r][c]
  {
    var s := DataCoord(g);
    forall i | 0 <= i < |s|
      ensures Cell(MapData(g, f), s[i].0, s[i].1) == f(Cell(g, s[i].0, s[i].1))
    {
      assert IsDataCell(g, s[i].0, s[i].1);
      assert RowCovers(g, s[i].0);
    }
  }

  /** `f` sends no data cell to the sentinel. */
  ghost predicate NoClash(g: Grid, f: real -> real)
    requires Traversable(g)
  {
    forall r, c :: IsDataCell(g, r, c) ==> !IsNoData(g, f(Cell(g, r, c)))
  }

  /** `f` applied to every element. */
  function Apply(f: real -> real, s: seq<real>): (t: seq<real>)
    ensures |t| == |s|
    ensures forall i :: 0 <= i < |s| ==> t[i] == f(s[i])
  {
    seq(|s|, i requires 0 <= i < |s| => f(s[i]))
  }

  lemma {:induction false} RowValuesAfterMap(g: Grid, f: real -> real, r: nat, c: nat)
    requires Traversable(g) && r < Rows(g) && c <= Cols(g) && NoClash(g, f)
    ensures RowValues(MapData(g, f), r, c) == Apply(f, RowValues(g, r, c))
    decreases c
  {
    if c > 0 {
      RowValuesAfterMap(g, f, r, c - 1);
      assert RowCovers(g, r);
      var h := MapData(g, f);
      assert Cell(h, r, c - 1) == Touch(g, r, c - 1, f);
      if IsDataCell(g, r, c - 1) {
        assert !IsNoData(g, f(Cell(g, r, c - 1)));
      }
    }
  }

  lemma {:induction false} ValuesAboveAfterMap(g: Grid, f: real -> real, r: nat)
    requires Traversable(g) && r <= Rows(g) && NoClash(g, f)
    ensures ValuesAbove(MapData(g, f), r) == Apply(f, ValuesAbove(g, r))
    decreases r
  {
    if r > 0 {
      ValuesAboveAfterMap(g, f, r - 1);
      RowValuesAfterMap(g, f, r - 1, Cols(g));
    }
  }

  /** When `f` sends no data cell to the sentinel, the data values afterwards
      are the old ones passed through `f`, same count, same order. */
  lemma DataValuesAfterMap(g: Grid, f: real -> real)
    requires Traversable(g) && NoClash(g, f)
    ensures DataValues(MapData(g, f)) == Apply(f, DataValues(g))
  {
    ValuesAboveAfterMap(g, f, Rows(g));
  }

  /** `multiply!(mul)`. */
  function Multiply(g: Grid, mul: real): (h: Grid)
    requires Traversable(g)
    ensures Traversable(h)
    ensures h.params == g.params && |h.cells| == |g.cells|
    ensures forall r :: 0 <= r < |g.cells| ==> |h.cells[r]| == |g.cells[r]|
    ensures forall r, c :: IsDataCell(g, r, c) ==> Cell(h, r, c) == Cell(g, r, c) * mul
    ensures forall r, c :: 0 <= r < |g.cells| && 0 <= c < |g.cells[r]| && !IsDataCell(g, r, c) ==>
      h.cells[r][c] == g.cells[r][c]
  {
    var h := MapData(g, x => x * mul);
    assert forall r, c :: IsDataCell(g, r, c) ==> RowCovers(g, r);
    h
  }

  /** No product `cell * mul` of a data cell equals the sentinel. */
  ghost predicate NoProductIsNoData(g: Grid, mul: real)
    requires Traversable(g)
  {
    forall r, c :: IsDataCell(g, r, c) ==> !IsNoData(g, Cell(g, r, c) * mul)
  }

  /** Unless a product lands on the sentinel, `multiply!` scales every data
      value, and so the sum, by `mul`. */
  lemma MultiplyScalesSum(g: Grid, mul: real)
    requires Traversable(g) && NoProductIsNoData(g, mul)
    ensures DataValues(Multiply(g, mul)) == Scale(DataValues(g), mul)
    ensures SumValues(Multiply(g, mul)).Some? <==> SumValues(g).Some?
    ensures SumValues(g).Some? ==> SumValues(Multiply(g, mul)).value == mul * SumValues(g).value
  {
    var f := x => x * mul;
    assert NoClash(g, f);
    DataValuesAfterMap(g, f);
    assert Apply(f, DataValues(g)) == Scale(DataValues(g), mul);
    SumScale(DataValues(g), mul);
  }

  /** `normalize!(total)`: multiply by `total / sum_values`. Ruby gives Infinity
      or NaN for a zero sum and raises for a `nil` one; both are excluded. */
  function Normalize(g: Grid, total: real): (h: Grid)
    requires Traversable(g) && SumValues(g).Some? && SumValues(g).value != 0.0
    ensures Traversable(h)
    ensures h.params == g.params && |h.cells| == |g.cells|
    ensures forall r :: 0 <= r < |g.cells| ==> |h.cells[r]| == |g.cells[r]|
    ensures forall r, c :: IsDataCell(g, r, c) ==> Cell(h, r, c) == Cell(g, r, c) * (total / SumValues(g).value)
    ensures forall r, c :: 0 <= r < |g.cells| && 0 <= c < |g.cells[r]| && !IsDataCell(g, r, c) ==>
      h.cells[r][c] == g.cells[r][c]
  {
    Multiply(g, total / SumValues(g).value)
  }

  /** After `normalize!(total)` the data values sum to `total`, unless a
      rescaled cell lands on the sentinel. */
  lemma NormalizeReachesTotal(g: Grid, total: real)
    requires Traversable(g) && SumValues(g).Some? && SumValues(g).value != 0.0
    requires NoProductIsNoData(g, total / SumValues(g).value)
    ensures SumValues(Normalize(g, total)) == Some(total)
  {
    var s := SumValues(g).value;
    MultiplyScalesSum(g, total / s);
    assert Normalize(g, total) == Multiply(g, total / s);
    assert SumValues(Multiply(g, total / s)).value == (total / s) * s;
    assert (total / s) * s == total;
  }

  /** `round(n)`, with `roundTo` standing for `Float#round`: whatever it does
      to the data cells, the sentinel cells, the cells outside the window, the
      dimensions and the header are left as they were. */
  function Round(g: Grid, n: int, roundTo: (real, int) -> real): (h: Grid)
    requires Traversable(g)
    ensures Traversable(h)
    ensures h.params == g.params && |h.cells| == |g.cells|
    ensures forall r :: 0 <= r < |g.cells| ==> |h.cells[r]| == |g.cells[r]|
    ensures forall r, c :: 0 <= r < |g.cells| && 0 <= c < |g.cells[r]| && !IsDataCell(g, r, c) ==>
      h.cells[r][c] == g.cells[r][c]
    ensures forall r, c :: IsDataCell(g, r, c) ==> Cell(h, r, c) == roundTo(Cell(g, r, c), n)
  {
    var h := MapData(g, x => roundTo(x, n));
    assert forall r, c :: IsDataCell(g, r, c) ==> RowCovers(g, r);
    h
  }

  /** `reset_data!(value)`: every data cell takes `value.to_f`. Because
      `nil.to_f` is 0.0, a missing value writes 0.0; the `||` fallback to the
      sentinel never applies. */
  function ResetData(g: Grid, value: Option<real>): (h: Grid)
    requires Traversable(g)
    ensures Traversable(h)
    ensures h.params == g.params && |h.cells| == |g.cells|
    ensures forall r :: 0 <= r < |g.cells| ==> |h.cells[r]| == |g.cells[r]|
    ensures forall r, c :: IsDataCell(g, r, c) && value.Some? ==> Cell(h, r, c) == value.value
    ensures forall r, c :: IsDataCell(g, r, c) && value.None? ==> Cell(h, r, c) == 0.0
    ensures forall r, c :: 0 <= r < |g.cells| && 0 <= c < |g.cells[r]| && !IsDataCell(g, r, c) ==>
      h.cells[r][c] == g.cells[r][c]
  {
    var h := MapData(g, _ => value.GetOr(0.0));
    assert forall r, c :: IsDataCell(g, r, c) ==> RowCovers(g, r);
    h
  }

  /** When the written value is not the sentinel, the data cells stay data
      cells: the same count of them, all holding that value. */
  lemma ResetDataKeepsCount(g: Grid, value: Option<real>)
    requires Traversable(g) && !IsNoData(g, value.GetOr(0.0))
    ensures DataValues(ResetData(g, value)) == seq(|DataValues(g)|, _ => value.GetOr(0.0))
  {
    var f := _ => value.GetOr(0.0);
    assert NoClash(g, f);
    DataValuesAfterMap(g, f);
  }

  /** When the written value is the sentinel, no data cell is left. */
  lemma ResetDataToSentinelClears(g: Grid, value: Option<real>)
    requires Traversable(g) && IsNoData(g, value.GetOr(0.0))
    ensures DataValues(ResetData(g, value)) == []
  {
    var h := ResetData(g, value);
    forall r, c | InWindow(h, r, c)
      ensures IsNoData(h, Cell(h, r, c))
    {
      assert RowCovers(g, r);
    }
    DataValuesEmptyIffNoData(h);
  }

  /** `@params["NODATA_value"].to_f`, with `toNum` standing for `String#to_f`;
      `nil.to_f` is 0.0. A numeric sentinel converts to a value the sentinel
      test recognises; a String one does not, as no Float equals a String. */
  function NoDataFill(g: Grid, toNum: string -> real): (x: real)
    ensures NODATA_VALUE in g.params && !g.params[NODATA_VALUE].Str? ==> IsNoData(g, x)
    ensures NODATA_VALUE in g.params && g.params[NODATA_VALUE].Str? ==>
      x == toNum(g.params[NODATA_VALUE].s) && !IsNoData(g, x)
    ensures NODATA_VALUE !in g.params ==> x == 0.0
  {
    if NODATA_VALUE !in g.params then 0.0
    else match g.params[NODATA_VALUE]
      case Int(i) => i as real
      case Num(r) => r
      case Str(s) => toNum(s)
  }

  /** `reset!`: `nrows` fresh rows of `ncols` sentinel cells. Ruby raises for a
      negative `ncols` when there is a row to build; that case is excluded. */
  function Reset(g: Grid, toNum: string -> real): (h: Grid)
    requires HasDims(g) && (g.params[NROWS].i <= 0 || g.params[NCOLS].i >= 0)
    ensures h.params == g.params
    ensures Traversable(h) && Rows(h) == Rows(g) && Cols(h) == Cols(g)
    ensures |h.cells| == Rows(g)
    ensures forall r :: 0 <= r < |h.cells| ==> |h.cells[r]| == g.params[NCOLS].i
    ensures forall r, c :: 0 <= r < |h.cells| && 0 <= c < |h.cells[r]| ==> h.cells[r][c] == NoDataFill(g, toNum)
    ensures NODATA_VALUE in g.params && !g.params[NODATA_VALUE].Str? ==> DataValues(h) == [] && SumValues(h).None?
  {
    var h := Grid(g.params, seq(Rows(g), _ => seq(Cols(g), _ => NoDataFill(g, toNum))));
    assert forall r :: 0 <= r < Rows(h) && Cols(h) > 0 ==> RowCovers(h, r);
    DataValuesEmptyIffNoData(h);
    h
  }

  /** The evidently intended `reset_data!`: a missing value writes the
      sentinel, clearing the grid of data. */
  function ResetDataIntended(g: Grid, value: Option<real>, toNum: string -> real): (h: Grid)
    requires Traversable(g)
    ensures Traversable(h)
    ensures h.params == g.params && |h.cells| == |g.cells|
    ensures forall r :: 0 <= r < |g.cells| ==> |h.cells[r]| == |g.cells[r]|
    ensures forall r, c :: IsDataCell(g, r, c) ==> Cell(h, r, c) == value.GetOr(NoDataFill(g, toNum))
    ensures forall r, c :: 0 <= r < |g.cells| && 0 <= c < |g.cells[r]| && !IsDataCell(g, r, c) ==>
      h.cells[r][c] == g.cells[r][c]
  {
    var h := MapData(g, _ => value.GetOr(NoDataFill(g, toNum)));
    assert forall r, c :: IsDataCell(g, r, c) ==> RowCovers(g, r);
    h
  }

  /** With no value given, the intended `reset_data!` leaves no data cell. */
  lemma ResetDataIntendedClears(g: Grid, toNum: string -> real)
    requires Traversable(g) && NODATA_VALUE in g.params && !g.params[NODATA_VALUE].Str?
    ensures DataValues(ResetDataIntended(g, None, toNum)) == []
  {
    var h := ResetDataIntended(g, None, toNum);
    forall r, c | InWindow(h, r, c)
      ensures IsNoData(h, Cell(h, r, c))
    {
      assert RowCovers(g, r);
    }
    DataValuesEmptyIffNoData(h);
  }

  /** As written, `reset_data!` with no value on a grid whose sentinel is not
      0.0 leaves every data cell a data cell holding 0.0, so a grid with data
      still has data afterwards. */
  lemma ResetDataWithoutValueKeepsData(g: Grid)
    requires Traversable(g) && !IsNoData(g, 0.0) && DataValues(g) != []
    ensures DataValues(ResetData(g, None)) != []
    ensures SumValues(ResetData(g, None)) == Some(0.0)
  {
    ResetDataKeepsCount(g, None);
    var n := |DataValues(g)|;
    var s := seq(n, _ => 0.0);
    assert DataValues(ResetData(g, None)) == s;
    ZeroSum(s);
  }

  lemma {:induction false} ZeroSum(s: seq<real>)
    requires forall i :: 0 <= i < |s| ==> s[i] == 0.0
    ensures Sum(s) == 0.0
    decreases |s|
  {
    if s != [] {
      ZeroSum(s[1..]);
    }
  }
}
