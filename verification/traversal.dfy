/** `each_data`, `data_coord` and `data_values`: row-major walks over the
    `nrows`×`ncols` window that skip the cells holding the sentinel. */
module Traversal {
  import opened AscGrid

  /** A (row, col) index pair. */
  type Coord = (int, int)

  /** Row-major order: earlier row, or same row and earlier column. */
  predicate Before(p: Coord, q: Coord) {
    p.0 < q.0 || (p.0 == q.0 && p.1 < q.1)
  }

  /** The data cells of row `r` among columns 0 .. c-1, left to right. */
  function RowCoords(g: Grid, r: nat, c: nat): (s: seq<Coord>)
    requires Traversable(g) && r < Rows(g) && c <= Cols(g)
    ensures forall i :: 0 <= i < |s| ==> s[i].0 == r && 0 <= s[i].1 < c && IsDataCell(g, r, s[i].1)
    ensures forall i, j :: 0 <= i < j < |s| ==> s[i].1 < s[j].1
  {
    if c == 0 then []
    else RowCoords(g, r, c - 1) + (if IsDataCell(g, r, c - 1) then [(r, c - 1)] else [])
  }

  /** The data cells of rows 0 .. r-1 in row-major order. */
  function CoordsAbove(g: Grid, r: nat): (s: seq<Coord>)
    requires Traversable(g) && r <= Rows(g)
    ensures forall i :: 0 <= i < |s| ==> 0 <= s[i].0 < r && IsDataCell(g, s[i].0, s[i].1)
    ensures forall i, j :: 0 <= i < j < |s| ==> Before(s[i], s[j])
  {
    if r == 0 then []
    else
      var prev := CoordsAbove(g, r - 1);
      var last := RowCoords(g, r - 1, Cols(g));
      assert forall i, j :: 0 <= i < |prev| && 0 <= j < |last| ==> Before(prev[i], last[j]);
      prev + last
  }

  /** Every data cell of row `r` left of column `c` is listed. */
  lemma {:induction false} RowCoordsComplete(g: Grid, r: nat, c: nat)
    requires Traversable(g) && r < Rows(g) && c <= Cols(g)
    ensures forall col :: 0 <= col < c && IsDataCell(g, r, col) ==> (r, col) in RowCoords(g, r, c)
    decreases c
  {
    if c > 0 {
      RowCoordsComplete(g, r, c - 1);
    }
  }

  /** Every data cell of the rows above `r` is listed. */
  lemma {:induction false} CoordsAboveComplete(g: Grid, r: nat)
    requires Traversable(g) && r <= Rows(g)
    ensures forall row, col :: 0 <= row < r && IsDataCell(g, row, col) ==> (row, col) in CoordsAbove(g, r)
    decreases r
  {
    if r > 0 {
      CoordsAboveComplete(g, r - 1);
      RowCoordsComplete(g, r - 1, Cols(g));
      var prev, last := CoordsAbove(g, r - 1), RowCoords(g, r - 1, Cols(g));
      assert CoordsAbove(g, r) == prev + last;
      forall row, col | 0 <= row < r && IsDataCell(g, row, col)
        ensures (row, col) in prev + last
      {
        if row < r - 1 {
          assert (row, col) in prev;
        } else {
          assert (row, col) in last;
        }
      }
    }
  }

  /** `data_coord`: every data cell of the window, each once, in row-major
      order, and nothing else. */
  function DataCoord(g: Grid): (s: seq<Coord>)
    requires Traversable(g)
    ensures forall i :: 0 <= i < |s| ==> IsDataCell(g, s[i].0, s[i].1)
    ensures forall row, col :: IsDataCell(g, row, col) ==> (row, col) in s
    ensures forall i, j :: 0 <= i < j < |s| ==> Before(s[i], s[j])
  {
    CoordsAboveComplete(g, Rows(g));
    CoordsAbove(g, Rows(g))
  }

  /** Row `r`'s non-sentinel values among columns 0 .. c-1, left to right. */
  function RowValues(g: Grid, r: nat, c: nat): seq<real>
    requires Traversable(g) && r < Rows(g) && c <= Cols(g)
  {
    if c == 0 then []
    else RowValues(g, r, c - 1) + (if IsNoData(g, Cell(g, r, c - 1)) then [] else [Cell(g, r, c - 1)])
  }

  function ValuesAbove(g: Grid, r: nat): seq<real>
    requires Traversable(g) && r <= Rows(g)
  {
    if r == 0 then [] else ValuesAbove(g, r - 1) + RowValues(g, r - 1, Cols(g))
  }

  /** `data_values`. */
  function DataValues(g: Grid): seq<real>
    requires Traversable(g)
  {
    ValuesAbove(g, Rows(g))
  }

  /** `vs` lists, in order, the cells at the positions `cs` lists. */
  predicate Aligned(g: Grid, vs: seq<real>, cs: seq<Coord>)
    requires Traversable(g)
  {
    |vs| == |cs| &&
    forall i :: 0 <= i < |cs| ==> InWindow(g, cs[i].0, cs[i].1) && vs[i] == Cell(g, cs[i].0, cs[i].1)
  }

  lemma AlignedAppend(g: Grid, vs: seq<real>, cs: seq<Coord>, rv: seq<real>, rc: seq<Coord>)
    requires Traversable(g) && Aligned(g, vs, cs) && Aligned(g, rv, rc)
    ensures Aligned(g, vs + rv, cs + rc)
  {
    forall i | 0 <= i < |cs| + |rc|
      ensures InWindow(g, (cs + rc)[i].0, (cs + rc)[i].1) && (vs + rv)[i] == Cell(g, (cs + rc)[i].0, (cs + rc)[i].1)
    {
      if i < |cs| {
        assert (vs + rv)[i] == vs[i] && (cs + rc)[i] == cs[i];
      } else {
        assert (vs + rv)[i] == rv[i - |cs|] && (cs + rc)[i] == rc[i - |cs|];
      }
    }
  }

  /** The values listed for row `r` are the cells at the coordinates listed for it. */
  lemma {:induction false} RowValuesAlongCoords(g: Grid, r: nat, c: nat)
    requires Traversable(g) && r < Rows(g) && c <= Cols(g)
    ensures Aligned(g, RowValues(g, r, c), RowCoords(g, r, c))
    decreases c
  {
    if c > 0 {
      RowValuesAlongCoords(g, r, c - 1);
      var last: seq<Coord> := if IsDataCell(g, r, c - 1) then [(r, c - 1)] else [];
      var lastV: seq<real> := if IsNoData(g, Cell(g, r, c - 1)) then [] else [Cell(g, r, c - 1)];
      assert Aligned(g, lastV, last);
      AlignedAppend(g, RowValues(g, r, c - 1), RowCoords(g, r, c - 1), lastV, last);
    }
  }

  lemma {:induction false} ValuesAboveAlongCoords(g: Grid, r: nat)
    requires Traversable(g) && r <= Rows(g)
    ensures Aligned(g, ValuesAbove(g, r), CoordsAbove(g, r))
    decreases r
  {
    if r > 0 {
      ValuesAboveAlongCoords(g, r - 1);
      RowValuesAlongCoords(g, r - 1, Cols(g));
      var vs, cs := ValuesAbove(g, r - 1), CoordsAbove(g, r - 1);
      var rv, rc := RowValues(g, r - 1, Cols(g)), RowCoords(g, r - 1, Cols(g));
      AlignedAppend(g, vs, cs, rv, rc);
      assert ValuesAbove(g, r) == vs + rv;
      assert CoordsAbove(g, r) == cs + rc;
    }
  }

  /** `data_values` lists, in order, the cells at the positions `data_coord`
      lists: the same cells, the same count, the same order. */
  lemma DataValuesAlongCoord(g: Grid)
    requires Traversable(g)
    ensures |DataValues(g)| == |DataCoord(g)|
    ensures forall i :: 0 <= i < |DataCoord(g)| ==>
      DataValues(g)[i] == Cell(g, DataCoord(g)[i].0, DataCoord(g)[i].1)
  {
    ValuesAboveAlongCoords(g, Rows(g));
  }

  /** No position is listed twice. */
  lemma DataCoordDistinct(g: Grid)
    requires Traversable(g)
    ensures forall i, j :: 0 <= i < |DataCoord(g)| && 0 <= j < |DataCoord(g)| && i != j ==>
      DataCoord(g)[i] != DataCoord(g)[j]
  {
    var s := DataCoord(g);
    forall i, j | 0 <= i < |s| && 0 <= j < |s| && i != j
      ensures s[i] != s[j]
    {
      if i < j { assert Before(s[i], s[j]); } else { assert Before(s[j], s[i]); }
    }
  }

  /** `data_values` is empty exactly when every cell of the window holds the sentinel. */
  lemma DataValuesEmptyIffNoData(g: Grid)
    requires Traversable(g)
    ensures DataValues(g) == [] <==> forall r, c :: InWindow(g, r, c) ==> IsNoData(g, Cell(g, r, c))
  {
    DataValuesAlongCoord(g);
    if DataValues(g) != [] {
      var p := DataCoord(g)[0];
      assert IsDataCell(g, p.0, p.1);
      assert InWindow(g, p.0, p.1) && !IsNoData(g, Cell(g, p.0, p.1));
    } else {
      forall r, c | InWindow(g, r, c)
        ensures IsNoData(g, Cell(g, r, c))
      {
        if !IsNoData(g, Cell(g, r, c)) {
          assert IsDataCell(g, r, c);
        }
      }
    }
  }

  /** `each_data`: the positions it yields, in the order it yields them. The
      sentinel test is made on the cell as the loop reaches it. */
  method EachData(g: Grid) returns (visits: seq<Coord>)
    requires Traversable(g)
    ensures visits == DataCoord(g)
  {
    visits := [];
    var row := 0;
    while row < Rows(g)
      invariant 0 <= row <= Rows(g)
      invariant visits == CoordsAbove(g, row)
    {
      var col := 0;
      while col < Cols(g)
        invariant 0 <= col <= Cols(g)
        invariant visits == CoordsAbove(g, row) + RowCoords(g, row, col)
      {
        if !IsNoData(g, Cell(g, row, col)) {
          visits := visits + [(row, col)];
        }
        col := col + 1;
      }
      row := row + 1;
    }
  }
}
