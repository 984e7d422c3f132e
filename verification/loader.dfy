/** `AscMap#initialize`: classify each line of the file as a header entry or a
    data row, then post-process the header (integer dimensions, the default
    sentinel, the "31" corner fixup). The file arrives already split into
    lines and each line into its `String#split` tokens; `toNum` stands for
    `String#to_f` and `showReal` for `Float#to_s`. */
module Loader {
  import opened Optional
  import opened AscGrid

  /** The only test that tells header from data: exactly two tokens. */
  predicate IsHeader(line: seq<string>) {
    |line| == 2
  }

  /** `array.map(&:to_f)`. */
  function ToNums(line: seq<string>, toNum: string -> real): (row: seq<real>)
    ensures |row| == |line|
    ensures forall i :: 0 <= i < |line| ==> row[i] == toNum(line[i])
  {
    seq(|line|, i requires 0 <= i < |line| => toNum(line[i]))
  }

  /** The line loop, giving the grid before post-processing: a header line
      sets (or overwrites) `params[tok0]`, every other line, blank ones
      included, appends one row. */
  function ParseLines(lines: seq<seq<string>>, toNum: string -> real): (p: Grid)
    ensures forall k :: k in p.params ==> p.params[k].Num?
    ensures |p.cells| <= |lines|
    decreases |lines|
  {
    if lines == [] then Grid(map[], [])
    else
      var prev := ParseLines(lines[..|lines| - 1], toNum);
      var line := lines[|lines| - 1];
      if IsHeader(line) then Grid(prev.params[line[0] := Num(toNum(line[1]))], prev.cells)
      else Grid(prev.params, prev.cells + [ToNums(line, toNum)])
  }

  /** The lines that are not headers, in file order. */
  function DataLines(lines: seq<seq<string>>): (ds: seq<seq<string>>)
    ensures forall i :: 0 <= i < |ds| ==> !IsHeader(ds[i])
  {
    if lines == [] then []
    else DataLines(lines[..|lines| - 1]) + (if IsHeader(lines[|lines| - 1]) then [] else [lines[|lines| - 1]])
  }

  function RowsOf(lines: seq<seq<string>>, toNum: string -> real): (rows: seq<seq<real>>)
    ensures |rows| == |lines|
    ensures forall i :: 0 <= i < |lines| ==> rows[i] == ToNums(lines[i], toNum)
  {
    seq(|lines|, i requires 0 <= i < |lines| => ToNums(lines[i], toNum))
  }

  /** Line `i` is a header line for `key`. */
  predicate HeaderAt(lines: seq<seq<string>>, i: int, key: string) {
    0 <= i < |lines| && IsHeader(lines[i]) && lines[i][0] == key
  }

  /** Line `i` is the last header line for `key`. */
  predicate LastHeaderAt(lines: seq<seq<string>>, i: int, key: string) {
    HeaderAt(lines, i, key) && forall j :: i < j < |lines| ==> !HeaderAt(lines, j, key)
  }

  /** The rows are the non-header lines, converted, in file order: one row per
      line that does not have exactly two tokens. */
  lemma {:induction false} ParseCells(lines: seq<seq<string>>, toNum: string -> real)
    ensures ParseLines(lines, toNum).cells == RowsOf(DataLines(lines), toNum)
    decreases |lines|
  {
    if lines != [] {
      ParseCells(lines[..|lines| - 1], toNum);
    }
  }

  /** A key is present exactly when some line is a header for it, and its value
      comes from the last such line. */
  lemma {:induction false} ParseParams(lines: seq<seq<string>>, toNum: string -> real, key: string)
    ensures key in ParseLines(lines, toNum).params <==> exists i :: HeaderAt(lines, i, key)
    ensures forall i :: LastHeaderAt(lines, i, key) ==>
      ParseLines(lines, toNum).params[key] == Num(toNum(lines[i][1]))
    decreases |lines|
  {
    if lines != [] {
      var n := |lines| - 1;
      var init := lines[..n];
      ParseParams(init, toNum, key);
      assert forall i :: 0 <= i < n ==> (HeaderAt(lines, i, key) <==> HeaderAt(init, i, key));
      if HeaderAt(lines, n, key) {
        forall i | LastHeaderAt(lines, i, key)
          ensures i == n
        {
        }
      } else {
        forall i | LastHeaderAt(lines, i, key)
          ensures LastHeaderAt(init, i, key)
        {
        }
        if key in ParseLines(lines, toNum).params {
          var i :| HeaderAt(init, i, key);
          assert HeaderAt(lines, i, key);
        }
      }
    }
  }

  /** `to_i` applied to a dimension when present. */
  function TruncDim(params: map<string, ParamVal>, key: string): (p: map<string, ParamVal>)
    ensures p.Keys == params.Keys
    ensures key in params ==> p[key] == Int(ToI(Some(params[key])))
    ensures forall k :: k in params && k != key ==> p[k] == params[k]
  {
    if key in params then params[key := Int(ToI(Some(params[key])))] else params
  }

  /** The corner fixup: unless the text of the value already starts with "31",
      the value becomes the String "31" followed by that text (a missing value
      has empty text, so it becomes "31"). */
  function FixCorner(v: Option<ParamVal>, showReal: real -> string): (r: ParamVal)
    ensures "31" <= Show(r, showReal)
    ensures v.Some? && "31" <= Show(v.value, showReal) ==> r == v.value
    ensures v.Some? && !("31" <= Show(v.value, showReal)) ==> r == Str("31" + Show(v.value, showReal))
    ensures v.None? ==> r == Str("31")
  {
    var text := if v.Some? then Show(v.value, showReal) else "";
    if "31" <= text then v.value else Str("31" + text)
  }

  /** Applying the fixup to its own result changes nothing: the prefix test,
      not a flag, prevents a second "31". */
  lemma FixCornerIdempotent(v: Option<ParamVal>, showReal: real -> string)
    ensures FixCorner(Some(FixCorner(v, showReal)), showReal) == FixCorner(v, showReal)
  {
  }

  /** `AscMap.new`. */
  function Load(lines: seq<seq<string>>, toNum: string -> real, showReal: real -> string): (g: Grid)
    ensures NODATA_VALUE in g.params && !g.params[NODATA_VALUE].Str?
    ensures NROWS in g.params ==> g.params[NROWS].Int?
    ensures NCOLS in g.params ==> g.params[NCOLS].Int?
    ensures XLLCORNER in g.params && "31" <= Show(g.params[XLLCORNER], showReal)
    ensures YLLCORNER in g.params && "31" <= Show(g.params[YLLCORNER], showReal)
    ensures g.cells == RowsOf(DataLines(lines), toNum)
  {
    ParseCells(lines, toNum);
    var raw := ParseLines(lines, toNum);
    var dims := TruncDim(TruncDim(raw.params, NROWS), NCOLS);
    var withNoData := if NODATA_VALUE in dims then dims else dims[NODATA_VALUE := Int(DEFAULT_NODATA)];
    var xFixed := withNoData[XLLCORNER := FixCorner(Param(withNoData, XLLCORNER), showReal)];
    var yFixed := xFixed[YLLCORNER := FixCorner(Param(xFixed, YLLCORNER), showReal)];
    Grid(yFixed, raw.cells)
  }

  /** How post-processing turns the header read by the line loop into the
      loaded header, key by key. */
  lemma LoadFromParsed(lines: seq<seq<string>>, toNum: string -> real, showReal: real -> string, key: string)
    ensures var raw := ParseLines(lines, toNum).params;
            var p := Load(lines, toNum, showReal).params;
            && (key == XLLCORNER || key == YLLCORNER ==> key in p && p[key] == FixCorner(Param(raw, key), showReal))
            && (key == NODATA_VALUE ==> key in p && p[key] == Param(raw, key).GetOr(Int(DEFAULT_NODATA)))
            && (key == NROWS || key == NCOLS ==>
                  (key in p <==> key in raw) && (key in raw ==> p[key] == Int(ToI(Some(raw[key])))))
            && (key !in {NROWS, NCOLS, NODATA_VALUE, XLLCORNER, YLLCORNER} ==>
                  (key in p <==> key in raw) && (key in raw ==> p[key] == raw[key]))
  {
  }

  /** `nrows` and `ncols` are present exactly when the file has a header line for
      them, and then hold the truncated value of the last such line. */
  lemma LoadDimension(lines: seq<seq<string>>, toNum: string -> real, showReal: real -> string, key: string)
    requires key == NROWS || key == NCOLS
    ensures key in Load(lines, toNum, showReal).params <==> exists i :: HeaderAt(lines, i, key)
    ensures forall i :: LastHeaderAt(lines, i, key) ==>
      Load(lines, toNum, showReal).params[key] == Int(Trunc(toNum(lines[i][1])))
  {
    ParseParams(lines, toNum, key);
    LoadFromParsed(lines, toNum, showReal, key);
  }

  /** `NODATA_value` is the last header value given for it, or -9999 when the
      file gives none. */
  lemma LoadNoData(lines: seq<seq<string>>, toNum: string -> real, showReal: real -> string)
    ensures (forall i :: !HeaderAt(lines, i, NODATA_VALUE)) ==>
      Load(lines, toNum, showReal).params[NODATA_VALUE] == Int(-9999)
    ensures forall i :: LastHeaderAt(lines, i, NODATA_VALUE) ==>
      Load(lines, toNum, showReal).params[NODATA_VALUE] == Num(toNum(lines[i][1]))
  {
    ParseParams(lines, toNum, NODATA_VALUE);
    LoadFromParsed(lines, toNum, showReal, NODATA_VALUE);
  }

  /** A corner missing from the file becomes "31"; a given corner keeps its
      Float when its text starts with "31" and otherwise becomes "31" followed
      by that text. */
  lemma LoadCorner(lines: seq<seq<string>>, toNum: string -> real, showReal: real -> string, key: string)
    requires key == XLLCORNER || key == YLLCORNER
    ensures (forall i :: !HeaderAt(lines, i, key)) ==>
      Load(lines, toNum, showReal).params[key] == Str("31")
    ensures forall i :: LastHeaderAt(lines, i, key) && "31" <= showReal(toNum(lines[i][1])) ==>
      Load(lines, toNum, showReal).params[key] == Num(toNum(lines[i][1]))
    ensures forall i :: LastHeaderAt(lines, i, key) && !("31" <= showReal(toNum(lines[i][1]))) ==>
      Load(lines, toNum, showReal).params[key] == Str("31" + showReal(toNum(lines[i][1])))
  {
    var raw := ParseLines(lines, toNum).params;
    var p := Load(lines, toNum, showReal).params;
    ParseParams(lines, toNum, key);
    LoadFromParsed(lines, toNum, showReal, key);
    forall i | LastHeaderAt(lines, i, key)
      ensures p[key] == FixCorner(Some(Num(toNum(lines[i][1]))), showReal)
    {
      assert Param(raw, key) == Some(Num(toNum(lines[i][1])));
    }
  }

  /** Any other header key is kept as read: present exactly when some line
      names it, with the Float of the last such line. */
  lemma LoadOtherHeader(lines: seq<seq<string>>, toNum: string -> real, showReal: real -> string, key: string)
    requires key !in {NROWS, NCOLS, NODATA_VALUE, XLLCORNER, YLLCORNER}
    ensures key in Load(lines, toNum, showReal).params <==> exists i :: HeaderAt(lines, i, key)
    ensures forall i :: LastHeaderAt(lines, i, key) ==>
      Load(lines, toNum, showReal).params[key] == Num(toNum(lines[i][1]))
  {
    ParseParams(lines, toNum, key);
    LoadFromParsed(lines, toNum, showReal, key);
  }

  lemma {:induction false} NoDataLinesAmongHeaders(lines: seq<seq<string>>)
    requires forall i :: 0 <= i < |lines| ==> IsHeader(lines[i])
    ensures DataLines(lines) == []
    decreases |lines|
  {
    if lines != [] {
      NoDataLinesAmongHeaders(lines[..|lines| - 1]);
    }
  }

  /** A file whose data rows have two values each: every such row is taken for
      a header entry, so no row of cells is loaded at all. */
  lemma TwoValueRowsLoadAsHeaders(toNum: string -> real, showReal: real -> string)
    ensures var lines := [["ncols", "2"], ["nrows", "2"], ["xllcorner", "1000"], ["yllcorner", "2000"],
                          ["cellsize", "10"], ["NODATA_value", "-9999"], ["1", "-9999"], ["2", "3"]];
            var g := Load(lines, toNum, showReal);
            g.cells == [] && "1" in g.params && "2" in g.params
  {
    var lines := [["ncols", "2"], ["nrows", "2"], ["xllcorner", "1000"], ["yllcorner", "2000"],
                  ["cellsize", "10"], ["NODATA_value", "-9999"], ["1", "-9999"], ["2", "3"]];
    assert HeaderAt(lines, 6, "1");
    assert HeaderAt(lines, 7, "2");
    LoadOtherHeader(lines, toNum, showReal, "1");
    LoadOtherHeader(lines, toNum, showReal, "2");
    NoDataLinesAmongHeaders(lines);
  }

  lemma {:induction false} DataLinesAppend(a: seq<seq<string>>, b: seq<seq<string>>)
    ensures DataLines(a + b) == DataLines(a) + DataLines(b)
    decreases |b|
  {
    if b == [] {
      assert a + b == a;
    } else {
      var n := |b| - 1;
      DataLinesAppend(a, b[..n]);
      assert (a + b)[..|a + b| - 1] == a + b[..n];
    }
  }

  lemma {:induction false} DataLinesOfRows(lines: seq<seq<string>>)
    requires forall i :: 0 <= i < |lines| ==> !IsHeader(lines[i])
    ensures DataLines(lines) == lines
    decreases |lines|
  {
    if lines != [] {
      DataLinesOfRows(lines[..|lines| - 1]);
    }
  }

  /** Header lines followed by data lines load as the data lines' rows. */
  lemma LoadHeadersThenRows(th: seq<seq<string>>, tr: seq<seq<string>>, toNum: string -> real, showReal: real -> string)
    requires forall i :: 0 <= i < |th| ==> IsHeader(th[i])
    requires forall i :: 0 <= i < |tr| ==> !IsHeader(tr[i])
    ensures Load(th + tr, toNum, showReal).cells == RowsOf(tr, toNum)
  {
    NoDataLinesAmongHeaders(th);
    DataLinesOfRows(tr);
    DataLinesAppend(th, tr);
    assert DataLines(th + tr) == [] + tr == tr;
    assert Load(th + tr, toNum, showReal).cells == RowsOf(DataLines(th + tr), toNum);
  }

  /** A file of one two-token line loads no cells and one header entry. */
  lemma LoadOneHeaderLine(line: seq<string>, toNum: string -> real, showReal: real -> string)
    requires IsHeader(line)
    ensures Load([line], toNum, showReal).cells == []
    ensures line[0] in Load([line], toNum, showReal).params
  {
    assert HeaderAt([line], 0, line[0]);
    ParseParams([line], toNum, line[0]);
    NoDataLinesAmongHeaders([line]);
  }

  /** The loaded header holds the keys read from the file, plus the sentinel
      and both corners, which are always set. */
  lemma LoadKeys(lines: seq<seq<string>>, toNum: string -> real, showReal: real -> string)
    ensures Load(lines, toNum, showReal).params.Keys ==
      ParseLines(lines, toNum).params.Keys + {NODATA_VALUE, XLLCORNER, YLLCORNER}
  {
  }
}
