/** `write_asc`: the text lines of the file, header first. The file handle and
    the line terminators `puts` adds are left out; `showReal` stands for
    `Float#to_s`. */
module Writer {
  import opened Optional
  import opened AscGrid
  import Text
  import Loader

  /** The only keys ever written, in the order they are written. */
  const HEADER_ORDER: seq<string> := [NCOLS, NROWS, XLLCORNER, YLLCORNER, CELLSIZE, NODATA_VALUE]
  const HEADER_KEYS: set<string> := {NCOLS, NROWS, XLLCORNER, YLLCORNER, CELLSIZE, NODATA_VALUE}

  /** The keys of `keys` that `params` holds, in the order of `keys`. */
  function WrittenKeys(params: map<string, ParamVal>, keys: seq<string>): (w: seq<string>)
    ensures forall k :: k in w <==> k in keys && k in params
    ensures |w| <= |keys|
  {
    if keys == [] then []
    else (if keys[0] in params then [keys[0]] else []) + WrittenKeys(params, keys[1..])
  }

  lemma {:induction false} WrittenKeysOfEmpty(keys: seq<string>)
    ensures WrittenKeys(map[], keys) == []
    decreases |keys|
  {
    if keys != [] {
      WrittenKeysOfEmpty(keys[1..]);
    }
  }

  /** Position of the first occurrence of `k` in `keys`. */
  function IndexOf(keys: seq<string>, k: string): (n: nat)
    requires k in keys
    ensures n < |keys| && keys[n] == k
    ensures forall j :: 0 <= j < n ==> keys[j] != k
  {
    if keys[0] == k then 0 else 1 + IndexOf(keys[1..], k)
  }

  predicate Distinct(keys: seq<string>) {
    forall i, j :: 0 <= i < j < |keys| ==> keys[i] != keys[j]
  }

  lemma IndexOfTail(keys: seq<string>, k: string)
    requires keys != [] && k in keys[1..] && keys[0] != k
    ensures IndexOf(keys, k) == 1 + IndexOf(keys[1..], k)
  {
  }

  lemma FirstNotInRest(keys: seq<string>)
    requires Distinct(keys) && keys != []
    ensures keys[0] !in keys[1..]
    ensures Distinct(keys[1..])
  {
  }

  /** The written keys keep the order of `keys`. */
  lemma {:induction false} WrittenKeysKeepOrder(params: map<string, ParamVal>, keys: seq<string>)
    requires Distinct(keys)
    ensures forall i, j :: 0 <= i < j < |WrittenKeys(params, keys)| ==>
      IndexOf(keys, WrittenKeys(params, keys)[i]) < IndexOf(keys, WrittenKeys(params, keys)[j])
    decreases |keys|
  {
    if keys != [] {
      var rest := keys[1..];
      FirstNotInRest(keys);
      WrittenKeysKeepOrder(params, rest);
      var w := WrittenKeys(params, keys);
      var w' := WrittenKeys(params, rest);
      forall j | 0 <= j < |w'|
        ensures IndexOf(keys, w'[j]) == 1 + IndexOf(rest, w'[j])
      {
        assert w'[j] in w';
        IndexOfTail(keys, w'[j]);
      }
      if keys[0] in params {
        assert w == [keys[0]] + w';
        assert IndexOf(keys, keys[0]) == 0;
      } else {
        assert w == w';
      }
    }
  }

  /** `"#{p} #{@params[p]}"`. */
  function HeaderLine(key: string, v: ParamVal, showReal: real -> string): string
  {
    key + " " + Show(v, showReal)
  }

  function HeaderLines(params: map<string, ParamVal>, keys: seq<string>, showReal: real -> string): (lines: seq<string>)
    ensures |lines| == |WrittenKeys(params, keys)|
    ensures forall i :: 0 <= i < |lines| ==>
      WrittenKeys(params, keys)[i] in params &&
      lines[i] == HeaderLine(WrittenKeys(params, keys)[i], params[WrittenKeys(params, keys)[i]], showReal)
  {
    if keys == [] then []
    else
      var first := if keys[0] in params then [HeaderLine(keys[0], params[keys[0]], showReal)] else [];
      first + HeaderLines(params, keys[1..], showReal)
  }

  /** `row.collect{|x| x.to_s}.join(" ")`. */
  function RowLine(row: seq<real>, showReal: real -> string): string
  {
    Text.Join(Shown(row, showReal))
  }

  /** `write_asc`: one line per canonical key present, in the fixed order,
      then one line per row of cells (every row held, not only `nrows`). */
  function WriteAsc(g: Grid, showReal: real -> string): (lines: seq<string>)
    ensures |lines| == |WrittenKeys(g.params, HEADER_ORDER)| + |g.cells|
    ensures forall i :: 0 <= i < |WrittenKeys(g.params, HEADER_ORDER)| ==>
      var k := WrittenKeys(g.params, HEADER_ORDER)[i];
      k in HEADER_KEYS && k in g.params && lines[i] == HeaderLine(k, g.params[k], showReal)
    ensures forall i :: 0 <= i < |g.cells| ==>
      lines[|WrittenKeys(g.params, HEADER_ORDER)| + i] == RowLine(g.cells[i], showReal)
  {
    HeaderLines(g.params, HEADER_ORDER, showReal)
      + seq(|g.cells|, i requires 0 <= i < |g.cells| => RowLine(g.cells[i], showReal))
  }

  /** Position of a canonical key in the written order. */
  function Rank(k: string): nat
    requires k in HEADER_KEYS
  {
    IndexOf(HEADER_ORDER, k)
  }

  /** The header lines name exactly the canonical keys the grid holds, each
      once, `ncols` before `nrows` before `xllcorner` before `yllcorner`
      before `cellsize` before `NODATA_value`. */
  lemma WriteAscHeaderOrder(g: Grid)
    ensures forall k :: k in WrittenKeys(g.params, HEADER_ORDER) <==> k in HEADER_KEYS && k in g.params
    ensures forall i, j :: 0 <= i < j < |WrittenKeys(g.params, HEADER_ORDER)| ==>
      Rank(WrittenKeys(g.params, HEADER_ORDER)[i]) < Rank(WrittenKeys(g.params, HEADER_ORDER)[j])
  {
    assert Distinct(HEADER_ORDER);
    WrittenKeysKeepOrder(g.params, HEADER_ORDER);
  }

  /** The file lines as `File.foreach` and `String#split` deliver them to the loader. */
  function Tokenise(lines: seq<string>): (t: seq<seq<string>>)
    ensures |t| == |lines|
    ensures forall i :: 0 <= i < |lines| ==> t[i] == Text.Split(lines[i])
  {
    seq(|lines|, i requires 0 <= i < |lines| => Text.Split(lines[i]))
  }

  lemma HeaderKeysAreTokens()
    ensures forall k :: k in HEADER_KEYS ==> Text.IsToken(k)
  {
    assert Text.IsToken(NCOLS) && Text.IsToken(NROWS) && Text.IsToken(XLLCORNER);
    assert Text.IsToken(YLLCORNER) && Text.IsToken(CELLSIZE) && Text.IsToken(NODATA_VALUE);
  }

  /** A header line of two tokens reads back as that key and that text. */
  lemma HeaderLineSplits(key: string, v: ParamVal, showReal: real -> string)
    requires Text.IsToken(key) && Text.IsToken(Show(v, showReal))
    ensures Text.Split(HeaderLine(key, v, showReal)) == [key, Show(v, showReal)]
  {
    Text.SplitPair(key, Show(v, showReal));
  }

  /** A row line reads back as the texts of its values. */
  lemma RowLineSplits(row: seq<real>, showReal: real -> string)
    requires forall i :: 0 <= i < |row| ==> Text.IsToken(showReal(row[i]))
    ensures Text.Split(RowLine(row, showReal)) == Shown(row, showReal)
  {
    Text.SplitJoin(Shown(row, showReal));
  }

  /** The texts of a row's values, as `collect` builds them. */
  function Shown(row: seq<real>, showReal: real -> string): (texts: seq<string>)
    ensures |texts| == |row|
    ensures forall c :: 0 <= c < |row| ==> texts[c] == showReal(row[c])
  {
    seq(|row|, c requires 0 <= c < |row| => showReal(row[c]))
  }

  lemma ReadShown(row: seq<real>, toNum: string -> real, showReal: real -> string)
    requires forall c :: 0 <= c < |row| ==> toNum(showReal(row[c])) == row[c]
    ensures Loader.ToNums(Shown(row, showReal), toNum) == row
  {
  }

  /** Every written value is a single token. */
  ghost predicate TokenValues(g: Grid, showReal: real -> string) {
    && (forall r, c :: 0 <= r < |g.cells| && 0 <= c < |g.cells[r]| ==> Text.IsToken(showReal(g.cells[r][c])))
    && (forall k :: k in HEADER_KEYS && k in g.params ==> Text.IsToken(Show(g.params[k], showReal)))
  }

  /** Split back into tokens, each written header line is the key and the
      text of its value. */
  lemma TokeniseHeaderLines(g: Grid, showReal: real -> string)
    requires TokenValues(g, showReal)
    ensures |Tokenise(WriteAsc(g, showReal))| == |WrittenKeys(g.params, HEADER_ORDER)| + |g.cells|
    ensures forall i :: 0 <= i < |WrittenKeys(g.params, HEADER_ORDER)| ==>
      Tokenise(WriteAsc(g, showReal))[i] ==
        [WrittenKeys(g.params, HEADER_ORDER)[i], Show(g.params[WrittenKeys(g.params, HEADER_ORDER)[i]], showReal)]
  {
    var w := WrittenKeys(g.params, HEADER_ORDER);
    var lines := WriteAsc(g, showReal);
    HeaderKeysAreTokens();
    forall i | 0 <= i < |w|
      ensures Text.Split(lines[i]) == [w[i], Show(g.params[w[i]], showReal)]
    {
      HeaderLineSplits(w[i], g.params[w[i]], showReal);
    }
  }

  /** Split back into tokens, each written row line is the texts of the
      row's values. */
  lemma TokeniseRowLines(g: Grid, showReal: real -> string)
    requires TokenValues(g, showReal)
    ensures |Tokenise(WriteAsc(g, showReal))| == |WrittenKeys(g.params, HEADER_ORDER)| + |g.cells|
    ensures forall i :: 0 <= i < |g.cells| ==>
      Tokenise(WriteAsc(g, showReal))[|WrittenKeys(g.params, HEADER_ORDER)| + i] == Shown(g.cells[i], showReal)
  {
    var w := WrittenKeys(g.params, HEADER_ORDER);
    var lines := WriteAsc(g, showReal);
    forall i | 0 <= i < |g.cells|
      ensures Text.Split(lines[|w| + i]) == Shown(g.cells[i], showReal)
    {
      RowLineSplits(g.cells[i], showReal);
    }
  }

  /** Loading `n` header lines followed by the texts of the rows of `g`. */
  lemma LoadShownRows(t: seq<seq<string>>, n: nat, g: Grid, toNum: string -> real, showReal: real -> string)
    requires |t| == n + |g.cells|
    requires forall i :: 0 <= i < n ==> Loader.IsHeader(t[i])
    requires forall i :: 0 <= i < |g.cells| ==> t[n + i] == Shown(g.cells[i], showReal)
    requires forall r, c :: 0 <= r < |g.cells| && 0 <= c < |g.cells[r]| ==> toNum(showReal(g.cells[r][c])) == g.cells[r][c]
    requires forall r :: 0 <= r < |g.cells| ==> |g.cells[r]| != 2
    ensures Loader.Load(t, toNum, showReal).cells == g.cells
  {
    var th := t[..n];
    var tr := t[n..];
    assert t == th + tr;
    forall i | 0 <= i < |tr|
      ensures tr[i] == Shown(g.cells[i], showReal)
    {
      assert tr[i] == t[n + i];
    }
    forall i | 0 <= i < |tr|
      ensures !Loader.IsHeader(tr[i]) && Loader.ToNums(tr[i], toNum) == g.cells[i]
    {
      ReadShown(g.cells[i], toNum, showReal);
    }
    Loader.LoadHeadersThenRows(th, tr, toNum, showReal);
    assert Loader.RowsOf(tr, toNum) == g.cells;
  }

  /** Writing a grid and loading the file again gives back every row of
      cells, provided every value is written as one token that `String#to_f`
      reads back exactly, and no row has exactly two cells (such a row would
      read back as a header). */
  lemma WriteThenLoadCells(g: Grid, toNum: string -> real, showReal: real -> string)
    requires TokenValues(g, showReal)
    requires forall r, c :: 0 <= r < |g.cells| && 0 <= c < |g.cells[r]| ==> toNum(showReal(g.cells[r][c])) == g.cells[r][c]
    requires forall r :: 0 <= r < |g.cells| ==> |g.cells[r]| != 2
    ensures Loader.Load(Tokenise(WriteAsc(g, showReal)), toNum, showReal).cells == g.cells
  {
    var w := WrittenKeys(g.params, HEADER_ORDER);
    var t := Tokenise(WriteAsc(g, showReal));
    TokeniseHeaderLines(g, showReal);
    TokeniseRowLines(g, showReal);
    assert forall i :: 0 <= i < |w| ==> Loader.IsHeader(t[i]);
    LoadShownRows(t, |w|, g, toNum, showReal);
  }

  /** Loading header lines for the keys `w` followed by lines that are not
      headers. */
  lemma LoadHeaderKeys(t: seq<seq<string>>, w: seq<string>, keys: set<string>, toNum: string -> real, showReal: real -> string)
    requires |w| <= |t|
    requires forall i :: 0 <= i < |w| ==> Loader.HeaderAt(t, i, w[i])
    requires forall i :: |w| <= i < |t| ==> !Loader.IsHeader(t[i])
    requires forall k :: k in w <==> k in keys
    ensures Loader.Load(t, toNum, showReal).params.Keys == keys + {NODATA_VALUE, XLLCORNER, YLLCORNER}
  {
    var raw := Loader.ParseLines(t, toNum);
    forall k
      ensures k in raw.params <==> k in keys
    {
      Loader.ParseParams(t, toNum, k);
      if k in keys {
        var i :| 0 <= i < |w| && w[i] == k;
        assert Loader.HeaderAt(t, i, k);
      }
      if k in raw.params {
        var i :| Loader.HeaderAt(t, i, k);
        assert i < |w| && w[i] == k;
      }
    }
    assert raw.params.Keys == keys;
    Loader.LoadKeys(t, toNum, showReal);
  }

  /** After the header lines, no written line reads back as a header. */
  lemma WrittenRowsAreNotHeaders(g: Grid, showReal: real -> string)
    requires TokenValues(g, showReal)
    requires forall r :: 0 <= r < |g.cells| ==> |g.cells[r]| != 2
    ensures forall i :: |WrittenKeys(g.params, HEADER_ORDER)| <= i < |Tokenise(WriteAsc(g, showReal))| ==>
      !Loader.IsHeader(Tokenise(WriteAsc(g, showReal))[i])
  {
    var w := WrittenKeys(g.params, HEADER_ORDER);
    var t := Tokenise(WriteAsc(g, showReal));
    TokeniseRowLines(g, showReal);
    forall i | |w| <= i < |t|
      ensures !Loader.IsHeader(t[i])
    {
      assert t[i] == Shown(g.cells[i - |w|], showReal);
    }
  }

  /** The written keys are the canonical keys the grid holds. */
  lemma WrittenKeysAreHeaderKeys(params: map<string, ParamVal>)
    ensures forall k :: k in WrittenKeys(params, HEADER_ORDER) <==> k in params.Keys * HEADER_KEYS
  {
  }

  /** After writing and loading again, the header holds exactly the
      canonical keys the grid held, plus the sentinel and both corners: any
      other key is dropped. */
  lemma WriteThenLoadKeys(g: Grid, toNum: string -> real, showReal: real -> string)
    requires TokenValues(g, showReal)
    requires forall r :: 0 <= r < |g.cells| ==> |g.cells[r]| != 2
    ensures Loader.Load(Tokenise(WriteAsc(g, showReal)), toNum, showReal).params.Keys ==
      (g.params.Keys * HEADER_KEYS) + {NODATA_VALUE, XLLCORNER, YLLCORNER}
  {
    var w := WrittenKeys(g.params, HEADER_ORDER);
    var t := Tokenise(WriteAsc(g, showReal));
    TokeniseHeaderLines(g, showReal);
    WrittenRowsAreNotHeaders(g, showReal);
    WrittenKeysAreHeaderKeys(g.params);
    LoadHeaderKeys(t, w, g.params.Keys * HEADER_KEYS, toNum, showReal);
  }

  /** `String#to_f` reads a written header value back as the loaded grid
      sees it: it inverts `Integer#to_s` and `Float#to_s`, and on a String it
      keeps the integer part `String#to_i` reads and gives a Float that
      `Float#to_s` writes as that same String (as for a corner "31500000.0"). */
  ghost predicate ReadsBack(v: ParamVal, toNum: string -> real, showReal: real -> string) {
    match v
    case Int(i) => toNum(Text.IntToString(i)) == i as real
    case Num(r) => toNum(showReal(r)) == r
    case Str(t) => showReal(toNum(t)) == t && Trunc(toNum(t)) == Text.StrToI(t)
  }

  ghost predicate HeaderReadsBack(g: Grid, toNum: string -> real, showReal: real -> string) {
    forall k :: k in HEADER_KEYS && k in g.params ==> ReadsBack(g.params[k], toNum, showReal)
  }

  /** No key is written twice. */
  lemma WrittenKeysDistinct(params: map<string, ParamVal>)
    ensures Distinct(WrittenKeys(params, HEADER_ORDER))
  {
    var w := WrittenKeys(params, HEADER_ORDER);
    WriteAscHeaderOrder(Grid(params, []));
    forall i, j | 0 <= i < j < |w|
      ensures w[i] != w[j]
    {
      assert Rank(w[i]) < Rank(w[j]);
    }
  }

  /** Among header lines for distinct keys followed by lines that are not
      headers, the line for each key is the last one for it. */
  lemma LastHeaderOfWritten(t: seq<seq<string>>, w: seq<string>, i: nat)
    requires |w| <= |t| && Distinct(w) && i < |w|
    requires forall j :: 0 <= j < |w| ==> Loader.HeaderAt(t, j, w[j])
    requires forall j :: |w| <= j < |t| ==> !Loader.IsHeader(t[j])
    ensures Loader.LastHeaderAt(t, i, w[i])
  {
    forall j | i < j < |t|
      ensures !Loader.HeaderAt(t, j, w[i])
    {
      if j < |w| {
        assert w[i] != w[j];
      }
    }
  }

  /** Header lines for distinct keys followed by lines that are not headers:
      the line loop stores for each key the Float of the text on its line. */
  lemma HeaderReadFrom(t: seq<seq<string>>, w: seq<string>, texts: map<string, string>, toNum: string -> real, k: string)
    requires |w| <= |t| && Distinct(w) && k in w
    requires forall j :: 0 <= j < |w| ==> w[j] in texts && t[j] == [w[j], texts[w[j]]]
    requires forall j :: |w| <= j < |t| ==> !Loader.IsHeader(t[j])
    ensures var raw := Loader.ParseLines(t, toNum).params;
            k in raw && raw[k] == Num(toNum(texts[k]))
  {
    var i :| 0 <= i < |w| && w[i] == k;
    forall j | 0 <= j < |w|
      ensures Loader.HeaderAt(t, j, w[j])
    {
      assert t[j] == [w[j], texts[w[j]]];
    }
    LastHeaderOfWritten(t, w, i);
    assert t[i][1] == texts[k];
    Loader.ParseParams(t, toNum, k);
    assert Loader.HeaderAt(t, i, k);
  }

  /** Reading the written file, the line loop stores for each written key the
      Float of the text written for it. */
  lemma WrittenHeaderRead(g: Grid, toNum: string -> real, showReal: real -> string, k: string)
    requires TokenValues(g, showReal)
    requires forall r :: 0 <= r < |g.cells| ==> |g.cells[r]| != 2
    requires k in HEADER_KEYS && k in g.params
    ensures var raw := Loader.ParseLines(Tokenise(WriteAsc(g, showReal)), toNum).params;
            k in raw && raw[k] == Num(toNum(Show(g.params[k], showReal)))
  {
    var w := WrittenKeys(g.params, HEADER_ORDER);
    var t := Tokenise(WriteAsc(g, showReal));
    var texts := map k | k in g.params :: Show(g.params[k], showReal);
    TokeniseHeaderLines(g, showReal);
    WrittenRowsAreNotHeaders(g, showReal);
    WrittenKeysDistinct(g.params);
    HeaderReadFrom(t, w, texts, toNum, k);
  }

  /** Reading back the text of a value gives a Float with the same `to_i`. */
  lemma ReadBackToI(v: ParamVal, toNum: string -> real, showReal: real -> string)
    requires ReadsBack(v, toNum, showReal)
    ensures ToI(Some(Num(toNum(Show(v, showReal))))) == ToI(Some(v))
  {
  }

  /** After writing and loading again, a dimension or the cell size is
      present exactly when it was. */
  lemma WriteThenLoadPresence(g: Grid, toNum: string -> real, showReal: real -> string, key: string)
    requires TokenValues(g, showReal)
    requires forall r :: 0 <= r < |g.cells| ==> |g.cells[r]| != 2
    requires key == NROWS || key == NCOLS || key == CELLSIZE
    ensures key in Loader.Load(Tokenise(WriteAsc(g, showReal)), toNum, showReal).params <==> key in g.params
  {
    WriteThenLoadKeys(g, toNum, showReal);
  }

  /** After writing and loading again, `nrows` and `ncols` are present exactly
      when they were, and hold the Integer their `to_i` gave before. */
  lemma WriteThenLoadDimension(g: Grid, toNum: string -> real, showReal: real -> string, key: string)
    requires TokenValues(g, showReal) && HeaderReadsBack(g, toNum, showReal)
    requires forall r :: 0 <= r < |g.cells| ==> |g.cells[r]| != 2
    requires key == NROWS || key == NCOLS
    ensures var h := Loader.Load(Tokenise(WriteAsc(g, showReal)), toNum, showReal);
            && (key in h.params <==> key in g.params)
            && (key in g.params ==> h.params[key] == Int(ToI(Some(g.params[key]))))
  {
    var t := Tokenise(WriteAsc(g, showReal));
    WriteThenLoadPresence(g, toNum, showReal, key);
    if key in g.params {
      var raw := Loader.ParseLines(t, toNum).params;
      var h := Loader.Load(t, toNum, showReal).params;
      Loader.LoadFromParsed(t, toNum, showReal, key);
      assert h[key] == Int(ToI(Some(raw[key])));
      WrittenHeaderRead(g, toNum, showReal, key);
      ReadBackToI(g.params[key], toNum, showReal);
    }
  }

  /** After writing and loading again, `cellsize` is present exactly when it
      was, a Float comes back unchanged, an Integer comes back as the equal
      Float, and its `to_i` (what `coord_x` and `coord_y` use) is the same. */
  lemma WriteThenLoadCellSize(g: Grid, toNum: string -> real, showReal: real -> string)
    requires TokenValues(g, showReal) && HeaderReadsBack(g, toNum, showReal)
    requires forall r :: 0 <= r < |g.cells| ==> |g.cells[r]| != 2
    ensures var h := Loader.Load(Tokenise(WriteAsc(g, showReal)), toNum, showReal);
            && (CELLSIZE in h.params <==> CELLSIZE in g.params)
            && (CELLSIZE in g.params && g.params[CELLSIZE].Num? ==> h.params[CELLSIZE] == g.params[CELLSIZE])
            && (CELLSIZE in g.params && g.params[CELLSIZE].Int? ==> h.params[CELLSIZE] == Num(g.params[CELLSIZE].i as real))
            && ToI(Param(h.params, CELLSIZE)) == ToI(Param(g.params, CELLSIZE))
  {
    var t := Tokenise(WriteAsc(g, showReal));
    WriteThenLoadPresence(g, toNum, showReal, CELLSIZE);
    if CELLSIZE in g.params {
      var raw := Loader.ParseLines(t, toNum).params;
      var h := Loader.Load(t, toNum, showReal).params;
      Loader.LoadFromParsed(t, toNum, showReal, CELLSIZE);
      assert h[CELLSIZE] == raw[CELLSIZE];
      WrittenHeaderRead(g, toNum, showReal, CELLSIZE);
      ReadBackToI(g.params[CELLSIZE], toNum, showReal);
    }
  }

  /** After writing and loading again, a numeric sentinel matches exactly the
      values it matched before. */
  lemma WriteThenLoadNoData(g: Grid, toNum: string -> real, showReal: real -> string)
    requires TokenValues(g, showReal) && HeaderReadsBack(g, toNum, showReal)
    requires forall r :: 0 <= r < |g.cells| ==> |g.cells[r]| != 2
    ensures var h := Loader.Load(Tokenise(WriteAsc(g, showReal)), toNum, showReal);
            NODATA_VALUE in g.params && !g.params[NODATA_VALUE].Str? ==>
              forall x :: IsNoData(h, x) <==> IsNoData(g, x)
  {
    var t := Tokenise(WriteAsc(g, showReal));
    Loader.LoadFromParsed(t, toNum, showReal, NODATA_VALUE);
    if NODATA_VALUE in g.params {
      WrittenHeaderRead(g, toNum, showReal, NODATA_VALUE);
      assert ReadsBack(g.params[NODATA_VALUE], toNum, showReal);
    }
  }

  /** After writing and loading again, a corner that already carries the "31"
      prefix, as every loaded corner does, writes the same text as before and
      has the same `to_i`; a Float corner comes back unchanged. */
  lemma WriteThenLoadCorner(g: Grid, toNum: string -> real, showReal: real -> string, key: string)
    requires TokenValues(g, showReal) && HeaderReadsBack(g, toNum, showReal)
    requires forall r :: 0 <= r < |g.cells| ==> |g.cells[r]| != 2
    requires key == XLLCORNER || key == YLLCORNER
    ensures var h := Loader.Load(Tokenise(WriteAsc(g, showReal)), toNum, showReal);
            key in g.params && !g.params[key].Int? && "31" <= Show(g.params[key], showReal) ==>
              && Show(h.params[key], showReal) == Show(g.params[key], showReal)
              && ToI(Param(h.params, key)) == ToI(Param(g.params, key))
              && (g.params[key].Num? ==> h.params[key] == g.params[key])
  {
    var t := Tokenise(WriteAsc(g, showReal));
    Loader.LoadFromParsed(t, toNum, showReal, key);
    if key in g.params {
      WrittenHeaderRead(g, toNum, showReal, key);
      assert ReadsBack(g.params[key], toNum, showReal);
    }
  }

  /** The file written for a header-less grid of one two-cell row is one
      line holding the texts of the two cells. */
  lemma WriteTwoCellRow(a: real, b: real, showReal: real -> string)
    requires Text.IsToken(showReal(a)) && Text.IsToken(showReal(b))
    ensures Tokenise(WriteAsc(Grid(map[], [[a, b]]), showReal)) == [[showReal(a), showReal(b)]]
  {
    WrittenKeysOfEmpty(HEADER_ORDER);
    RowLineSplits([a, b], showReal);
    assert Shown([a, b], showReal) == [showReal(a), showReal(b)];
  }

  /** A row of exactly two cells does not survive the round trip: it is read
      back as a header entry keyed by the first value's text. */
  lemma TwoCellRowReadBackAsHeader(a: real, b: real, toNum: string -> real, showReal: real -> string)
    requires Text.IsToken(showReal(a)) && Text.IsToken(showReal(b))
    ensures var back := Loader.Load(Tokenise(WriteAsc(Grid(map[], [[a, b]]), showReal)), toNum, showReal);
            back.cells == [] && showReal(a) in back.params
  {
    WriteTwoCellRow(a, b, showReal);
    Loader.LoadOneHeaderLine([showReal(a), showReal(b)], toNum, showReal);
  }
}
