/** `sum_values`: the sum of `data_values`, or `nil` when there are none. Cell
    arithmetic is exact (`real`), not Ruby's Float. */
module Aggregate {
  import opened Optional
  import opened AscGrid
  import opened Traversal

  /** The plain sum of a sequence, first element outermost. */
  function Sum(s: seq<real>): real
  {
    if s == [] then 0.0 else s[0] + Sum(s[1..])
  }

  /** Every element multiplied by `m`. */
  function Scale(s: seq<real>, m: real): (t: seq<real>)
    ensures |t| == |s|
    ensures forall i :: 0 <= i < |s| ==> t[i] == s[i] * m
  {
    seq(|s|, i requires 0 <= i < |s| => s[i] * m)
  }

  /** Scaling every element scales the sum. */
  lemma {:induction false} SumScale(s: seq<real>, m: real)
    ensures Sum(Scale(s, m)) == m * Sum(s)
    decreases |s|
  {
    if s != [] {
      SumScale(s[1..], m);
      var t := Scale(s, m);
      assert forall i :: 0 <= i < |s| - 1 ==> t[1..][i] == Scale(s[1..], m)[i];
      assert t[1..] == Scale(s[1..], m);
    }
  }

  /** `s.inject(acc) { |sum, x| sum ? sum + x : x }`: a left fold whose
      accumulator starts as `nil` and takes the first element as it is. */
  function Inject(acc: Option<real>, s: seq<real>): (r: Option<real>)
    ensures r.None? <==> acc.None? && s == []
    ensures acc.Some? ==> r == Some(acc.value + Sum(s))
    ensures acc.None? && s != [] ==> r == Some(Sum(s))
    decreases |s|
  {
    if s == [] then acc
    else Inject(Some(if acc.Some? then acc.value + s[0] else s[0]), s[1..])
  }

  /** `sum_values`: no value when no cell holds data, else the sum of their values. */
  function SumValues(g: Grid): (r: Option<real>)
    requires Traversable(g)
    ensures r.None? <==> DataValues(g) == []
    ensures r.Some? ==> r.value == Sum(DataValues(g))
  {
    Inject(None, DataValues(g))
  }

  /** `sum_values` is `nil` exactly when every cell of the window holds the sentinel. */
  lemma SumValuesNoneIffNoData(g: Grid)
    requires Traversable(g)
    ensures SumValues(g).None? <==> forall r, c :: InWindow(g, r, c) ==> IsNoData(g, Cell(g, r, c))
  {
    DataValuesEmptyIffNoData(g);
  }
}
