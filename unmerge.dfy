/** `unmerge_excel` in aa.py: every merged range of every worksheet is replaced by
    plain cells that all hold the value of the range's top-left cell. A worksheet is a
    two-dimensional array of cell values; row `i` and column `j` of the array are the
    worksheet's 1-based row `i + 1` and column `j + 1`. */
module Unmerge {

  /** A merged range as openpyxl reports it: 1-based, both bounds inclusive. */
  datatype CellRange = CellRange(minRow: nat, minCol: nat, maxRow: nat, maxCol: nat)

  /** The range lies inside a sheet of `rows` by `cols` cells, and its bounds are in
      order (openpyxl refuses a range whose minimum exceeds its maximum). */
  predicate Fits(r: CellRange, rows: nat, cols: nat)
  {
    1 <= r.minRow <= r.maxRow <= rows && 1 <= r.minCol <= r.maxCol <= cols
  }

  /** The range covers the cell at 0-based array position `(i, j)`. */
  predicate Covers(r: CellRange, i: nat, j: nat)
  {
    r.minRow <= i + 1 <= r.maxRow && r.minCol <= j + 1 <= r.maxCol
  }

  /** No cell lies in both ranges. */
  predicate Disjoint(r: CellRange, s: CellRange)
  {
    r.maxRow < s.minRow || s.maxRow < r.minRow || r.maxCol < s.minCol || s.maxCol < r.minCol
  }

  /** The top-left cell of the range exists in `g`. */
  predicate HasCorner<V>(g: seq<seq<V>>, r: CellRange)
  {
    1 <= r.minRow <= |g| && 1 <= r.minCol <= |g[r.minRow - 1]|
  }

  function Corner<V>(g: seq<seq<V>>, r: CellRange): V
    requires HasCorner(g, r)
  {
    g[r.minRow - 1][r.minCol - 1]
  }

  /** Same number of rows, and the same number of cells in each row. */
  predicate SameShape<V>(g: seq<seq<V>>, h: seq<seq<V>>)
  {
    |g| == |h| && forall i :: 0 <= i < |g| ==> |g[i]| == |h[i]|
  }

  /** The sheet after one range is processed: every cell it covers takes the value its
      top-left cell had before, every other cell keeps its own. */
  function Fill<V>(g: seq<seq<V>>, r: CellRange): (h: seq<seq<V>>)
    requires HasCorner(g, r)
    ensures SameShape(g, h)
  {
    var v := Corner(g, r);
    seq(|g|, i requires 0 <= i < |g| =>
      seq(|g[i]|, j requires 0 <= j < |g[i]| => if Covers(r, i, j) then v else g[i][j]))
  }

  /** Every range has its top-left cell in the sheet. */
  predicate AllHaveCorners<V>(g: seq<seq<V>>, rs: seq<CellRange>)
  {
    forall k :: 0 <= k < |rs| ==> HasCorner(g, rs[k])
  }

  /** The sheet after the ranges are processed one after another, in list order. */
  function FillAll<V>(g: seq<seq<V>>, rs: seq<CellRange>): (h: seq<seq<V>>)
    requires AllHaveCorners(g, rs)
    ensures SameShape(g, h)
  {
    if rs == [] then g
    else
      var h := FillAll(g, rs[..|rs| - 1]);
      assert HasCorner(g, rs[|rs| - 1]);
      Fill(h, rs[|rs| - 1])
  }

  /** The cell values of a worksheet, row by row. */
  function Grid<V>(a: array2<V>): (g: seq<seq<V>>)
    reads a
  {
    seq(a.Length0, i requires 0 <= i < a.Length0 reads a =>
      seq(a.Length1, j requires 0 <= j < a.Length1 reads a => a[i, j]))
  }

  // ---------------------------------------------------------------------------
  // The worksheet updated in place.

  /** One merged range: the value of the top-left cell is read first, then every cell
      of the rectangle is set to it, row by row and column by column. */
  method FillMerged<V>(a: array2<V>, r: CellRange)
    requires Fits(r, a.Length0, a.Length1)
    modifies a
    ensures forall i, j :: 0 <= i < a.Length0 && 0 <= j < a.Length1 ==>
      a[i, j] == if Covers(r, i, j) then old(a[r.minRow - 1, r.minCol - 1]) else old(a[i, j])
    ensures Grid(a) == Fill(old(Grid(a)), r)
  {
    var value := a[r.minRow - 1, r.minCol - 1];
    for row := r.minRow to r.maxRow + 1
      invariant forall i, j :: 0 <= i < a.Length0 && 0 <= j < a.Length1 ==>
        a[i, j] == if Covers(r, i, j) && i + 1 < row then value else old(a[i, j])
    {
      for col := r.minCol to r.maxCol + 1
        invariant forall i, j :: 0 <= i < a.Length0 && 0 <= j < a.Length1 ==>
          a[i, j] == if Covers(r, i, j) && (i + 1 < row || (i + 1 == row && j + 1 < col))
            then value else old(a[i, j])
      {
        a[row - 1, col - 1] := value;
      }
    }
    ghost var before := old(Grid(a));
    assert Corner(before, r) == value;
    assert Grid(a) == Fill(before, r) by {
      forall i | 0 <= i < a.Length0
        ensures Grid(a)[i] == Fill(before, r)[i]
      {
      }
    }
  }

  /** One worksheet: its merged ranges, listed before any is unmerged, each processed
      once and in list order. */
  method UnmergeSheet<V>(a: array2<V>, ranges: seq<CellRange>)
    requires forall k :: 0 <= k < |ranges| ==> Fits(ranges[k], a.Length0, a.Length1)
    modifies a
    ensures AllHaveCorners(old(Grid(a)), ranges)
    ensures Grid(a) == FillAll(old(Grid(a)), ranges)
  {
    ghost var g0 := Grid(a);
    assert AllHaveCorners(g0, ranges);
    for k := 0 to |ranges|
      invariant AllHaveCorners(g0, ranges[..k])
      invariant Grid(a) == FillAll(g0, ranges[..k])
    {
      FillMerged(a, ranges[k]);
      assert ranges[..k + 1][..k] == ranges[..k];
    }
    assert ranges[..|ranges|] == ranges;
  }

  /** The workbook: every worksheet with its own list of merged ranges. */
  method UnmergeWorkbook<V>(sheets: seq<array2<V>>, merged: seq<seq<CellRange>>)
    requires |merged| == |sheets|
    requires forall p, q :: 0 <= p < q < |sheets| ==> sheets[p] != sheets[q]
    requires forall s, k :: 0 <= s < |sheets| && 0 <= k < |merged[s]| ==>
      Fits(merged[s][k], sheets[s].Length0, sheets[s].Length1)
    modifies set s | s in sheets
    ensures forall s :: 0 <= s < |sheets| ==> AllHaveCorners(old(Grid(sheets[s])), merged[s])
    ensures forall s :: 0 <= s < |sheets| ==>
      Grid(sheets[s]) == FillAll(old(Grid(sheets[s])), merged[s])
  {
    for n := 0 to |sheets|
      invariant forall s :: 0 <= s < n ==> AllHaveCorners(old(Grid(sheets[s])), merged[s])
      invariant forall s :: 0 <= s < n ==>
        Grid(sheets[s]) == FillAll(old(Grid(sheets[s])), merged[s])
      invariant forall s :: n <= s < |sheets| ==> Grid(sheets[s]) == old(Grid(sheets[s]))
    {
      label Start:
      UnmergeSheet(sheets[n], merged[n]);
      forall s | 0 <= s < |sheets| && s != n
        ensures Grid(sheets[s]) == old@Start(Grid(sheets[s]))
      {
        assert sheets[s] != sheets[n];
      }
    }
  }

  // ---------------------------------------------------------------------------
  // What the fill means.

  /** The rectangle holds the former top-left value, and nothing outside it changes. */
  lemma {:induction false} FillMeaning<V>(g: seq<seq<V>>, r: CellRange, i: nat, j: nat)
    requires HasCorner(g, r) && i < |g| && j < |g[i]|
    ensures Covers(r, i, j) ==> Fill(g, r)[i][j] == Corner(g, r)
    ensures !Covers(r, i, j) ==> Fill(g, r)[i][j] == g[i][j]
  {
  }

  /** Processing the same range twice changes nothing the first pass did not. */
  lemma {:induction false} FillIdempotent<V>(g: seq<seq<V>>, r: CellRange)
    requires HasCorner(g, r)
    ensures HasCorner(Fill(g, r), r)
    ensures Fill(Fill(g, r), r) == Fill(g, r)
  {
    var h := Fill(g, r);
    assert Corner(h, r) == Corner(g, r);
    forall i | 0 <= i < |h|
      ensures Fill(h, r)[i] == h[i]
    {
    }
  }

  /** A cell no range covers keeps its value through the whole list. */
  lemma {:induction false} FillAllUncovered<V>(g: seq<seq<V>>, rs: seq<CellRange>, i: nat, j: nat)
    requires AllHaveCorners(g, rs) && i < |g| && j < |g[i]|
    requires forall k :: 0 <= k < |rs| ==> !Covers(rs[k], i, j)
    ensures FillAll(g, rs)[i][j] == g[i][j]
  {
    if rs != [] {
      var init := rs[..|rs| - 1];
      FillAllUncovered(g, init, i, j);
      FillMeaning(FillAll(g, init), rs[|rs| - 1], i, j);
    }
  }

  /** When no two ranges share a cell (as merged ranges never do), every cell of a range
      ends up with that range's own original top-left value, whatever the list order. */
  lemma {:induction false} FillAllCovered<V>(g: seq<seq<V>>, rs: seq<CellRange>, k: nat, i: nat, j: nat)
    requires AllHaveCorners(g, rs) && i < |g| && j < |g[i]|
    requires forall p, q :: 0 <= p < q < |rs| ==> Disjoint(rs[p], rs[q])
    requires k < |rs| && Covers(rs[k], i, j)
    ensures FillAll(g, rs)[i][j] == Corner(g, rs[k])
  {
    var init := rs[..|rs| - 1];
    var last := rs[|rs| - 1];
    InitFacts(g, rs);
    var h := FillAll(g, init);
    assert FillAll(g, rs) == Fill(h, last);
    FillMeaning(h, last, i, j);
    if k == |rs| - 1 {
      LastCornerKept(g, rs);
    } else {
      assert Disjoint(rs[k], last);
      assert init[k] == rs[k];
      FillAllCovered(g, init, k, i, j);
    }
  }

  /** What holds of the whole list holds of the list without its last range. */
  lemma {:induction false} InitFacts<V>(g: seq<seq<V>>, rs: seq<CellRange>)
    requires rs != [] && AllHaveCorners(g, rs)
    requires forall p, q :: 0 <= p < q < |rs| ==> Disjoint(rs[p], rs[q])
    ensures AllHaveCorners(g, rs[..|rs| - 1]) && HasCorner(g, rs[|rs| - 1])
    ensures var init := rs[..|rs| - 1];
      forall p, q :: 0 <= p < q < |init| ==> Disjoint(init[p], init[q])
  {
    var init := rs[..|rs| - 1];
    forall p | 0 <= p < |init|
      ensures HasCorner(g, init[p])
    {
      assert init[p] == rs[p];
    }
    forall p, q | 0 <= p < q < |init|
      ensures Disjoint(init[p], init[q])
    {
      assert init[p] == rs[p] && init[q] == rs[q];
    }
  }

  /** No earlier range covers the last range's top-left cell, so it still holds its
      original value when the last range is processed. */
  lemma {:induction false} LastCornerKept<V>(g: seq<seq<V>>, rs: seq<CellRange>)
    requires rs != [] && AllHaveCorners(g, rs)
    requires rs[|rs| - 1].minRow <= rs[|rs| - 1].maxRow && rs[|rs| - 1].minCol <= rs[|rs| - 1].maxCol
    requires forall p, q :: 0 <= p < q < |rs| ==> Disjoint(rs[p], rs[q])
    ensures AllHaveCorners(g, rs[..|rs| - 1]) && HasCorner(g, rs[|rs| - 1])
    ensures Corner(FillAll(g, rs[..|rs| - 1]), rs[|rs| - 1]) == Corner(g, rs[|rs| - 1])
  {
    var init := rs[..|rs| - 1];
    var last := rs[|rs| - 1];
    InitFacts(g, rs);
    var ci, cj := last.minRow - 1, last.minCol - 1;
    forall p | 0 <= p < |init|
      ensures !Covers(init[p], ci, cj)
    {
      assert init[p] == rs[p];
      assert Disjoint(rs[p], last);
    }
    FillAllUncovered(g, init, ci, cj);
  }
}
