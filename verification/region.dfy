/** The coverage grid: `create_region` allocates it and `update_region`
    commits a rectangle into it. */
module Region {
  import opened Wrappers

  /** A grid of integer cells, indexed `g[row][column]`. */
  type Grid = seq<seq<int>>

  /** `g` has `length` rows of `width` cells each. */
  predicate IsGrid(g: Grid, length: int, width: int) {
    |g| == length && forall i :: 0 <= i < |g| ==> |g[i]| == width
  }

  /** Every cell of `g` is 0 or 1. */
  predicate Binary(g: Grid) {
    forall i, j :: 0 <= i < |g| && 0 <= j < |g[i]| ==> g[i][j] == 0 || g[i][j] == 1
  }

  /** `g` and `g'` have the same number of rows and the same row widths. */
  predicate SameShape(g: Grid, g': Grid) {
    |g'| == |g| && forall i :: 0 <= i < |g| ==> |g'[i]| == |g[i]|
  }

  /** Coverage only accumulates from `g` to `g'`: a covered cell stays covered. */
  predicate Accumulates(g: Grid, g': Grid) {
    && SameShape(g, g')
    && forall i, j :: 0 <= i < |g| && 0 <= j < |g[i]| && g[i][j] == 1 ==> g'[i][j] == 1
  }

  /** The all-zero grid of `length` rows by `width` columns. */
  function Zeros(length: nat, width: nat): (g: Grid)
    ensures IsGrid(g, length, width)
    ensures forall i, j :: 0 <= i < length && 0 <= j < width ==> g[i][j] == 0
  {
    seq(length, _ => seq(width, _ => 0))
  }

  /** The zero-initialised grid of `create_region`. A negative dimension makes
      the array allocation fail, which is the None result. */
  function CreateRegion(width: int, length: int): (r: Option<Grid>)
    ensures r.Some? <==> width >= 0 && length >= 0
    ensures r.Some? ==> IsGrid(r.value, length, width) && Binary(r.value)
    ensures r.Some? ==> forall i, j :: 0 <= i < length && 0 <= j < width ==> r.value[i][j] == 0
  {
    if width < 0 || length < 0 then None else Some(Zeros(length, width))
  }

  /** The cells `[yloc, yloc+length) x [xloc, xloc+width)`, in grid rows and columns. */
  datatype Rect = Rect(xloc: int, yloc: int, width: int, length: int) {
    predicate Covers(i: int, j: int) {
      yloc <= i < yloc + length && xloc <= j < xloc + width
    }
  }

  /** Filling `r` touches only cells that exist in `g`: either the loops are
      empty or every index they produce is in bounds (no wrap-around). */
  predicate Fits(g: Grid, r: Rect) {
    || r.width <= 0
    || r.length <= 0
    || (&& 0 <= r.xloc && 0 <= r.yloc && r.yloc + r.length <= |g|
        && forall i :: r.yloc <= i < r.yloc + r.length ==> r.xloc + r.width <= |g[i]|)
  }

  /** The inner loop of `update_region`: cells `j .. end-1` of one row set to 1. */
  function FillCells(row: seq<int>, j: int, end: int): (r: seq<int>)
    requires 0 <= j <= end <= |row|
    ensures |r| == |row|
    ensures forall c :: 0 <= c < |row| ==> r[c] == (if j <= c < end then 1 else row[c])
    decreases end - j
  {
    if j == end then row else FillCells(row[j := 1], j + 1, end)
  }

  /** The outer loop of `update_region`: rows `i .. yEnd-1` filled on columns `x .. xEnd-1`. */
  function FillRows(g: Grid, x: int, xEnd: int, i: int, yEnd: int): (g': Grid)
    requires 0 <= x <= xEnd && 0 <= i <= yEnd <= |g|
    requires forall t :: i <= t < yEnd ==> xEnd <= |g[t]|
    ensures SameShape(g, g')
    ensures forall t, c :: 0 <= t < |g| && 0 <= c < |g[t]| ==>
      g'[t][c] == (if i <= t < yEnd && x <= c < xEnd then 1 else g[t][c])
    decreases yEnd - i
  {
    if i == yEnd then g
    else FillRows(g[i := FillCells(g[i], x, xEnd)], x, xEnd, i + 1, yEnd)
  }

  /** `update_region`: every cell of `r` becomes 1 and every other cell keeps its value. */
  function UpdateRegion(g: Grid, r: Rect): (g': Grid)
    requires Fits(g, r)
    ensures SameShape(g, g')
    ensures forall i, j :: 0 <= i < |g| && 0 <= j < |g[i]| ==>
      g'[i][j] == (if r.Covers(i, j) then 1 else g[i][j])
    ensures Accumulates(g, g')
    ensures Binary(g) ==> Binary(g')
  {
    if r.width <= 0 || r.length <= 0 then g
    else FillRows(g, r.xloc, r.xloc + r.width, r.yloc, r.yloc + r.length)
  }

  /** Committing the same rectangle a second time changes nothing. */
  lemma UpdateRegionIdempotent(g: Grid, r: Rect)
    requires Fits(g, r)
    ensures Fits(UpdateRegion(g, r), r)
    ensures UpdateRegion(UpdateRegion(g, r), r) == UpdateRegion(g, r)
  {
    var g1 := UpdateRegion(g, r);
    assert Fits(g1, r);
    var g2 := UpdateRegion(g1, r);
    forall i | 0 <= i < |g|
      ensures g2[i] == g1[i]
    {
      assert forall j :: 0 <= j < |g1[i]| ==> g2[i][j] == g1[i][j];
    }
  }
}
