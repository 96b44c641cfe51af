/** `trim_tower`: drop the cells already covered, turn the mask into column
    run heights in place, and pick the row whose scan scores highest. */
module Trim {
  import opened Wrappers
  import opened Region
  import opened RowScan

  /** The chosen rectangle as `trim_tower` reports it: the histogram row
      `yloc` it was scored on, with the row scan's anchor and dimensions. */
  datatype Winner = Winner(area: int, xloc: int, yloc: int, length: int, width: int)

  /** The overlap loop: a tower cell equal to the grid cell is zeroed. On 0/1
      grids this leaves exactly the tower cells that are not yet covered. */
  function RemoveOverlap(region: Grid, tower: Grid, length: nat, width: nat): (mask: Grid)
    requires IsGrid(region, length, width) && IsGrid(tower, length, width)
    ensures IsGrid(mask, length, width)
    ensures forall i, j :: 0 <= i < length && 0 <= j < width ==>
      mask[i][j] == (if tower[i][j] == region[i][j] then 0 else tower[i][j])
    ensures Binary(tower) ==> Binary(mask)
    ensures Binary(tower) && Binary(region) ==> forall i, j :: 0 <= i < length && 0 <= j < width ==>
      (mask[i][j] == 1 <==> tower[i][j] == 1 && region[i][j] == 0)
  {
    seq(length, i requires 0 <= i < length =>
      seq(width, j requires 0 <= j < width =>
        if tower[i][j] == region[i][j] then 0 else tower[i][j]))
  }

  /** Row `i` of the height pass: a cell holding 1 adds the height above it. */
  function NextRow(above: seq<int>, cur: seq<int>): (r: seq<int>)
    requires |above| == |cur|
  {
    seq(|cur|, j requires 0 <= j < |cur| => if cur[j] == 1 then cur[j] + above[j] else cur[j])
  }

  /** The in-place height pass over the first `k` rows of `m`: row 0 stays as
      it is; below it a 1 becomes one more than the (already updated) cell
      above, and any other value is left alone. */
  function Heights(m: Grid, width: int, k: nat): (h: Grid)
    requires IsGrid(m, |m|, width) && k <= |m|
    ensures IsGrid(h, k, width)
    ensures k > 0 ==> h[0] == m[0]
    ensures forall i, j :: 0 < i < k && 0 <= j < width ==>
      h[i][j] == (if m[i][j] == 1 then h[i - 1][j] + 1 else m[i][j])
    ensures Binary(m) ==> forall i, j :: 0 <= i < k && 0 <= j < width ==> 0 <= h[i][j] <= i + 1
    decreases k
  {
    if k == 0 then []
    else if k == 1 then [m[0]]
    else
      var above := Heights(m, width, k - 1);
      above + [NextRow(above[k - 2], m[k - 1])]
  }

  /** `n` is the length of the run of 1s in column `j` that ends at row `i`:
      the `n` cells up to row `i` are 1 and the cell just above them is not. */
  ghost predicate IsColumnRun(m: Grid, width: int, i: int, j: int, n: int)
    requires IsGrid(m, |m|, width) && 0 <= i < |m| && 0 <= j < width
  {
    && 0 <= n <= i + 1
    && (forall t :: i - n < t <= i ==> m[t][j] == 1)
    && (n <= i ==> m[i - n][j] != 1)
  }

  /** On a 0/1 mask every height is the length of the column's run of 1s
      ending at that row. */
  lemma {:induction false} HeightIsColumnRun(m: Grid, width: int, i: int, j: int)
    requires IsGrid(m, |m|, width) && Binary(m)
    requires 0 <= i < |m| && 0 <= j < width
    ensures IsColumnRun(m, width, i, j, Heights(m, width, |m|)[i][j])
    decreases i
  {
    var h := Heights(m, width, |m|);
    if i > 0 {
      HeightIsColumnRun(m, width, i - 1, j);
      if m[i][j] == 1 {
        var n := h[i - 1][j];
        assert h[i][j] == n + 1;
        assert forall t :: i - 1 - n < t <= i - 1 ==> m[t][j] == 1;
      }
    }
  }

  /** Every cell of the row is 0. */
  predicate AllZero(row: seq<int>) {
    forall j :: 0 <= j < |row| ==> row[j] == 0
  }

  /** The score `trim_tower` compares for row `i`: 0 for a skipped all-zero
      row or a row whose scan found nothing, the scan's area otherwise. */
  function RowScore(h: Grid, i: int): (a: int)
    requires 0 <= i < |h|
    ensures a >= 0
  {
    if AllZero(h[i]) then 0
    else match RowArea(h[i])
      case Some(b) => b.area
      case None => 0
  }

  function WinnerArea(w: Option<Winner>): (a: int) {
    match w
    case Some(v) => v.area
    case None => 0
  }

  /** The selection loop of `trim_tower` over rows `0 .. k-1`: all-zero rows
      are skipped and a row replaces the winner only with a strictly larger
      area, so the winner is the first row attaining the largest score. */
  function BestRowUpTo(h: Grid, k: nat): (r: Option<Winner>)
    requires k <= |h|
    ensures r.None? <==> forall i :: 0 <= i < k ==> RowScore(h, i) == 0
    ensures r.Some? ==>
      && 0 <= r.value.yloc < k
      && !AllZero(h[r.value.yloc])
      && RowArea(h[r.value.yloc]) == Some(Span(r.value.area, r.value.xloc, r.value.length, r.value.width))
      && (forall i :: 0 <= i < r.value.yloc ==> RowScore(h, i) < r.value.area)
      && (forall i :: 0 <= i < k ==> RowScore(h, i) <= r.value.area)
    decreases k
  {
    if k == 0 then None
    else
      var prev := BestRowUpTo(h, k - 1);
      var i := k - 1;
      if AllZero(h[i]) then prev
      else match RowArea(h[i])
        case Some(b) =>
          assert RowScore(h, i) == b.area;
          if b.area > WinnerArea(prev) then Some(Winner(b.area, b.xloc, i, b.length, b.width))
          else prev
        case None => prev
  }

  /** `trim_tower`, with None for the case where no row scores (`trim_tower`
      then returns stale or unset globals). On a 0/1 tower the winner lies on
      the grid and its height fits above its histogram row. */
  function TrimTower(region: Grid, length: nat, width: nat, tower: Grid): (r: Option<Winner>)
    requires IsGrid(region, length, width) && IsGrid(tower, length, width)
    ensures Binary(tower) && r.Some? ==>
      && 0 <= r.value.yloc < length
      && 0 <= r.value.xloc && r.value.xloc + r.value.width <= width
      && 1 <= r.value.width
      && 1 <= r.value.length <= r.value.yloc + 1
      && r.value.area == r.value.length * r.value.width
  {
    var mask := RemoveOverlap(region, tower, length, width);
    var h := Heights(mask, width, length);
    BestRowUpTo(h, length)
  }

  /** A row of non-negative heights scores iff it has a non-zero bar before
      its last index. */
  lemma RowScorePositiveIff(h: Grid, i: int)
    requires 0 <= i < |h|
    requires NonNegRow(h[i])
    ensures RowScore(h, i) > 0 <==> exists j :: 0 <= j < |h[i]| - 1 && h[i][j] != 0
  {
  }

  /** On 0/1 grids `trim_tower` finds a winner exactly when some tower cell
      outside the last column is not yet covered. */
  lemma TrimTowerWinnerIff(region: Grid, length: nat, width: nat, tower: Grid)
    requires IsGrid(region, length, width) && IsGrid(tower, length, width)
    requires Binary(tower) && Binary(region)
    ensures TrimTower(region, length, width, tower).Some? <==>
      exists i, j :: 0 <= i < length && 0 <= j < width - 1 && tower[i][j] == 1 && region[i][j] == 0
  {
    var mask := RemoveOverlap(region, tower, length, width);
    var h := Heights(mask, width, length);
    forall i, j | 0 <= i < length && 0 <= j < width
      ensures h[i][j] != 0 <==> mask[i][j] == 1
    {
      if i == 0 {
        assert h[0][j] == mask[0][j];
      } else {
        assert h[i - 1][j] >= 0;
      }
    }
    forall i | 0 <= i < length
      ensures RowScore(h, i) > 0 <==> exists j :: 0 <= j < width - 1 && mask[i][j] == 1
    {
      assert NonNegRow(h[i]);
      RowScorePositiveIff(h, i);
    }
    var r := BestRowUpTo(h, length);
    if r.Some? {
      assert RowScore(h, r.value.yloc) > 0;
      var j :| 0 <= j < width - 1 && mask[r.value.yloc][j] == 1;
      assert tower[r.value.yloc][j] == 1 && region[r.value.yloc][j] == 0;
    }
    if exists i, j :: 0 <= i < length && 0 <= j < width - 1 && tower[i][j] == 1 && region[i][j] == 0 {
      var i, j :| 0 <= i < length && 0 <= j < width - 1 && tower[i][j] == 1 && region[i][j] == 0;
      assert mask[i][j] == 1;
      assert RowScore(h, i) > 0;
    }
  }

  /** A footprint wholly inside the covered area yields no winner. */
  lemma CoveredFootprintClaimsNothing(region: Grid, length: nat, width: nat, tower: Grid)
    requires IsGrid(region, length, width) && IsGrid(tower, length, width)
    requires Binary(tower) && Binary(region)
    requires forall i, j :: 0 <= i < length && 0 <= j < width && tower[i][j] == 1 ==> region[i][j] == 1
    ensures TrimTower(region, length, width, tower).None?
  {
    TrimTowerWinnerIff(region, length, width, tower);
  }

  /** A grid one column wide never produces a winner: a row of one bar is
      never scored. */
  lemma SingleColumnClaimsNothing(region: Grid, length: nat, tower: Grid)
    requires IsGrid(region, length, 1) && IsGrid(tower, length, 1)
    ensures TrimTower(region, length, 1, tower).None?
  {
  }
}
