/** One placement step: trim the new tower's footprint against the grid and
    commit the winning rectangle with `update_region`. */
module Placement {
  import opened Wrappers
  import opened Region
  import opened Tower
  import opened RowScan
  import opened Trim

  /** The rectangle `update_region` fills when given the winner's `yloc` as
      its top row, which is how its loop reads the argument. */
  function ReturnedRect(w: Winner): (r: Rect) {
    Rect(w.xloc, w.yloc, w.width, w.length)
  }

  /** The rectangle the winner stands for: its heights are runs ending at
      histogram row `yloc`, so it spans the `length` rows up to `yloc`. */
  function WinnerRect(w: Winner): (r: Rect) {
    Rect(w.xloc, w.yloc - w.length + 1, w.width, w.length)
  }

  /** A tower drawn over the whole of a 2x2 grid. */
  lemma FullFootprintTwoByTwo()
    ensures Footprint(2, 2, 0, 0, 2, 2) == [[1, 1], [1, 1]]
  {
    var f := Footprint(2, 2, 0, 0, 2, 2);
    assert f[0][0] == 1 && f[0][1] == 1 && f[1][0] == 1 && f[1][1] == 1;
    assert f[0] == [1, 1] && f[1] == [1, 1];
  }

  /** The scans of the two height rows of a fully claimable 2x2 grid. */
  lemma TwoByTwoRowScores()
    ensures RowArea([1, 1]) == Some(Span(2, 0, 1, 2))
    ensures RowArea([2, 2]) == Some(Span(4, 0, 2, 2))
  {
  }

  /** The mask and run heights of an empty 2x2 grid under a full tower. */
  lemma TwoByTwoHeights()
    ensures Heights(RemoveOverlap([[0, 0], [0, 0]], [[1, 1], [1, 1]], 2, 2), 2, 2) == [[1, 1], [2, 2]]
  {
    var mask := RemoveOverlap([[0, 0], [0, 0]], [[1, 1], [1, 1]], 2, 2);
    assert mask[0] == [1, 1] && mask[1] == [1, 1];
    var h := Heights(mask, 2, 2);
    assert h[0] == [1, 1];
    assert h[1][0] == 2 && h[1][1] == 2;
    assert h[1] == [2, 2];
  }

  /** The selection over those heights: row 1 beats row 0. */
  lemma TwoByTwoBestRow()
    ensures BestRowUpTo([[1, 1], [2, 2]], 2) == Some(Winner(4, 0, 1, 2, 2))
  {
    var h: Grid := [[1, 1], [2, 2]];
    TwoByTwoRowScores();
    assert !AllZero(h[0]) && !AllZero(h[1]);
    assert BestRowUpTo(h, 1) == Some(Winner(2, 0, 0, 1, 2));
  }

  /** With `yloc` read as the top row, `update_region` runs off the grid:
      on an empty 2x2 grid a tower covering it all wins at row 1 with height
      2, so the fill reaches row 2, which does not exist. The rectangle the
      winner stands for fits. */
  lemma ReturnedAnchorOverrunsGrid()
    ensures TrimTower([[0, 0], [0, 0]], 2, 2, Footprint(2, 2, 0, 0, 2, 2)) == Some(Winner(4, 0, 1, 2, 2))
    ensures !Fits([[0, 0], [0, 0]], ReturnedRect(Winner(4, 0, 1, 2, 2)))
    ensures Fits([[0, 0], [0, 0]], WinnerRect(Winner(4, 0, 1, 2, 2)))
  {
    // The winner and the two anchors are proved apart: in one context the
    // unfolded pipeline term makes the bounds checks expensive.
    TwoByTwoTrim();
    TwoByTwoAnchors();
  }

  /** The winner on an empty 2x2 grid under a tower covering all of it. */
  lemma TwoByTwoTrim()
    ensures TrimTower([[0, 0], [0, 0]], 2, 2, Footprint(2, 2, 0, 0, 2, 2)) == Some(Winner(4, 0, 1, 2, 2))
  {
    FullFootprintTwoByTwo();
    TwoByTwoHeights();
    TwoByTwoBestRow();
  }

  /** That winner's two anchors on a 2-row grid: from row 1 it leaves the
      grid, from its top row 0 it fits. */
  lemma TwoByTwoAnchors()
    ensures !Fits([[0, 0], [0, 0]], ReturnedRect(Winner(4, 0, 1, 2, 2)))
    ensures Fits([[0, 0], [0, 0]], WinnerRect(Winner(4, 0, 1, 2, 2)))
  {
  }

  /** Anchored at its top row, the winner of a 0/1 tower always fits the
      grid, and its bottom row is the histogram row it was scored on. */
  lemma WinnerRectFits(region: Grid, length: nat, width: nat, tower: Grid)
    requires IsGrid(region, length, width) && IsGrid(tower, length, width)
    requires Binary(tower)
    ensures TrimTower(region, length, width, tower).Some? ==>
      var r := WinnerRect(TrimTower(region, length, width, tower).value);
      && Fits(region, r)
      && r.width >= 1 && r.length >= 1
      && r.yloc + r.length - 1 == TrimTower(region, length, width, tower).value.yloc
  {
  }

  /** One placement step with the corrected anchor: nothing changes when no
      row scores; otherwise `update_region` commits `WinnerRect`, the winner
      anchored at its top row `yloc - length + 1`, rather than the rectangle
      starting at `yloc` that `update_region` would fill if given the winner's
      `yloc` as it is returned. Coverage only accumulates and a 0/1 grid
      stays 0/1. */
  function PlaceTower(region: Grid, length: nat, width: nat, tower: Grid): (g: Grid)
    requires IsGrid(region, length, width) && IsGrid(tower, length, width)
    requires Binary(tower)
    ensures IsGrid(g, length, width)
    ensures Accumulates(region, g)
    ensures Binary(region) ==> Binary(g)
    ensures TrimTower(region, length, width, tower).None? ==> g == region
    ensures TrimTower(region, length, width, tower).Some? ==>
      var w := TrimTower(region, length, width, tower).value;
      forall i, j :: 0 <= i < length && 0 <= j < width ==>
        g[i][j] == (if w.yloc - w.length < i <= w.yloc && w.xloc <= j < w.xloc + w.width then 1 else region[i][j])
  {
    match TrimTower(region, length, width, tower)
    case None => region
    case Some(w) =>
      WinnerRectFits(region, length, width, tower);
      UpdateRegion(region, WinnerRect(w))
  }

  /** A new tower drawn within `new_tower`'s bounds and placed on the grid. */
  function PlaceNewTower(region: Grid, length: nat, width: nat,
                         x: int, y: int, towerWidth: int, towerLength: int): (g: Grid)
    requires IsGrid(region, length, width)
    requires TowerBounds(width, length, x, y, towerWidth, towerLength)
    ensures IsGrid(g, length, width)
    ensures Accumulates(region, g)
    ensures Binary(region) ==> Binary(g)
  {
    PlaceTower(region, length, width, Footprint(width, length, x, y, towerWidth, towerLength))
  }
}
