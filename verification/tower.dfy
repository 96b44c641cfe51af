/** The footprint of a new tower, as rasterised by `plot_tower`. */
module Tower {
  import opened Region

  /** The ranges `new_tower` draws from: the anchor lies in the grid and the
      extent is at least one cell and reaches at most to the grid's far edge. */
  predicate TowerBounds(width: int, length: int, x: int, y: int, towerWidth: int, towerLength: int) {
    && 0 <= x <= width - 1
    && 0 <= y <= length - 1
    && 1 <= towerWidth <= width - x
    && 1 <= towerLength <= length - y
  }

  /** The footprint array: a zero grid with the tower's cells set to 1 by the
      same double loop that `update_region` runs. */
  function Footprint(width: int, length: int, x: int, y: int, towerWidth: int, towerLength: int): (f: Grid)
    requires TowerBounds(width, length, x, y, towerWidth, towerLength)
    ensures IsGrid(f, length, width)
    ensures Binary(f)
    ensures forall i, j :: 0 <= i < length && 0 <= j < width ==>
      (f[i][j] == 1 <==> y <= i < y + towerLength && x <= j < x + towerWidth)
  {
    UpdateRegion(Zeros(length, width), Rect(x, y, towerWidth, towerLength))
  }
}
