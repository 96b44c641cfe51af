# Coverage trimming for network-tower placement

This project models the core of a small simulator that places rectangular
tower footprints on a coverage grid. For each new tower it removes the cells
that are already covered, turns the remaining mask into column run heights,
scans every row of heights for a rectangle, and commits the winning rectangle
to the grid. Everything is written as pure functions over `seq<seq<int>>`
grids, indexed `g[row][column]`.

- `wrappers.dfy` (`Wrappers`): `Option`. It replaces the module-level globals
  that `row_area` and `trim_tower` return when nothing was scored.
- `region.dfy` (`Region`): the grid, `create_region`'s zero grid and
  `update_region`'s fill loop.
- `tower.dfy` (`Tower`): the footprint array built in `plot_tower`. It uses
  the ranges `new_tower` draws from, taken as a precondition.
- `row_scan.dfy` (`RowScan`): `row_area`. It is a fold of one loop step over
  the row, with the explicit state `Scan(rows, cols, best)`. `max_area` is the
  area of `best`, or 0 while `best` is None.
- `trim.dfy` (`Trim`): `trim_tower`. It covers overlap removal, the run-height
  pass (done in place on the caller's footprint array in the Python code, and
  returned as new grids here), and selection of the best row.
- `placement.dfy` (`Placement`): one placement step, from trimming to commit.
  It commits the winner at its corrected anchor (see Findings).

`row_area` is modelled exactly as written. It is not a largest rectangle in a
histogram, and the model claims neither maximality nor that the rectangle
lies inside the claimable cells. Its quirks are all kept:
- `cols` is reset only when a run improves the maximum, so a run that does not
  improve passes its width on to the next run.
- A bar that closes a run is consumed and does not start the next run.
- A run that starts at the last index is never scored.
- The guard `set(row) == ({0,1} or {1})` compares against `{0,1}`. The first
  branch therefore runs only for rows holding both 0 and 1. On such rows the
  two branches perform the same scan (`BranchesAgreeOnBinaryRows`), so the
  guard never changes a result (`GuardIsImmaterial`).

Further behaviour of the code that the model keeps:
- A grid one column wide never yields a winner (`SingleColumnClaimsNothing`).
- The winner's `yloc` is the histogram row the rectangle was scored on. That
  row is the rectangle's bottom row, not its top row (see Findings). For a
  empty 5x5 grid and a tower covering all of it, `trim_tower` reports
  `yloc` 4, the rectangle's bottom row.
- The height pass leaves a mask cell that is not 1 unchanged instead of
  setting it to 0. The two agree on 0/1 masks.
- `trim_tower` returns `(xloc, yloc, length, width)`, while `update_region`
  takes `(xloc, yloc, width, length)`. The model passes named fields, so no
  positional swap is modelled.

## Model

| member | source | states |
|---|---|---|
| Region.CreateRegion | indiv_project_module.py:18-24 | a grid exists exactly when both dimensions are non-negative (a negative one makes the allocation fail); it has `length` rows of `width` zeros |
| Region.UpdateRegion | indiv_project_module.py:242-245 | every cell of `[yloc, yloc+length) x [xloc, xloc+width)` becomes 1 and every other cell keeps its value; no covered cell is uncovered; a 0/1 grid stays 0/1; requires only that no index the loops touch is out of range |
| Region.UpdateRegionIdempotent | indiv_project_module.py:242-245 | committing the same rectangle twice gives the same grid as committing it once |
| Tower.Footprint | indiv_project_module.py:75-79 | with the anchor and extent in `new_tower`'s ranges (lines 39-43), the footprint has the grid's shape, holds only 0s and 1s, and holds 1 exactly on `[y, y+towerLength) x [x, x+towerWidth)` |
| RowScan.RowArea | indiv_project_module.py:87-153 | a scored run has area = length x width > 0, width >= 1, `0 <= xloc` and `xloc + width <= len(row)`, and a length that is a positive bar of the row; in the `{0,1}` branch the length is 1; a row of at most one bar, or whose only non-zero bar is the last, scores nothing; for non-negative bars it scores nothing exactly then, so any non-zero bar before the last index gives a scored run |
| RowScan.ScanPrefixInv | indiv_project_module.py:107-152 | after any number of loop iterations `1 <= cols`, `cols` is at most the index reached, `rows` is 0 or a bar of the row, and the best run so far satisfies the shape above within the bars read |
| RowScan.ScanPrefixLive | indiv_project_module.py:110-153 | on non-negative bars, once a positive bar has been read the scan holds a scored run or is inside a run of positive height |
| RowScan.RowAreaScoresPositiveBar | indiv_project_module.py:110-153 | on non-negative bars, a positive bar before the last index guarantees a scored run, because the last index closes any open run |
| RowScan.SplitRowIffBothValues | indiv_project_module.py:106 | the first branch is taken iff every bar is 0 or 1 and both values occur; a non-empty row of all 1s takes the second branch |
| RowScan.BranchesAgreeOnBinaryRows | indiv_project_module.py:110-153 | on a row of 0s and 1s the two branches' loops reach the same state after every prefix |
| RowScan.GuardIsImmaterial | indiv_project_module.py:106-153 | every row's result equals that of the second branch's scan |
| RowScan.DocumentedExamples | indiv_project_module.py:95-97 | `[1,2,2,1,0]` scores area 4 at xloc 0 with length 1 and width 4; `[0,2,3,3,4]` scores area 8 at xloc 1 with length 2 and width 4 |
| Trim.RemoveOverlap | indiv_project_module.py:172-175 | a tower cell equal to the grid cell becomes 0; on 0/1 grids a mask cell is 1 iff the tower cell is 1 and the grid cell is 0; a 0/1 tower gives a 0/1 mask; the grid is an input only and is not returned |
| Trim.Heights | indiv_project_module.py:177-180 | row 0 is unchanged; below it a cell holding 1 becomes the height above plus one and other cells keep their value; on a 0/1 mask every height in row i is between 0 and i+1 |
| Trim.HeightIsColumnRun | indiv_project_module.py:177-180 | on a 0/1 mask each height is the length of the column's run of 1s ending at that row: those cells are 1 and the cell above the run is not |
| Trim.BestRowUpTo | indiv_project_module.py:182-193 | no winner iff every row scores 0 (all-zero rows and unscored rows score 0); otherwise the winner's row is not all zero, carries that row's scan result, scores strictly more than every earlier row and at least as much as every row |
| Trim.TrimTower | indiv_project_module.py:155-195 | for a 0/1 tower a winner lies on the grid: `0 <= yloc < length`, `0 <= xloc`, `xloc + width <= width of grid`, `1 <= length <= yloc + 1`, area = length x width |
| Trim.RowScorePositiveIff | indiv_project_module.py:184-188 | a row of non-negative heights gets a positive score iff it has a non-zero bar before its last index |
| Trim.TrimTowerWinnerIff | indiv_project_module.py:172-193 | on 0/1 grids there is a winner exactly when some tower cell outside the last column is not yet covered |
| Trim.CoveredFootprintClaimsNothing | indiv_project_module.py:172-193 | a footprint whose every cell is already covered yields no winner |
| Trim.SingleColumnClaimsNothing | indiv_project_module.py:172-195 | on a grid one column wide no row is ever scored, so there is no winner |
| Placement.ReturnedAnchorOverrunsGrid | indiv_project_module.py:187-195 | on an empty 2x2 grid fully covered by the tower the winner is at row 1 with length 2; filled from row 1 downward it leaves the grid, and anchored at its top row it fits |
| Placement.WinnerRectFits | indiv_project_module.py:242-245 | for any 0/1 tower, the winner anchored at row `yloc - length + 1` is in bounds for `update_region`, and its bottom row is the scored row |
| Placement.PlaceTower | indiv_project_module.py:226-245 | `update_region` applied to the winner at its corrected anchor (rows `yloc-length+1 .. yloc`, not the rows from `yloc` that the returned value would give): with no winner the grid is unchanged; otherwise exactly the winner's cells become 1 and every other cell keeps its value; coverage only accumulates and a 0/1 grid stays 0/1 |
| Placement.PlaceNewTower | indiv_project_module.py:75-79 | placing a tower drawn within `new_tower`'s ranges keeps the grid's shape, never uncovers a cell and keeps a 0/1 grid 0/1 |

## Left out

- Figure and axis setup, patch creation, `plot_trimmed` and `tower_color`: these are presentation through a plotting library whose behaviour is not part of this model.
- Random draws in `new_tower`: only the ranges they draw from are modelled, as the precondition `TowerBounds`.
- `sleep` and the commented-out animation lines: they do not affect the grid.
- Module-level globals: results are returned instead. When `max_area` stays 0, `row_area` and `trim_tower` return stale values, or fails if the globals were never set. Both `row_area` and `trim_tower` return None in that case.
- Negative indices: numpy wraps them around. `update_region` requires in-bounds indices (`Fits`) instead.
- The `isinstance` assertions of `create_region`: the dimensions are integers by type.
- Region.UpdateRegion: when a fill index is out of range, numpy raises after writing the earlier rows. The model has no partial-write result, because that case is excluded by the precondition.
- Trim.TrimTower: the bounds on the winner are stated only for a 0/1 tower. For other values the run heights are unbounded.
- Placement.PlaceTower: commits the winner anchored at row `yloc - length + 1` (the corrected behaviour of Findings), not at the `yloc` that `trim_tower` returns; the Python code has no caller joining `trim_tower` to `update_region`, so this composition is the model's own.
- Overwriting of the footprint array: `trim_tower` zeroes the overlap and computes the run heights in place, so the caller's `tower_array` ends up holding the heights. The model leaves `tower` unchanged and returns the mask (`RemoveOverlap`) and the heights (`Heights`) as new grids.
- RowScan.RowArea: no maximality and no containment in the claimable cells are stated, because the scan as written does not provide them.

## Findings

| source | as written | input that shows it | evidently intended | confidence | as-written member | corrected member |
|---|---|---|---|---|---|---|
| indiv_project_module.py:191 | `trim_tower` records the histogram row `i` as `max_area_yloc`. Heights count runs ending at that row, so it is the rectangle's bottom row, yet `update_region` (line 242) fills rows `yloc .. yloc+length-1` | empty 2x2 grid, tower covering it all: winner `yloc` 1, length 2, so the fill touches row 2 of a 2-row grid | fill rows `yloc-length+1 .. yloc` | medium, not executed | Placement.ReturnedAnchorOverrunsGrid | Placement.WinnerRectFits |
