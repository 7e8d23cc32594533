# Flow-field grid layer of ecsmos

This project models the grid layer of the flow-field pathfinding plugin of
ecsmos, a Bevy crowd simulation.

- **`GridMap<T>`** (`src/components.rs`) is a dense row-major table of
  `columns × rows` cells laid over a world rectangle `area`. It supports:
  - 2-D and flat-index accessors that report out-of-range positions instead of wrapping;
  - a fill operation;
  - the mapping from world points to cells and from cells back to world points;
  - the query that turns a world rectangle into a candidate cell rectangle.
- **`create_colision_map`** (`src/plugins/flow_field_pathfinding/systems.rs`)
  rasterizes obstacles into a `GridMap<CellContents>`. For every obstacle it
  asks the grid for the candidate rectangle around a 50 × 50 half-size search
  box, walks it with nested `x`/`y` loops, and writes `Blocked` or `Empty`
  into each cell depending on whether the cell's centre is closer than 50 to
  the obstacle.
- **`setup`** builds the 101 × 101 grid over the 1100 × 1100 square centred
  at the origin.
- **`models.rs`** holds the cell-status datatypes.

Modules:

- `Wrappers`: the `Option` and `Result<(), ()>` shapes the accessors return.
- `BevyMath`: the library types and constructors the grid relies on: `Vec2`, `IVec2`, `Rect`, `IRect`, floor, ceil and clamp. These state the library's documented behaviour.
- `Components`: `Shape` and the `GridMap` class.
  - The cell table is an `array`, and `Reset`, `SetValue` and `SetValueByIndex` update it in place.
  - The geometry fields are `const`, as nothing in the source writes them after construction.
  - `Valid()` ties the array length and the cell dimensions to the construction arguments.
- `Models`: the `CellStatus` implementations and `TargetProximity`.
- `FlowFieldSystems`: `Setup` and the obstacle loop.
  - The loop over one obstacle is a method with nested `while` loops (`PaintRegion`, `PaintColumn`, `PaintCell`), proved against the specification function `Painted`.
  - The outer loop over obstacles is proved against a left fold, `AfterStamps`, over "stamps". A stamp pairs an obstacle centre with the cell rectangle its loops run over.
  - The as-written loops (`HalfOpenStamps`) and the corrected ones (`ClosedStamps`) share the same fold and the same lemmas about it.

Numbers: `f32` values are real numbers and `i32`/`usize` values are unbounded integers.

Two behaviours of the code shape the model:

- `cells_within_rect` clamps only the size of the candidate rectangle, not the rectangle itself, so the rectangle may extend past the grid (`RegionMayLeaveGrid`). The caller iterates it half-open, which the finding below is about.
- `create_colision_map` neither resets the map nor skips cells that are already `Blocked`. Every candidate cell is rewritten, so a later obstacle can turn an earlier `Blocked` back into `Empty` (`LastMarkingStampDecides`).

## Model

| member | source | states |
|---|---|---|
| Components.Shape.GetRectangleWithCenter | src/components.rs:33-38 | the bounding rectangle of a circle is centred on the given point and its size is twice the radius on both axes |
| Components.CircleInsideItsRectangle | src/components.rs:33-38 | every point within the radius of the centre lies in that rectangle (bounds inclusive) |
| Components.GridMap.constructor | src/components.rs:53-73 | the table has exactly `columns * rows` cells, all equal to the default value; `columns`, `rows` and `area` are recorded unchanged; the cell dimensions are the absolute extents divided by the counts |
| Components.GridMap.CellsSpanArea | src/components.rs:55-60 | with ordered corners, cell length times cell count is exactly the area's extent on each axis |
| Components.GridMap.Reset | src/components.rs:75-79 | the cell count is unchanged and afterwards every cell equals the given value |
| Components.GridMap.Index | src/components.rs:108-116 | an in-bounds cell (x, y) is stored at flat index `x + y * columns`, which is below `columns * rows` |
| Components.GridMap.CellOf | src/components.rs:118-133 | every flat index below `columns * rows` is the row-major image of an in-bounds cell |
| Components.GridMap.IndexCellOf | src/components.rs:108-116 | the row-major index is injective on in-bounds cells: `CellOf(Index(pos)) == pos` |
| Components.GridMap.IndexCellOfAll | src/components.rs:108-116 | the same for all in-bounds cells at once |
| Components.GridMap.CheckBounds | src/components.rs:157-164 | returns `Some(pos)` exactly when `0 <= x < columns` and `0 <= y < rows`, otherwise `None` |
| Components.GridMap.GetCellUnsafe | src/components.rs:151-155 | the returned cell is the one whose world interval `[min + c*d, min + (c+1)*d)` contains the point, on each axis |
| Components.GridMap.GetCell | src/components.rs:80-85 | `Some` exactly when the cell containing the point is in bounds, and then it is that cell |
| Components.GridMap.GetCellInsideArea | src/components.rs:80-85 | with ordered corners, a point maps to a grid cell exactly when it lies in the area, lower bounds included and upper bounds excluded |
| Components.GridMap.GetCoordIsCellCentre | src/components.rs:87-93 | with ordered corners, the world coordinate of a cell is `area.min + (cell + 1/2) * cell_dimensions`, its centre |
| Components.GridMap.GetCoord | src/components.rs:87-93 | the world coordinate of a cell lies `cell + 1/2 - count/2` cell lengths from the centre of the area on each axis, that is, at the cell's centre measured from the middle of the grid |
| Components.GridMap.CoordRoundTrip | src/components.rs:80-93 | cell to world to cell is the identity: `get_cell(get_coord(c)) == Some(c)` for every in-bounds cell |
| Components.GridMap.CellCentreNearPoint | src/components.rs:80-93 | world to cell to world moves a point of the area by at most half a cell length on each axis |
| Components.GridMap.GetValueAtCell | src/components.rs:95-102 | `Some` exactly for in-bounds cells, and then the value stored at the cell's row-major index |
| Components.GridMap.GetValueAt | src/components.rs:104-106 | `Some` exactly when the point maps to a grid cell, and then that cell's value |
| Components.GridMap.SetValue | src/components.rs:108-116 | in bounds: writes index `x + y * columns`, every other cell unchanged, returns `Ok`, and `get_value_at_cell` then returns the new value; out of bounds: `Err` and the table unchanged |
| Components.GridMap.GetValueByIndex | src/components.rs:118-124 | `None` exactly when `i >= columns * rows`, otherwise the value at `i` |
| Components.GridMap.SetValueByIndex | src/components.rs:126-133 | `Err` with the table unchanged exactly when `i >= columns * rows`, otherwise only cell `i` is overwritten and the result is `Ok` |
| Components.CellSpan | src/components.rs:139-142 | the clamped ceiling of extent / cell length: between 0 and the limit, at least the extent when below the limit, less than one cell beyond it, and 0 exactly for a non-positive extent |
| Components.GridMap.CellsWithinRect | src/components.rs:135-149 | `None` exactly when the search rectangle has no positive extent on either axis; otherwise a rectangle centred on the cell of the search centre whose width on each axis is the clamped span rounded up to an even number, so an odd `size + 1` loses a cell |
| Models.BlockedStatusImpl | src/plugins/flow_field_pathfinding/models.rs:5-16 | the default `Empty` and the non-default `Blocked` differ |
| Models.TargetStatusImpl | src/plugins/flow_field_pathfinding/models.rs:18-29 | the default `NotTarget` and the non-default `IsTarget` differ |
| Models.ProximityCases | src/plugins/flow_field_pathfinding/models.rs:31-36 | a proximity is exactly one of `Unreachable`, `NotComputed` and `Computed`, and only `Computed` carries a distance |
| FlowFieldSystems.Setup | src/plugins/flow_field_pathfinding/systems.rs:7-14 | a 101 × 101 grid over [-550, 550]², cells of 1100/101 on each side, every cell `Empty` |
| FlowFieldSystems.ObstacleSearchRect | src/plugins/flow_field_pathfinding/systems.rs:20 | the search rectangle is centred on the obstacle and its sides are the diameter, 100 |
| FlowFieldSystems.StatusFor | src/plugins/flow_field_pathfinding/systems.rs:33-40 | `Blocked` exactly when the cell's centre is strictly closer than 50 to the obstacle, otherwise `Empty`; a `Blocked` cell's centre lies inside the obstacle's search rectangle |
| FlowFieldSystems.Painted | src/plugins/flow_field_pathfinding/systems.rs:29-41 | after one pass over `lo .. hi`, each in-bounds cell in the range holds `Blocked` if its centre is closer than 50 to the obstacle and `Empty` otherwise; every other cell keeps its value |
| FlowFieldSystems.PaintedTwice | src/plugins/flow_field_pathfinding/systems.rs:29-41 | two passes over ranges whose union is a third range are the single pass over it |
| FlowFieldSystems.PaintedSingle | src/plugins/flow_field_pathfinding/systems.rs:32-40 | a pass over one cell writes that cell's status at its index when it is in the grid, and changes nothing when it is not |
| FlowFieldSystems.PaintedEmpty | src/plugins/flow_field_pathfinding/systems.rs:29-30 | a pass over an empty range changes nothing |
| FlowFieldSystems.PaintRegion | src/plugins/flow_field_pathfinding/systems.rs:29-42 | the nested loops leave the table equal to `Painted` of the old table over the half-open range |
| FlowFieldSystems.PaintColumn | src/plugins/flow_field_pathfinding/systems.rs:30-41 | the inner loop leaves the table equal to `Painted` over one column |
| FlowFieldSystems.PaintCell | src/plugins/flow_field_pathfinding/systems.rs:32-40 | the loop body writes the cell's status through `set_value` and skips a cell outside the grid, as the discarded error does |
| FlowFieldSystems.ObstacleRegion | src/plugins/flow_field_pathfinding/systems.rs:20-27 | on a grid with cells, an obstacle's candidate rectangle always exists, so the `None => continue` branch is never taken |
| FlowFieldSystems.ObstacleRegionBounds | src/plugins/flow_field_pathfinding/systems.rs:20-22 | the candidate rectangle is the obstacle's cell widened on each side by `(span + 1) / 2`, where span is the clamped number of cells in the 100-unit diameter |
| FlowFieldSystems.RegionMayLeaveGrid | src/plugins/flow_field_pathfinding/systems.rs:20-30 | on the grid `setup` builds, the rectangle for an obstacle at the corner (-550, -550) runs from (-5, -5) to (5, 5), so it includes cells outside the grid |
| FlowFieldSystems.AfterStamp | src/plugins/flow_field_pathfinding/systems.rs:22-42 | one obstacle: each in-bounds cell in its range gets the obstacle's status, every other cell is unchanged, and an obstacle without a range changes nothing |
| FlowFieldSystems.HalfOpenStamp | src/plugins/flow_field_pathfinding/systems.rs:19-30 | the as-written pass is centred on its obstacle and always has a range |
| FlowFieldSystems.HalfOpenStampMarks | src/plugins/flow_field_pathfinding/systems.rs:20-30 | the as-written pass reaches cell `c` exactly when `k - h <= c < k + h` on each axis, where `k` is the obstacle's cell and `h` is half the clamped span of the diameter rounded up: `h` cells below `k` but only `h - 1` above |
| FlowFieldSystems.AfterStamps | src/plugins/flow_field_pathfinding/systems.rs:17-45 | the fold that processes the obstacles in iteration order, each pass on the result of the previous ones; its contract states only that the cell count never changes, and the lemmas below state what the fold writes |
| FlowFieldSystems.HalfOpenStamps | src/plugins/flow_field_pathfinding/systems.rs:17-22 | one pass per obstacle, in the obstacles' order, each centred on its obstacle |
| FlowFieldSystems.CreateCollisionMap | src/plugins/flow_field_pathfinding/systems.rs:16-46 | the system leaves the table equal to the fold of the as-written passes over the old table |
| FlowFieldSystems.UnmarkedCellKept | src/plugins/flow_field_pathfinding/systems.rs:17-45 | a cell that no obstacle's range reaches keeps its value |
| FlowFieldSystems.LastMarkingStampDecides | src/plugins/flow_field_pathfinding/systems.rs:17-45 | the last obstacle whose range reaches a cell decides its value, whatever earlier obstacles wrote, including turning `Blocked` back into `Empty` |
| FlowFieldSystems.HalfOpenRangeMissesCell | src/plugins/flow_field_pathfinding/systems.rs:29-30 | on the `setup` grid with an obstacle at (5.4, 0), cell (55, 50) is in the grid and its centre is closer than 50, yet the half-open loops never write it |
| FlowFieldSystems.CoveringBlocksEveryCellInRadius | src/plugins/flow_field_pathfinding/systems.rs:29-41 | with the range's upper end included, every in-bounds cell whose centre is closer than 50 is in the range and ends `Blocked`, on any grid at least 100 wide and high |
| FlowFieldSystems.RegionCoversCellInRadius | src/plugins/flow_field_pathfinding/systems.rs:29-30 | the closed candidate range contains every cell whose centre is within the radius on both axes |
| FlowFieldSystems.ClosedStamp | src/plugins/flow_field_pathfinding/systems.rs:19-30 | the corrected pass is centred on its obstacle and always has a range |
| FlowFieldSystems.ClosedStampMarks | src/plugins/flow_field_pathfinding/systems.rs:20-30 | the corrected pass reaches cell `c` exactly when `k - h <= c <= k + h` on each axis, symmetric around the obstacle's cell |
| FlowFieldSystems.ClosedStamps | src/plugins/flow_field_pathfinding/systems.rs:17-30 | one corrected pass per obstacle, in order, each centred on its obstacle |
| FlowFieldSystems.CreateCollisionMapClosed | src/plugins/flow_field_pathfinding/systems.rs:16-46 | the corrected system leaves the table equal to the fold of the closed passes |
| FlowFieldSystems.ClosedMapBlocksCellNearObstacle | src/plugins/flow_field_pathfinding/systems.rs:17-45 | with the corrected loops, a cell closer than 50 to an obstacle is `Blocked` unless the range of a later obstacle reaches it |

## Left out

- I/O and the ECS: Bevy queries, resources, `Commands` and the `Changed<Transform>` filter are replaced by the grid object and a sequence of obstacle centres in iteration order.
- `draw_grid` is left out because it only renders.
- `compute_proximity_map` and `create_vector_map` are registered by the plugin but their code is not available, so they are not part of this model.
- `resources.rs` is not part of this model. `CellContents` is inferred from its uses as the two-variant enum `Empty | Blocked`.
- Floating point: `f32` rounding, and the infinities and NaN that division by zero gives, are not modelled. A cell length over zero cells is 0.0. The world-to-cell members (`GetCellUnsafe`, `GetCell`, `GetValueAt`, `CellsWithinRect`) require `HasCellArea()` (positive counts and cell lengths), since the source divides by the cell length there. `GetCoord` has no such requirement: on a grid with zero columns or rows it returns a finite point computed from the 0.0 cell length, where the source divides by zero and gets infinities or NaN.
- Integer widths: the `usize` product `columns * rows` and the `i32` casts (`as i32`, `as_ivec2`, `as usize`) are unbounded here, so overflow and saturation are not modelled.
- Components.GridMap.GetCellUnsafe: the unchecked result is an unbounded integer; the saturating `f32`-to-`i32` cast is not modelled.
- FlowFieldSystems.StatusFor: the Euclidean `length() >= 50` test is modelled as the squared comparison. The two are equivalent over reals, though `sqrt` rounding is not modelled.
- The Bevy constructors (`Rect::from_center_half_size`, `Rect::from_center_size`, `IRect::from_center_size`, `Rect::center`, `size`, `contains`, `floor`, `ceil`, `clamp`) are written from their documented behaviour; the library is not modelled.
- `GridMap`'s public fields `cell_dimentions`, `columns`, `rows` and `area` are modelled as constants, since no code here writes them. An outside write that would break `Valid()` is not modelled.
- The `CellStatus` trait is modelled as a record of the default and non-default values. `Send + Sync + Copy` are not modelled.
- Concurrency and system scheduling are not modelled.

## Findings

| source | as written | input that shows it | evidently intended | confidence | as-written member | corrected member |
|---|---|---|---|---|---|---|
| src/plugins/flow_field_pathfinding/systems.rs:29-30 | The loops run `region.min..region.max` half-open. But the rectangle from `IRect::from_center_size(centre, size + 1)` is symmetric, with half size `(size + 1) / 2`, so the column and row at `centre + half` are never visited. | The `setup` grid (101 × 101 over [-550, 550]²) and an obstacle at (5.4, 0). The obstacle's cell is (50, 50), the span is 10 and the range is 45 .. 55. Cell (55, 50) has its centre at about (54.46, 0), about 49.06 from the obstacle, yet it is never written. | Every candidate cell of the symmetric rectangle is visited (the range `min..=max`), so every grid cell whose centre is within 50 of the obstacle becomes `Blocked`. | not executed | FlowFieldSystems.HalfOpenRangeMissesCell | FlowFieldSystems.CoveringBlocksEveryCellInRadius |
