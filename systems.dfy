/** The collision-map systems of `src/plugins/flow_field_pathfinding/systems.rs`:
    building the grid resource and rasterizing obstacles into it. */
module FlowFieldSystems {
  import opened Wrappers
  import opened BevyMath
  import opened Components

  /** The contents of a collision-map cell. The plugin's `resources.rs`
      does not define it; its uses show the two variants. */
  datatype CellContents = Empty | Blocked

  /** Every obstacle is treated as a circle of this radius: it is the half
      size of the search rectangle and the containment distance. */
  const ObstacleRadius: real := 50.0

  /** The startup system: a 101 x 101 grid over the 1100 x 1100 square centred
      at the origin, every cell `Empty`. */
  method Setup() returns (gridMap: GridMap<CellContents>)
    ensures fresh(gridMap) && fresh(gridMap.grid) && gridMap.Valid() && gridMap.HasCellArea()
    ensures gridMap.columns == 101 && gridMap.rows == 101
    ensures gridMap.area == Rect(Vec2(-550.0, -550.0), Vec2(550.0, 550.0)) && Ordered(gridMap.area)
    ensures gridMap.cellDimensions == Vec2(1100.0 / 101.0, 1100.0 / 101.0)
    ensures gridMap.Cells() == seq(101 * 101, _ => Empty)
  {
    gridMap := new GridMap(101, 101, RectFromCenterSize(Vec2(0.0, 0.0), Vec2(1100.0, 1100.0)), Empty);
  }

  /** The world rectangle searched for an obstacle centred at `center`. */
  function ObstacleSearchRect(center: Vec2): (r: Rect)
    ensures r.Center() == center
    ensures r.Size() == Vec2(2.0 * ObstacleRadius, 2.0 * ObstacleRadius)
  {
    RectFromCenterHalfSize(center, Vec2(ObstacleRadius, ObstacleRadius))
  }

  /** The value written into `cell` for the obstacle at `center`: `Blocked`
      when the cell's coordinate is strictly closer than the radius. The
      source compares the Euclidean length with `>=`; since both sides are
      non-negative, comparing squares is the same test. */
  function StatusFor(gridMap: GridMap<CellContents>, cell: IVec2, center: Vec2): (r: CellContents)
    ensures r == Blocked <==> gridMap.GetCoord(cell).Sub(center).LengthSquared() < ObstacleRadius * ObstacleRadius
    ensures r == Blocked ==> ObstacleSearchRect(center).Contains(gridMap.GetCoord(cell))
  {
    var d := gridMap.GetCoord(cell).Sub(center);
    if d.LengthSquared() >= ObstacleRadius * ObstacleRadius then Empty
    else
      SquareBound(d.x, ObstacleRadius, d.y * d.y);
      SquareBound(d.y, ObstacleRadius, d.x * d.x);
      Blocked
  }

  /** `c` lies in the half-open cell range `lo .. hi` on both axes. */
  predicate InRange(c: IVec2, lo: IVec2, hi: IVec2)
  {
    lo.x <= c.x < hi.x && lo.y <= c.y < hi.y
  }

  /** The table after the status of every in-bounds cell of `lo .. hi` is
      written for the obstacle at `center`; cells outside the range, and
      candidates outside the grid, are left alone. */
  function Painted(gridMap: GridMap<CellContents>, cells: seq<CellContents>, center: Vec2, lo: IVec2, hi: IVec2): (r: seq<CellContents>)
    requires gridMap.Valid() && |cells| == gridMap.grid.Length
    ensures |r| == |cells|
    ensures forall c :: gridMap.InBounds(c) ==>
      r[gridMap.Index(c)] == if InRange(c, lo, hi) then StatusFor(gridMap, c, center) else cells[gridMap.Index(c)]
  {
    gridMap.IndexCellOfAll();
    seq(|cells|, i requires 0 <= i < |cells| =>
      if InRange(gridMap.CellOf(i), lo, hi) then StatusFor(gridMap, gridMap.CellOf(i), center) else cells[i])
  }

  /** Painting two ranges one after the other paints their union, because
      the status written does not depend on what the cell held. */
  lemma PaintedTwice(gridMap: GridMap<CellContents>, cells: seq<CellContents>, center: Vec2,
                     lo1: IVec2, hi1: IVec2, lo2: IVec2, hi2: IVec2, lo: IVec2, hi: IVec2)
    requires gridMap.Valid() && |cells| == gridMap.grid.Length
    requires forall c :: InRange(c, lo, hi) <==> InRange(c, lo1, hi1) || InRange(c, lo2, hi2)
    ensures Painted(gridMap, Painted(gridMap, cells, center, lo1, hi1), center, lo2, hi2) == Painted(gridMap, cells, center, lo, hi)
  {
    var p1 := Painted(gridMap, cells, center, lo1, hi1);
    var p2 := Painted(gridMap, p1, center, lo2, hi2);
    var p := Painted(gridMap, cells, center, lo, hi);
    forall i | 0 <= i < |cells|
      ensures p2[i] == p[i]
    {
      var c := gridMap.CellOf(i);
      assert gridMap.Index(c) == i;
    }
  }

  /** Painting a single cell writes its status at its index, if it is in the grid. */
  lemma PaintedSingle(gridMap: GridMap<CellContents>, cells: seq<CellContents>, center: Vec2, cell: IVec2)
    requires gridMap.Valid() && |cells| == gridMap.grid.Length
    ensures Painted(gridMap, cells, center, cell, IVec2(cell.x + 1, cell.y + 1)) ==
      if gridMap.InBounds(cell) then cells[gridMap.Index(cell) := StatusFor(gridMap, cell, center)] else cells
  {
    var p := Painted(gridMap, cells, center, cell, IVec2(cell.x + 1, cell.y + 1));
    var q := if gridMap.InBounds(cell) then cells[gridMap.Index(cell) := StatusFor(gridMap, cell, center)] else cells;
    forall i | 0 <= i < |cells|
      ensures p[i] == q[i]
    {
      var c := gridMap.CellOf(i);
      assert gridMap.Index(c) == i;
      if gridMap.InBounds(cell) {
        gridMap.IndexCellOf(cell);
      }
    }
  }

  /** Painting an empty range leaves the table as it is. */
  lemma PaintedEmpty(gridMap: GridMap<CellContents>, cells: seq<CellContents>, center: Vec2, lo: IVec2, hi: IVec2)
    requires gridMap.Valid() && |cells| == gridMap.grid.Length
    requires hi.x <= lo.x || hi.y <= lo.y
    ensures Painted(gridMap, cells, center, lo, hi) == cells
  {
    var p := Painted(gridMap, cells, center, lo, hi);
    forall i | 0 <= i < |cells|
      ensures p[i] == cells[i]
    {
      var c := gridMap.CellOf(i);
      assert gridMap.Index(c) == i;
    }
  }

  /** The nested loops of the obstacle system over the half-open range
      `lo .. hi`: x outer, y inner, every write through `set_value`, whose
      out-of-bounds error is discarded. */
  method PaintRegion(gridMap: GridMap<CellContents>, center: Vec2, lo: IVec2, hi: IVec2)
    requires gridMap.Valid()
    modifies gridMap.grid
    ensures gridMap.Cells() == Painted(gridMap, old(gridMap.Cells()), center, lo, hi)
  {
    ghost var before := gridMap.Cells();
    PaintedEmpty(gridMap, before, center, lo, IVec2(lo.x, hi.y));
    var x := lo.x;
    while x < hi.x
      invariant lo.x <= x && (x <= hi.x || x == lo.x)
      invariant gridMap.Cells() == Painted(gridMap, before, center, lo, IVec2(x, hi.y))
    {
      PaintColumn(gridMap, center, x, lo.y, hi.y);
      PaintedTwice(gridMap, before, center, lo, IVec2(x, hi.y), IVec2(x, lo.y), IVec2(x + 1, hi.y), lo, IVec2(x + 1, hi.y));
      x := x + 1;
    }
    if x == lo.x {
      PaintedEmpty(gridMap, before, center, lo, hi);
    }
  }

  /** The inner loop of `PaintRegion`: column `x`, rows `lo .. hi`. */
  method PaintColumn(gridMap: GridMap<CellContents>, center: Vec2, x: int, lo: int, hi: int)
    requires gridMap.Valid()
    modifies gridMap.grid
    ensures gridMap.Cells() == Painted(gridMap, old(gridMap.Cells()), center, IVec2(x, lo), IVec2(x + 1, hi))
  {
    ghost var columnStart := gridMap.Cells();
    PaintedEmpty(gridMap, columnStart, center, IVec2(x, lo), IVec2(x + 1, lo));
    var y := lo;
    while y < hi
      invariant lo <= y && (y <= hi || y == lo)
      invariant gridMap.Cells() == Painted(gridMap, columnStart, center, IVec2(x, lo), IVec2(x + 1, y))
    {
      var cell := IVec2(x, y);
      PaintCell(gridMap, center, cell);
      PaintedTwice(gridMap, columnStart, center, IVec2(x, lo), IVec2(x + 1, y), cell, IVec2(x + 1, y + 1),
                   IVec2(x, lo), IVec2(x + 1, y + 1));
      y := y + 1;
    }
    if y == lo {
      PaintedEmpty(gridMap, columnStart, center, IVec2(x, lo), IVec2(x + 1, hi));
    }
  }

  /** The body of the inner loop: the status of one cell is written, and a
      cell outside the grid is skipped because `set_value` refuses it. */
  method PaintCell(gridMap: GridMap<CellContents>, center: Vec2, cell: IVec2)
    requires gridMap.Valid()
    modifies gridMap.grid
    ensures gridMap.Cells() == Painted(gridMap, old(gridMap.Cells()), center, cell, IVec2(cell.x + 1, cell.y + 1))
  {
    var cellCenter := gridMap.GetCoord(cell);
    ghost var prev := gridMap.Cells();
    var ignored;
    if cellCenter.Sub(center).LengthSquared() >= ObstacleRadius * ObstacleRadius {
      ignored := gridMap.SetValue(cell, Empty);
    } else {
      ignored := gridMap.SetValue(cell, Blocked);
    }
    PaintedSingle(gridMap, prev, center, cell);
  }

  /** The cell range the obstacle at `center` is rasterized over, or `None`
      when `cells_within_rect` finds no candidate cells. */
  function ObstacleRegion(gridMap: GridMap<CellContents>, center: Vec2): (r: Option<IRect>)
    requires gridMap.HasCellArea()
    ensures r.Some?
  {
    gridMap.CellsWithinRect(ObstacleSearchRect(center))
  }

  /** Half the clamped span of the obstacle's diameter on each axis, rounded up. */
  function SearchHalfSpan(gridMap: GridMap<CellContents>): IVec2
    requires gridMap.HasCellArea()
  {
    IVec2((CellSpan(2.0 * ObstacleRadius, gridMap.cellDimensions.x, gridMap.columns) + 1) / 2,
          (CellSpan(2.0 * ObstacleRadius, gridMap.cellDimensions.y, gridMap.rows) + 1) / 2)
  }

  /** The candidate region of an obstacle: the cell of its centre, widened on
      each side by half the clamped span of its diameter, rounded up. */
  lemma ObstacleRegionBounds(gridMap: GridMap<CellContents>, center: Vec2, k: IVec2, hx: int, hy: int)
    requires gridMap.HasCellArea()
    requires k == gridMap.GetCellUnsafe(center)
    requires hx == (CellSpan(2.0 * ObstacleRadius, gridMap.cellDimensions.x, gridMap.columns) + 1) / 2
    requires hy == (CellSpan(2.0 * ObstacleRadius, gridMap.cellDimensions.y, gridMap.rows) + 1) / 2
    ensures ObstacleRegion(gridMap, center).value == IRect(IVec2(k.x - hx, k.y - hy), IVec2(k.x + hx, k.y + hy))
  {
    var search := ObstacleSearchRect(center);
    assert search.Center() == center && search.Size() == Vec2(2.0 * ObstacleRadius, 2.0 * ObstacleRadius);
  }

  /** `cells_within_rect` does not clip to the grid: on the grid `Setup`
      builds, the region of an obstacle at the area's corner starts five
      cells outside it, and those candidates are never written. */
  lemma RegionMayLeaveGrid(gridMap: GridMap<CellContents>, cells: seq<CellContents>)
    requires gridMap.Valid() && gridMap.columns == 101 && gridMap.rows == 101
    requires gridMap.area == Rect(Vec2(-550.0, -550.0), Vec2(550.0, 550.0))
    requires |cells| == gridMap.grid.Length
    ensures gridMap.HasCellArea()
    ensures ObstacleRegion(gridMap, Vec2(-550.0, -550.0)) == Some(IRect(IVec2(-5, -5), IVec2(5, 5)))
    ensures !gridMap.InBounds(IVec2(-5, -5))
  {
    var d := 1100.0 / 101.0;
    assert gridMap.cellDimensions == Vec2(d, d);
    var center := Vec2(-550.0, -550.0);
    assert gridMap.GetCellUnsafe(center) == IVec2(0, 0);
    assert 9.0 < 100.0 / d <= 10.0;
    assert CellSpan(100.0, d, 101) == 10;
    ObstacleRegionBounds(gridMap, center, IVec2(0, 0), 5, 5);
  }

  /** One pass of the obstacle loop, ready to run: the obstacle's centre and
      the cell rectangle its nested loops run over, `max` excluded; `None`
      when there is no rectangle to run over. */
  datatype Stamp = Stamp(center: Vec2, region: Option<IRect>)

  /** `cell` is in the loop range of `st`. */
  predicate Marks(st: Stamp, cell: IVec2)
  {
    st.region.Some? && InRange(cell, st.region.value.min, st.region.value.max)
  }

  /** The pass of the loop as the source writes it: the range is the
      rectangle from `cells_within_rect`, iterated half-open. */
  function HalfOpenStamp(gridMap: GridMap<CellContents>, center: Vec2): (r: Stamp)
    requires gridMap.HasCellArea()
    ensures r.center == center && r.region.Some?
  {
    Stamp(center, ObstacleRegion(gridMap, center))
  }

  /** The as-written pass reaches the cells around the obstacle's cell
      asymmetrically: `h` cells below it on each axis, but only `h - 1` above. */
  lemma HalfOpenStampMarks(gridMap: GridMap<CellContents>, center: Vec2, c: IVec2)
    requires gridMap.HasCellArea()
    ensures var k, h := gridMap.GetCellUnsafe(center), SearchHalfSpan(gridMap);
      Marks(HalfOpenStamp(gridMap, center), c) <==> k.x - h.x <= c.x < k.x + h.x && k.y - h.y <= c.y < k.y + h.y
  {
    var h := SearchHalfSpan(gridMap);
    ObstacleRegionBounds(gridMap, center, gridMap.GetCellUnsafe(center), h.x, h.y);
  }

  /** The table after one pass: every in-bounds cell of the range gets the
      obstacle's status, every other cell keeps its value. */
  function AfterStamp(gridMap: GridMap<CellContents>, cells: seq<CellContents>, st: Stamp): (r: seq<CellContents>)
    requires gridMap.Valid() && |cells| == gridMap.grid.Length
    ensures |r| == |cells|
    ensures forall c :: gridMap.InBounds(c) ==>
      r[gridMap.Index(c)] == if Marks(st, c) then StatusFor(gridMap, c, st.center) else cells[gridMap.Index(c)]
  {
    match st.region
    case None => cells
    case Some(region) => Painted(gridMap, cells, st.center, region.min, region.max)
  }

  /** The table after the passes are run in order. */
  function AfterStamps(gridMap: GridMap<CellContents>, cells: seq<CellContents>, stamps: seq<Stamp>): (r: seq<CellContents>)
    requires gridMap.Valid() && |cells| == gridMap.grid.Length
    ensures |r| == |cells|
    decreases |stamps|
  {
    if stamps == [] then cells
    else
      var last := |stamps| - 1;
      AfterStamp(gridMap, AfterStamps(gridMap, cells, stamps[..last]), stamps[last])
  }

  /** The passes of `create_colision_map` for the obstacles, in order. */
  function HalfOpenStamps(gridMap: GridMap<CellContents>, obstacles: seq<Vec2>): (r: seq<Stamp>)
    requires gridMap.HasCellArea()
    ensures |r| == |obstacles|
    ensures forall k :: 0 <= k < |obstacles| ==> r[k].center == obstacles[k]
  {
    seq(|obstacles|, k requires 0 <= k < |obstacles| => HalfOpenStamp(gridMap, obstacles[k]))
  }

  /** `create_colision_map`: every obstacle whose transform changed, given by
      its centre in iteration order, is rasterized into the collision map. */
  method CreateCollisionMap(gridMap: GridMap<CellContents>, obstacles: seq<Vec2>)
    requires gridMap.Valid() && gridMap.HasCellArea()
    modifies gridMap.grid
    ensures gridMap.Cells() == AfterStamps(gridMap, old(gridMap.Cells()), HalfOpenStamps(gridMap, obstacles))
  {
    ghost var stamps := HalfOpenStamps(gridMap, obstacles);
    for k := 0 to |obstacles|
      invariant gridMap.Cells() == AfterStamps(gridMap, old(gridMap.Cells()), stamps[..k])
    {
      assert stamps[..k + 1][..k] == stamps[..k];
      var obstacleCenter := obstacles[k];
      var rect := RectFromCenterHalfSize(obstacleCenter, Vec2(ObstacleRadius, ObstacleRadius));
      var region := gridMap.CellsWithinRect(rect);
      match region
      case None =>
      case Some(v) =>
        PaintRegion(gridMap, obstacleCenter, v.min, v.max);
    }
    assert stamps[..|obstacles|] == stamps;
  }

  /** A cell that no pass reaches keeps its value. */
  lemma {:induction false} UnmarkedCellKept(gridMap: GridMap<CellContents>, cells: seq<CellContents>,
                                            stamps: seq<Stamp>, cell: IVec2)
    requires gridMap.Valid() && |cells| == gridMap.grid.Length
    requires gridMap.InBounds(cell)
    requires forall k :: 0 <= k < |stamps| ==> !Marks(stamps[k], cell)
    ensures AfterStamps(gridMap, cells, stamps)[gridMap.Index(cell)] == cells[gridMap.Index(cell)]
    decreases |stamps|
  {
    if stamps != [] {
      var last := |stamps| - 1;
      UnmarkedCellKept(gridMap, cells, stamps[..last], cell);
    }
  }

  /** The last pass that reaches a cell decides its value, whatever the
      earlier ones wrote: a later `Empty` overwrites an earlier `Blocked`. */
  lemma {:induction false} LastMarkingStampDecides(gridMap: GridMap<CellContents>, cells: seq<CellContents>,
                                                   stamps: seq<Stamp>, cell: IVec2, j: nat)
    requires gridMap.Valid() && |cells| == gridMap.grid.Length
    requires gridMap.InBounds(cell)
    requires j < |stamps| && Marks(stamps[j], cell)
    requires forall k :: j < k < |stamps| ==> !Marks(stamps[k], cell)
    ensures AfterStamps(gridMap, cells, stamps)[gridMap.Index(cell)] == StatusFor(gridMap, cell, stamps[j].center)
    decreases |stamps|
  {
    var last := |stamps| - 1;
    if j < last {
      assert forall k :: j < k < last ==> stamps[..last][k] == stamps[k];
      LastMarkingStampDecides(gridMap, cells, stamps[..last], cell, j);
    }
  }

  /* The half-open loops miss cells. The candidate range has half size
     (span + 1) / 2 around the cell of the obstacle's centre, and the loops stop
     one short of its upper end, so a cell on the positive side whose centre
     is within the radius can be left unwritten. */

  /** On the grid `Setup` builds, the obstacle at (5.4, 0) does not rewrite
      cell (55, 50), although that cell's centre is about 49.06 away from it. */
  lemma HalfOpenRangeMissesCell(gridMap: GridMap<CellContents>, cells: seq<CellContents>)
    requires gridMap.Valid() && gridMap.columns == 101 && gridMap.rows == 101
    requires gridMap.area == Rect(Vec2(-550.0, -550.0), Vec2(550.0, 550.0))
    requires |cells| == gridMap.grid.Length
    ensures gridMap.HasCellArea() && gridMap.InBounds(IVec2(55, 50))
    ensures gridMap.GetCoord(IVec2(55, 50)).Sub(Vec2(5.4, 0.0)).LengthSquared() < ObstacleRadius * ObstacleRadius
    ensures !Marks(HalfOpenStamp(gridMap, Vec2(5.4, 0.0)), IVec2(55, 50))
    ensures AfterStamp(gridMap, cells, HalfOpenStamp(gridMap, Vec2(5.4, 0.0)))[gridMap.Index(IVec2(55, 50))] ==
      cells[gridMap.Index(IVec2(55, 50))]
  {
    var d := 1100.0 / 101.0;
    assert gridMap.cellDimensions == Vec2(d, d);
    var center := Vec2(5.4, 0.0);
    var search := ObstacleSearchRect(center);
    assert search.Center() == center && search.Size() == Vec2(100.0, 100.0);
    assert 50.0 <= 555.4 / d < 51.0;
    assert 50.0 <= 550.0 / d < 51.0;
    assert gridMap.GetCellUnsafe(center) == IVec2(50, 50);
    assert 9.0 < 100.0 / d <= 10.0;
    assert CellSpan(100.0, d, 101) == 10;
    var region := ObstacleRegion(gridMap, center).value;
    assert region == IRect(IVec2(45, 45), IVec2(55, 55));
    assert gridMap.GetCoord(IVec2(55, 50)) == Vec2(5.0 * d, 0.0);
  }

  /** The pass with the range's upper end included: the loops run over
      `min ..= max`. */
  function ClosedStamp(gridMap: GridMap<CellContents>, center: Vec2): (r: Stamp)
    requires gridMap.HasCellArea()
    ensures r.center == center && r.region.Some?
  {
    match ObstacleRegion(gridMap, center)
    case None => Stamp(center, None)
    case Some(v) => Stamp(center, Some(IRect(v.min, IVec2(v.max.x + 1, v.max.y + 1))))
  }

  /** The corrected pass reaches `h` cells on both sides of the obstacle's
      cell on each axis. */
  lemma ClosedStampMarks(gridMap: GridMap<CellContents>, center: Vec2, c: IVec2)
    requires gridMap.HasCellArea()
    ensures var k, h := gridMap.GetCellUnsafe(center), SearchHalfSpan(gridMap);
      Marks(ClosedStamp(gridMap, center), c) <==> k.x - h.x <= c.x <= k.x + h.x && k.y - h.y <= c.y <= k.y + h.y
  {
    var h := SearchHalfSpan(gridMap);
    ObstacleRegionBounds(gridMap, center, gridMap.GetCellUnsafe(center), h.x, h.y);
  }

  /** Along one axis, the centre of cell `j` is within the radius of `p`. */
  predicate CentreNearOnAxis(min: real, d: real, j: int, p: real)
  {
    -ObstacleRadius <= min + (j as real + 0.5) * d - p <= ObstacleRadius
  }

  /** With the upper end included, every in-bounds cell whose centre is within
      the radius of the obstacle is `Blocked`, provided the grid is at least
      one obstacle diameter wide and high (otherwise the clamp shrinks the
      range). */
  lemma CoveringBlocksEveryCellInRadius(gridMap: GridMap<CellContents>, cells: seq<CellContents>, center: Vec2, cell: IVec2)
    requires gridMap.Valid() && gridMap.HasCellArea() && Ordered(gridMap.area) && |cells| == gridMap.grid.Length
    requires 2.0 * ObstacleRadius <= gridMap.area.max.x - gridMap.area.min.x
    requires 2.0 * ObstacleRadius <= gridMap.area.max.y - gridMap.area.min.y
    requires gridMap.InBounds(cell)
    requires gridMap.GetCoord(cell).Sub(center).LengthSquared() < ObstacleRadius * ObstacleRadius
    ensures Marks(ClosedStamp(gridMap, center), cell)
    ensures AfterStamp(gridMap, cells, ClosedStamp(gridMap, center))[gridMap.Index(cell)] == Blocked
  {
    CentreWithinRadius(gridMap, center, cell);
    gridMap.CellsSpanArea();
    RegionCoversCellInRadius(gridMap, center, cell);
  }

  /** With the upper end included, the candidate region of an obstacle holds
      every in-bounds cell whose centre is within the radius. */
  lemma RegionCoversCellInRadius(gridMap: GridMap<CellContents>, center: Vec2, cell: IVec2)
    requires gridMap.HasCellArea()
    requires gridMap.cellDimensions.x * gridMap.columns as real == gridMap.area.max.x - gridMap.area.min.x
    requires gridMap.cellDimensions.y * gridMap.rows as real == gridMap.area.max.y - gridMap.area.min.y
    requires 2.0 * ObstacleRadius <= gridMap.area.max.x - gridMap.area.min.x
    requires 2.0 * ObstacleRadius <= gridMap.area.max.y - gridMap.area.min.y
    requires CentreNearOnAxis(gridMap.area.min.x, gridMap.cellDimensions.x, cell.x, center.x)
    requires CentreNearOnAxis(gridMap.area.min.y, gridMap.cellDimensions.y, cell.y, center.y)
    ensures var region := ObstacleRegion(gridMap, center).value;
      InRange(cell, region.min, IVec2(region.max.x + 1, region.max.y + 1))
  {
    var k := gridMap.GetCellUnsafe(center);
    var sx := CellSpan(2.0 * ObstacleRadius, gridMap.cellDimensions.x, gridMap.columns);
    var sy := CellSpan(2.0 * ObstacleRadius, gridMap.cellDimensions.y, gridMap.rows);
    ObstacleRegionBounds(gridMap, center, k, (sx + 1) / 2, (sy + 1) / 2);
    ColumnCovered(gridMap, center, cell);
    RowCovered(gridMap, center, cell);
  }

  /** The column of a cell whose centre is within the radius lies in the
      closed column range of the obstacle's region. */
  lemma ColumnCovered(gridMap: GridMap<CellContents>, center: Vec2, cell: IVec2)
    requires gridMap.HasCellArea()
    requires gridMap.cellDimensions.x * gridMap.columns as real == gridMap.area.max.x - gridMap.area.min.x
    requires 2.0 * ObstacleRadius <= gridMap.area.max.x - gridMap.area.min.x
    requires CentreNearOnAxis(gridMap.area.min.x, gridMap.cellDimensions.x, cell.x, center.x)
    ensures var h := (CellSpan(2.0 * ObstacleRadius, gridMap.cellDimensions.x, gridMap.columns) + 1) / 2;
      gridMap.GetCellUnsafe(center).x - h <= cell.x <= gridMap.GetCellUnsafe(center).x + h
  {
    AxisCovered(gridMap.area.min.x, gridMap.cellDimensions.x, gridMap.columns, gridMap.area.max.x - gridMap.area.min.x,
                center.x, gridMap.GetCellUnsafe(center).x, cell.x,
                CellSpan(2.0 * ObstacleRadius, gridMap.cellDimensions.x, gridMap.columns));
  }

  /** The row counterpart of `ColumnCovered`. */
  lemma RowCovered(gridMap: GridMap<CellContents>, center: Vec2, cell: IVec2)
    requires gridMap.HasCellArea()
    requires gridMap.cellDimensions.y * gridMap.rows as real == gridMap.area.max.y - gridMap.area.min.y
    requires 2.0 * ObstacleRadius <= gridMap.area.max.y - gridMap.area.min.y
    requires CentreNearOnAxis(gridMap.area.min.y, gridMap.cellDimensions.y, cell.y, center.y)
    ensures var h := (CellSpan(2.0 * ObstacleRadius, gridMap.cellDimensions.y, gridMap.rows) + 1) / 2;
      gridMap.GetCellUnsafe(center).y - h <= cell.y <= gridMap.GetCellUnsafe(center).y + h
  {
    AxisCovered(gridMap.area.min.y, gridMap.cellDimensions.y, gridMap.rows, gridMap.area.max.y - gridMap.area.min.y,
                center.y, gridMap.GetCellUnsafe(center).y, cell.y,
                CellSpan(2.0 * ObstacleRadius, gridMap.cellDimensions.y, gridMap.rows));
  }

  /** A cell centre within the radius is within the radius on each axis. */
  lemma CentreWithinRadius(gridMap: GridMap<CellContents>, center: Vec2, cell: IVec2)
    requires gridMap.Valid() && gridMap.HasCellArea() && Ordered(gridMap.area)
    requires gridMap.GetCoord(cell).Sub(center).LengthSquared() < ObstacleRadius * ObstacleRadius
    ensures CentreNearOnAxis(gridMap.area.min.x, gridMap.cellDimensions.x, cell.x, center.x)
    ensures CentreNearOnAxis(gridMap.area.min.y, gridMap.cellDimensions.y, cell.y, center.y)
  {
    var dv := gridMap.GetCoord(cell).Sub(center);
    SquareBound(dv.x, ObstacleRadius, dv.y * dv.y);
    SquareBound(dv.y, ObstacleRadius, dv.x * dv.x);
    gridMap.GetCoordIsCellCentre(cell);
  }

  /** Along one axis: the cell index of a centre within the radius lies in
      the region's closed range around the obstacle's cell. */
  lemma AxisCovered(min: real, d: real, n: nat, extent: real, p: real, k: int, j: int, s: int)
    requires d > 0.0 && n > 0 && d * n as real == extent && 2.0 * ObstacleRadius <= extent
    requires s == CellSpan(2.0 * ObstacleRadius, d, n)
    requires min + k as real * d <= p < min + (k as real + 1.0) * d
    requires CentreNearOnAxis(min, d, j, p)
    ensures k - (s + 1) / 2 <= j <= k + (s + 1) / 2
  {
    SpanCoversDiameter(d, n, extent, s);
    CoverAxis(min, d, p, k, j, (s + 1) / 2);
  }

  /** The clamped span of a diameter spans at least the diameter when the grid does. */
  lemma SpanCoversDiameter(d: real, n: nat, extent: real, s: int)
    requires d > 0.0 && n > 0 && d * n as real == extent && 2.0 * ObstacleRadius <= extent
    requires s == CellSpan(2.0 * ObstacleRadius, d, n)
    ensures ObstacleRadius <= ((s + 1) / 2) as real * d
  {
    if s == n {
      assert s as real * d == extent;
    }
    assert 2.0 * ObstacleRadius <= s as real * d;
    var h := (s + 1) / 2;
    assert s <= 2 * h;
    MulLe(s as real, (2 * h) as real, d);
  }

  /** Along one axis: a cell whose centre is within `h` cells' length of a
      point is at most `h` cells away from the point's cell. */
  lemma CoverAxis(min: real, d: real, p: real, k: int, j: int, h: int)
    requires d > 0.0
    requires min + k as real * d <= p < min + (k as real + 1.0) * d
    requires CentreNearOnAxis(min, d, j, p)
    requires ObstacleRadius <= h as real * d
    ensures k - h <= j <= k + h
  {
    CoverAxisReal(min, d, p, k as real, j as real, h as real);
  }

  /** `CoverAxis` over reals: the centre of cell `j` is within the radius
      of a point in cell `k` only if `j` is within `h + 1/2` cells of `k`. */
  lemma CoverAxisReal(min: real, d: real, p: real, k: real, j: real, h: real)
    requires d > 0.0
    requires min + k * d <= p < min + (k + 1.0) * d
    requires -ObstacleRadius <= min + (j + 0.5) * d - p <= ObstacleRadius
    requires ObstacleRadius <= h * d
    ensures k - h - 0.5 <= j < k + h + 0.5
  {
    CoverLinear(min, d, p, k * d, j * d, h * d);
    DistributeSub3(j, k, h, d);
    MulLtCancel(j - k - h, 0.5, d);
    DistributeSub3(k, j, h, d);
    MulLeCancel(k - j - h, 0.5, d);
  }

  /** The linear core of `CoverAxisReal`, with the products `k * d`, `j * d`
      and `h * d` given as `kd`, `jd` and `hd`. */
  lemma CoverLinear(min: real, d: real, p: real, kd: real, jd: real, hd: real)
    requires min + kd <= p < min + kd + d
    requires -ObstacleRadius <= min + jd + 0.5 * d - p <= ObstacleRadius
    requires ObstacleRadius <= hd
    ensures jd - kd - hd < 0.5 * d
    ensures kd - jd - hd <= 0.5 * d
  {
  }

  lemma DistributeSub3(a: real, b: real, c: real, d: real)
    ensures (a - b - c) * d == a * d - b * d - c * d
  {
  }

  lemma MulLeCancel(x: real, y: real, d: real)
    requires d > 0.0 && x * d <= y * d
    ensures x <= y
  {
    if x > y {
      MulLt(y, x, d);
    }
  }

  lemma MulLtCancel(x: real, y: real, d: real)
    requires d > 0.0 && x * d < y * d
    ensures x < y
  {
    if x >= y {
      MulLe(y, x, d);
    }
  }

  /** The passes of the corrected loop for the obstacles, in order. */
  function ClosedStamps(gridMap: GridMap<CellContents>, obstacles: seq<Vec2>): (r: seq<Stamp>)
    requires gridMap.HasCellArea()
    ensures |r| == |obstacles|
    ensures forall k :: 0 <= k < |obstacles| ==> r[k].center == obstacles[k]
  {
    seq(|obstacles|, k requires 0 <= k < |obstacles| => ClosedStamp(gridMap, obstacles[k]))
  }

  /** `create_colision_map` with the loops including the range's upper end. */
  method CreateCollisionMapClosed(gridMap: GridMap<CellContents>, obstacles: seq<Vec2>)
    requires gridMap.Valid() && gridMap.HasCellArea()
    modifies gridMap.grid
    ensures gridMap.Cells() == AfterStamps(gridMap, old(gridMap.Cells()), ClosedStamps(gridMap, obstacles))
  {
    ghost var stamps := ClosedStamps(gridMap, obstacles);
    for k := 0 to |obstacles|
      invariant gridMap.Cells() == AfterStamps(gridMap, old(gridMap.Cells()), stamps[..k])
    {
      assert stamps[..k + 1][..k] == stamps[..k];
      var obstacleCenter := obstacles[k];
      var rect := RectFromCenterHalfSize(obstacleCenter, Vec2(ObstacleRadius, ObstacleRadius));
      var region := gridMap.CellsWithinRect(rect);
      match region
      case None =>
      case Some(v) =>
        PaintRegion(gridMap, obstacleCenter, v.min, IVec2(v.max.x + 1, v.max.y + 1));
    }
    assert stamps[..|obstacles|] == stamps;
  }

  /** With the corrected loops, a cell within the radius of obstacle `j` is
      `Blocked` unless a later obstacle's range reaches it. */
  lemma ClosedMapBlocksCellNearObstacle(gridMap: GridMap<CellContents>, cells: seq<CellContents>,
                                        obstacles: seq<Vec2>, cell: IVec2, j: nat)
    requires gridMap.Valid() && gridMap.HasCellArea() && Ordered(gridMap.area) && |cells| == gridMap.grid.Length
    requires 2.0 * ObstacleRadius <= gridMap.area.max.x - gridMap.area.min.x
    requires 2.0 * ObstacleRadius <= gridMap.area.max.y - gridMap.area.min.y
    requires gridMap.InBounds(cell) && j < |obstacles|
    requires gridMap.GetCoord(cell).Sub(obstacles[j]).LengthSquared() < ObstacleRadius * ObstacleRadius
    requires forall k :: j < k < |obstacles| ==> !Marks(ClosedStamp(gridMap, obstacles[k]), cell)
    ensures AfterStamps(gridMap, cells, ClosedStamps(gridMap, obstacles))[gridMap.Index(cell)] == Blocked
  {
    var stamps := ClosedStamps(gridMap, obstacles);
    CoveringBlocksEveryCellInRadius(gridMap, cells, obstacles[j], cell);
    LastMarkingStampDecides(gridMap, cells, stamps, cell, j);
  }
}
