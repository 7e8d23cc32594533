/** The grid map and the obstacle shape of `src/components.rs`. */
module Components {
  import opened Wrappers
  import opened BevyMath

  /** The shape of an obstacle or target; only circles exist. */
  datatype Shape = Circle(radius: real) {

    /** The bounding rectangle of the shape placed at `center`. */
    function GetRectangleWithCenter(center: Vec2): (r: Rect)
      requires radius >= 0.0
      ensures r.Center() == center
      ensures r.Size() == Vec2(2.0 * radius, 2.0 * radius)
    {
      match this
      case Circle(rad) => RectFromCenterHalfSize(center, Vec2(rad, rad))
    }
  }

  /** Every point of a circle lies in its bounding rectangle. */
  lemma CircleInsideItsRectangle(shape: Shape, center: Vec2, p: Vec2)
    requires shape.radius >= 0.0
    requires p.Sub(center).LengthSquared() <= shape.radius * shape.radius
    ensures shape.GetRectangleWithCenter(center).Contains(p)
  {
    var d := p.Sub(center);
    SquareBound(d.x, shape.radius, d.y * d.y);
    SquareBound(d.y, shape.radius, d.x * d.x);
  }

  lemma SquareBound(a: real, r: real, rest: real)
    requires r >= 0.0 && rest >= 0.0 && a * a + rest <= r * r
    ensures -r <= a <= r
  {
    if a > r {
      assert (a - r) * (a + r) == a * a - r * r;
      MulLt(0.0, a - r, a + r);
    } else if a < -r {
      assert (-a - r) * (r - a) == a * a - r * r;
      MulLt(0.0, -a - r, r - a);
    }
  }

  /* Row-major layout: cell (x, y) of a grid with `columns` columns is stored at
     index x + y * columns, and every index in 0 .. columns * rows is the image
     of exactly one cell. */

  lemma RowMajorBound(x: int, y: int, columns: nat, rows: nat)
    requires 0 <= x < columns && 0 <= y < rows
    ensures 0 <= x + y * columns < columns * rows
  {
    assert y * columns + columns == (y + 1) * columns;
    assert (y + 1) * columns <= rows * columns by {
      MulMonotoneNat(y + 1, rows, columns);
    }
  }

  lemma MulMonotoneNat(a: nat, b: nat, c: nat)
    requires a <= b
    ensures a * c <= b * c
  {
  }

  lemma {:induction false} RowMajorUnique(x: int, y: int, columns: nat)
    requires 0 <= x < columns && 0 <= y
    ensures (x + y * columns) / columns == y && (x + y * columns) % columns == x
  {
    var i := x + y * columns;
    var q, r := i / columns, i % columns;
    assert i == q * columns + r && 0 <= r < columns;
    assert (q - y) * columns == x - r;
    if q > y {
      MulMonotoneNat(1, q - y, columns);
      assert false;
    } else if q < y {
      MulMonotoneNat(1, y - q, columns);
      assert false;
    }
  }

  lemma RowMajorOfIndex(i: nat, columns: nat, rows: nat)
    requires i < columns * rows
    ensures columns > 0
    ensures 0 <= i / columns < rows && i % columns + (i / columns) * columns == i
  {
    var q := i / columns;
    if q >= rows {
      MulMonotoneNat(rows, q, columns);
      assert false;
    }
  }

  /** The length of one axis of a cell: the area's extent divided by the
      number of cells along that axis. Rust's `f32` division by zero gives an
      infinite or NaN length; this model puts 0.0 in its place. */
  function CellLength(length: real, count: nat): real
  {
    if count == 0 then 0.0 else length / count as real
  }

  /** The lengths of a cell: the absolute extent of the area divided by the cell counts. */
  function CellDimensions(area: Rect, columns: nat, rows: nat): Vec2
  {
    Vec2(CellLength(Abs(area.max.x - area.min.x), columns), CellLength(Abs(area.max.y - area.min.y), rows))
  }

  /** The area's corners are ordered, as every `Rect` constructor of the library makes them. */
  predicate Ordered(area: Rect)
  {
    area.min.x <= area.max.x && area.min.y <= area.max.y
  }

  /** `p` lies in the area, the lower bounds included and the upper bounds excluded. */
  predicate InHalfOpen(area: Rect, p: Vec2)
  {
    area.min.x <= p.x < area.max.x && area.min.y <= p.y < area.max.y
  }

  /** The number of cells a search extent covers along one axis: the extent
      divided by the cell length, rounded up, clamped into [0, limit]. */
  function CellSpan(extent: real, cellLength: real, limit: nat): (n: int)
    requires cellLength > 0.0
    ensures 0 <= n <= limit
    ensures n < limit ==> extent <= n as real * cellLength
    ensures n > 0 ==> (n - 1) as real * cellLength < extent
    ensures limit > 0 ==> (n == 0 <==> extent <= 0.0)
  {
    CeilClampFacts(extent, cellLength, limit);
    Clamp(Ceil(extent / cellLength), 0, limit)
  }

  lemma CeilClampFacts(extent: real, cellLength: real, limit: nat)
    requires cellLength > 0.0
    ensures var n := Clamp(Ceil(extent / cellLength), 0, limit);
      && (n < limit ==> extent <= n as real * cellLength)
      && (n > 0 ==> (n - 1) as real * cellLength < extent)
      && (limit > 0 ==> (n == 0 <==> extent <= 0.0))
  {
    var q := extent / cellLength;
    assert q * cellLength == extent;
    var c := Ceil(q);
    var n := Clamp(c, 0, limit);
    CeilCovers(q, cellLength, c, n, limit);
    CeilMinimal(q, cellLength, c, n);
    assert n > 0 ==> (n - 1) as real * cellLength < q * cellLength;
    assert n > 0 ==> (n - 1) as real * cellLength < extent;
  }

  lemma CeilCovers(q: real, d: real, c: int, n: int, limit: nat)
    requires d > 0.0 && c == Ceil(q) && n == Clamp(c, 0, limit)
    ensures n < limit ==> q * d <= n as real * d
    ensures limit > 0 && n == 0 ==> q * d <= 0.0
  {
    if n < limit {
      if c >= 0 {
        MulLe(q, c as real, d);
      } else {
        MulLe(q, 0.0, d);
      }
    }
  }

  lemma CeilMinimal(q: real, d: real, c: int, n: int)
    requires d > 0.0 && c == Ceil(q) && (n > 0 ==> n <= c)
    ensures n > 0 ==> (n - 1) as real * d < q * d
    ensures n > 0 ==> q * d > 0.0
  {
    if n > 0 {
      assert (n - 1) as real < q;
      MulLt((n - 1) as real, q, d);
      MulLe(0.0, (n - 1) as real, d);
    }
  }

  /** The dense table of `columns * rows` cells over the world rectangle `area`
      (`GridMap<T>`). The geometry is fixed at construction; only the cells change. */
  class GridMap<T> {
    const grid: array<T>
    const cellDimensions: Vec2
    const columns: nat
    const rows: nat
    const area: Rect

    ghost predicate Valid()
    {
      grid.Length == columns * rows && cellDimensions == CellDimensions(area, columns, rows)
    }

    /** Both cell lengths are positive, so world positions can be mapped to cells. */
    predicate HasCellArea()
    {
      columns > 0 && rows > 0 && cellDimensions.x > 0.0 && cellDimensions.y > 0.0
    }

    function Cells(): seq<T>
      reads grid
    {
      grid[..]
    }

    predicate InBounds(pos: IVec2)
    {
      0 <= pos.x < columns && 0 <= pos.y < rows
    }

    /** The position of an in-bounds cell in the row-major table. */
    function Index(pos: IVec2): (i: nat)
      requires Valid() && InBounds(pos)
      ensures i == pos.x + pos.y * columns && i < columns * rows
    {
      RowMajorBound(pos.x, pos.y, columns, rows);
      RowMajorUnique(pos.x, pos.y, columns);
      pos.x + pos.y * columns
    }

    /** The cell stored at index `i` of the table. */
    function CellOf(i: nat): (pos: IVec2)
      requires Valid() && i < grid.Length
      ensures InBounds(pos)
      ensures pos.x + pos.y * columns == i
    {
      RowMajorOfIndex(i, columns, rows);
      IVec2(i % columns, i / columns)
    }

    constructor (columns: nat, rows: nat, area: Rect, defaultValue: T)
      ensures Valid() && fresh(grid)
      ensures this.columns == columns && this.rows == rows && this.area == area
      ensures Cells() == seq(columns * rows, _ => defaultValue)
    {
      var lengths := Vec2(Abs(area.max.x - area.min.x), Abs(area.max.y - area.min.y));
      this.cellDimensions := Vec2(CellLength(lengths.x, columns), CellLength(lengths.y, rows));
      this.grid := new T[columns * rows](_ => defaultValue);
      this.columns := columns;
      this.rows := rows;
      this.area := area;
    }

    /** Overwrites every cell with `value`. */
    method Reset(value: T)
      modifies grid
      ensures Cells() == seq(grid.Length, _ => value)
    {
      for i := 0 to grid.Length
        invariant forall k :: 0 <= k < i ==> grid[k] == value
      {
        grid[i] := value;
      }
    }

    /** The cell containing `pos`, whether or not it lies in the grid. */
    function GetCellUnsafe(pos: Vec2): (c: IVec2)
      requires HasCellArea()
      ensures area.min.x + c.x as real * cellDimensions.x <= pos.x < area.min.x + (c.x as real + 1.0) * cellDimensions.x
      ensures area.min.y + c.y as real * cellDimensions.y <= pos.y < area.min.y + (c.y as real + 1.0) * cellDimensions.y
    {
      var relative := pos.Sub(area.min);
      var c := IVec2(Floor(relative.x / cellDimensions.x), Floor(relative.y / cellDimensions.y));
      CellExtent(relative.x, cellDimensions.x, c.x);
      CellExtent(relative.y, cellDimensions.y, c.y);
      c
    }

    function CheckBounds(pos: IVec2): (r: Option<IVec2>)
      ensures r.Some? <==> InBounds(pos)
      ensures r.Some? ==> r.value == pos
    {
      if pos.x < 0 || pos.x >= columns || pos.y < 0 || pos.y >= rows then None else Some(pos)
    }

    /** The grid cell containing `pos`, or `None` when that cell is outside the grid. */
    function GetCell(pos: Vec2): (r: Option<IVec2>)
      requires HasCellArea()
      ensures r.Some? <==> InBounds(GetCellUnsafe(pos))
      ensures r.Some? ==> r.value == GetCellUnsafe(pos)
    {
      var coords := GetCellUnsafe(pos);
      CheckBounds(IVec2(coords.x, coords.y))
    }

    /** The world position the source assigns to a cell: offset from the
        area's centre by the cell's distance from the grid's middle. */
    function GetCoord(cell: IVec2): (r: Vec2)
      ensures r.x - area.Center().x == (cell.x as real + 0.5 - columns as real / 2.0) * cellDimensions.x
      ensures r.y - area.Center().y == (cell.y as real + 0.5 - rows as real / 2.0) * cellDimensions.y
    {
      var minCoord := Vec2((cell.x as real - columns as real / 2.0) * cellDimensions.x * 2.0,
                           (cell.y as real - rows as real / 2.0) * cellDimensions.y * 2.0);
      var halfCellOffset := Vec2(cellDimensions.x / 2.0, cellDimensions.y / 2.0);
      var c := area.Center();
      Vec2(c.x + minCoord.x / 2.0 + halfCellOffset.x, c.y + minCoord.y / 2.0 + halfCellOffset.y)
    }

    function GetValueAtCell(pos: IVec2): (r: Option<T>)
      requires Valid()
      reads grid
      ensures r.Some? <==> InBounds(pos)
      ensures r.Some? ==> r.value == Cells()[Index(pos)]
    {
      match CheckBounds(pos)
      case Some(p) => Some(grid[Index(p)])
      case None => None
    }

    function GetValueAt(pos: Vec2): (r: Option<T>)
      requires Valid() && HasCellArea()
      reads grid
      ensures r.Some? <==> GetCell(pos).Some?
      ensures r.Some? ==> r.value == Cells()[Index(GetCell(pos).value)]
    {
      match GetCell(pos)
      case None => None
      case Some(cell) => GetValueAtCell(cell)
    }

    /** Writes `value` into an in-bounds cell; an out-of-bounds cell is an error. */
    method SetValue(pos: IVec2, value: T) returns (r: Outcome)
      requires Valid()
      modifies grid
      ensures r.Ok? <==> InBounds(pos)
      ensures r.Ok? ==> Cells() == old(Cells())[Index(pos) := value]
      ensures r.Err? ==> Cells() == old(Cells())
      ensures r.Ok? ==> GetValueAtCell(pos) == Some(value)
    {
      match CheckBounds(pos)
      case Some(p) =>
        grid[Index(p)] := value;
        r := Ok;
      case None =>
        r := Err;
    }

    function GetValueByIndex(i: nat): (r: Option<T>)
      requires Valid()
      reads grid
      ensures r.Some? <==> i < columns * rows
      ensures r.Some? ==> r.value == Cells()[i]
    {
      if i >= columns * rows then None else Some(grid[i])
    }

    /** Writes `value` at flat index `i`; an index past the table is an error. */
    method SetValueByIndex(i: nat, value: T) returns (r: Outcome)
      requires Valid()
      modifies grid
      ensures r.Ok? <==> i < columns * rows
      ensures r.Ok? ==> Cells() == old(Cells())[i := value]
      ensures r.Err? ==> Cells() == old(Cells())
    {
      if i >= columns * rows {
        return Err;
      }
      grid[i] := value;
      return Ok;
    }

    /** The candidate cells for a world rectangle: a cell rectangle centred on
        the cell of the search centre whose width is the search extent in
        cells (clamped to the grid's size) rounded up to an even number.
        `None` exactly when the search rectangle has no positive extent. */
    function CellsWithinRect(searchArea: Rect): (r: Option<IRect>)
      requires HasCellArea()
      ensures r.None? <==> searchArea.Size().x <= 0.0 && searchArea.Size().y <= 0.0
      ensures r.Some? ==>
        var centre := GetCellUnsafe(searchArea.Center());
        var sx := CellSpan(searchArea.Size().x, cellDimensions.x, columns);
        var sy := CellSpan(searchArea.Size().y, cellDimensions.y, rows);
        && r.value.min.x + r.value.max.x == 2 * centre.x
        && r.value.min.y + r.value.max.y == 2 * centre.y
        && r.value.max.x - r.value.min.x == sx + sx % 2
        && r.value.max.y - r.value.min.y == sy + sy % 2
    {
      var searchCenter := GetCellUnsafe(searchArea.Center());
      var size := IVec2(CellSpan(searchArea.Size().x, cellDimensions.x, columns),
                        CellSpan(searchArea.Size().y, cellDimensions.y, rows));
      SquaresVanish(size.x, size.y);
      EvenCeiling(size.x);
      EvenCeiling(size.y);
      if size.x * size.x + size.y * size.y == 0 then
        None
      else
        Some(IRectFromCenterSize(searchCenter, IVec2(size.x + 1, size.y + 1)))
    }

    /* Properties of the world <-> cell mapping. */

    /** With ordered corners the cells tile the area exactly. */
    lemma CellsSpanArea()
      requires Valid() && HasCellArea() && Ordered(area)
      ensures cellDimensions.x * columns as real == area.max.x - area.min.x
      ensures cellDimensions.y * rows as real == area.max.y - area.min.y
    {
    }

    /** With ordered corners a cell's world coordinate is its centre. */
    lemma GetCoordIsCellCentre(cell: IVec2)
      requires Valid() && HasCellArea() && Ordered(area)
      ensures GetCoord(cell) == Vec2(area.min.x + (cell.x as real + 0.5) * cellDimensions.x,
                                     area.min.y + (cell.y as real + 0.5) * cellDimensions.y)
    {
      assert cellDimensions.x * columns as real == area.max.x - area.min.x;
      assert cellDimensions.y * rows as real == area.max.y - area.min.y;
    }

    /** A point maps to a grid cell exactly when it lies in the area. */
    lemma GetCellInsideArea(pos: Vec2)
      requires Valid() && HasCellArea() && Ordered(area)
      ensures GetCell(pos).Some? <==> InHalfOpen(area, pos)
    {
      var c := GetCellUnsafe(pos);
      AxisInside(area.min.x, area.max.x, cellDimensions.x, columns, c.x, pos.x);
      AxisInside(area.min.y, area.max.y, cellDimensions.y, rows, c.y, pos.y);
    }

    /** Row-major indexing and `CellOf` are inverse to each other. */
    lemma IndexCellOf(pos: IVec2)
      requires Valid() && InBounds(pos)
      ensures CellOf(Index(pos)) == pos
    {
      RowMajorUnique(pos.x, pos.y, columns);
    }

    lemma IndexCellOfAll()
      requires Valid()
      ensures forall pos :: InBounds(pos) ==> CellOf(Index(pos)) == pos
    {
      forall pos | InBounds(pos)
        ensures CellOf(Index(pos)) == pos
      {
        IndexCellOf(pos);
      }
    }

    /** Cell to world to cell is the identity on in-bounds cells. */
    lemma CoordRoundTrip(cell: IVec2)
      requires Valid() && HasCellArea() && Ordered(area) && InBounds(cell)
      ensures GetCell(GetCoord(cell)) == Some(cell)
    {
      GetCoordIsCellCentre(cell);
      var p := GetCoord(cell);
      var c := GetCellUnsafe(p);
      AxisCellOfCentre(area.min.x, cellDimensions.x, cell.x, c.x, p.x);
      AxisCellOfCentre(area.min.y, cellDimensions.y, cell.y, c.y, p.y);
    }

    /** World to cell to world moves a point of the area by at most half a cell per axis. */
    lemma CellCentreNearPoint(pos: Vec2)
      requires Valid() && HasCellArea() && Ordered(area) && InHalfOpen(area, pos)
      ensures GetCell(pos).Some?
      ensures Abs(GetCoord(GetCell(pos).value).x - pos.x) <= cellDimensions.x / 2.0
      ensures Abs(GetCoord(GetCell(pos).value).y - pos.y) <= cellDimensions.y / 2.0
    {
      GetCellInsideArea(pos);
      var c := GetCell(pos).value;
      GetCoordIsCellCentre(c);
    }
  }

  /** `Floor(rel / d)` is the index of the length-`d` cell containing `rel`. */
  lemma CellExtent(rel: real, d: real, k: int)
    requires d > 0.0 && k == Floor(rel / d)
    ensures k as real * d <= rel < (k as real + 1.0) * d
  {
    var q := rel / d;
    assert q * d == rel;
    assert k as real <= q < k as real + 1.0;
    MulLe(k as real, q, d);
    MulLt(q, k as real + 1.0, d);
    assert rel < (k as real + 1.0) * d;
  }

  /** A sum of two squares of naturals vanishes only when both do. */
  lemma SquaresVanish(a: int, b: int)
    requires a >= 0 && b >= 0
    ensures a * a + b * b == 0 <==> a == 0 && b == 0
  {
    if a > 0 {
      MulMonotoneNat(1, a, a);
    }
    if b > 0 {
      MulMonotoneNat(1, b, b);
    }
  }

  /** Twice the half of `s + 1` is `s` rounded up to an even number. */
  lemma EvenCeiling(s: int)
    requires s >= 0
    ensures 2 * ((s + 1) / 2) == s + s % 2
  {
  }

  /** Along one axis, the cell containing `p` is in the grid exactly when `p` lies in [min, max). */
  lemma AxisInside(min: real, max: real, d: real, n: nat, k: int, p: real)
    requires d > 0.0 && n > 0 && d * n as real == max - min
    requires min + k as real * d <= p < min + (k as real + 1.0) * d
    ensures 0 <= k < n <==> min <= p < max
  {
    var kr, nr := k as real, n as real;
    if k < 0 {
      MulLe(kr + 1.0, 0.0, d);
      assert p < min;
    } else {
      MulLe(0.0, kr, d);
      assert min <= p;
    }
    if k >= n {
      MulLe(nr, kr, d);
      assert max <= p;
    } else {
      MulLe(kr + 1.0, nr, d);
      assert p < max;
    }
  }

  /** The only cell of length `d` that contains the centre of cell `k` is `k`. */
  lemma AxisCellOfCentre(min: real, d: real, k: int, c: int, p: real)
    requires d > 0.0 && p == min + (k as real + 0.5) * d
    requires min + c as real * d <= p < min + (c as real + 1.0) * d
    ensures c == k
  {
    if c > k {
      MulLe(k as real + 1.0, c as real, d);
      assert false;
    } else if c < k {
      MulLe(c as real + 1.0, k as real, d);
      assert false;
    }
  }
}
