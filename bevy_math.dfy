/** The parts of Bevy's math library that the grid layer uses: `Vec2`, `IVec2`,
    `Rect`, `IRect` and their constructors. `f32` components are modelled as
    real numbers and `i32` components as unbounded integers. These definitions
    state the library's documented behaviour; they are not derived from it. */
module BevyMath {

  datatype Vec2 = Vec2(x: real, y: real) {
    function Add(o: Vec2): Vec2 { Vec2(x + o.x, y + o.y) }
    function Sub(o: Vec2): Vec2 { Vec2(x - o.x, y - o.y) }
    function LengthSquared(): real { x * x + y * y }
  }

  datatype IVec2 = IVec2(x: int, y: int)

  /** An axis-aligned rectangle given by its two corners. */
  datatype Rect = Rect(min: Vec2, max: Vec2) {
    function Center(): Vec2 { Vec2((min.x + max.x) * 0.5, (min.y + max.y) * 0.5) }
    function Size(): Vec2 { max.Sub(min) }
    /** `Rect::contains`: both bounds are inclusive. */
    predicate Contains(p: Vec2) { min.x <= p.x <= max.x && min.y <= p.y <= max.y }
  }

  /** `Rect::from_center_half_size`; the library asserts a non-negative half size. */
  function RectFromCenterHalfSize(origin: Vec2, halfSize: Vec2): Rect
    requires halfSize.x >= 0.0 && halfSize.y >= 0.0
  {
    Rect(origin.Sub(halfSize), origin.Add(halfSize))
  }

  /** `Rect::from_center_size`; the library asserts a non-negative size. */
  function RectFromCenterSize(origin: Vec2, size: Vec2): Rect
    requires size.x >= 0.0 && size.y >= 0.0
  {
    RectFromCenterHalfSize(origin, Vec2(size.x / 2.0, size.y / 2.0))
  }

  /** An integer rectangle; its cells are iterated half-open, `min..max`. */
  datatype IRect = IRect(min: IVec2, max: IVec2)

  /** `IRect::from_center_size`: the half size is `size / 2` in integer
      division, so an odd size loses one cell. */
  function IRectFromCenterSize(origin: IVec2, size: IVec2): IRect
    requires size.x >= 0 && size.y >= 0
  {
    var half := IVec2(size.x / 2, size.y / 2);
    IRect(IVec2(origin.x - half.x, origin.y - half.y), IVec2(origin.x + half.x, origin.y + half.y))
  }

  function Abs(r: real): (a: real)
    ensures a >= 0.0 && (a == r || a == -r)
  {
    if r < 0.0 then -r else r
  }

  /** `f32::floor` followed by the cast to an integer. */
  function Floor(r: real): (n: int)
    ensures n as real <= r < n as real + 1.0
  {
    r.Floor
  }

  /** `f32::ceil` followed by the cast to an integer. */
  function Ceil(r: real): (n: int)
    ensures r <= n as real < r + 1.0
  {
    -((-r).Floor)
  }

  /** `i32::clamp` as `IVec2::clamp` applies it to each component. */
  function Clamp(v: int, lo: int, hi: int): (c: int)
    requires lo <= hi
    ensures lo <= c <= hi
    ensures lo <= v <= hi ==> c == v
  {
    if v < lo then lo else if v > hi then hi else v
  }

  /** Multiplying both sides of an inequality by a positive factor. */
  lemma MulLe(a: real, b: real, d: real)
    requires a <= b && d > 0.0
    ensures a * d <= b * d
  {
  }

  lemma MulLt(a: real, b: real, d: real)
    requires a < b && d > 0.0
    ensures a * d < b * d
  {
  }
}
