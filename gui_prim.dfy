/** Points and axis-aligned rectangles of the GUI layer (gui_prim.c). A
    rectangle is an out-parameter that the functions fill or move in place. */
module GuiPrim {
  import opened CTypes

  /** Wg_point2d */
  datatype Point2d = Point2d(x: i32, y: i32)

  /** wg_point2d_new */
  function Point2dNew(x: i32, y: i32): (p: Point2d)
    ensures p.x == x && p.y == y
  {
    Point2d(x, y)
  }

  function Min(a: int, b: int): int { if a < b then a else b }
  function Max(a: int, b: int): int { if a > b then a else b }

  /** The value of a rectangle: origin, and extent as unsigned values. */
  datatype RectValue = RectValue(x: i32, y: i32, width: u32, height: u32)

  /** The rectangle spanned by two corner points, as wg_rect_new_from_points
      computes it. The exact extents fit a wg_uint because both corners
      are wg_int. The source subtracts in wg_int, which overflows once the
      span passes 2^31-1; these extents are what wg_rect_new receives only
      on a target where that subtraction wraps modulo 2^32. */
  function FromPoints(x1: i32, y1: i32, x2: i32, y2: i32): (r: RectValue)
    ensures Contains(r, x1, y1) && Contains(r, x2, y2)
  {
    RectValue(Min(x1, x2), Min(y1, y2), Max(x1, x2) - Min(x1, x2), Max(y1, y2) - Min(y1, y2))
  }

  /** Whether a point lies in the closed rectangle. */
  predicate Contains(r: RectValue, px: int, py: int)
  {
    r.x <= px <= r.x + r.width && r.y <= py <= r.y + r.height
  }

  /** The rectangle from two points has its origin at the minimum corner,
      extents |x2-x1| and |y2-y1|, and contains both points. */
  lemma FromPointsShape(x1: i32, y1: i32, x2: i32, y2: i32)
    ensures FromPoints(x1, y1, x2, y2).x <= x1 && FromPoints(x1, y1, x2, y2).x <= x2
    ensures FromPoints(x1, y1, x2, y2).x == x1 || FromPoints(x1, y1, x2, y2).x == x2
    ensures FromPoints(x1, y1, x2, y2).y <= y1 && FromPoints(x1, y1, x2, y2).y <= y2
    ensures FromPoints(x1, y1, x2, y2).y == y1 || FromPoints(x1, y1, x2, y2).y == y2
    ensures FromPoints(x1, y1, x2, y2).width == if x2 >= x1 then x2 - x1 else x1 - x2
    ensures FromPoints(x1, y1, x2, y2).height == if y2 >= y1 then y2 - y1 else y1 - y2
    ensures Contains(FromPoints(x1, y1, x2, y2), x1, y1)
    ensures Contains(FromPoints(x1, y1, x2, y2), x2, y2)
  {
  }

  /** Swapping the two corners, or using the other diagonal, gives the same
      rectangle. */
  lemma FromPointsSymmetric(x1: i32, y1: i32, x2: i32, y2: i32)
    ensures FromPoints(x1, y1, x2, y2) == FromPoints(x2, y2, x1, y1)
    ensures FromPoints(x1, y1, x2, y2) == FromPoints(x1, y2, x2, y1)
  {
  }

  /** It is the smallest rectangle containing both points. */
  lemma FromPointsSmallest(x1: i32, y1: i32, x2: i32, y2: i32, r: RectValue)
    requires Contains(r, x1, y1) && Contains(r, x2, y2)
    ensures r.x <= FromPoints(x1, y1, x2, y2).x && r.y <= FromPoints(x1, y1, x2, y2).y
    ensures FromPoints(x1, y1, x2, y2).x + FromPoints(x1, y1, x2, y2).width <= r.x + r.width
    ensures FromPoints(x1, y1, x2, y2).y + FromPoints(x1, y1, x2, y2).height <= r.y + r.height
  {
  }

  /** Wg_rect */
  class Rect {
    var x: i32
    var y: i32
    var width: u32
    var height: u32

    function Value(): RectValue
      reads this
    {
      RectValue(x, y, width, height)
    }

    constructor ()
      ensures Value() == RectValue(0, 0, 0, 0)
    {
      x, y, width, height := 0, 0, 0, 0;
    }

    /** wg_rect_new */
    method Init(x0: i32, y0: i32, w: u32, h: u32)
      modifies this
      ensures Value() == RectValue(x0, y0, w, h)
    {
      x, y, width, height := x0, y0, w, h;
    }

    /** wg_rect_new_from_points */
    method InitFromPoints(x1: i32, y1: i32, x2: i32, y2: i32)
      modifies this
      ensures Value() == FromPoints(x1, y1, x2, y2)
    {
      var xx1 := Min(x1, x2);
      var yy1 := Min(y1, y2);
      var xx2 := Max(x1, x2);
      var yy2 := Max(y1, y2);
      Init(xx1, yy1, xx2 - xx1, yy2 - yy1);
    }

    /** wg_rect_move: the origin moves by (dx, dy), the extent stays. The
        sums must stay within wg_int (signed overflow is undefined in C). */
    method Move(dx: i32, dy: i32)
      requires I32_MIN <= x + dx <= I32_MAX && I32_MIN <= y + dy <= I32_MAX
      modifies this
      ensures Value() == old(Value()).(x := old(x) + dx, y := old(y) + dy)
    {
      x := x + dx;
      y := y + dy;
    }
  }

  /** A move carries every contained point along with it. */
  lemma MoveKeepsContents(r: RectValue, dx: i32, dy: i32, px: int, py: int)
    requires I32_MIN <= r.x + dx <= I32_MAX && I32_MIN <= r.y + dy <= I32_MAX
    ensures Contains(r, px, py) <==> Contains(r.(x := r.x + dx, y := r.y + dy), px + dx, py + dy)
  {
  }
}
