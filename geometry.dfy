/**
 * Collision arithmetic of src/geometry.rs: the parts that need no square
 * root. A minimum translation vector (MTV) is the displacement that, added to
 * the first shape, pushes it out of the second.
 */
module Geometry {
  import opened Vectors
  import opened Wrappers
  import opened Shapes

  const UP: Vec2 := Vec2(0.0, 1.0)
  const DOWN: Vec2 := Vec2(0.0, -1.0)
  const LEFT: Vec2 := Vec2(-1.0, 0.0)
  const RIGHT: Vec2 := Vec2(1.0, 0.0)

  /** `rotate90`: a counter-clockwise quarter turn; perpendicular to `v` and as long. */
  function Rotate90(v: Vec2): (r: Vec2)
    ensures Dot(r, v) == 0.0
    ensures Dot(r, r) == Dot(v, v)
    ensures Cross(v, r) == Dot(v, v)
  {
    Vec2(-v.y, v.x)
  }

  /** Four quarter turns are the identity; the unit directions cycle right, up, left, down. */
  lemma Rotate90FourTimes(v: Vec2)
    ensures Rotate90(Rotate90(Rotate90(Rotate90(v)))) == v
  {
    assert Rotate90(Rotate90(v)) == Vec2(-v.x, -v.y);
  }

  /** The open intervals (a0, a1) and (b0, b1) share a point. */
  predicate OpenOverlap(a0: real, a1: real, b0: real, b1: real)
  {
    Max(a0, b0) < Min(a1, b1)
  }

  /** The interiors of two rectangles meet. */
  predicate InteriorsOverlap(r0: Rectangle, r1: Rectangle)
  {
    && OpenOverlap(r0.GetMinX(), r0.GetMaxX(), r1.GetMinX(), r1.GetMaxX())
    && OpenOverlap(r0.GetMinY(), r0.GetMaxY(), r1.GetMinY(), r1.GetMaxY())
  }

  /**
   * `check_if_point_in_rectangle`: strictly inside, so a point on an edge or
   * corner is outside, and nothing is inside a rectangle of zero or negative
   * width or height.
   */
  function CheckIfPointInRectangle(point: Vec2, rect: Rectangle): (inside: bool)
    ensures inside <==> rect.GetMinX() < point.x < rect.GetMaxX()
                        && rect.GetMinY() < point.y < rect.GetMaxY()
    ensures inside ==> rect.GetWidth() > 0.0 && rect.GetHeight() > 0.0
    ensures point.x == rect.GetMinX() || point.x == rect.GetMaxX() ==> !inside
    ensures point.y == rect.GetMinY() || point.y == rect.GetMaxY() ==> !inside
  {
    && point.x > rect.GetMinX()
    && point.x < rect.GetMaxX()
    && point.y > rect.GetMinY()
    && point.y < rect.GetMaxY()
  }

  /** The x part of the rectangle-rectangle MTV before one axis is dropped. */
  function PenetrationX(rect0: Rectangle, rect1: Rectangle): real
  {
    if rect1.GetMaxX() > rect0.GetMaxX() then rect1.GetMinX() - rect0.GetMaxX()
    else rect1.GetMaxX() - rect0.GetMinX()
  }

  /** The y part of the rectangle-rectangle MTV before one axis is dropped. */
  function PenetrationY(rect0: Rectangle, rect1: Rectangle): real
  {
    if rect1.GetMaxY() > rect0.GetMaxY() then rect1.GetMinY() - rect0.GetMaxY()
    else rect1.GetMaxY() - rect0.GetMinY()
  }

  /** Width of the smallest box holding both rectangles. */
  function UnionWidth(rect0: Rectangle, rect1: Rectangle): real
  {
    Max(rect0.GetMaxX(), rect1.GetMaxX()) - Min(rect0.GetMinX(), rect1.GetMinX())
  }

  /** Height of the smallest box holding both rectangles. */
  function UnionHeight(rect0: Rectangle, rect1: Rectangle): real
  {
    Max(rect0.GetMaxY(), rect1.GetMaxY()) - Min(rect0.GetMinY(), rect1.GetMinY())
  }

  /**
   * `get_rectangle_rectangle_mtv`: no vector when the union box is wider or
   * taller than the two rectangles side by side. Otherwise the penetration
   * along the shallower axis (x on a tie) and zero along the other; moving
   * `rect0` by it leaves the two interiors apart.
   */
  function GetRectangleRectangleMtv(rect0: Rectangle, rect1: Rectangle): (mtv: Option<Vec2>)
    ensures mtv.None? <==> (|| UnionWidth(rect0, rect1) > rect0.GetWidth() + rect1.GetWidth()
                            || UnionHeight(rect0, rect1) > rect0.GetHeight() + rect1.GetHeight())
    ensures mtv.Some? ==> mtv.value.x == 0.0 || mtv.value.y == 0.0
    ensures mtv.Some? ==>
      || (mtv.value == Vec2(PenetrationX(rect0, rect1), 0.0)
          && Abs(PenetrationX(rect0, rect1)) <= Abs(PenetrationY(rect0, rect1)))
      || (mtv.value == Vec2(0.0, PenetrationY(rect0, rect1))
          && Abs(PenetrationY(rect0, rect1)) < Abs(PenetrationX(rect0, rect1)))
  {
    var sumWidth := rect0.GetWidth() + rect1.GetWidth();
    var sumHeight := rect0.GetHeight() + rect1.GetHeight();
    var minX := Min(rect0.GetMinX(), rect1.GetMinX());
    var maxX := Max(rect0.GetMaxX(), rect1.GetMaxX());
    var minY := Min(rect0.GetMinY(), rect1.GetMinY());
    var maxY := Max(rect0.GetMaxY(), rect1.GetMaxY());
    var width := maxX - minX;
    var height := maxY - minY;
    if width <= sumWidth && height <= sumHeight then
      var x :=
        if rect1.GetMaxX() > rect0.GetMaxX() then rect1.GetMinX() - rect0.GetMaxX()
        else rect1.GetMaxX() - rect0.GetMinX();
      var y :=
        if rect1.GetMaxY() > rect0.GetMaxY() then rect1.GetMinY() - rect0.GetMaxY()
        else rect1.GetMaxY() - rect0.GetMinY();
      if Abs(x) > Abs(y) then Some(Vec2(0.0, y)) else Some(Vec2(x, 0.0))
    else
      None
  }

  /** Moving `rect0` by the vector, when there is one, leaves the two interiors apart. */
  lemma RectangleMtvSeparates(rect0: Rectangle, rect1: Rectangle)
    requires GetRectangleRectangleMtv(rect0, rect1).Some?
    ensures !InteriorsOverlap(rect0.Translate(GetRectangleRectangleMtv(rect0, rect1).value), rect1)
  {
    var mtv := GetRectangleRectangleMtv(rect0, rect1).value;
    var moved := rect0.Translate(mtv);
    if mtv == Vec2(PenetrationX(rect0, rect1), 0.0) {
      if rect1.GetMaxX() > rect0.GetMaxX() {
        assert moved.GetMaxX() == rect1.GetMinX();
      } else {
        assert moved.GetMinX() == rect1.GetMaxX();
      }
    } else {
      if rect1.GetMaxY() > rect0.GetMaxY() {
        assert moved.GetMaxY() == rect1.GetMinY();
      } else {
        assert moved.GetMinY() == rect1.GetMaxY();
      }
    }
  }

  /**
   * For rectangles of non-negative size, "no vector" means exactly that the
   * closed rectangles are apart: a gap separates them along x or along y.
   */
  lemma RectangleMtvNoneIffApart(rect0: Rectangle, rect1: Rectangle)
    requires rect0.GetWidth() >= 0.0 && rect0.GetHeight() >= 0.0
    requires rect1.GetWidth() >= 0.0 && rect1.GetHeight() >= 0.0
    ensures GetRectangleRectangleMtv(rect0, rect1).None? <==>
      || rect0.GetMaxX() < rect1.GetMinX() || rect1.GetMaxX() < rect0.GetMinX()
      || rect0.GetMaxY() < rect1.GetMinY() || rect1.GetMaxY() < rect0.GetMinY()
  {
  }

  /** The four sides of a rectangle, in the order the source tries them. */
  datatype Edge = LeftEdge | RightEdge | TopEdge | BotEdge

  /** Position of an edge in the order left, right, top, bottom. */
  function EdgeRank(e: Edge): nat
  {
    match e
    case LeftEdge => 0
    case RightEdge => 1
    case TopEdge => 2
    case BotEdge => 3
  }

  /** How far `p` lies inside `rect` measured from edge `e`. */
  function EdgeDistance(p: Vec2, rect: Rectangle, e: Edge): real
  {
    match e
    case LeftEdge => p.x - rect.GetMinX()
    case RightEdge => rect.GetMaxX() - p.x
    case TopEdge => rect.GetMaxY() - p.y
    case BotEdge => p.y - rect.GetMinY()
  }

  /** Unit vector leaving the rectangle through edge `e`. */
  function Outward(e: Edge): Vec2
  {
    match e
    case LeftEdge => LEFT
    case RightEdge => RIGHT
    case TopEdge => UP
    case BotEdge => DOWN
  }

  /** The edge closest to `p`; among equally close edges, the first in the order left, right, top, bottom. */
  function NearestEdge(p: Vec2, rect: Rectangle): (e: Edge)
    ensures forall f :: EdgeDistance(p, rect, e) <= EdgeDistance(p, rect, f)
    ensures forall f :: EdgeRank(f) < EdgeRank(e) ==> EdgeDistance(p, rect, f) > EdgeDistance(p, rect, e)
  {
    var l := EdgeDistance(p, rect, LeftEdge);
    var r := EdgeDistance(p, rect, RightEdge);
    var t := EdgeDistance(p, rect, TopEdge);
    var b := EdgeDistance(p, rect, BotEdge);
    var m := Min(Min(Min(l, r), t), b);
    if l == m then LeftEdge else if r == m then RightEdge else if t == m then TopEdge else BotEdge
  }

  /**
   * What `get_circle_rectangle_mtv` yields in the cases modelled here: an
   * axis-aligned vector, or the case where no part of the circle named below
   * is inside the rectangle and the source goes on to measure distances to
   * the rectangle's corners (with a square root), which is not modelled.
   */
  datatype CircleRectangleMtv = AxisAligned(mtv: Vec2) | CornerCase

  /** The circle moved by `t`. */
  function MoveCircle(circle: Circle, t: Vec2): Circle
  {
    Circle(circle.center.Add(t), circle.radius)
  }

  /**
   * `get_circle_rectangle_mtv` up to the corner case. A centre strictly
   * inside pushes the circle out through the nearest edge by that edge's
   * distance plus the radius. Otherwise the first of the circle's left,
   * right, top and bottom points found inside decides the push, which brings
   * that side of the circle to the far edge of the rectangle.
   */
  function GetCircleRectangleMtv(circle: Circle, rect: Rectangle): (out: CircleRectangleMtv)
    ensures out.CornerCase? <==>
      && !CheckIfPointInRectangle(circle.center, rect)
      && !CheckIfPointInRectangle(circle.GetLeft(), rect)
      && !CheckIfPointInRectangle(circle.GetRight(), rect)
      && !CheckIfPointInRectangle(circle.GetTop(), rect)
      && !CheckIfPointInRectangle(circle.GetBot(), rect)
    ensures CheckIfPointInRectangle(circle.center, rect) ==>
      var e := NearestEdge(circle.center, rect);
      out == AxisAligned(Outward(e).Scale(EdgeDistance(circle.center, rect, e) + circle.radius))
    ensures !CheckIfPointInRectangle(circle.center, rect) && CheckIfPointInRectangle(circle.GetLeft(), rect) ==>
      out == AxisAligned(Vec2(rect.GetMaxX() - circle.GetMinX(), 0.0))
    ensures !CheckIfPointInRectangle(circle.center, rect) && !CheckIfPointInRectangle(circle.GetLeft(), rect)
            && CheckIfPointInRectangle(circle.GetRight(), rect) ==>
      out == AxisAligned(Vec2(rect.GetMinX() - circle.GetMaxX(), 0.0))
    ensures !CheckIfPointInRectangle(circle.center, rect) && !CheckIfPointInRectangle(circle.GetLeft(), rect)
            && !CheckIfPointInRectangle(circle.GetRight(), rect) && CheckIfPointInRectangle(circle.GetTop(), rect) ==>
      out == AxisAligned(Vec2(0.0, rect.GetMinY() - circle.GetMaxY()))
    ensures !CheckIfPointInRectangle(circle.center, rect) && !CheckIfPointInRectangle(circle.GetLeft(), rect)
            && !CheckIfPointInRectangle(circle.GetRight(), rect) && !CheckIfPointInRectangle(circle.GetTop(), rect)
            && CheckIfPointInRectangle(circle.GetBot(), rect) ==>
      out == AxisAligned(Vec2(0.0, rect.GetMaxY() - circle.GetMinY()))
    ensures out.AxisAligned? ==> out.mtv.x == 0.0 || out.mtv.y == 0.0
  {
    var r := circle.radius;
    var c := circle.center;
    var cMinX := circle.GetMinX();
    var cMaxX := circle.GetMaxX();
    var cMaxY := circle.GetMaxY();
    var cMinY := circle.GetMinY();
    var rMinX := rect.GetMinX();
    var rMaxX := rect.GetMaxX();
    var rMaxY := rect.GetMaxY();
    var rMinY := rect.GetMinY();
    if CheckIfPointInRectangle(circle.center, rect) then
      var left := c.x - rMinX;
      var right := rMaxX - c.x;
      var top := rMaxY - c.y;
      var bot := c.y - rMinY;
      var min := Min(Min(Min(left, right), top), bot);
      if min == left then AxisAligned(Vec2(-left - r, 0.0))
      else if min == right then AxisAligned(Vec2(right + r, 0.0))
      else if min == top then AxisAligned(Vec2(0.0, top + r))
      else AxisAligned(Vec2(0.0, -bot - r))
    else if CheckIfPointInRectangle(circle.GetLeft(), rect) then
      AxisAligned(Vec2(rMaxX - cMinX, 0.0))
    else if CheckIfPointInRectangle(circle.GetRight(), rect) then
      AxisAligned(Vec2(rMinX - cMaxX, 0.0))
    else if CheckIfPointInRectangle(circle.GetTop(), rect) then
      AxisAligned(Vec2(0.0, rMinY - cMaxY))
    else if CheckIfPointInRectangle(circle.GetBot(), rect) then
      AxisAligned(Vec2(0.0, rMaxY - cMinY))
    else
      CornerCase
  }

  /** Pushing a circle out through edge `e` by that edge's distance plus the radius clears the rectangle. */
  lemma EdgePushSeparates(circle: Circle, rect: Rectangle, e: Edge)
    requires circle.radius >= 0.0
    ensures
      var d := EdgeDistance(circle.center, rect, e) + circle.radius;
      !InteriorsOverlap(MoveCircle(circle, Outward(e).Scale(d)).BoundingBox(), rect)
  {
    var d := EdgeDistance(circle.center, rect, e) + circle.radius;
    var moved := MoveCircle(circle, Outward(e).Scale(d));
    CircleExtremesOnBox(moved);
    match e
    case LeftEdge => assert moved.GetMaxX() == rect.GetMinX();
    case RightEdge => assert moved.GetMinX() == rect.GetMaxX();
    case TopEdge => assert moved.GetMinY() == rect.GetMaxY();
    case BotEdge => assert moved.GetMaxY() == rect.GetMinY();
  }

  /**
   * After the axis-aligned push, the circle's bounding box and the rectangle
   * have disjoint interiors: the push is enough to separate them.
   */
  lemma CircleRectangleMtvSeparates(circle: Circle, rect: Rectangle)
    requires circle.radius >= 0.0
    requires GetCircleRectangleMtv(circle, rect).AxisAligned?
    ensures !InteriorsOverlap(MoveCircle(circle, GetCircleRectangleMtv(circle, rect).mtv).BoundingBox(), rect)
  {
    var moved := MoveCircle(circle, GetCircleRectangleMtv(circle, rect).mtv);
    CircleExtremesOnBox(moved);
    if CheckIfPointInRectangle(circle.center, rect) {
      EdgePushSeparates(circle, rect, NearestEdge(circle.center, rect));
    } else if CheckIfPointInRectangle(circle.GetLeft(), rect) {
      assert moved.GetMinX() == rect.GetMaxX();
    } else if CheckIfPointInRectangle(circle.GetRight(), rect) {
      assert moved.GetMaxX() == rect.GetMinX();
    } else if CheckIfPointInRectangle(circle.GetTop(), rect) {
      assert moved.GetMaxY() == rect.GetMinY();
    } else {
      assert moved.GetMinY() == rect.GetMaxY();
    }
  }
}
