/**
 * Rectangles, circles and triangles, and their decomposition into the
 * triangle lists the renderer draws (src/shapes.rs).
 */
module Shapes {
  import opened Vectors
  import opened Common

  const CIRCLE_N_TRIANGLES: nat := 16

  /**
   * The sixteen points of the unit circle at multiples of 22.5 degrees,
   * counter-clockwise from (1, 0). The values are the source's literals and
   * are used as given; nothing here relies on them lying on the circle.
   */
  const UNIT_CIRCLE_POINTS: seq<Vec2> := [
    Vec2(1.0, 0.0),
    Vec2(0.9238795325112867, 0.3826834323650898),
    Vec2(0.7071067811865475, 0.7071067811865476),
    Vec2(0.38268343236508967, 0.9238795325112867),
    Vec2(0.0, 1.0),
    Vec2(-0.3826834323650898, 0.9238795325112867),
    Vec2(-0.7071067811865476, 0.7071067811865475),
    Vec2(-0.9238795325112867, 0.38268343236508967),
    Vec2(-1.0, 0.0),
    Vec2(-0.9238795325112867, -0.3826834323650898),
    Vec2(-0.7071067811865475, -0.7071067811865476),
    Vec2(-0.38268343236508967, -0.9238795325112867),
    Vec2(0.0, -1.0),
    Vec2(0.3826834323650898, -0.9238795325112867),
    Vec2(0.7071067811865476, -0.7071067811865475),
    Vec2(0.9238795325112867, -0.38268343236508967)
  ]

  datatype Line = Line(s: Vec2, e: Vec2)

  /** A 2-D point placed on the z = 0 plane. */
  function Lift(p: Vec2): Vec3 { Vec3(p.x, p.y, 0.0) }

  datatype Triangle = Triangle(a: Vec3, b: Vec3, c: Vec3) {
    /** `to_vertices`: the corners in order a, b, c. */
    function ToVertices(): (vs: seq<Vec3>)
      ensures |vs| == 3
      ensures Triangle(vs[0], vs[1], vs[2]) == this
    {
      [a, b, c]
    }
  }

  /** `Triangle::default`: all corners at the origin. */
  const DEFAULT_TRIANGLE: Triangle := Triangle(Zero3, Zero3, Zero3)

  /** `Triangle::new_2d`: the three 2-D corners on the z = 0 plane, order kept. */
  function NewTriangle2d(a: Vec2, b: Vec2, c: Vec2): (t: Triangle)
    ensures t.ToVertices() == [Lift(a), Lift(b), Lift(c)]
    ensures forall v <- t.ToVertices() :: v.z == 0.0
  {
    Triangle(Lift(a), Lift(b), Lift(c))
  }

  /**
   * Twice the signed area of a triangle's projection on the xy plane:
   * positive when a, b, c run counter-clockwise.
   */
  function SignedArea2(t: Triangle): real
  {
    (t.b.x - t.a.x) * (t.c.y - t.a.y) - (t.b.y - t.a.y) * (t.c.x - t.a.x)
  }

  /** Every corner of every triangle in `tris`. */
  function CornerSet(tris: seq<Triangle>): set<Vec3>
  {
    set i, k | 0 <= i < |tris| && 0 <= k < 3 :: tris[i].ToVertices()[k]
  }

  /** An axis-aligned rectangle stored as its bottom-left and top-right corners. */
  datatype Rectangle = Rectangle(botLeft: Vec2, topRight: Vec2) {
    /** `get_size`: the top-right corner minus the bottom-left one. */
    function GetSize(): Vec2 { topRight.Sub(botLeft) }

    /** The point a pivot of type `ty` names on this rectangle. */
    function Anchor(ty: PivotType): Vec2 { AnchorOf(botLeft, GetSize(), ty) }

    /**
     * `translate` (and `translate_assign` on a copy): moves every point by
     * `t` (lemma `TranslateMovesAnchors`) and keeps the size.
     */
    function Translate(t: Vec2): (moved: Rectangle)
      ensures moved.GetSize() == GetSize()
      ensures moved.botLeft == botLeft.Add(t)
    {
      Rectangle(botLeft.Add(t), topRight.Add(t))
    }

    /** `translate_x_assign` on a copy: moves every point by `dx` along x only. */
    function TranslateX(dx: real): (moved: Rectangle)
      ensures moved == Translate(Vec2(dx, 0.0))
    {
      Rectangle(Vec2(botLeft.x + dx, botLeft.y), Vec2(topRight.x + dx, topRight.y))
    }

    function GetWidth(): real
    {
      topRight.x - botLeft.x
    }

    function GetHeight(): real
    {
      topRight.y - botLeft.y
    }

    function GetCenterX(): real
    {
      (botLeft.x + topRight.x) / 2.0
    }

    function GetMinX(): real
    {
      botLeft.x
    }

    function GetMaxX(): real
    {
      topRight.x
    }

    function GetMaxY(): real
    {
      topRight.y
    }

    function GetMinY(): real
    {
      botLeft.y
    }

    function GetBotLeft(): Vec2
    {
      botLeft
    }

    function GetTopRight(): Vec2
    {
      topRight
    }

    function GetCenter(): Vec2
    {
      Vec2(botLeft.x + (topRight.x - botLeft.x) / 2.0, botLeft.y + (topRight.y - botLeft.y) / 2.0)
    }

    function GetTopCenter(): Vec2
    {
      Vec2(topRight.x - (topRight.x - botLeft.x) / 2.0, topRight.y)
    }

    function GetBotCenter(): Vec2
    {
      Vec2(botLeft.x + (topRight.x - botLeft.x) / 2.0, botLeft.y)
    }

    function GetBotRight(): Vec2
    {
      Vec2(topRight.x, botLeft.y)
    }

    function GetTopLeft(): Vec2
    {
      Vec2(botLeft.x, topRight.y)
    }

    function GetLeftCenter(): Vec2
    {
      Vec2(botLeft.x, botLeft.y + GetHeight() * 0.5)
    }

    /** `from_bot_left`: the rectangle with bottom-left corner `botLeft` and extent `size`. */
    static function FromBotLeft(botLeft: Vec2, size: Vec2): (rect: Rectangle)
      ensures rect.GetBotLeft() == botLeft
      ensures rect.GetTopRight() == botLeft.Add(size)
      ensures rect.GetSize() == size
    {
      Rectangle(botLeft, botLeft.Add(size))
    }

    static function FromCenter(center: Vec2, size: Vec2): (rect: Rectangle)
      ensures rect.GetCenter() == center && rect.GetSize() == size
    {
      FromBotLeft(center.Sub(size.Scale(0.5)), size)
    }

    static function FromLeftCenter(leftCenter: Vec2, size: Vec2): (rect: Rectangle)
      ensures rect.GetLeftCenter() == leftCenter && rect.GetSize() == size
    {
      FromBotLeft(Vec2(leftCenter.x, leftCenter.y - size.y * 0.5), size)
    }

    /** There is no `get_right_center`; the anchor plays its part. */
    static function FromRightCenter(rightCenter: Vec2, size: Vec2): (rect: Rectangle)
      ensures rect.Anchor(RightCenter) == rightCenter && rect.GetSize() == size
    {
      FromBotLeft(Vec2(rightCenter.x - size.x, rightCenter.y - size.y * 0.5), size)
    }

    static function FromTopLeft(topLeft: Vec2, size: Vec2): (rect: Rectangle)
      ensures rect.GetTopLeft() == topLeft && rect.GetSize() == size
    {
      FromBotLeft(Vec2(topLeft.x, topLeft.y - size.y), size)
    }

    static function FromTopRight(topRight: Vec2, size: Vec2): (rect: Rectangle)
      ensures rect.GetTopRight() == topRight && rect.GetSize() == size
    {
      FromBotLeft(topRight.Sub(size), size)
    }

    static function FromTopCenter(topCenter: Vec2, size: Vec2): (rect: Rectangle)
      ensures rect.GetTopCenter() == topCenter && rect.GetSize() == size
    {
      FromBotLeft(Vec2(topCenter.x - size.x * 0.5, topCenter.y - size.y), size)
    }

    static function FromBotRight(botRight: Vec2, size: Vec2): (rect: Rectangle)
      ensures rect.GetBotRight() == botRight && rect.GetSize() == size
    {
      FromBotLeft(Vec2(botRight.x - size.x, botRight.y), size)
    }

    static function FromBotCenter(botCenter: Vec2, size: Vec2): (rect: Rectangle)
      ensures rect.GetBotCenter() == botCenter && rect.GetSize() == size
    {
      FromBotLeft(Vec2(botCenter.x - 0.5 * size.x, botCenter.y), size)
    }

    /** `from_pivot`: the rectangle of extent `size` whose `pivot.ty` point is `pivot.p`. */
    static function FromPivot(pivot: Pivot, size: Vec2): (rect: Rectangle)
      ensures rect.Anchor(pivot.ty) == pivot.p && rect.GetSize() == size
    {
      var rect := match pivot.ty
      case BotLeft => FromBotLeft(pivot.p, size)
      case TopLeft => FromTopLeft(pivot.p, size)
      case BotRight => FromBotRight(pivot.p, size)
      case TopRight => FromTopRight(pivot.p, size)
      case Center => FromCenter(pivot.p, size)
      case TopCenter => FromTopCenter(pivot.p, size)
      case BotCenter => FromBotCenter(pivot.p, size)
      case LeftCenter => FromLeftCenter(pivot.p, size)
      case RightCenter => FromRightCenter(pivot.p, size);
      GettersAreAnchors(rect);
      rect
    }

    /**
     * `get_vertices`: the four corners counter-clockwise from the bottom-left
     * one.
     */
    function GetVertices(): (vs: seq<Vec2>)
      ensures vs == [Anchor(BotLeft), Anchor(BotRight), Anchor(TopRight), Anchor(TopLeft)]
    {
      GettersAreAnchors(this);
      [GetBotLeft(), GetBotRight(), GetTopRight(), GetTopLeft()]
    }

    /**
     * `get_triangles`: two triangles on the z = 0 plane sharing the diagonal
     * from the top-right to the bottom-left corner; together their corners are
     * exactly the rectangle's, and both wind like the rectangle itself
     * (counter-clockwise when the size is positive).
     */
    function GetTriangles(): (tris: seq<Triangle>)
      ensures |tris| == 2
      ensures CornerSet(tris) == set v <- GetVertices() :: Lift(v)
      ensures tris[0].c == tris[1].a == Lift(GetTopRight())
      ensures tris[0].b == tris[1].b == Lift(GetBotLeft())
      ensures SignedArea2(tris[0]) == SignedArea2(tris[1]) == GetWidth() * GetHeight()
      ensures GetWidth() > 0.0 && GetHeight() > 0.0 ==> SignedArea2(tris[0]) > 0.0 && SignedArea2(tris[1]) > 0.0
    {
      var tris := [
        NewTriangle2d(GetTopLeft(), GetBotLeft(), GetTopRight()),
        NewTriangle2d(GetTopRight(), GetBotLeft(), GetBotRight())
      ];
      CornerTriangleArea(botLeft.x, botLeft.y, topRight.x, topRight.y);
      PositiveProduct(GetWidth(), GetHeight());
      CornersOfSplit(tris, GetVertices());
      tris
    }
  }

  /** Both halves of the split have doubled area width * height. */
  lemma CornerTriangleArea(x0: real, y0: real, x1: real, y1: real)
    ensures SignedArea2(Triangle(Vec3(x0, y1, 0.0), Vec3(x0, y0, 0.0), Vec3(x1, y1, 0.0))) == (x1 - x0) * (y1 - y0)
    ensures SignedArea2(Triangle(Vec3(x1, y1, 0.0), Vec3(x0, y0, 0.0), Vec3(x1, y0, 0.0))) == (x1 - x0) * (y1 - y0)
  {
  }

  lemma PositiveProduct(a: real, b: real)
    ensures a > 0.0 && b > 0.0 ==> a * b > 0.0
  {
  }

  /** The corners of the two triangles (TL, BL, TR) and (TR, BL, BR) are the four corners BL, BR, TR, TL. */
  lemma CornersOfSplit(tris: seq<Triangle>, vs: seq<Vec2>)
    requires |vs| == 4 && |tris| == 2
    requires tris[0] == NewTriangle2d(vs[3], vs[0], vs[2])
    requires tris[1] == NewTriangle2d(vs[2], vs[0], vs[1])
    ensures CornerSet(tris) == set v <- vs :: Lift(v)
  {
    var corners := set v <- vs :: Lift(v);
    forall v | v in CornerSet(tris) ensures v in corners {
      var i, k :| 0 <= i < |tris| && 0 <= k < 3 && v == tris[i].ToVertices()[k];
    }
    forall v | v in corners ensures v in CornerSet(tris) {
      var w :| w in vs && v == Lift(w);
      if w == vs[0] {
        assert v == tris[0].ToVertices()[1];
      } else if w == vs[1] {
        assert v == tris[1].ToVertices()[2];
      } else if w == vs[2] {
        assert v == tris[0].ToVertices()[2];
      } else {
        assert v == tris[0].ToVertices()[0];
      }
    }
  }

  /**
   * Each getter returns the pivot point of the same name: the corners, the
   * centre, the top, bottom and left midpoints, and the coordinates of the
   * corners and of the centre.
   */
  lemma GettersAreAnchors(rect: Rectangle)
    ensures rect.GetBotLeft() == rect.Anchor(BotLeft) && rect.GetTopRight() == rect.Anchor(TopRight)
    ensures rect.GetBotRight() == rect.Anchor(BotRight) && rect.GetTopLeft() == rect.Anchor(TopLeft)
    ensures rect.GetCenter() == rect.Anchor(Center)
    ensures rect.GetTopCenter() == rect.Anchor(TopCenter) && rect.GetBotCenter() == rect.Anchor(BotCenter)
    ensures rect.GetLeftCenter() == rect.Anchor(LeftCenter)
    ensures rect.GetMinX() == rect.Anchor(BotLeft).x && rect.GetMinY() == rect.Anchor(BotLeft).y
    ensures rect.GetMaxX() == rect.Anchor(TopRight).x && rect.GetMaxY() == rect.Anchor(TopRight).y
    ensures rect.GetCenterX() == rect.Anchor(Center).x
    ensures rect.GetWidth() == rect.GetSize().x && rect.GetHeight() == rect.GetSize().y
  {
  }

  /** Translating a rectangle by `t` moves each of its nine pivot points by `t`. */
  lemma TranslateMovesAnchors(rect: Rectangle, t: Vec2, ty: PivotType)
    ensures rect.Translate(t).Anchor(ty) == rect.Anchor(ty).Add(t)
  {
  }

  /** A rectangle is recovered from any one of its anchors and its size. */
  lemma FromPivotOfAnchor(rect: Rectangle, ty: PivotType)
    ensures Rectangle.FromPivot(Pivot(ty, rect.Anchor(ty)), rect.GetSize()) == rect
  {
  }

  /**
   * The circle's extreme coordinates are the sides of its bounding box, and
   * its leftmost, rightmost, top and bottom points are the midpoints of
   * those sides.
   */
  lemma CircleExtremesOnBox(circle: Circle)
    ensures var box := circle.BoundingBox();
      && circle.GetMinX() == box.GetMinX() && circle.GetMaxX() == box.GetMaxX()
      && circle.GetMinY() == box.GetMinY() && circle.GetMaxY() == box.GetMaxY()
      && circle.GetLeft() == box.Anchor(LeftCenter) && circle.GetRight() == box.Anchor(RightCenter)
      && circle.GetTop() == box.Anchor(TopCenter) && circle.GetBot() == box.Anchor(BotCenter)
  {
  }

  datatype Circle = Circle(center: Vec2, radius: real) {
    /** The axis-aligned square the circle is inscribed in. */
    function BoundingBox(): Rectangle
    {
      Rectangle.FromCenter(center, Vec2(2.0 * radius, 2.0 * radius))
    }

    function GetMinX(): real
    {
      center.x - radius
    }

    function GetMaxX(): real
    {
      center.x + radius
    }

    function GetMaxY(): real
    {
      center.y + radius
    }

    function GetMinY(): real
    {
      center.y - radius
    }

    /** `get_left`: the leftmost point. */
    function GetLeft(): Vec2
    {
      Vec2(center.x - radius, center.y)
    }

    function GetRight(): Vec2
    {
      Vec2(center.x + radius, center.y)
    }

    function GetTop(): Vec2
    {
      Vec2(center.x, center.y + radius)
    }

    function GetBot(): Vec2
    {
      Vec2(center.x, center.y - radius)
    }

    /** `Circle::from_bot`: the circle of radius `radius` whose lowest point is `bot`. */
    static function FromBot(bot: Vec2, radius: real): (c: Circle)
      ensures c.GetBot() == bot && c.radius == radius
    {
      Circle(Vec2(bot.x, bot.y + radius), radius)
    }

    /** Unit-circle point `i` scaled by the radius and moved to the centre. */
    function RimPoint(i: nat): Vec2
      requires i < CIRCLE_N_TRIANGLES
    {
      UNIT_CIRCLE_POINTS[i].Scale(radius).Add(center)
    }

    /** Triangle `i` of the fan: the centre, rim point `i + 1` (wrapping) and rim point `i`. */
    function FanTriangle(i: nat): Triangle
      requires i < CIRCLE_N_TRIANGLES
    {
      NewTriangle2d(center, RimPoint((i + 1) % CIRCLE_N_TRIANGLES), RimPoint(i))
    }

    /**
     * `to_triangles`: sixteen triangles around the centre. Consecutive ones
     * share a rim point, and the last hands its point back to the first, so
     * the fan is closed.
     */
    method ToTriangles() returns (tris: seq<Triangle>)
      ensures |tris| == CIRCLE_N_TRIANGLES
      ensures forall i :: 0 <= i < |tris| ==> tris[i] == FanTriangle(i)
    {
      var triangles := seq(CIRCLE_N_TRIANGLES, _ => DEFAULT_TRIANGLE);
      var a := center;
      for i := 0 to CIRCLE_N_TRIANGLES
        invariant |triangles| == CIRCLE_N_TRIANGLES
        invariant forall k :: 0 <= k < i ==> triangles[k] == FanTriangle(k)
      {
        var j := (i + 1) % CIRCLE_N_TRIANGLES;
        var b := RimPoint(j);
        var c := RimPoint(i);
        triangles := triangles[i := NewTriangle2d(a, b, c)];
      }
      tris := triangles;
    }

    /**
     * Fan triangle `i` starts at the centre, and its second vertex is the
     * third vertex of the next one (of triangle 0 for triangle 15), so the
     * fan returned by `ToTriangles` is closed.
     */
    lemma FanTrianglesShareRim(i: nat)
      requires i < CIRCLE_N_TRIANGLES
      ensures FanTriangle(i).a == Lift(center)
      ensures FanTriangle(i).b == FanTriangle((i + 1) % CIRCLE_N_TRIANGLES).c
    {
      var j := (i + 1) % CIRCLE_N_TRIANGLES;
      assert FanTriangle(i).ToVertices() == [Lift(center), Lift(RimPoint(j)), Lift(RimPoint(i))];
      assert FanTriangle(j).ToVertices()[2] == Lift(RimPoint(j));
    }
  }
}
