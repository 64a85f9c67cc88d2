/**
 * `Pivot` as src/common.rs declares it: a tag naming one of nine points of a
 * box, and the point itself. The text layout of src/glyph_atlas.rs uses a
 * different, enum-with-payload `Pivot`; that one lives in module Atlas.
 */
module Common {
  import opened Vectors

  datatype PivotType =
    | BotLeft | TopLeft | BotRight | TopRight
    | Center | TopCenter | BotCenter | LeftCenter | RightCenter

  datatype Pivot = Pivot(ty: PivotType, p: Vec2)

  /**
   * Where a pivot of type `ty` sits on a box, as a fraction of the box's size
   * measured from its bottom-left corner.
   */
  function PivotFraction(ty: PivotType): Vec2
  {
    match ty
    case BotLeft => Vec2(0.0, 0.0)
    case TopLeft => Vec2(0.0, 1.0)
    case BotRight => Vec2(1.0, 0.0)
    case TopRight => Vec2(1.0, 1.0)
    case Center => Vec2(0.5, 0.5)
    case TopCenter => Vec2(0.5, 1.0)
    case BotCenter => Vec2(0.5, 0.0)
    case LeftCenter => Vec2(0.0, 0.5)
    case RightCenter => Vec2(1.0, 0.5)
  }

  /** The point that pivot type `ty` names on the box with corner `botLeft` and extent `size`. */
  function AnchorOf(botLeft: Vec2, size: Vec2, ty: PivotType): Vec2
  {
    botLeft.Add(PivotFraction(ty).Mul(size))
  }
}
