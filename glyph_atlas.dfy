/**
 * `GlyphAtlas` of src/glyph_atlas.rs: one image holding the 95 printable
 * ASCII glyphs of a font, each glyph's quad in text space and its texture
 * rectangle in the image, and the layout of a line of text from a pivot.
 */
module Atlas {
  import opened Vectors
  import opened Wrappers
  import opened AtlasLayout
  import Shapes
  import Common

  /** Pixels added to the widest and the tallest glyph to size a cell. */
  const PADDING: nat := 2

  /** A glyph: its quad relative to the pen, its rectangle in the atlas image, and the pen advance. */
  datatype Glyph = Glyph(rect: Shapes.Rectangle, texcoords: Shapes.Rectangle, advance: Vec2)

  /** The font's horizontal line metrics, when the font has them. */
  datatype LineMetrics = LineMetrics(ascent: real, descent: real)

  /** Glyph `i` of an atlas with the given layout, built from its metrics. */
  function AtlasGlyph(layout: Layout, m: Metrics, i: nat): Glyph
    requires layout.perRow > 0
  {
    var size := Vec2(m.width as real, m.height as real);
    Glyph(
      rect := Shapes.Rectangle.FromBotLeft(Vec2(m.xmin as real, m.ymin as real), size),
      texcoords := Shapes.Rectangle.FromTopLeft(
        Vec2(layout.CellCol(i) as real, (layout.ImageHeight() - layout.CellRow(i)) as real), size),
      advance := Vec2(m.advanceWidth, m.advanceHeight))
  }

  /** The glyph records `new` keeps, one per glyph, in code order. */
  method AtlasGlyphs(layout: Layout, metrics: seq<Metrics>) returns (glyphs: seq<Glyph>)
    requires layout.perRow > 0
    ensures |glyphs| == |metrics|
    ensures forall i | 0 <= i < |metrics| :: glyphs[i] == AtlasGlyph(layout, metrics[i], i)
  {
    glyphs := [];
    for i := 0 to |metrics|
      invariant |glyphs| == i
      invariant forall j | 0 <= j < i :: glyphs[j] == AtlasGlyph(layout, metrics[j], j)
    {
      glyphs := glyphs + [AtlasGlyph(layout, metrics[i], i)];
    }
  }

  /** Pivots as text layout matches them: a tag with the position it pins. */
  datatype Pivot =
    | BotLeft(pos: Vec2) | TopLeft(pos: Vec2) | BotRight(pos: Vec2) | TopRight(pos: Vec2)
    | Center(pos: Vec2) | TopCenter(pos: Vec2) | BotCenter(pos: Vec2)
    | LeftCenter(pos: Vec2) | RightCenter(pos: Vec2)

  /** The point of a box that a pivot pins. */
  function PivotTypeOf(pivot: Pivot): Common.PivotType
  {
    match pivot
    case BotLeft(_) => Common.BotLeft
    case TopLeft(_) => Common.TopLeft
    case BotRight(_) => Common.BotRight
    case TopRight(_) => Common.TopRight
    case Center(_) => Common.Center
    case TopCenter(_) => Common.TopCenter
    case BotCenter(_) => Common.BotCenter
    case LeftCenter(_) => Common.LeftCenter
    case RightCenter(_) => Common.RightCenter
  }

  /**
   * Where the pen starts for a text block of extent `size`: the position
   * moved so that the block's pivot point lands on it. Only bottom-left,
   * center, top-center and bottom-center pivots are supported; the others
   * stop the program (`todo!()`), which is `None` here.
   */
  function StartPosition(pivot: Pivot, size: Vec2): (start: Option<Vec2>)
    ensures start.Some? <==> pivot.BotLeft? || pivot.Center? || pivot.TopCenter? || pivot.BotCenter?
    ensures start.Some? ==>
      Shapes.Rectangle.FromBotLeft(start.value, size).Anchor(PivotTypeOf(pivot)) == pivot.pos
  {
    match pivot
    case BotLeft(pos) => Some(pos)
    case Center(pos) => Some(pos.Sub(size.Scale(0.5)))
    case TopCenter(pos) => Some(Vec2(pos.x - size.x * 0.5, pos.y - size.y))
    case BotCenter(pos) => Some(Vec2(pos.x - size.x * 0.5, pos.y))
    case _ => None
  }

  datatype GlyphAtlas = GlyphAtlas(
    pixels: seq<Byte>,
    imageWidth: nat,
    imageHeight: nat,
    fontSize: nat,
    glyphAscent: real,
    glyphDescent: real,
    glyphs: seq<Glyph>)
  {
    /** One glyph per printable ASCII code. */
    predicate Valid()
    {
      |glyphs| == N_GLYPHS
    }

    /** `get_glyph`: the glyph of a printable code, and that of '?' for any other character. */
    function GetGlyph(ch: char): (g: Glyph)
      requires Valid()
      ensures FIRST_CODE <= ch as int < FIRST_CODE + N_GLYPHS ==> g == glyphs[ch as int - FIRST_CODE]
      ensures !(FIRST_CODE <= ch as int < FIRST_CODE + N_GLYPHS) ==> g == glyphs[FALLBACK_CHAR as int - FIRST_CODE]
    {
      glyphs[GlyphIndex(ch)]
    }

    /** Where the pen stands after `text`: the sum of its glyphs' advances. */
    function Pen(text: string): Vec2
      requires Valid()
    {
      if |text| == 0 then Zero2
      else Pen(text[..|text| - 1]).Add(GetGlyph(text[|text| - 1]).advance)
    }

    /** The height of the tallest glyph quad in `text`, or 0. */
    function TextHeight(text: string): (h: real)
      requires Valid()
      ensures h >= 0.0
      ensures forall k | 0 <= k < |text| :: GetGlyph(text[k]).rect.GetHeight() <= h
      ensures h == 0.0 || exists k | 0 <= k < |text| :: GetGlyph(text[k]).rect.GetHeight() == h
    {
      if |text| == 0 then 0.0
      else Max(TextHeight(text[..|text| - 1]), GetGlyph(text[|text| - 1]).rect.GetHeight())
    }

    /** `get_text_size`: total advance along x by the tallest glyph; (0, 0) for no text. */
    method TextSize(text: string) returns (size: Vec2)
      requires Valid()
      ensures size == Vec2(Pen(text).x, TextHeight(text))
      ensures |text| == 0 ==> size == Zero2
    {
      var width := 0.0;
      var height := 0.0;
      for k := 0 to |text|
        invariant width == Pen(text[..k]).x && height == TextHeight(text[..k])
      {
        assert text[..k + 1][..k] == text[..k];
        var glyph := GetGlyph(text[k]);
        width := width + glyph.advance.x;
        height := Max(height, glyph.rect.GetHeight());
      }
      assert text[..|text|] == text;
      size := Vec2(width, height);
    }

    /** The pen moves by one glyph's advance per character. */
    lemma PenStep(text: string, k: nat)
      requires Valid() && k < |text|
      ensures Pen(text[..k + 1]) == Pen(text[..k]).Add(GetGlyph(text[k]).advance)
    {
      assert text[..k + 1][..k] == text[..k];
    }

    /** Glyph `k` of `text` laid out from `start`: its quad moved to the pen position. */
    function PlacedGlyph(start: Vec2, text: string, k: nat): (g: Glyph)
      requires Valid() && k < |text|
    {
      var glyph := GetGlyph(text[k]);
      glyph.(rect := glyph.rect.Translate(start.Add(Pen(text[..k]))))
    }

    /** The mapping loop of `iter_text_glyphs`: each glyph moved to the pen, then the pen advanced. */
    method PlaceGlyphs(start: Vec2, text: string) returns (out: seq<Glyph>)
      requires Valid()
      ensures |out| == |text|
      ensures forall k | 0 <= k < |text| :: out[k] == PlacedGlyph(start, text, k)
    {
      var cursor := start;
      out := [];
      for k := 0 to |text|
        invariant |out| == k
        invariant cursor == start.Add(Pen(text[..k]))
        invariant forall j | 0 <= j < k :: out[j] == PlacedGlyph(start, text, j)
      {
        var glyph := GetGlyph(text[k]);
        glyph := glyph.(rect := glyph.rect.Translate(cursor));
        assert glyph == PlacedGlyph(start, text, k);
        PenStep(text, k);
        cursor := cursor.Add(glyph.advance);
        out := out + [glyph];
      }
    }

    /**
     * `iter_text_glyphs`, collected: the glyphs of `text`, each quad moved to
     * the pen, the pen starting where the pivot puts the text block and
     * advancing by each glyph's advance. `None` for an unsupported pivot.
     */
    method IterTextGlyphs(pivot: Pivot, text: string) returns (placed: Option<seq<Glyph>>)
      requires Valid()
      ensures placed.None? <==> StartPosition(pivot, Vec2(Pen(text).x, TextHeight(text))).None?
      ensures placed.Some? ==>
        var start := StartPosition(pivot, Vec2(Pen(text).x, TextHeight(text))).value;
        && |placed.value| == |text|
        && forall k | 0 <= k < |text| :: placed.value[k] == PlacedGlyph(start, text, k)
    {
      var size := TextSize(text);
      var start := StartPosition(pivot, size);
      if start.None? {
        return None;
      }
      var out := PlaceGlyphs(start.value, text);
      placed := Some(out);
    }

    /**
     * `new`, with rasterisation done beforehand: `metrics[i]` and
     * `bitmaps[i]` describe the character with code `32 + i`, and
     * `lineMetrics` the font's line metrics if it has any.
     */
    static method New(metrics: seq<Metrics>, bitmaps: seq<seq<Byte>>, fontSize: nat, lineMetrics: Option<LineMetrics>)
      returns (atlas: GlyphAtlas)
      requires |metrics| == N_GLYPHS && BitmapsFit(metrics, bitmaps)
      ensures atlas.Valid()
      ensures atlas.fontSize == fontSize
      ensures lineMetrics.Some? ==>
        atlas.glyphAscent == lineMetrics.value.ascent && atlas.glyphDescent == lineMetrics.value.descent
      ensures lineMetrics.None? ==>
        atlas.glyphAscent == 0.85 * fontSize as real && atlas.glyphDescent == -0.25 * fontSize as real
      ensures
        var layout := LayoutFor(metrics, PADDING);
        && layout == Layout(MaxWidth(metrics) + PADDING, MaxHeight(metrics) + PADDING, 10)
        && atlas.imageWidth == layout.ImageWidth() && atlas.imageHeight == layout.ImageHeight()
        && |atlas.pixels| == atlas.imageWidth * atlas.imageHeight
        && atlas.pixels == AtlasPixels(layout, metrics, bitmaps)
        && forall i | 0 <= i < N_GLYPHS :: atlas.glyphs[i] == AtlasGlyph(layout, metrics[i], i)
    {
      var ascent, descent;
      match lineMetrics {
        case Some(lm) =>
          descent := lm.descent;
          ascent := lm.ascent;
        case None =>
          descent := -0.25 * fontSize as real;
          ascent := 0.85 * fontSize as real;
      }

      var maxGlyphWidth, maxGlyphHeight := MaxGlyphSize(metrics);
      maxGlyphWidth := maxGlyphWidth + PADDING;
      maxGlyphHeight := maxGlyphHeight + PADDING;

      GlyphsPerRow();
      var perRow := CeilSqrt(|metrics|);
      var layout := Layout(maxGlyphWidth, maxGlyphHeight, perRow);
      assert layout == LayoutFor(metrics, PADDING);

      var glyphs := AtlasGlyphs(layout, metrics);
      var image := PackGlyphs(layout, metrics, bitmaps);
      var flipped := FlipRows(image, layout.ImageWidth(), layout.ImageHeight());
      atlas := GlyphAtlas(flipped, layout.ImageWidth(), layout.ImageHeight(), fontSize, ascent, descent, glyphs);
    }
  }

  /** A character outside 32 to 126 is drawn with the glyph of '?'. */
  lemma GetGlyphFallback(atlas: GlyphAtlas, ch: char)
    requires atlas.Valid()
    requires !(FIRST_CODE <= ch as int < FIRST_CODE + N_GLYPHS)
    ensures atlas.GetGlyph(ch) == atlas.GetGlyph(FALLBACK_CHAR)
  {
  }

  /** The pen after two pieces of text is the sum of the pens after each. */
  lemma {:induction false} PenAppend(atlas: GlyphAtlas, a: string, b: string)
    requires atlas.Valid()
    ensures atlas.Pen(a + b) == atlas.Pen(a).Add(atlas.Pen(b))
    decreases |b|
  {
    if |b| == 0 {
      assert a + b == a;
    } else {
      var b' := b[..|b| - 1];
      assert (a + b)[..|a + b| - 1] == a + b';
      assert (a + b)[|a + b| - 1] == b[|b| - 1];
      PenAppend(atlas, a, b');
    }
  }

  /**
   * Laying out `a + b` from `start` places the glyphs of `b` exactly where
   * laying out `b` alone from the pen position after `a` would.
   */
  lemma PlacedGlyphAppend(atlas: GlyphAtlas, start: Vec2, a: string, b: string, k: nat)
    requires atlas.Valid() && k < |b|
    ensures atlas.PlacedGlyph(start, a + b, |a| + k) == atlas.PlacedGlyph(start.Add(atlas.Pen(a)), b, k)
  {
    assert (a + b)[..|a| + k] == a + b[..k];
    assert (a + b)[|a| + k] == b[k];
    PenAppend(atlas, a, b[..k]);
  }

  /**
   * The texture rectangle of glyph `i` covers the atlas pixels its bitmap
   * was copied to: bitmap byte (`gr`, `gc`) is the atlas pixel in column
   * `x` and row `y`, and the unit square [x, x+1] by [y, y+1] lies inside the
   * texture rectangle.
   */
  lemma TexcoordsCoverGlyph(metrics: seq<Metrics>, bitmaps: seq<seq<Byte>>, i: nat, gr: nat, gc: nat)
    requires |metrics| == N_GLYPHS && BitmapsFit(metrics, bitmaps)
    requires i < N_GLYPHS && gr < metrics[i].height && gc < metrics[i].width
    ensures
      var layout := LayoutFor(metrics, PADDING);
      var t := AtlasGlyph(layout, metrics[i], i).texcoords;
      var x := layout.CellCol(i) + gc;
      var y := layout.ImageHeight() - 1 - (layout.CellRow(i) + gr);
      && 0 <= y && Idx(y, x, layout.ImageWidth()) < |AtlasPixels(layout, metrics, bitmaps)|
      && Idx(gr, gc, metrics[i].width) < |bitmaps[i]|
      && AtlasPixels(layout, metrics, bitmaps)[Idx(y, x, layout.ImageWidth())] == bitmaps[i][Idx(gr, gc, metrics[i].width)]
      && t.GetMinX() <= x as real && (x + 1) as real <= t.GetMaxX()
      && t.GetMinY() <= y as real && (y + 1) as real <= t.GetMaxY()
  {
    var layout := LayoutFor(metrics, PADDING);
    GlyphsPerRow();
    AtlasGlyphPixel(layout, metrics, bitmaps, i, gr, gc);
  }
}
