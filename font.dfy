/**
 * The older glyph atlas of src/font.rs: the same grid packing and flip as
 * src/glyph_atlas.rs, with cells exactly as large as the largest glyph and
 * each glyph recorded as the top-left corner of its cell plus its metrics.
 */
module FontAtlas {
  import opened AtlasLayout

  /** A glyph: the top-left corner of its cell in the (flipped) atlas, and its metrics. */
  datatype Glyph = Glyph(x: real, y: real, metrics: Metrics)

  /** Glyph `i` of an atlas with the given layout. */
  function FontGlyph(layout: Layout, m: Metrics, i: nat): Glyph
    requires layout.perRow > 0
  {
    Glyph(layout.CellCol(i) as real, (layout.ImageHeight() - layout.CellRow(i)) as real, m)
  }

  /** The glyph records `new` keeps, one per glyph, in code order. */
  method FontGlyphs(layout: Layout, metrics: seq<Metrics>) returns (glyphs: seq<Glyph>)
    requires layout.perRow > 0
    ensures |glyphs| == |metrics|
    ensures forall i | 0 <= i < |metrics| :: glyphs[i] == FontGlyph(layout, metrics[i], i)
  {
    glyphs := [];
    for i := 0 to |metrics|
      invariant |glyphs| == i
      invariant forall j | 0 <= j < i :: glyphs[j] == FontGlyph(layout, metrics[j], j)
    {
      glyphs := glyphs + [FontGlyph(layout, metrics[i], i)];
    }
  }

  datatype GlyphAtlas = GlyphAtlas(image: seq<Byte>, width: nat, height: nat, glyphs: seq<Glyph>) {
    /** One glyph per printable ASCII code. */
    predicate Valid()
    {
      |glyphs| == N_GLYPHS
    }

    /** `get_glyph`: the glyph of a printable code, and that of '?' for any other character. */
    function GetGlyph(c: char): (g: Glyph)
      requires Valid()
      ensures FIRST_CODE <= c as int < FIRST_CODE + N_GLYPHS ==> g == glyphs[c as int - FIRST_CODE]
      ensures !(FIRST_CODE <= c as int < FIRST_CODE + N_GLYPHS) ==> g == glyphs[FALLBACK_CHAR as int - FIRST_CODE]
    {
      glyphs[GlyphIndex(c)]
    }

    /**
     * `new`, with rasterisation done beforehand: `metrics[i]` and
     * `bitmaps[i]` describe the character with code `32 + i`.
     */
    static method New(metrics: seq<Metrics>, bitmaps: seq<seq<Byte>>) returns (atlas: GlyphAtlas)
      requires |metrics| == N_GLYPHS && BitmapsFit(metrics, bitmaps)
      ensures atlas.Valid()
      ensures
        var layout := LayoutFor(metrics, 0);
        && layout == Layout(MaxWidth(metrics), MaxHeight(metrics), 10)
        && atlas.width == layout.ImageWidth() && atlas.height == layout.ImageHeight()
        && |atlas.image| == atlas.width * atlas.height
        && atlas.image == AtlasPixels(layout, metrics, bitmaps)
        && forall i | 0 <= i < N_GLYPHS :: atlas.glyphs[i] == FontGlyph(layout, metrics[i], i)
    {
      var maxGlyphWidth, maxGlyphHeight := MaxGlyphSize(metrics);

      GlyphsPerRow();
      var perRow := CeilSqrt(|metrics|);
      var layout := Layout(maxGlyphWidth, maxGlyphHeight, perRow);
      assert layout == LayoutFor(metrics, 0);

      var glyphs := FontGlyphs(layout, metrics);
      var image := PackGlyphs(layout, metrics, bitmaps);
      var flipped := FlipRows(image, layout.ImageWidth(), layout.ImageHeight());
      atlas := GlyphAtlas(flipped, layout.ImageWidth(), layout.ImageHeight(), glyphs);
    }
  }

  /** A character outside 32 to 126 is drawn with the glyph of '?'. */
  lemma GetGlyphFallback(atlas: GlyphAtlas, c: char)
    requires atlas.Valid()
    requires !(FIRST_CODE <= c as int < FIRST_CODE + N_GLYPHS)
    ensures atlas.GetGlyph(c) == atlas.GetGlyph(FALLBACK_CHAR)
  {
  }

  /**
   * A glyph's recorded corner locates its bitmap in the atlas: byte
   * (`gr`, `gc`) of glyph `i` is the atlas pixel in column `x + gc` and row
   * `y - 1 - gr`, where (`x`, `y`) is the glyph's recorded corner.
   */
  lemma GlyphCornerLocatesBitmap(metrics: seq<Metrics>, bitmaps: seq<seq<Byte>>, i: nat, gr: nat, gc: nat)
    requires |metrics| == N_GLYPHS && BitmapsFit(metrics, bitmaps)
    requires i < N_GLYPHS && gr < metrics[i].height && gc < metrics[i].width
    ensures
      var layout := LayoutFor(metrics, 0);
      var g := FontGlyph(layout, metrics[i], i);
      var x := layout.CellCol(i) + gc;
      var y := layout.ImageHeight() - layout.CellRow(i) - 1 - gr;
      && g.x + gc as real == x as real
      && g.y - 1.0 - gr as real == y as real
      && 0 <= y && Idx(y, x, layout.ImageWidth()) < |AtlasPixels(layout, metrics, bitmaps)|
      && Idx(gr, gc, metrics[i].width) < |bitmaps[i]|
      && AtlasPixels(layout, metrics, bitmaps)[Idx(y, x, layout.ImageWidth())] == bitmaps[i][Idx(gr, gc, metrics[i].width)]
  {
    var layout := LayoutFor(metrics, 0);
    GlyphsPerRow();
    AtlasGlyphPixel(layout, metrics, bitmaps, i, gr, gc);
  }
}
