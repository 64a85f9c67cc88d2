/**
 * The grid layout shared by src/glyph_atlas.rs and src/font.rs: the 95
 * printable ASCII glyphs are placed in square-ish rows of equal cells, each
 * glyph's bitmap is copied row by row into its cell of a zero-filled image,
 * and the image is then flipped vertically. Rasterisation itself (fontdue)
 * is not modelled: glyph metrics and bitmaps are inputs.
 */
module AtlasLayout {
  type Byte = bv8

  /** The first character code with a glyph, and how many codes follow it (32 to 126). */
  const FIRST_CODE: nat := 32
  const N_GLYPHS: nat := 95

  /** Placeholder glyph for characters outside 32 to 126. */
  const FALLBACK_CHAR: char := '?'

  /** The part of fontdue's `Metrics` the atlas reads. */
  datatype Metrics = Metrics(
    xmin: int, ymin: int,
    width: nat, height: nat,
    advanceWidth: real, advanceHeight: real)

  /** A glyph bitmap holds `width * height` coverage bytes, row after row from the top. */
  predicate BitmapsFit(metrics: seq<Metrics>, bitmaps: seq<seq<Byte>>)
  {
    && |bitmaps| == |metrics|
    && forall i | 0 <= i < |metrics| :: |bitmaps[i]| == metrics[i].width * metrics[i].height
  }

  /**
   * Which glyph stands for `ch`: its code minus 32 for codes 32 to 126, and
   * the glyph of '?' for every other character.
   */
  function GlyphIndex(ch: char): (i: nat)
    ensures i < N_GLYPHS
    ensures FIRST_CODE <= ch as int < FIRST_CODE + N_GLYPHS ==> i + FIRST_CODE == ch as int
    ensures !(FIRST_CODE <= ch as int < FIRST_CODE + N_GLYPHS) ==> i + FIRST_CODE == FALLBACK_CHAR as int
  {
    var idx := ch as int;
    var idx := if idx < 32 || idx > 126 then 63 else idx;
    idx - 32
  }

  /** Distinct printable characters have distinct glyphs. */
  lemma GlyphIndexInjective(a: char, b: char)
    requires FIRST_CODE <= a as int < FIRST_CODE + N_GLYPHS
    requires FIRST_CODE <= b as int < FIRST_CODE + N_GLYPHS
    requires GlyphIndex(a) == GlyphIndex(b)
    ensures a == b
  {
    assert a as int == b as int;
  }

  // ---------------------------------------------------------------------
  // Integer helpers

  /** Position of pixel (`row`, `col`) in a row-major image `width` pixels wide. */
  function Idx(row: nat, col: nat, width: nat): nat
  {
    row * width + col
  }

  lemma DivModUnique(x: nat, d: nat, q: nat, r: nat)
    requires 0 < d && r < d && x == q * d + r
    ensures x / d == q && x % d == r
  {
    var q' := x / d;
    var r' := x % d;
    assert x == q' * d + r';
    if q' < q {
      MulGap(q', q, d);
    } else if q' > q {
      MulGap(q, q', d);
    }
  }

  /** Multiples of `d` that differ are at least `d` apart. */
  lemma MulGap(a: int, b: int, d: int)
    requires a < b && 0 < d
    ensures a * d + d <= b * d
  {
    MulNonNegative(b - a - 1, d);
    assert b * d == a * d + d + (b - a - 1) * d;
  }

  lemma MulNonNegative(x: nat, y: nat)
    ensures x * y >= 0
  {
  }

  /** Row `a` of an `h`-row, `w`-column grid ends before the grid does. */
  lemma RowMajorBound(a: nat, b: nat, w: nat, h: nat)
    requires a < h && b < w
    ensures a * w + b < h * w
  {
    assert a * w + b < (a + 1) * w;
    assert (a + 1) * w <= h * w;
  }

  lemma DivBelow(i: nat, p: nat)
    requires 0 < p && i < p * p
    ensures i / p < p
  {
    if i / p >= p {
      MulGap(p - 1, i / p, p);
      assert false;
    }
  }

  /** A position in a `width` by `height` image splits into its row and column. */
  lemma IdxSplit(k: nat, width: nat, height: nat)
    requires k < width * height
    ensures 0 < width && k / width < height && k % width < width
    ensures k == Idx(k / width, k % width, width)
  {
    if k / width >= height {
      MulGap(height - 1, k / width, width);
      assert false;
    }
  }

  // ---------------------------------------------------------------------
  // Layout

  /**
   * `(n as f32).sqrt().ceil()`, taken as the smallest `k` with `k * k >= n`.
   */
  function CeilSqrt(n: nat): (k: nat)
    ensures k * k >= n
    ensures k == 0 || (k - 1) * (k - 1) < n
  {
    CeilSqrtFrom(n, 0)
  }

  function CeilSqrtFrom(n: nat, k: nat): (r: nat)
    requires k == 0 || (k - 1) * (k - 1) < n
    ensures r * r >= n
    ensures r == 0 || (r - 1) * (r - 1) < n
    decreases n - k
  {
    if k * k >= n then k
    else
      assert k <= k * k || k == 0;
      CeilSqrtFrom(n, k + 1)
  }

  lemma SquareMonotone(a: nat, b: nat)
    requires a < b
    ensures a * a < b * b
  {
    assert a * a <= a * b;
    assert a * b < b * b;
  }

  /** The two conditions of `CeilSqrt` single out one number. */
  lemma CeilSqrtUnique(n: nat, k: nat)
    requires k * k >= n
    requires k == 0 || (k - 1) * (k - 1) < n
    ensures CeilSqrt(n) == k
  {
    var c := CeilSqrt(n);
    if c < k {
      SquareMonotone(c, k - 1);
    } else if c > k {
      SquareMonotone(k, c - 1);
    }
  }

  /** Ninety-five glyphs go ten to a row. */
  lemma GlyphsPerRow()
    ensures CeilSqrt(N_GLYPHS) == 10
  {
    CeilSqrtUnique(N_GLYPHS, 10);
  }

  /** The widest glyph; zero for no glyphs. */
  function MaxWidth(metrics: seq<Metrics>): (w: nat)
    ensures forall i | 0 <= i < |metrics| :: metrics[i].width <= w
    ensures |metrics| > 0 ==> exists i | 0 <= i < |metrics| :: metrics[i].width == w
  {
    if |metrics| == 0 then 0
    else
      var rest := MaxWidth(metrics[..|metrics| - 1]);
      var last := metrics[|metrics| - 1].width;
      if rest >= last then rest else last
  }

  /** The tallest glyph; zero for no glyphs. */
  function MaxHeight(metrics: seq<Metrics>): (h: nat)
    ensures forall i | 0 <= i < |metrics| :: metrics[i].height <= h
    ensures |metrics| > 0 ==> exists i | 0 <= i < |metrics| :: metrics[i].height == h
  {
    if |metrics| == 0 then 0
    else
      var rest := MaxHeight(metrics[..|metrics| - 1]);
      var last := metrics[|metrics| - 1].height;
      if rest >= last then rest else last
  }

  /**
   * A grid of `perRow` by `perRow` cells, each `cellWidth` by `cellHeight`
   * pixels. Glyph `i` owns the cell in grid row `i / perRow` and grid column
   * `i % perRow`.
   */
  datatype Layout = Layout(cellWidth: nat, cellHeight: nat, perRow: nat) {
    function ImageWidth(): nat { cellWidth * perRow }
    function ImageHeight(): nat { cellHeight * perRow }

    /** First image row of glyph `i`'s cell (`ir`). */
    function CellRow(i: nat): nat
      requires perRow > 0
    {
      (i / perRow) * cellHeight
    }

    /** First image column of glyph `i`'s cell (`ic`). */
    function CellCol(i: nat): nat
      requires perRow > 0
    {
      (i % perRow) * cellWidth
    }

    /** Which glyph's cell pixel (`row`, `col`) belongs to. */
    function GlyphAt(row: nat, col: nat): nat
      requires cellWidth > 0 && cellHeight > 0
    {
      (row / cellHeight) * perRow + col / cellWidth
    }

    /** Room for `n` glyphs, each no larger than a cell. */
    predicate Holds(metrics: seq<Metrics>)
    {
      && perRow > 0
      && |metrics| <= perRow * perRow
      && forall i | 0 <= i < |metrics| :: metrics[i].width <= cellWidth && metrics[i].height <= cellHeight
    }
  }

  /** The measuring loop of `new`: the widest and the tallest glyph. */
  method MaxGlyphSize(metrics: seq<Metrics>) returns (maxWidth: nat, maxHeight: nat)
    ensures maxWidth == MaxWidth(metrics) && maxHeight == MaxHeight(metrics)
  {
    maxWidth, maxHeight := 0, 0;
    for i := 0 to |metrics|
      invariant maxWidth == MaxWidth(metrics[..i]) && maxHeight == MaxHeight(metrics[..i])
    {
      assert metrics[..i + 1][..i] == metrics[..i];
      maxWidth := if maxWidth >= metrics[i].width then maxWidth else metrics[i].width;
      maxHeight := if maxHeight >= metrics[i].height then maxHeight else metrics[i].height;
    }
    assert metrics[..|metrics|] == metrics;
  }

  /** The layout for `metrics` with `padding` extra pixels on each cell side length. */
  function LayoutFor(metrics: seq<Metrics>, padding: nat): (layout: Layout)
    ensures |metrics| > 0 ==> layout.Holds(metrics)
    ensures layout.cellWidth == MaxWidth(metrics) + padding
    ensures layout.cellHeight == MaxHeight(metrics) + padding
    ensures layout.perRow * layout.perRow >= |metrics|
  {
    Layout(MaxWidth(metrics) + padding, MaxHeight(metrics) + padding, CeilSqrt(|metrics|))
  }

  /** Pixel (`row`, `col`) of glyph cell `i`, offset by (`gr`, `gc`) inside the cell, is where the grid says. */
  lemma PixelOfCell(layout: Layout, i: nat, gr: nat, gc: nat)
    requires layout.perRow > 0 && i < layout.perRow * layout.perRow
    requires gr < layout.cellHeight && gc < layout.cellWidth
    ensures layout.CellRow(i) + gr < layout.ImageHeight()
    ensures layout.CellCol(i) + gc < layout.ImageWidth()
    ensures layout.GlyphAt(layout.CellRow(i) + gr, layout.CellCol(i) + gc) == i
    ensures (layout.CellRow(i) + gr) % layout.cellHeight == gr
    ensures (layout.CellCol(i) + gc) % layout.cellWidth == gc
  {
    var p := layout.perRow;
    DivBelow(i, p);
    DivModUnique(i, p, i / p, i % p);
    RowMajorBound(i / p, gr, layout.cellHeight, p);
    RowMajorBound(i % p, gc, layout.cellWidth, p);
    DivModUnique(layout.CellRow(i) + gr, layout.cellHeight, i / p, gr);
    DivModUnique(layout.CellCol(i) + gc, layout.cellWidth, i % p, gc);
  }

  /** Every image pixel lies in exactly the cell `GlyphAt` names, at the offset `%` gives. */
  lemma CellOfPixel(layout: Layout, row: nat, col: nat)
    requires layout.perRow > 0 && layout.cellWidth > 0 && layout.cellHeight > 0
    requires row < layout.ImageHeight() && col < layout.ImageWidth()
    ensures layout.GlyphAt(row, col) < layout.perRow * layout.perRow
    ensures row == layout.CellRow(layout.GlyphAt(row, col)) + row % layout.cellHeight
    ensures col == layout.CellCol(layout.GlyphAt(row, col)) + col % layout.cellWidth
  {
    var p := layout.perRow;
    var gRow := row / layout.cellHeight;
    var gCol := col / layout.cellWidth;
    IdxSplit(row, layout.cellHeight, p);
    IdxSplit(col, layout.cellWidth, p);
    var g := layout.GlyphAt(row, col);
    assert g == gRow * p + gCol;
    DivModUnique(g, p, gRow, gCol);
    RowMajorBound(gRow, gCol, p, p);
  }

  // ---------------------------------------------------------------------
  // Packing

  /**
   * Pixel (`row`, `col`) of the packed (not yet flipped) image: the matching
   * bitmap byte when the pixel falls on a glyph's bitmap inside that glyph's
   * cell, and 0 in padding, in cells right or below a shorter glyph, and in
   * unused cells.
   */
  function PackedPixel(layout: Layout, metrics: seq<Metrics>, bitmaps: seq<seq<Byte>>, row: nat, col: nat): Byte
    requires BitmapsFit(metrics, bitmaps)
  {
    if layout.cellWidth == 0 || layout.cellHeight == 0 then 0
    else
      var g := layout.GlyphAt(row, col);
      var gr := row % layout.cellHeight;
      var gc := col % layout.cellWidth;
      if g < |metrics| && gr < metrics[g].height && gc < metrics[g].width then
        RowMajorBound(gr, gc, metrics[g].width, metrics[g].height);
        bitmaps[g][Idx(gr, gc, metrics[g].width)]
      else 0
  }

  /** The packed image, row-major. */
  function Packed(layout: Layout, metrics: seq<Metrics>, bitmaps: seq<seq<Byte>>): (image: seq<Byte>)
    requires BitmapsFit(metrics, bitmaps)
    ensures |image| == layout.ImageWidth() * layout.ImageHeight()
  {
    var w := layout.ImageWidth();
    seq(w * layout.ImageHeight(), k requires 0 <= k < w * layout.ImageHeight() =>
      PackedPixel(layout, metrics, bitmaps, k / w, k % w))
  }

  /** Pixel (`row`, `col`) of the packed image, looked up by its row-major position. */
  lemma PackedAt(layout: Layout, metrics: seq<Metrics>, bitmaps: seq<seq<Byte>>, row: nat, col: nat)
    requires BitmapsFit(metrics, bitmaps)
    requires row < layout.ImageHeight() && col < layout.ImageWidth()
    ensures Idx(row, col, layout.ImageWidth()) < |Packed(layout, metrics, bitmaps)|
    ensures Packed(layout, metrics, bitmaps)[Idx(row, col, layout.ImageWidth())]
            == PackedPixel(layout, metrics, bitmaps, row, col)
  {
    var w := layout.ImageWidth();
    RowMajorBound(row, col, w, layout.ImageHeight());
    DivModUnique(Idx(row, col, w), w, row, col);
  }

  /** The closed form puts byte (`gr`, `gc`) of glyph `i` at offset (`gr`, `gc`) of the glyph's cell. */
  lemma PackedPixelOfGlyph(layout: Layout, metrics: seq<Metrics>, bitmaps: seq<seq<Byte>>, i: nat, gr: nat, gc: nat)
    requires BitmapsFit(metrics, bitmaps) && layout.Holds(metrics)
    requires i < |metrics| && gr < metrics[i].height && gc < metrics[i].width
    ensures layout.CellRow(i) + gr < layout.ImageHeight() && layout.CellCol(i) + gc < layout.ImageWidth()
    ensures Idx(gr, gc, metrics[i].width) < |bitmaps[i]|
    ensures layout.GlyphAt(layout.CellRow(i) + gr, layout.CellCol(i) + gc) == i
    ensures PackedPixel(layout, metrics, bitmaps, layout.CellRow(i) + gr, layout.CellCol(i) + gc)
            == bitmaps[i][Idx(gr, gc, metrics[i].width)]
  {
    PixelOfCell(layout, i, gr, gc);
    RowMajorBound(gr, gc, metrics[i].width, metrics[i].height);
  }

  /**
   * Byte (`gr`, `gc`) of glyph `i`'s bitmap lands at image row `CellRow(i) + gr`,
   * column `CellCol(i) + gc`, and no other glyph writes there.
   */
  lemma PackedGlyphPixel(layout: Layout, metrics: seq<Metrics>, bitmaps: seq<seq<Byte>>, i: nat, gr: nat, gc: nat)
    requires BitmapsFit(metrics, bitmaps) && layout.Holds(metrics)
    requires i < |metrics| && gr < metrics[i].height && gc < metrics[i].width
    ensures layout.CellRow(i) + gr < layout.ImageHeight() && layout.CellCol(i) + gc < layout.ImageWidth()
    ensures Idx(gr, gc, metrics[i].width) < |bitmaps[i]|
    ensures layout.GlyphAt(layout.CellRow(i) + gr, layout.CellCol(i) + gc) == i
    ensures Idx(layout.CellRow(i) + gr, layout.CellCol(i) + gc, layout.ImageWidth()) < |Packed(layout, metrics, bitmaps)|
    ensures Packed(layout, metrics, bitmaps)[Idx(layout.CellRow(i) + gr, layout.CellCol(i) + gc, layout.ImageWidth())]
            == bitmaps[i][Idx(gr, gc, metrics[i].width)]
  {
    PackedPixelOfGlyph(layout, metrics, bitmaps, i, gr, gc);
    PackedAt(layout, metrics, bitmaps, layout.CellRow(i) + gr, layout.CellCol(i) + gc);
  }

  /**
   * After glyphs below `i` and rows below `gr` of glyph `i` are copied: has
   * pixel (`row`, `col`) been written yet?
   */
  predicate Written(layout: Layout, i: nat, gr: nat, row: nat, col: nat)
    requires layout.cellWidth > 0 && layout.cellHeight > 0
  {
    var g := layout.GlyphAt(row, col);
    g < i || (g == i && row % layout.cellHeight < gr)
  }

  /** Byte `k` of the image part way through packing. */
  function Partial(layout: Layout, metrics: seq<Metrics>, bitmaps: seq<seq<Byte>>, i: nat, gr: nat, k: nat): Byte
    requires BitmapsFit(metrics, bitmaps) && layout.ImageWidth() > 0
  {
    var w := layout.ImageWidth();
    if layout.cellHeight > 0 && Written(layout, i, gr, k / w, k % w) then
      PackedPixel(layout, metrics, bitmaps, k / w, k % w)
    else 0
  }

  /** Where row `gr` of glyph `i` starts in the image, and that it fits in the image and in the bitmap. */
  lemma RowBounds(layout: Layout, metrics: seq<Metrics>, bitmaps: seq<seq<Byte>>, i: nat, gr: nat)
    requires BitmapsFit(metrics, bitmaps) && layout.Holds(metrics)
    requires i < |metrics| && gr < metrics[i].height && layout.ImageWidth() > 0
    ensures layout.cellWidth > 0 && layout.cellHeight > 0
    ensures layout.CellRow(i) + gr < layout.ImageHeight()
    ensures layout.CellCol(i) + metrics[i].width <= layout.ImageWidth()
    ensures Idx(layout.CellRow(i) + gr, layout.CellCol(i), layout.ImageWidth()) + metrics[i].width
            <= layout.ImageWidth() * layout.ImageHeight()
    ensures 0 <= gr * metrics[i].width && gr * metrics[i].width + metrics[i].width <= |bitmaps[i]|
  {
    var m := metrics[i];
    var w := layout.ImageWidth();
    var h := layout.ImageHeight();
    if m.width > 0 {
      MulGap(gr, m.height, m.width);
    }
    PixelOfCell(layout, i, gr, 0);
    var rowI := layout.CellRow(i) + gr;
    if m.width > 0 {
      PixelOfCell(layout, i, gr, m.width - 1);
      RowMajorBound(rowI, layout.CellCol(i) + m.width - 1, w, h);
    } else {
      RowMajorBound(rowI, layout.CellCol(i), w, h);
    }
  }

  /** A pixel that copying row `gr` of glyph `i` writes receives that row's byte. */
  lemma RowStepInside(layout: Layout, metrics: seq<Metrics>, bitmaps: seq<seq<Byte>>, i: nat, gr: nat, k: nat)
    requires BitmapsFit(metrics, bitmaps) && layout.Holds(metrics)
    requires i < |metrics| && gr < metrics[i].height
    requires layout.ImageWidth() > 0
    requires
      var start := Idx(layout.CellRow(i) + gr, layout.CellCol(i), layout.ImageWidth());
      start <= k < start + metrics[i].width
    ensures Idx(gr, k - Idx(layout.CellRow(i) + gr, layout.CellCol(i), layout.ImageWidth()), metrics[i].width) < |bitmaps[i]|
    ensures Partial(layout, metrics, bitmaps, i, gr + 1, k)
            == bitmaps[i][Idx(gr, k - Idx(layout.CellRow(i) + gr, layout.CellCol(i), layout.ImageWidth()), metrics[i].width)]
  {
    RowBounds(layout, metrics, bitmaps, i, gr);
    var w := layout.ImageWidth();
    var rowI := layout.CellRow(i) + gr;
    var j := k - Idx(rowI, layout.CellCol(i), w);
    assert k == Idx(rowI, layout.CellCol(i) + j, w);
    DivModUnique(k, w, rowI, layout.CellCol(i) + j);
    PixelOfCell(layout, i, gr, j);
    PackedPixelOfGlyph(layout, metrics, bitmaps, i, gr, j);
  }

  /** A pixel that copying row `gr` of glyph `i` does not write keeps its partial value. */
  lemma RowStepOutside(layout: Layout, metrics: seq<Metrics>, bitmaps: seq<seq<Byte>>, i: nat, gr: nat, k: nat)
    requires BitmapsFit(metrics, bitmaps) && layout.Holds(metrics)
    requires i < |metrics| && gr < metrics[i].height
    requires 0 < layout.ImageWidth() && k < layout.ImageWidth() * layout.ImageHeight()
    requires
      var start := Idx(layout.CellRow(i) + gr, layout.CellCol(i), layout.ImageWidth());
      !(start <= k < start + metrics[i].width)
    ensures Partial(layout, metrics, bitmaps, i, gr + 1, k) == Partial(layout, metrics, bitmaps, i, gr, k)
  {
    RowBounds(layout, metrics, bitmaps, i, gr);
    var w := layout.ImageWidth();
    IdxSplit(k, w, layout.ImageHeight());
    var row := k / w;
    var col := k % w;
    CellOfPixel(layout, row, col);
  }

  /** A glyph's rows past its bitmap height are left zero, so moving to the next glyph changes nothing. */
  lemma GlyphStep(layout: Layout, metrics: seq<Metrics>, bitmaps: seq<seq<Byte>>, i: nat, k: nat)
    requires BitmapsFit(metrics, bitmaps) && layout.Holds(metrics) && layout.ImageWidth() > 0
    requires i < |metrics|
    ensures Partial(layout, metrics, bitmaps, i, metrics[i].height, k) == Partial(layout, metrics, bitmaps, i + 1, 0, k)
  {
  }

  /** Copy `src` over `dst[start..start + |src|]`, as `copy_from_slice` does. */
  method CopyFromSlice(dst: array<Byte>, start: nat, src: seq<Byte>)
    requires start + |src| <= dst.Length
    modifies dst
    ensures forall k | 0 <= k < dst.Length ::
      dst[k] == if start <= k < start + |src| then src[k - start] else old(dst[k])
  {
    for j := 0 to |src|
      invariant forall k | 0 <= k < dst.Length ::
        dst[k] == if start <= k < start + j then src[k - start] else old(dst[k])
    {
      dst[start + j] := src[j];
    }
  }

  /** Every byte of `img` has its value part way through packing, at glyph `i`, bitmap row `gr`. */
  ghost predicate PartialDone(img: seq<Byte>, layout: Layout, metrics: seq<Metrics>, bitmaps: seq<seq<Byte>>, i: nat, gr: nat)
    requires BitmapsFit(metrics, bitmaps) && layout.ImageWidth() > 0
  {
    forall k | 0 <= k < |img| :: img[k] == Partial(layout, metrics, bitmaps, i, gr, k)
  }

  /** Copying row `gr` of glyph `i`'s bitmap to `start` moves the partial image on by one row. */
  lemma PackRowStep(layout: Layout, metrics: seq<Metrics>, bitmaps: seq<seq<Byte>>, i: nat, gr: nat,
                    start: nat, rowStart: nat, glyphRow: seq<Byte>, before: seq<Byte>, after: seq<Byte>)
    requires BitmapsFit(metrics, bitmaps) && layout.Holds(metrics) && layout.ImageWidth() > 0
    requires i < |metrics| && gr < metrics[i].height
    requires |before| == layout.ImageWidth() * layout.ImageHeight()
    requires start == Idx(layout.CellRow(i) + gr, layout.CellCol(i), layout.ImageWidth())
    requires rowStart == gr * metrics[i].width && rowStart + metrics[i].width <= |bitmaps[i]|
    requires glyphRow == bitmaps[i][rowStart .. rowStart + metrics[i].width]
    requires PartialDone(before, layout, metrics, bitmaps, i, gr)
    requires |after| == |before|
    requires forall k | 0 <= k < |after| ::
      after[k] == if start <= k < start + |glyphRow| then glyphRow[k - start] else before[k]
    ensures PartialDone(after, layout, metrics, bitmaps, i, gr + 1)
  {
    forall k | 0 <= k < |after|
      ensures after[k] == Partial(layout, metrics, bitmaps, i, gr + 1, k)
    {
      if start <= k < start + |glyphRow| {
        RowStepInside(layout, metrics, bitmaps, i, gr, k);
      } else {
        RowStepOutside(layout, metrics, bitmaps, i, gr, k);
      }
    }
  }

  /** One step of the packing loop: row `gr` of glyph `i`'s bitmap copied into its cell. */
  method CopyGlyphRow(img: array<Byte>, layout: Layout, metrics: seq<Metrics>, bitmaps: seq<seq<Byte>>, i: nat, gr: nat)
    requires BitmapsFit(metrics, bitmaps) && layout.Holds(metrics) && layout.ImageWidth() > 0
    requires img.Length == layout.ImageWidth() * layout.ImageHeight()
    requires i < |metrics| && gr < metrics[i].height
    requires PartialDone(img[..], layout, metrics, bitmaps, i, gr)
    modifies img
    ensures PartialDone(img[..], layout, metrics, bitmaps, i, gr + 1)
  {
    RowBounds(layout, metrics, bitmaps, i, gr);
    var m := metrics[i];
    var rowStart := gr * m.width;
    var glyphRow := bitmaps[i][rowStart .. rowStart + m.width];
    var start := Idx(layout.CellRow(i) + gr, layout.CellCol(i), layout.ImageWidth());
    ghost var before := img[..];
    CopyFromSlice(img, start, glyphRow);
    PackRowStep(layout, metrics, bitmaps, i, gr, start, rowStart, glyphRow, before, img[..]);
  }

  /**
   * The packing loop of `GlyphAtlas::new`: a zero-filled image, then for
   * each glyph and each of its bitmap rows, that row copied into the
   * glyph's cell. The result is the closed form `Packed`.
   */
  method PackGlyphs(layout: Layout, metrics: seq<Metrics>, bitmaps: seq<seq<Byte>>) returns (image: seq<Byte>)
    requires BitmapsFit(metrics, bitmaps) && layout.Holds(metrics)
    ensures image == Packed(layout, metrics, bitmaps)
  {
    var img := new Byte[layout.ImageWidth() * layout.ImageHeight()](_ => 0);
    if layout.ImageWidth() == 0 {
      image := img[..];
      return;
    }
    for i := 0 to |metrics|
      invariant PartialDone(img[..], layout, metrics, bitmaps, i, 0)
    {
      for gr := 0 to metrics[i].height
        invariant PartialDone(img[..], layout, metrics, bitmaps, i, gr)
      {
        CopyGlyphRow(img, layout, metrics, bitmaps, i, gr);
      }
      forall k | 0 <= k < img.Length
        ensures img[k] == Partial(layout, metrics, bitmaps, i + 1, 0, k)
      {
        GlyphStep(layout, metrics, bitmaps, i, k);
      }
    }
    image := img[..];
    forall k | 0 <= k < |image|
      ensures image[k] == Packed(layout, metrics, bitmaps)[k]
    {
      assert image[k] == Partial(layout, metrics, bitmaps, |metrics|, 0, k);
    }
  }

  // ---------------------------------------------------------------------
  // Flipping

  /** The image upside down: row `r` of the result is row `height - 1 - r` of `image`. */
  function FlipRowsOf(image: seq<Byte>, width: nat, height: nat): (flipped: seq<Byte>)
    requires |image| == width * height
    ensures |flipped| == |image|
  {
    seq(width * height, k requires 0 <= k < width * height =>
      IdxSplit(k, width, height);
      RowMajorBound(height - 1 - k / width, k % width, width, height);
      image[Idx(height - 1 - k / width, k % width, width)])
  }

  /** Pixel (`r`, `col`) of the flipped image is pixel (`height - 1 - r`, `col`) of the original. */
  lemma FlipRowsPixel(image: seq<Byte>, width: nat, height: nat, r: nat, col: nat)
    requires |image| == width * height && r < height && col < width
    ensures Idx(r, col, width) < |image| && Idx(height - 1 - r, col, width) < |image|
    ensures FlipRowsOf(image, width, height)[Idx(r, col, width)] == image[Idx(height - 1 - r, col, width)]
  {
    RowMajorBound(r, col, width, height);
    RowMajorBound(height - 1 - r, col, width, height);
    DivModUnique(Idx(r, col, width), width, r, col);
  }

  /** Flipping twice gives the image back. */
  lemma {:induction false} FlipRowsTwice(image: seq<Byte>, width: nat, height: nat)
    requires |image| == width * height
    ensures FlipRowsOf(FlipRowsOf(image, width, height), width, height) == image
  {
    var once := FlipRowsOf(image, width, height);
    var twice := FlipRowsOf(once, width, height);
    forall k | 0 <= k < |image|
      ensures twice[k] == image[k]
    {
      IdxSplit(k, width, height);
      var r := k / width;
      var col := k % width;
      FlipRowsPixel(once, width, height, r, col);
      FlipRowsPixel(image, width, height, height - 1 - r, col);
    }
  }

  /** The first `n` pixels of `out` are those of `target`, and the rest are still zero. */
  ghost predicate PrefixDone(out: seq<Byte>, target: seq<Byte>, n: nat)
  {
    && |out| == |target|
    && forall k | 0 <= k < |out| :: out[k] == if k < n then target[k] else 0
  }

  lemma MulSucc(r: nat, w: nat)
    ensures r * w + w == (r + 1) * w
  {
  }

  /** Copying mirrored row `height - 1 - r` into row `r` extends the flipped prefix by one row. */
  lemma FlipRowStep(image: seq<Byte>, width: nat, height: nat, r: nat, start: nat, srcStart: nat,
                    source: seq<Byte>, before: seq<Byte>, after: seq<Byte>)
    requires |image| == width * height && 0 < width && r < height
    requires start == r * width && srcStart == (height - 1 - r) * width
    requires srcStart + width <= |image| && source == image[srcStart..srcStart + width]
    requires PrefixDone(before, FlipRowsOf(image, width, height), start)
    requires |after| == |before|
    requires forall k | 0 <= k < |after| ::
      after[k] == if start <= k < start + |source| then source[k - start] else before[k]
    ensures PrefixDone(after, FlipRowsOf(image, width, height), start + width)
  {
    var target := FlipRowsOf(image, width, height);
    forall k | start <= k < start + width
      ensures after[k] == target[k]
    {
      FlipRowsPixel(image, width, height, r, k - start);
    }
  }

  /** One step of the flipping loop: row `height - 1 - r` of `image` copied into row `r` of `out`. */
  method CopyMirroredRow(out: array<Byte>, image: seq<Byte>, width: nat, height: nat, r: nat)
    requires |image| == width * height && 0 < width && r < height
    requires PrefixDone(out[..], FlipRowsOf(image, width, height), r * width)
    modifies out
    ensures PrefixDone(out[..], FlipRowsOf(image, width, height), (r + 1) * width)
  {
    RowMajorBound(height - 1 - r, width - 1, width, height);
    RowMajorBound(r, width - 1, width, height);
    var start := r * width;
    var srcStart := (height - 1 - r) * width;
    var source := image[srcStart .. srcStart + width];
    ghost var before := out[..];
    CopyFromSlice(out, start, source);
    FlipRowStep(image, width, height, r, start, srcStart, source, before, out[..]);
    MulSucc(r, width);
  }

  /** A prefix covering the whole image is the image. */
  lemma PrefixDoneAll(out: seq<Byte>, target: seq<Byte>, n: nat)
    requires PrefixDone(out, target, n) && |out| <= n
    ensures out == target
  {
  }

  /** The flipping loop: each output row copied from the mirrored input row. */
  method FlipRows(image: seq<Byte>, width: nat, height: nat) returns (flipped: seq<Byte>)
    requires |image| == width * height
    ensures flipped == FlipRowsOf(image, width, height)
  {
    var out := new Byte[|image|](_ => 0);
    if width == 0 {
      flipped := out[..];
      return;
    }
    ghost var target := FlipRowsOf(image, width, height);
    for r := 0 to height
      invariant PrefixDone(out[..], target, r * width)
    {
      CopyMirroredRow(out, image, width, height, r);
    }
    PrefixDoneAll(out[..], target, height * width);
    flipped := out[..];
  }

  /** The finished atlas image: packed, then flipped. */
  function AtlasPixels(layout: Layout, metrics: seq<Metrics>, bitmaps: seq<seq<Byte>>): seq<Byte>
    requires BitmapsFit(metrics, bitmaps)
  {
    FlipRowsOf(Packed(layout, metrics, bitmaps), layout.ImageWidth(), layout.ImageHeight())
  }

  /**
   * Byte (`gr`, `gc`) of glyph `i`'s bitmap is pixel
   * (`ImageHeight - 1 - (CellRow(i) + gr)`, `CellCol(i) + gc`) of the finished atlas.
   */
  lemma AtlasGlyphPixel(layout: Layout, metrics: seq<Metrics>, bitmaps: seq<seq<Byte>>, i: nat, gr: nat, gc: nat)
    requires BitmapsFit(metrics, bitmaps) && layout.Holds(metrics)
    requires i < |metrics| && gr < metrics[i].height && gc < metrics[i].width
    ensures layout.CellRow(i) + gr < layout.ImageHeight() && layout.CellCol(i) + gc < layout.ImageWidth()
    ensures Idx(gr, gc, metrics[i].width) < |bitmaps[i]|
    ensures Idx(layout.ImageHeight() - 1 - (layout.CellRow(i) + gr), layout.CellCol(i) + gc, layout.ImageWidth())
            < |AtlasPixels(layout, metrics, bitmaps)|
    ensures
      var row := layout.ImageHeight() - 1 - (layout.CellRow(i) + gr);
      AtlasPixels(layout, metrics, bitmaps)[Idx(row, layout.CellCol(i) + gc, layout.ImageWidth())]
      == bitmaps[i][Idx(gr, gc, metrics[i].width)]
  {
    PackedGlyphPixel(layout, metrics, bitmaps, i, gr, gc);
    var h := layout.ImageHeight();
    FlipRowsPixel(Packed(layout, metrics, bitmaps), layout.ImageWidth(), h,
                  h - 1 - (layout.CellRow(i) + gr), layout.CellCol(i) + gc);
  }
}
