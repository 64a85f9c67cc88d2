# simg core, modelled in Dafny

simg is a small Rust 2-D/3-D drawing library on top of SDL2 and OpenGL. This
project models its CPU-side core and proves properties of that model:

- the CPU vertex buffer `VertexBufferCPU` (src/vertex_buffer.rs). It keeps five
  parallel attribute arrays and an optional index list. The model covers
  `push_vertex`, the range getters, flag and colour updates over vertex
  ranges, `clear`, and the polygon loop of `from_obj_bytes`;
- the shapes of src/shapes.rs: rectangles built from any of nine pivot points,
  their getters, translation and split into two triangles, and the 16-triangle
  circle fan;
- the square-root-free collision arithmetic of src/geometry.rs: `rotate90`,
  the strict point-in-rectangle test, the rectangle-rectangle minimum
  translation vector (MTV), and the centre-inside and extreme-point branches
  of the circle-rectangle MTV;
- the glyph atlases of src/glyph_atlas.rs and src/font.rs. The 95 printable
  ASCII glyphs go into a square grid of equal cells, bitmap rows are copied
  into the cells, and the image is flipped vertically. The model also covers
  glyph lookup with the '?' fallback, text measurement, and text layout from
  a pivot;
- key-state tracking of src/input.rs (`press`, `release`, `clear`, and the event
  dispatch of `Input::update`), the colour helpers of src/color.rs, and the
  uniform-argument map of src/program.rs.

Files: `wrappers.dfy` (Option/Result), `vectors.dfy` (2-D and 3-D points
over `real`), `common.dfy` (pivot types), `color.dfy`, `program.dfy`,
`input.dfy`, `shapes.dfy`, `geometry.dfy`, `atlas_layout.dfy` (the grid
packing and flip that both atlases share), `glyph_atlas.dfy`, `font.dfy`,
`vertex_buffer.dfy`.

The model keeps the source's own shapes:

- State the source updates in place is a Dafny `class`:
  - `VertexBufferCpu`, `KeyStates`, `Input` and `Program`;
  - each method's contract gives the new state through a pure transition function on a value view (`Data()`, `Snapshot()`);
  - the lemmas are about those functions.
- Loops in the source are `method`s with loop invariants, each proved against a closed-form function:
  - the atlas packing loop against `Packed`, the flip against `FlipRowsOf`;
  - the text loops against `Pen` and `TextHeight`;
  - the OBJ corner loop against `ObjAttrs`.
- `f32` is `real`, `usize` is `nat`, `u8` is `bv8`.

Two places where the model follows the code as written:

- `clear` (src/vertex_buffer.rs:296-302) empties every array except the
  normals. A push after `clear` then appends after the stale normals, and a
  normals slice from vertex 0 reads the old ones (see "## Findings").
- `iter_text_glyphs` matches its pivot as an enum with a position payload, while
  src/common.rs declares `Pivot` as a struct with a `PivotType` tag. The text
  layout gets its own enum `Atlas.Pivot`; the struct is `Common.Pivot`.

`ZEROS`, which src/color.rs does not define, is the all-zero colour
`Colors.ZEROS`.

## Model

| member | source | states |
|---|---|---|
| Colors.Color.AsArr | src/color.rs:14-16 | four channels in the order r, g, b, a; the colour is rebuilt from them |
| Colors.Color.WithAlpha | src/color.rs:27-32 | red, green and blue unchanged, alpha replaced |
| Colors.WithAlphaRestores | src/color.rs:27-32 | setting the alpha back to the old value gives the original colour |
| Colors.New | src/color.rs:10-12 | the channels are the arguments in order |
| Colors.Gray | src/color.rs:18-25 | r = g = b = c and alpha a; equal to an opaque grey with the alpha replaced |
| Colors.NamedColors | src/color.rs:35-88 | the nine named constants all have alpha 1 |
| Programs.WithArg | src/program.rs:22-24 | the name is bound to the argument, the key set gains only the name, every other binding is kept |
| Programs.WithArgLastWins | src/program.rs:22-24 | binding a name twice keeps only the second value |
| Programs.WithArgCommutes | src/program.rs:22-24 | bindings of different names commute |
| Programs.Program.constructor | src/program.rs:15-20 | the handle as given and an empty argument map |
| Programs.Program.SetArg | src/program.rs:22-24 | the map becomes `WithArg` of the old map; the handle is unchanged |
| Input.KeySets.Clear | src/input.rs:22-25 | just-pressed and just-released emptied, held keys kept |
| Input.KeySets.Press | src/input.rs:27-31 | the key is held afterwards; it is just pressed iff it already was or was not held; nothing else changes |
| Input.KeySets.Release | src/input.rs:33-37 | the key is no longer held; just-pressed unchanged; just-released loses exactly the key if it was held and is otherwise unchanged |
| Input.KeySets.ReleaseRecorded | src/input.rs:33-37 | corrected release: a key that was held is added to just-released |
| Input.EmptyKeySets | src/input.rs:40-51 | all three sets empty |
| Input.PressIdempotent | src/input.rs:27-31 | pressing a held key again changes nothing |
| Input.PressReleaseNotReported | src/input.rs:27-37 | as written, a key pressed and released in one frame is not reported as released |
| Input.PressReleaseRecordedReported | src/input.rs:27-37 | with the corrected release, such a key is reported as released |
| Input.KeyStates.Default | src/input.rs:40-51 | a new key state has all three sets empty |
| Input.KeyStates.Clear | src/input.rs:22-25 | the new state is `KeySets.Clear` of the old one |
| Input.KeyStates.Press | src/input.rs:27-31 | the new state is `KeySets.Press` of the old one |
| Input.KeyStates.Release | src/input.rs:33-37 | the new state is `KeySets.Release` of the old one |
| Input.ShouldQuitSticky | src/input.rs:75-109 | once `should_quit` is set, no later events reset it |
| Input.QuitSetsShouldQuit | src/input.rs:82 | a quit event anywhere in a frame's events sets `should_quit` |
| Input.NothingJustReleasedKept | src/input.rs:33-37 | events never add a just-released key |
| Input.Input.constructor | src/input.rs:63-73 | not quitting, three separate empty key states |
| Input.Input.Update | src/input.rs:75-109 | the three key states cleared, then each event dispatched in order; key events need both a keycode and a scancode |
| Input.UpdateReportsNoRelease | src/input.rs:75-109 | after any update no key state reports a just-released key |
| Shapes.Triangle.ToVertices | src/shapes.rs:67-69 | three corners in the order a, b, c |
| Shapes.NewTriangle2d | src/shapes.rs:60-65 | the 2-D corners lifted to z = 0, order kept |
| Shapes.Rectangle.Translate | src/shapes.rs:90-100 | the bottom-left corner moved by t, the size kept |
| Shapes.Rectangle.TranslateX | src/shapes.rs:102-105 | the same as translating by (dx, 0) |
| Shapes.TranslateMovesAnchors | src/shapes.rs:90-100 | translating moves each of the nine pivot points by t |
| Shapes.GettersAreAnchors | src/shapes.rs:107-187 | every corner, centre and midpoint getter returns the pivot point of the same name; min/max and centre x are those points' coordinates; width and height are the size |
| Shapes.Rectangle.FromBotLeft | src/shapes.rs:264-271 | bottom-left is p, top-right is p + s, size is s |
| Shapes.Rectangle.FromCenter | src/shapes.rs:205-210 | `get_center` gives the centre back; size is s |
| Shapes.Rectangle.FromLeftCenter | src/shapes.rs:212-220 | `get_left_center` gives the point back; size is s |
| Shapes.Rectangle.FromRightCenter | src/shapes.rs:222-231 | the right-centre pivot point is the argument; size is s |
| Shapes.Rectangle.FromTopLeft | src/shapes.rs:233-241 | `get_top_left` gives the point back; size is s |
| Shapes.Rectangle.FromTopRight | src/shapes.rs:243-251 | `get_top_right` gives the point back; size is s |
| Shapes.Rectangle.FromTopCenter | src/shapes.rs:253-262 | `get_top_center` gives the point back; size is s |
| Shapes.Rectangle.FromBotRight | src/shapes.rs:273-281 | `get_bot_right` gives the point back; size is s |
| Shapes.Rectangle.FromBotCenter | src/shapes.rs:283-291 | `get_bot_center` gives the point back; size is s |
| Shapes.Rectangle.FromPivot | src/shapes.rs:189-203 | the rectangle's pivot point of the given type is the given point; size is s |
| Shapes.FromPivotOfAnchor | src/shapes.rs:189-203 | a rectangle is rebuilt exactly from any one of its pivot points and its size |
| Shapes.Rectangle.GetVertices | src/shapes.rs:308-315 | the corners in the order bottom-left, bottom-right, top-right, top-left |
| Shapes.Rectangle.GetTriangles | src/shapes.rs:293-306 | two triangles (TL, BL, TR), (TR, BL, BR) on z = 0; their corners are exactly the four vertices; both have doubled area width times height, positive for a positive size |
| Shapes.CircleExtremesOnBox | src/shapes.rs:333-375 | the circle's min/max coordinates are its bounding square's sides; left, right, top and bottom points are the midpoints of those sides |
| Shapes.Circle.FromBot | src/shapes.rs:377-382 | `get_bot` gives the point back; radius kept |
| Shapes.Circle.ToTriangles | src/shapes.rs:384-397 | sixteen triangles; triangle i is (centre, rim point i + 1 mod 16, rim point i) |
| Shapes.Circle.FanTrianglesShareRim | src/shapes.rs:384-397 | every triangle starts at the centre, and its second corner is the next triangle's third, so the fan closes |
| Geometry.Rotate90 | src/geometry.rs:11-13 | the result is perpendicular to v, as long as v, and a counter-clockwise turn |
| Geometry.Rotate90FourTimes | src/geometry.rs:11-13 | four quarter turns give v back |
| Geometry.CheckIfPointInRectangle | src/geometry.rs:235-243 | true iff strictly inside on both axes; a point on an edge is outside; nothing is inside a degenerate rectangle |
| Geometry.GetRectangleRectangleMtv | src/geometry.rs:32-72 | `None` iff the union is wider than the two widths added together, or taller than the two heights added together; otherwise one component is zero, and the kept one is the penetration on the axis whose absolute value is smaller, x on a tie |
| Geometry.RectangleMtvSeparates | src/geometry.rs:32-72 | moving the first rectangle by the vector leaves the two interiors apart |
| Geometry.RectangleMtvNoneIffApart | src/geometry.rs:38-49 | for sizes that are not negative, `None` iff a gap separates the closed rectangles along x or y |
| Geometry.NearestEdge | src/geometry.rs:111-130 | the edge at least distance; among ties the first of left, right, top, bottom |
| Geometry.GetCircleRectangleMtv | src/geometry.rs:94-139 | centre inside: push out through the nearest edge by its distance plus the radius. Else the first of the left, right, top and bottom points found inside decides the push. Else the corner case |
| Geometry.EdgePushSeparates | src/geometry.rs:122-129 | pushing through an edge by its distance plus the radius clears the rectangle |
| Geometry.CircleRectangleMtvSeparates | src/geometry.rs:94-139 | after any axis-aligned push, the circle's bounding square and the rectangle have disjoint interiors |
| AtlasLayout.GlyphIndex | src/glyph_atlas.rs:180-189 | code − 32 for codes 32 to 126, the index of '?' for every other character |
| AtlasLayout.GlyphIndexInjective | src/glyph_atlas.rs:180-189 | distinct printable characters get distinct glyphs |
| AtlasLayout.CeilSqrt | src/glyph_atlas.rs:70 | the smallest k with k·k ≥ n |
| AtlasLayout.CeilSqrtUnique | src/glyph_atlas.rs:70 | those two conditions determine k |
| AtlasLayout.GlyphsPerRow | src/glyph_atlas.rs:69-70 | 95 glyphs go ten to a row |
| AtlasLayout.MaxWidth | src/glyph_atlas.rs:62 | at least every glyph's width and equal to one of them |
| AtlasLayout.MaxHeight | src/glyph_atlas.rs:63 | at least every glyph's height and equal to one of them |
| AtlasLayout.MaxGlyphSize | src/glyph_atlas.rs:49-64 | the measuring loop computes `MaxWidth` and `MaxHeight` |
| AtlasLayout.LayoutFor | src/glyph_atlas.rs:66-72 | cells are the largest glyph plus the padding; there are enough cells and every glyph fits its cell |
| AtlasLayout.PixelOfCell | src/glyph_atlas.rs:75-77 | offset (gr, gc) of glyph i's cell lies inside the image, and is in the cell of glyph i and no other |
| AtlasLayout.CellOfPixel | src/glyph_atlas.rs:75-77 | every image pixel lies in one cell, at the offset given by `%` |
| AtlasLayout.PackedGlyphPixel | src/glyph_atlas.rs:98-109 | byte (gr, gc) of glyph i's bitmap is the packed pixel at (cell row + gr, cell column + gc) |
| AtlasLayout.CopyFromSlice | src/glyph_atlas.rs:108 | the slice is overwritten with the source and nothing else changes |
| AtlasLayout.CopyGlyphRow | src/glyph_atlas.rs:101-109 | copying bitmap row gr of glyph i moves the packing on by one row |
| AtlasLayout.PackGlyphs | src/glyph_atlas.rs:74-110 | the packing loop yields the closed-form `Packed` image: a glyph's bytes in its cell, zero elsewhere |
| AtlasLayout.FlipRowsOf | src/glyph_atlas.rs:112-121 | the flipped image has as many bytes as the packed one |
| AtlasLayout.FlipRowsPixel | src/glyph_atlas.rs:112-121 | output row r is input row height − 1 − r |
| AtlasLayout.FlipRowsTwice | src/glyph_atlas.rs:112-121 | flipping twice gives the image back |
| AtlasLayout.CopyMirroredRow | src/glyph_atlas.rs:113-121 | one loop step copies one more flipped row |
| AtlasLayout.FlipRows | src/glyph_atlas.rs:112-121 | the flipping loop yields `FlipRowsOf` |
| AtlasLayout.AtlasGlyphPixel | src/glyph_atlas.rs:74-121 | byte (gr, gc) of glyph i is the finished atlas pixel at row height − 1 − (cell row + gr), column cell column + gc |
| Atlas.AtlasGlyphs | src/glyph_atlas.rs:75-96 | one record per glyph in code order: quad from the metrics, texture rectangle at the cell's top-left, the advance |
| Atlas.StartPosition | src/glyph_atlas.rs:153-169 | defined for exactly the bottom-left, centre, top-centre and bottom-centre pivots; the text block from that start has its pivot point on the given position |
| Atlas.GlyphAtlas.TextHeight | src/glyph_atlas.rs:140 | at least every glyph quad's height and equal to one of them, or 0 |
| Atlas.GlyphAtlas.TextSize | src/glyph_atlas.rs:134-144 | width is the sum of the advances, height the tallest quad; (0, 0) for empty text |
| Atlas.GlyphAtlas.PenStep | src/glyph_atlas.rs:174 | each character moves the pen by its glyph's advance |
| Atlas.GlyphAtlas.PlaceGlyphs | src/glyph_atlas.rs:171-177 | glyph k is its quad moved to the start plus the advances of glyphs 0 to k − 1 |
| Atlas.GlyphAtlas.IterTextGlyphs | src/glyph_atlas.rs:146-178 | `None` exactly for the unsupported pivots; otherwise one placed glyph per character from the pivot's start position |
| Atlas.GlyphAtlas.New | src/glyph_atlas.rs:26-132 | 95 glyphs. Line metrics or the 0.85/−0.25 fallback. Cells are the largest glyph plus 2, ten to a row, and the image has width·height bytes. Pixels are packed then flipped; glyph i is `AtlasGlyph` of its metrics |
| Atlas.GlyphAtlas.GetGlyph | src/glyph_atlas.rs:180-189 | a code from 32 to 126 gets glyph code − 32; any other character gets the glyph of '?' |
| Atlas.GetGlyphFallback | src/glyph_atlas.rs:180-189 | a character outside 32 to 126 gets the glyph of '?' |
| Atlas.PenAppend | src/glyph_atlas.rs:171-177 | the pen after a + b is the pen after a plus the pen after b |
| Atlas.PlacedGlyphAppend | src/glyph_atlas.rs:171-177 | laying out a + b places b's glyphs where laying out b from the pen after a would |
| Atlas.TexcoordsCoverGlyph | src/glyph_atlas.rs:79-121 | the texture rectangle of glyph i covers each atlas pixel its bitmap bytes were copied to |
| FontAtlas.FontGlyphs | src/font.rs:47-56 | glyph i records x = cell column, y = image height − cell row, and its metrics |
| FontAtlas.GlyphAtlas.New | src/font.rs:19-89 | 95 glyphs. Cells are exactly the largest glyph, ten to a row, and the image has width·height bytes. Pixels are packed then flipped; glyph i is `FontGlyph` of its metrics |
| FontAtlas.GlyphAtlas.GetGlyph | src/font.rs:91-98 | a code from 32 to 126 gets glyph code − 32; any other character gets the glyph of '?' |
| FontAtlas.GetGlyphFallback | src/font.rs:91-98 | a character outside 32 to 126 gets the glyph of '?' |
| FontAtlas.GlyphCornerLocatesBitmap | src/font.rs:47-81 | the recorded corner locates the glyph's bitmap in the flipped atlas, byte for byte |
| VertexBuffer.PushFlags | src/vertex_buffer.rs:157-175 | `HasNormal` set iff a normal was given, `HasTexture` iff a texture coordinate was, no other bit |
| VertexBuffer.VertexData.NVertices | src/vertex_buffer.rs:242-244 | the number of whole three-component positions: 3·n ≤ positions < 3·n + 3 |
| VertexBuffer.VertexData.NIndices | src/vertex_buffer.rs:246-248 | 0 without indices, else the index count |
| VertexBuffer.VertexData.PositionsSlice | src/vertex_buffer.rs:202-208 | n·3 values; component j of vertex v is component j of vertex from + v |
| VertexBuffer.VertexData.NormalsSlice | src/vertex_buffer.rs:210-216 | the same with stride 3 over normals |
| VertexBuffer.VertexData.ColorsSlice | src/vertex_buffer.rs:218-224 | the same with stride 4 over colours |
| VertexBuffer.VertexData.TexcoordsSlice | src/vertex_buffer.rs:226-232 | the same with stride 2 over texture coordinates |
| VertexBuffer.VertexData.FlagsSlice | src/vertex_buffer.rs:234-240 | flag v of the slice is flag from + v |
| VertexBuffer.VertexData.Push | src/vertex_buffer.rs:144-176 | on every buffer: the position appended, one more vertex, 3 normal, 4 colour and 2 texcoord components appended after the old ones, the flag byte of the given attributes appended, indices untouched; an aligned buffer stays aligned |
| VertexBuffer.PushThenSlices | src/vertex_buffer.rs:144-176 | the new vertex reads back as pushed, with zero normal and texture coordinate and the all-zero colour by default; earlier vertices unchanged |
| VertexBuffer.VertexData.SetFlagsRange | src/vertex_buffer.rs:262-269 | flags in the range become f, all other flags and arrays unchanged |
| VertexBuffer.VertexData.UnsetFlagsRange | src/vertex_buffer.rs:271-280 | flags in the range lose the bits of f, all else unchanged |
| VertexBuffer.UnsetFlagsClearsBits | src/vertex_buffer.rs:271-280 | no flag in the range keeps a bit of f; unsetting twice is unsetting once |
| VertexBuffer.SetThenUnsetFlags | src/vertex_buffer.rs:262-280 | set to f then unset g gives f without g's bits in the range |
| VertexBuffer.VertexData.SetColorsRange | src/vertex_buffer.rs:282-294 | colour values in the range take the colour's channels by position mod 4, all else unchanged |
| VertexBuffer.SetColorsThenSlice | src/vertex_buffer.rs:282-294 | every vertex of the range reads back the colour |
| VertexBuffer.VertexData.Clear | src/vertex_buffer.rs:296-302 | as written: positions, colours, texcoords and flags empty, the index list emptied if present, normals kept |
| VertexBuffer.ClearKeepsStaleNormals | src/vertex_buffer.rs:296-302 | a one-vertex buffer cleared and given a normal-less vertex reads back the old normal |
| VertexBuffer.VertexData.ClearAll | src/vertex_buffer.rs:296-302 | corrected clear: all five arrays empty (so aligned), the index list emptied if present |
| VertexBuffer.ClearAllThenPush | src/vertex_buffer.rs:296-302 | after the corrected clear a pushed vertex is the only one and reads back its own normal |
| VertexBuffer.CornerAttrs | src/vertex_buffer.rs:72-134 | three positions, three normals, two texture coordinates per corner, and one flag byte except for P corners |
| VertexBuffer.PolygonAttrsLengths | src/vertex_buffer.rs:72-134 | the arrays of k corners of a polygon have lengths 3k, 3k, 2k and k, or 0 flags for P |
| VertexBuffer.ObjAttrsLengths | src/vertex_buffer.rs:71-136 | over the first i polygons: 3n, 3n, 2n values, and n minus the P corners flag bytes |
| VertexBuffer.ObjBuffer | src/vertex_buffer.rs:138-141 | the assembled positions, normals, texcoords and flags passed through; four colour components per vertex, each 1.0; no indices |
| VertexBuffer.ObjBufferAlignedIffNoPCorners | src/vertex_buffer.rs:71-141 | as written, the built buffer is aligned iff no P polygon has corners |
| VertexBuffer.PTriangleLeavesFlagsShort | src/vertex_buffer.rs:73-86 | one P triangle gives three vertices and no flag bytes |
| VertexBuffer.CorrectedObjBufferAligned | src/vertex_buffer.rs:71-141 | with a 0 flag byte per P corner, every built buffer is aligned |
| VertexBuffer.ReadCorner | src/vertex_buffer.rs:72-134 | the corner's attributes read out of the OBJ data, as `CornerAttrs` |
| VertexBuffer.AssembleObj | src/vertex_buffer.rs:65-136 | the polygon loop builds `ObjAttrs` of all polygons |
| VertexBuffer.VertexBufferCpu.constructor | src/vertex_buffer.rs:31-47 | the arrays as given |
| VertexBuffer.VertexBufferCpu.Empty | src/vertex_buffer.rs:49-58 | no vertices, no indices, aligned |
| VertexBuffer.VertexBufferCpu.FromObj | src/vertex_buffer.rs:60-142 | the buffer is `ObjBuffer` of the assembled arrays |
| VertexBuffer.VertexBufferCpu.PushVertex | src/vertex_buffer.rs:144-176 | the new contents are `VertexData.Push` of the old |
| VertexBuffer.VertexBufferCpu.SetFlagsSlice | src/vertex_buffer.rs:262-269 | the new contents are `SetFlagsRange` of the old |
| VertexBuffer.VertexBufferCpu.UnsetFlagsSlice | src/vertex_buffer.rs:271-280 | the loop yields `UnsetFlagsRange` of the old contents |
| VertexBuffer.VertexBufferCpu.SetColorsSlice | src/vertex_buffer.rs:282-294 | the loop yields `SetColorsRange` of the old contents |
| VertexBuffer.VertexBufferCpu.SetFlags | src/vertex_buffer.rs:250-252 | the range is every vertex counted by positions |
| VertexBuffer.VertexBufferCpu.UnsetFlags | src/vertex_buffer.rs:254-256 | the range is every vertex counted by positions |
| VertexBuffer.VertexBufferCpu.SetColors | src/vertex_buffer.rs:258-260 | the range is every vertex counted by positions |
| VertexBuffer.VertexBufferCpu.Clear | src/vertex_buffer.rs:296-302 | the new contents are `VertexData.Clear` of the old |

## Left out

- SDL, OpenGL, fontdue and the `obj` crate are not part of this model. The renderer, audio player, Emscripten loop, camera, mesh loader, examples and build scripts are outside it.
- fontdue's rasterisation and line metrics are inputs: `metrics[i]` and `bitmaps[i]` for the character with code 32 + i, and an optional `LineMetrics`. The bitmap-size `assert!` becomes the precondition `BitmapsFit`.
- `(n as f32).sqrt().ceil()` is the smallest k with k·k ≥ n (`CeilSqrt`). Float rounding is not modelled.
- `f32` arithmetic is exact `real` arithmetic. Rounding, NaN and infinities are not modelled. The unit-circle table is used as given.
- Integer widths are not modelled: `usize` and `u32` cannot overflow here. `image_width as u32` and the `u32` indices are unbounded.
- `Vec` capacities (`new_empty`, `Program::new`) are not modelled.
- Shapes.Rectangle.Translate: `translate_assign` and `translate_x_assign` update a `Copy` struct in place. They are modelled as functions returning the moved rectangle, so aliasing of a rectangle is not captured.
- Rectangle getters: the plain getters (`get_width`, `get_min_x`, `get_center`, ...) are one-line functions on the two corners. Their meaning is stated once, in `GettersAreAnchors` and `CircleExtremesOnBox`.
- The trivial constructors `Line::new`, `Triangle::new`, `Rectangle::new`/`zeros` and `Circle::new`/`zeros` are the datatype constructors. So are `Pivot::new`, `Pivot::bot_left` and the other pivot shorthands in src/common.rs. `Triangle::default` is `DEFAULT_TRIANGLE`.
- Geometry.GetCircleRectangleMtv: the rectangle-corner branch (src/geometry.rs:140-168) needs square roots and normalisation. It is reported as `CornerCase` and not computed.
- `reflect`, `get_unit_2d_by_random`, `get_unit_2d_by_angle`, `get_circle_circle_mtv` and `intersect_line_with_circle` are not modelled. They are square-root, trigonometric or random numerics.
- Atlas.GlyphAtlas.IterTextGlyphs: the other five pivots hit `todo!()`, which stops the program. They yield `None`. The lazy iterator is collected into a sequence.
- Atlas.GlyphAtlas.New: the source builds the glyph records and packs the bitmaps in one loop. Here they are built by two loops with the same result, `AtlasGlyphs` then `PackGlyphs`.
- FontAtlas.GlyphAtlas.New: `font_size` only reaches the rasteriser, so it is not a parameter. The glyph records and the packing are built by two loops, as in `Atlas.GlyphAtlas.New`.
- `get_positions`, `get_normals`, `get_colors`, `get_texcoords`, `get_flags` and `get_indices` return the fields. They are the fields of `VertexBufferCpu.Data()`.
- VertexBuffer.VertexBufferCpu.PushVertex: pushing into an indexed buffer panics. This is the precondition `indices.None?`, so no caller can reach the panic.
- VertexBuffer.VertexBufferCpu.SetFlags, UnsetFlags, SetColors and the slice methods: an out-of-range slice panics. This is a precondition on the range; `set_flags` and friends require the flag or colour array to cover the vertex count.
- VertexBuffer.VertexBufferCpu.FromObj: `parse_obj` and its `unwrap` are not modelled; the parsed polygons and coordinate lists are the input. The `w` components of positions and texture coordinates are not read. An out-of-range index panics in the source; here it is excluded by `WellIndexed`.
- Input.Input.Update: the event pump is the sequence of events one call would poll. `TextInput` and all other events are ignored, as in the source.
- Input.Input.constructor: taking the SDL event pump out of the context is not modelled.

## Findings

| source | as written | input that shows it | evidently intended | confidence | as-written member | corrected member |
|---|---|---|---|---|---|---|
| src/input.rs:33-37 | `release` removes the key from `just_released` when it was held, so `just_released` is never non-empty | press key k, then release k in the same frame: k is not in `just_released` | a released key that was held is inserted into `just_released` | not executed; high | Input.KeySets.Release, Input.PressReleaseNotReported, Input.UpdateReportsNoRelease | Input.KeySets.ReleaseRecorded, Input.PressReleaseRecordedReported |
| src/vertex_buffer.rs:296-302 | `clear` empties every array except `normals` | a buffer with one vertex whose normal is (1, 1, 1), cleared, then given a vertex without a normal: that vertex reads back normal (1, 1, 1) | every attribute array emptied | not executed; high | VertexBuffer.VertexData.Clear, VertexBuffer.ClearKeepsStaleNormals | VertexBuffer.VertexData.ClearAll, VertexBuffer.ClearAllThenPush |
| src/vertex_buffer.rs:73-86 | a corner of a position-only (`P`) polygon pushes no flag byte, so the flag array falls behind the vertex count | one `P` triangle: three vertices, zero flag bytes | one 0 flag byte per `P` corner, keeping the arrays aligned | not executed; medium | VertexBuffer.PTriangleLeavesFlagsShort, VertexBuffer.ObjBufferAlignedIffNoPCorners | VertexBuffer.CorrectedObjBufferAligned |

The classes `KeyStates`, `Input` and `VertexBufferCpu` follow the code as
written (`Release`, `Clear`, `FromObj`). The corrected value-level definitions
sit beside them, with their intended properties proved.
