/**
 * `VertexBufferCPU` of src/vertex_buffer.rs: the per-vertex attributes of a
 * mesh kept as five parallel arrays (3 position, 3 normal, 4 colour and
 * 2 texture coordinates per vertex, and one flag byte), filled vertex by
 * vertex or built from the polygons of an OBJ file.
 */
module VertexBuffer {
  import opened Wrappers
  import opened Vectors
  import opened Colors

  /** `VertexFlag`: bits of the per-vertex flag byte. */
  const HAS_TEXTURE: bv8 := 1
  const HAS_NORMAL: bv8 := 2

  /** Component `j` of the attribute of vertex `v` in an array with `stride` components per vertex. */
  function Attribute<T>(s: seq<T>, stride: nat, v: nat, j: nat): T
    requires stride * v + j < |s|
  {
    s[stride * v + j]
  }

  /** The flag byte `push_vertex` stores: one bit per optional attribute that was given. */
  function PushFlags(hasNormal: bool, hasTexcoord: bool): (f: bv8)
    ensures f & HAS_NORMAL != 0 <==> hasNormal
    ensures f & HAS_TEXTURE != 0 <==> hasTexcoord
    ensures f & !(HAS_NORMAL | HAS_TEXTURE) == 0
  {
    var flags: bv8 := 0;
    var flags := if hasNormal then flags | HAS_NORMAL else flags;
    if hasTexcoord then flags | HAS_TEXTURE else flags
  }

  /** The contents of a vertex buffer, as a value. Index values are `u32`; only their number matters here. */
  datatype VertexData = VertexData(
    positions: seq<real>,
    normals: seq<real>,
    colors: seq<real>,
    texcoords: seq<real>,
    flags: seq<bv8>,
    indices: Option<seq<nat>>)
  {
    /** `get_n_vertcies`: counted by positions alone, three per vertex. */
    function NVertices(): (n: nat)
      ensures 3 * n <= |positions| < 3 * n + 3
    {
      |positions| / 3
    }

    /** `get_n_indices`: 0 for a buffer without indices. */
    function NIndices(): (n: nat)
      ensures indices.None? ==> n == 0
      ensures indices.Some? ==> n == |indices.value|
    {
      match indices
      case None => 0
      case Some(data) => |data|
    }

    /** Every attribute array holds exactly `NVertices()` vertices. */
    predicate Aligned()
    {
      var n := NVertices();
      && |positions| == 3 * n
      && |normals| == 3 * n
      && |colors| == 4 * n
      && |texcoords| == 2 * n
      && |flags| == n
    }

    /** `get_positions_slice`: the positions of `nVertices` vertices from `fromVertex` on. */
    function PositionsSlice(fromVertex: nat, nVertices: nat): (s: seq<real>)
      requires (fromVertex + nVertices) * 3 <= |positions|
      ensures |s| == nVertices * 3
      ensures forall v, j | 0 <= v < nVertices && 0 <= j < 3 ::
        Attribute(s, 3, v, j) == Attribute(positions, 3, fromVertex + v, j)
    {
      positions[fromVertex * 3..(fromVertex + nVertices) * 3]
    }

    /** `get_normals_slice`. */
    function NormalsSlice(fromVertex: nat, nVertices: nat): (s: seq<real>)
      requires (fromVertex + nVertices) * 3 <= |normals|
      ensures |s| == nVertices * 3
      ensures forall v, j | 0 <= v < nVertices && 0 <= j < 3 ::
        Attribute(s, 3, v, j) == Attribute(normals, 3, fromVertex + v, j)
    {
      normals[fromVertex * 3..(fromVertex + nVertices) * 3]
    }

    /** `get_colors_slice`. */
    function ColorsSlice(fromVertex: nat, nVertices: nat): (s: seq<real>)
      requires (fromVertex + nVertices) * 4 <= |colors|
      ensures |s| == nVertices * 4
      ensures forall v, j | 0 <= v < nVertices && 0 <= j < 4 ::
        Attribute(s, 4, v, j) == Attribute(colors, 4, fromVertex + v, j)
    {
      colors[fromVertex * 4..(fromVertex + nVertices) * 4]
    }

    /** `get_texcoords_slice`. */
    function TexcoordsSlice(fromVertex: nat, nVertices: nat): (s: seq<real>)
      requires (fromVertex + nVertices) * 2 <= |texcoords|
      ensures |s| == nVertices * 2
      ensures forall v, j | 0 <= v < nVertices && 0 <= j < 2 ::
        Attribute(s, 2, v, j) == Attribute(texcoords, 2, fromVertex + v, j)
    {
      texcoords[fromVertex * 2..(fromVertex + nVertices) * 2]
    }

    /** `get_flags_slice`. */
    function FlagsSlice(fromVertex: nat, nVertices: nat): (s: seq<bv8>)
      requires fromVertex + nVertices <= |flags|
      ensures |s| == nVertices
      ensures forall v | 0 <= v < nVertices :: s[v] == flags[fromVertex + v]
    {
      flags[fromVertex..fromVertex + nVertices]
    }

    /**
     * `push_vertex` on a buffer without indices: one more vertex, with zeros
     * for a missing normal or texture coordinate, the all-zero colour for a
     * missing colour, and flag bits for the attributes given.
     */
    function Push(position: Vec3, normal: Option<Vec3>, color: Option<Color>, texcoord: Option<Vec2>): (d: VertexData)
      requires indices.None?
      ensures d.positions == positions + [position.x, position.y, position.z]
      ensures d.NVertices() == NVertices() + 1
      ensures |d.normals| == |normals| + 3 && d.normals[..|normals|] == normals
      ensures |d.colors| == |colors| + 4 && d.colors[..|colors|] == colors
      ensures |d.texcoords| == |texcoords| + 2 && d.texcoords[..|texcoords|] == texcoords
      ensures d.flags == flags + [PushFlags(normal.Some?, texcoord.Some?)]
      ensures d.indices == indices
      ensures Aligned() ==> d.Aligned()
    {
      VertexData(
        positions + [position.x, position.y, position.z],
        normals + (if normal.Some? then [normal.value.x, normal.value.y, normal.value.z] else [0.0, 0.0, 0.0]),
        colors + (if color.Some? then color.value else ZEROS).AsArr(),
        texcoords + (if texcoord.Some? then [texcoord.value.x, texcoord.value.y] else [0.0, 0.0]),
        flags + [PushFlags(normal.Some?, texcoord.Some?)],
        indices)
    }

    /** `set_flags_slice`: the flag bytes of the vertex range overwritten with `f`. */
    function SetFlagsRange(f: bv8, fromVertex: nat, nVertices: nat): (d: VertexData)
      requires fromVertex + nVertices <= |flags|
      ensures d.(flags := flags) == this && |d.flags| == |flags|
      ensures forall i | 0 <= i < |flags| ::
        d.flags[i] == if fromVertex <= i < fromVertex + nVertices then f else flags[i]
    {
      this.(flags := flags[..fromVertex] + seq(nVertices, _ => f) + flags[fromVertex + nVertices..])
    }

    /** `unset_flags_slice`: the bits of `f` cleared in the flag bytes of the vertex range. */
    function UnsetFlagsRange(f: bv8, fromVertex: nat, nVertices: nat): (d: VertexData)
      requires fromVertex + nVertices <= |flags|
      ensures d.(flags := flags) == this && |d.flags| == |flags|
      ensures forall i | 0 <= i < |flags| ::
        d.flags[i] == if fromVertex <= i < fromVertex + nVertices then flags[i] & !f else flags[i]
    {
      this.(flags := seq(|flags|, i requires 0 <= i < |flags| =>
        if fromVertex <= i < fromVertex + nVertices then flags[i] & !f else flags[i]))
    }

    /** `set_colors_slice`: every vertex of the range gets `color`. */
    function SetColorsRange(color: Color, fromVertex: nat, nVertices: nat): (d: VertexData)
      requires (fromVertex + nVertices) * 4 <= |colors|
      ensures d.(colors := colors) == this && |d.colors| == |colors|
      ensures forall i | 0 <= i < |colors| ::
        d.colors[i] == if fromVertex * 4 <= i < (fromVertex + nVertices) * 4 then color.AsArr()[i % 4] else colors[i]
    {
      this.(colors := seq(|colors|, i requires 0 <= i < |colors| =>
        if fromVertex * 4 <= i < (fromVertex + nVertices) * 4 then color.AsArr()[i % 4] else colors[i]))
    }

    /**
     * `clear` as written: positions, colours, texture coordinates and flags
     * emptied, the index list emptied if there is one, and the normals kept.
     */
    function Clear(): (d: VertexData)
      ensures d.positions == [] && d.colors == [] && d.texcoords == [] && d.flags == []
      ensures d.NVertices() == 0 && d.NIndices() == 0
      ensures d.normals == normals
      ensures d.indices == if indices.Some? then Some([]) else None
    {
      VertexData([], normals, [], [], [], if indices.Some? then Some([]) else None)
    }

    /** The evident intent of `clear`: every attribute array emptied, normals included. */
    function ClearAll(): (d: VertexData)
      ensures d.positions == [] && d.normals == [] && d.colors == [] && d.texcoords == [] && d.flags == []
      ensures d.Aligned() && d.NVertices() == 0 && d.NIndices() == 0
      ensures d.indices == if indices.Some? then Some([]) else None
    {
      VertexData([], [], [], [], [], if indices.Some? then Some([]) else None)
    }
  }

  /**
   * Reading back the vertex just pushed returns what was pushed, with the
   * defaults for what was left out; the vertices before it are untouched.
   */
  lemma PushThenSlices(d: VertexData, position: Vec3, normal: Option<Vec3>, color: Option<Color>, texcoord: Option<Vec2>)
    requires d.indices.None? && d.Aligned()
    ensures
      var e := d.Push(position, normal, color, texcoord);
      var n := d.NVertices();
      && e.PositionsSlice(n, 1) == [position.x, position.y, position.z]
      && e.NormalsSlice(n, 1) == (if normal.Some? then [normal.value.x, normal.value.y, normal.value.z] else [0.0, 0.0, 0.0])
      && e.ColorsSlice(n, 1) == (if color.Some? then color.value else ZEROS).AsArr()
      && e.TexcoordsSlice(n, 1) == (if texcoord.Some? then [texcoord.value.x, texcoord.value.y] else [0.0, 0.0])
      && e.FlagsSlice(n, 1) == [PushFlags(normal.Some?, texcoord.Some?)]
      && e.PositionsSlice(0, n) == d.PositionsSlice(0, n)
      && e.NormalsSlice(0, n) == d.NormalsSlice(0, n)
      && e.ColorsSlice(0, n) == d.ColorsSlice(0, n)
      && e.TexcoordsSlice(0, n) == d.TexcoordsSlice(0, n)
      && e.FlagsSlice(0, n) == d.FlagsSlice(0, n)
  {
    var e := d.Push(position, normal, color, texcoord);
    var n := d.NVertices();
    AppendedWindow(d.positions, [position.x, position.y, position.z], n, 3);
    AppendedWindow(d.normals, e.normals[|d.normals|..], n, 3);
    AppendedWindow(d.colors, e.colors[|d.colors|..], n, 4);
    AppendedWindow(d.texcoords, e.texcoords[|d.texcoords|..], n, 2);
    AppendedWindow(d.flags, [PushFlags(normal.Some?, texcoord.Some?)], n, 1);
  }

  /** Appending one record of `stride` components to `n` records: the window of record `n` is the new record, the first `n` are kept. */
  lemma AppendedWindow<T>(s: seq<T>, t: seq<T>, n: nat, stride: nat)
    requires |s| == n * stride && |t| == stride
    ensures (s + t)[n * stride..(n + 1) * stride] == t
    ensures (s + t)[0..n * stride] == s
  {
    assert (n + 1) * stride == |s + t|;
  }

  /** After `unset_flags_slice` no flag byte in the range has a bit of `f`, and doing it again changes nothing. */
  lemma UnsetFlagsClearsBits(d: VertexData, f: bv8, fromVertex: nat, nVertices: nat)
    requires fromVertex + nVertices <= |d.flags|
    ensures forall i | fromVertex <= i < fromVertex + nVertices ::
      d.UnsetFlagsRange(f, fromVertex, nVertices).flags[i] & f == 0
    ensures d.UnsetFlagsRange(f, fromVertex, nVertices).UnsetFlagsRange(f, fromVertex, nVertices)
            == d.UnsetFlagsRange(f, fromVertex, nVertices)
  {
    var e := d.UnsetFlagsRange(f, fromVertex, nVertices);
    var e2 := e.UnsetFlagsRange(f, fromVertex, nVertices);
    forall i | 0 <= i < |d.flags|
      ensures e2.flags[i] == e.flags[i]
    {
      if fromVertex <= i < fromVertex + nVertices {
        AndNotTwice(d.flags[i], f);
      }
    }
    forall i | fromVertex <= i < fromVertex + nVertices
      ensures e.flags[i] & f == 0
    {
      AndNotClears(d.flags[i], f);
    }
  }

  lemma AndNotTwice(b: bv8, f: bv8)
    ensures (b & !f) & !f == b & !f
  {
  }

  lemma AndNotClears(b: bv8, f: bv8)
    ensures (b & !f) & f == 0
  {
  }

  /** Setting the flag bytes of a range to `f` and then unsetting the bits of `g` leaves each of them equal to `f` without the bits of `g`. */
  lemma SetThenUnsetFlags(d: VertexData, f: bv8, g: bv8, fromVertex: nat, nVertices: nat)
    requires fromVertex + nVertices <= |d.flags|
    ensures forall i | fromVertex <= i < fromVertex + nVertices ::
      d.SetFlagsRange(f, fromVertex, nVertices).UnsetFlagsRange(g, fromVertex, nVertices).flags[i] == f & !g
  {
  }

  /** After `set_colors_slice`, reading back any vertex of the range gives the colour's channels. */
  lemma SetColorsThenSlice(d: VertexData, color: Color, fromVertex: nat, nVertices: nat, v: nat)
    requires (fromVertex + nVertices) * 4 <= |d.colors|
    requires fromVertex <= v < fromVertex + nVertices
    ensures d.SetColorsRange(color, fromVertex, nVertices).ColorsSlice(v, 1) == color.AsArr()
  {
    var e := d.SetColorsRange(color, fromVertex, nVertices);
    var s := e.ColorsSlice(v, 1);
    forall j | 0 <= j < 4
      ensures s[j] == color.AsArr()[j]
    {
      ChannelOf(v, j);
      assert s[j] == e.colors[4 * v + j];
    }
  }

  /** Position `4 * v + j` of the colour array is channel `j` of vertex `v`. */
  lemma ChannelOf(v: nat, j: nat)
    requires j < 4
    ensures (4 * v + j) % 4 == j
  {
  }

  /**
   * `clear` keeps the normals, so a buffer that held a vertex and is then
   * cleared and given a new vertex without a normal reads back the old
   * normal for it rather than zeros.
   */
  lemma ClearKeepsStaleNormals()
    ensures
      var d := VertexData([0.0, 0.0, 0.0], [1.0, 1.0, 1.0], [0.0, 0.0, 0.0, 0.0], [0.0, 0.0], [HAS_NORMAL], None);
      var e := d.Clear().Push(Vec3(0.0, 0.0, 0.0), None, None, None);
      && d.Aligned() && !d.Clear().Aligned()
      && e.NormalsSlice(0, 1) == [1.0, 1.0, 1.0]
      && e.NormalsSlice(0, 1) != [0.0, 0.0, 0.0]
  {
    var d := VertexData([0.0, 0.0, 0.0], [1.0, 1.0, 1.0], [0.0, 0.0, 0.0, 0.0], [0.0, 0.0], [HAS_NORMAL], None);
    var e := d.Clear().Push(Vec3(0.0, 0.0, 0.0), None, None, None);
    assert e.normals == [1.0, 1.0, 1.0, 0.0, 0.0, 0.0];
    assert e.NormalsSlice(0, 1) == e.normals[0..3];
  }

  /** With every array emptied, pushing after a clear reads back exactly what was pushed. */
  lemma ClearAllThenPush(d: VertexData, position: Vec3, normal: Option<Vec3>, color: Option<Color>, texcoord: Option<Vec2>)
    requires d.indices.None?
    ensures
      var e := d.ClearAll().Push(position, normal, color, texcoord);
      && e.Aligned() && e.NVertices() == 1
      && e.NormalsSlice(0, 1) == (if normal.Some? then [normal.value.x, normal.value.y, normal.value.z] else [0.0, 0.0, 0.0])
  {
    PushThenSlices(d.ClearAll(), position, normal, color, texcoord);
  }

  // -----------------------------------------------------------------------
  // OBJ polygons

  /** A polygon of an OBJ file: its corners as indices into positions, texture coordinates and normals. */
  datatype Polygon =
    | P(p: seq<nat>)
    | PT(pt: seq<(nat, nat)>)
    | PN(pn: seq<(nat, nat)>)
    | PTN(ptn: seq<(nat, nat, nat)>)
  {
    function Len(): nat
    {
      match this
      case P(p) => |p|
      case PT(pt) => |pt|
      case PN(pn) => |pn|
      case PTN(ptn) => |ptn|
    }

    /** Every corner indexes existing positions, texture coordinates and normals. */
    predicate IndexedWithin(nPositions: nat, nTexCoords: nat, nNormals: nat)
    {
      match this
      case P(p) => forall k | 0 <= k < |p| :: p[k] < nPositions
      case PT(pt) => forall k | 0 <= k < |pt| :: pt[k].0 < nPositions && pt[k].1 < nTexCoords
      case PN(pn) => forall k | 0 <= k < |pn| :: pn[k].0 < nPositions && pn[k].1 < nNormals
      case PTN(ptn) => forall k | 0 <= k < |ptn| ::
        ptn[k].0 < nPositions && ptn[k].1 < nTexCoords && ptn[k].2 < nNormals
    }
  }

  /** The parsed OBJ data the buffer is built from; the `w` components are not read. */
  datatype ObjData = ObjData(positions: seq<Vec3>, texCoords: seq<Vec2>, normals: seq<Vec3>, polygons: seq<Polygon>) {
    /** Every index a polygon uses is in range (otherwise the source panics). */
    predicate WellIndexed()
    {
      forall poly <- polygons :: poly.IndexedWithin(|positions|, |texCoords|, |normals|)
    }
  }

  /** The four arrays `from_obj_bytes` accumulates. */
  datatype Attrs = Attrs(positions: seq<real>, normals: seq<real>, texcoords: seq<real>, flags: seq<bv8>) {
    function Append(o: Attrs): Attrs
    {
      Attrs(positions + o.positions, normals + o.normals, texcoords + o.texcoords, flags + o.flags)
    }
  }

  const NO_ATTRS: Attrs := Attrs([], [], [], [])

  function Coords3(p: Vec3): seq<real> { [p.x, p.y, p.z] }
  function Coords2(p: Vec2): seq<real> { [p.x, p.y] }

  /**
   * What `from_obj_bytes` pushes for corner `k` of `poly`. A corner of a
   * plain `P` polygon pushes no flag byte, unless `pFlag` asks for the
   * corrected behaviour, where it pushes 0.
   */
  function CornerAttrs(obj: ObjData, poly: Polygon, k: nat, pFlag: bool): (a: Attrs)
    requires poly in obj.polygons && obj.WellIndexed() && k < poly.Len()
    ensures |a.positions| == 3 && |a.normals| == 3 && |a.texcoords| == 2
    ensures |a.flags| == if poly.P? && !pFlag then 0 else 1
  {
    match poly
    case P(p) =>
      Attrs(Coords3(obj.positions[p[k]]), [0.0, 0.0, 0.0], [0.0, 0.0], if pFlag then [0] else [])
    case PT(pt) =>
      Attrs(Coords3(obj.positions[pt[k].0]), [0.0, 0.0, 0.0], Coords2(obj.texCoords[pt[k].1]), [HAS_TEXTURE])
    case PN(pn) =>
      Attrs(Coords3(obj.positions[pn[k].0]), Coords3(obj.normals[pn[k].1]), [0.0, 0.0], [HAS_NORMAL])
    case PTN(ptn) =>
      Attrs(Coords3(obj.positions[ptn[k].0]), Coords3(obj.normals[ptn[k].2]), Coords2(obj.texCoords[ptn[k].1]),
            [HAS_NORMAL | HAS_TEXTURE])
  }

  /** The first `k` corners of `poly`. */
  function PolygonAttrs(obj: ObjData, poly: Polygon, k: nat, pFlag: bool): Attrs
    requires poly in obj.polygons && obj.WellIndexed() && k <= poly.Len()
  {
    if k == 0 then NO_ATTRS
    else PolygonAttrs(obj, poly, k - 1, pFlag).Append(CornerAttrs(obj, poly, k - 1, pFlag))
  }

  /** The first `i` polygons. */
  function ObjAttrs(obj: ObjData, i: nat, pFlag: bool): Attrs
    requires obj.WellIndexed() && i <= |obj.polygons|
  {
    if i == 0 then NO_ATTRS
    else
      var poly := obj.polygons[i - 1];
      ObjAttrs(obj, i - 1, pFlag).Append(PolygonAttrs(obj, poly, poly.Len(), pFlag))
  }

  /** Corners in the first `i` polygons, and those of them in `P` polygons. */
  function CornerCount(polys: seq<Polygon>): nat
  {
    if |polys| == 0 then 0 else CornerCount(polys[..|polys| - 1]) + polys[|polys| - 1].Len()
  }

  function PCornerCount(polys: seq<Polygon>): (n: nat)
    ensures n <= CornerCount(polys)
  {
    if |polys| == 0 then 0
    else
      var last := polys[|polys| - 1];
      PCornerCount(polys[..|polys| - 1]) + if last.P? then last.Len() else 0
  }

  lemma {:induction false} PolygonAttrsLengths(obj: ObjData, poly: Polygon, k: nat, pFlag: bool)
    requires poly in obj.polygons && obj.WellIndexed() && k <= poly.Len()
    ensures var a := PolygonAttrs(obj, poly, k, pFlag);
      && |a.positions| == 3 * k && |a.normals| == 3 * k && |a.texcoords| == 2 * k
      && |a.flags| == if poly.P? && !pFlag then 0 else k
  {
    if k > 0 {
      PolygonAttrsLengths(obj, poly, k - 1, pFlag);
    }
  }

  /**
   * The arrays built from the first `i` polygons: three positions, three
   * normals and two texture coordinates per corner, and one flag byte per
   * corner outside `P` polygons (per corner, with the correction).
   */
  lemma {:induction false} ObjAttrsLengths(obj: ObjData, i: nat, pFlag: bool)
    requires obj.WellIndexed() && i <= |obj.polygons|
    ensures var a := ObjAttrs(obj, i, pFlag);
      var n := CornerCount(obj.polygons[..i]);
      && |a.positions| == 3 * n && |a.normals| == 3 * n && |a.texcoords| == 2 * n
      && |a.flags| == n - (if pFlag then 0 else PCornerCount(obj.polygons[..i]))
  {
    if i > 0 {
      ObjAttrsLengths(obj, i - 1, pFlag);
      var poly := obj.polygons[i - 1];
      assert obj.polygons[..i][..i - 1] == obj.polygons[..i - 1];
      PolygonAttrsLengths(obj, poly, poly.Len(), pFlag);
    }
  }

  /** The buffer `from_obj_bytes` returns for the assembled arrays: every vertex white, no indices. */
  function ObjBuffer(a: Attrs): (d: VertexData)
    ensures d.positions == a.positions && d.normals == a.normals
    ensures d.texcoords == a.texcoords && d.flags == a.flags
    ensures d.NVertices() == |a.positions| / 3
    ensures |d.colors| == 4 * d.NVertices()
    ensures forall i | 0 <= i < |d.colors| :: d.colors[i] == 1.0
    ensures d.indices.None?
  {
    VertexData(a.positions, a.normals, seq(|a.positions| / 3 * 4, _ => 1.0), a.texcoords, a.flags, None)
  }

  /** As written, a buffer built from OBJ data is aligned exactly when no polygon is a plain `P` polygon with corners. */
  lemma ObjBufferAlignedIffNoPCorners(obj: ObjData)
    requires obj.WellIndexed()
    ensures ObjBuffer(ObjAttrs(obj, |obj.polygons|, false)).Aligned() <==> PCornerCount(obj.polygons) == 0
  {
    ObjAttrsLengths(obj, |obj.polygons|, false);
    assert obj.polygons[..|obj.polygons|] == obj.polygons;
  }

  /** One triangle of `P` corners gives three vertices and no flag bytes. */
  lemma PTriangleLeavesFlagsShort()
    ensures
      var obj := ObjData([Vec3(0.0, 0.0, 0.0)], [], [], [P([0, 0, 0])]);
      && obj.WellIndexed()
      && var d := ObjBuffer(ObjAttrs(obj, 1, false));
      d.NVertices() == 3 && |d.flags| == 0
  {
    var obj := ObjData([Vec3(0.0, 0.0, 0.0)], [], [], [P([0, 0, 0])]);
    ObjAttrsLengths(obj, 1, false);
    assert obj.polygons[..1] == [P([0, 0, 0])];
    assert CornerCount([P([0, 0, 0])]) == 3;
  }

  /** With a 0 flag byte pushed for `P` corners, a buffer built from any OBJ data is aligned. */
  lemma CorrectedObjBufferAligned(obj: ObjData)
    requires obj.WellIndexed()
    ensures ObjBuffer(ObjAttrs(obj, |obj.polygons|, true)).Aligned()
  {
    ObjAttrsLengths(obj, |obj.polygons|, true);
  }

  /** The attributes one corner pushes, read out of the OBJ data. */
  method ReadCorner(obj: ObjData, poly: Polygon, k: nat) returns (a: Attrs)
    requires poly in obj.polygons && obj.WellIndexed() && k < poly.Len()
    ensures a == CornerAttrs(obj, poly, k, false)
  {
    assert poly.IndexedWithin(|obj.positions|, |obj.texCoords|, |obj.normals|);
    match poly {
      case P(p) =>
        var v := obj.positions[p[k]];
        a := Attrs([v.x, v.y, v.z], [0.0, 0.0, 0.0], [0.0, 0.0], []);
      case PT(pt) =>
        var v := obj.positions[pt[k].0];
        var t := obj.texCoords[pt[k].1];
        a := Attrs([v.x, v.y, v.z], [0.0, 0.0, 0.0], [t.x, t.y], [HAS_TEXTURE]);
      case PN(pn) =>
        var v := obj.positions[pn[k].0];
        var n := obj.normals[pn[k].1];
        a := Attrs([v.x, v.y, v.z], [n.x, n.y, n.z], [0.0, 0.0], [HAS_NORMAL]);
      case PTN(ptn) =>
        var v := obj.positions[ptn[k].0];
        var t := obj.texCoords[ptn[k].1];
        var n := obj.normals[ptn[k].2];
        a := Attrs([v.x, v.y, v.z], [n.x, n.y, n.z], [t.x, t.y], [HAS_NORMAL | HAS_TEXTURE]);
    }
  }

  /**
   * The polygon loop of `from_obj_bytes`: each corner of each polygon
   * appends its position, its normal or zeros, its texture coordinate or
   * zeros, and (except in `P` polygons) a flag byte.
   */
  method AssembleObj(obj: ObjData) returns (positions: seq<real>, normals: seq<real>, texcoords: seq<real>, flags: seq<bv8>)
    requires obj.WellIndexed()
    ensures Attrs(positions, normals, texcoords, flags) == ObjAttrs(obj, |obj.polygons|, false)
  {
    positions, normals, texcoords, flags := [], [], [], [];
    for i := 0 to |obj.polygons|
      invariant Attrs(positions, normals, texcoords, flags) == ObjAttrs(obj, i, false)
    {
      var poly := obj.polygons[i];
      ghost var before := ObjAttrs(obj, i, false);
      for k := 0 to poly.Len()
        invariant Attrs(positions, normals, texcoords, flags) == before.Append(PolygonAttrs(obj, poly, k, false))
      {
        var a := ReadCorner(obj, poly, k);
        AppendAssociative(before, PolygonAttrs(obj, poly, k, false), a);
        positions := positions + a.positions;
        normals := normals + a.normals;
        texcoords := texcoords + a.texcoords;
        flags := flags + a.flags;
      }
    }
  }

  lemma AppendAssociative(a: Attrs, b: Attrs, c: Attrs)
    ensures a.Append(b).Append(c) == a.Append(b.Append(c))
  {
  }

  // -----------------------------------------------------------------------
  // The buffer object

  /** `VertexBufferCPU`: the five attribute arrays and the optional index list, updated in place. */
  class VertexBufferCpu {
    var positions: seq<real>
    var normals: seq<real>
    var colors: seq<real>
    var texcoords: seq<real>
    var flags: seq<bv8>
    var indices: Option<seq<nat>>

    function Data(): VertexData
      reads this
    {
      VertexData(positions, normals, colors, texcoords, flags, indices)
    }

    /** `new`: the arrays as given. */
    constructor (positions: seq<real>, normals: seq<real>, colors: seq<real>, texcoords: seq<real>,
                 flags: seq<bv8>, indices: Option<seq<nat>>)
      ensures Data() == VertexData(positions, normals, colors, texcoords, flags, indices)
    {
      this.positions := positions;
      this.normals := normals;
      this.colors := colors;
      this.texcoords := texcoords;
      this.flags := flags;
      this.indices := indices;
    }

    /** `new_empty`: no vertices, no indices (the reserved capacity is not modelled). */
    constructor Empty()
      ensures Data() == VertexData([], [], [], [], [], None) && Data().Aligned()
    {
      positions, normals, colors, texcoords, flags := [], [], [], [], [];
      indices := None;
    }

    /** `from_obj_bytes`, from already parsed OBJ data. */
    constructor FromObj(obj: ObjData)
      requires obj.WellIndexed()
      ensures Data() == ObjBuffer(ObjAttrs(obj, |obj.polygons|, false))
    {
      var ps, ns, ts, fs := AssembleObj(obj);
      var nVertices := |ps| / 3;
      positions := ps;
      normals := ns;
      colors := seq(nVertices * 4, _ => 1.0);
      texcoords := ts;
      flags := fs;
      indices := None;
    }

    /** `push_vertex`; pushing into a buffer with indices is a panic, so callers must not. */
    method PushVertex(position: Vec3, normal: Option<Vec3>, color: Option<Color>, texcoord: Option<Vec2>)
      requires indices.None?
      modifies this
      ensures Data() == old(Data()).Push(position, normal, color, texcoord)
    {
      var f: bv8 := 0;
      positions := positions + [position.x, position.y, position.z];
      if normal.Some? {
        normals := normals + [normal.value.x, normal.value.y, normal.value.z];
        f := f | HAS_NORMAL;
      } else {
        normals := normals + [0.0, 0.0, 0.0];
      }
      colors := colors + (if color.Some? then color.value else ZEROS).AsArr();
      if texcoord.Some? {
        texcoords := texcoords + [texcoord.value.x, texcoord.value.y];
        f := f | HAS_TEXTURE;
      } else {
        texcoords := texcoords + [0.0, 0.0];
      }
      flags := flags + [f];
    }

    method SetFlagsSlice(f: bv8, fromVertex: nat, nVertices: nat)
      requires fromVertex + nVertices <= |flags|
      modifies this
      ensures Data() == old(Data()).SetFlagsRange(f, fromVertex, nVertices)
    {
      flags := flags[..fromVertex] + seq(nVertices, _ => f) + flags[fromVertex + nVertices..];
    }

    method UnsetFlagsSlice(f: bv8, fromVertex: nat, nVertices: nat)
      requires fromVertex + nVertices <= |flags|
      modifies this
      ensures Data() == old(Data()).UnsetFlagsRange(f, fromVertex, nVertices)
    {
      var updated := flags;
      for i := fromVertex to fromVertex + nVertices
        invariant |updated| == |flags|
        invariant forall k | 0 <= k < |flags| ::
          updated[k] == if fromVertex <= k < i then flags[k] & !f else flags[k]
      {
        updated := updated[i := updated[i] & !f];
      }
      assert updated == Data().UnsetFlagsRange(f, fromVertex, nVertices).flags;
      flags := updated;
    }

    method SetColorsSlice(color: Color, fromVertex: nat, nVertices: nat)
      requires (fromVertex + nVertices) * 4 <= |colors|
      modifies this
      ensures Data() == old(Data()).SetColorsRange(color, fromVertex, nVertices)
    {
      var arr := color.AsArr();
      var start := fromVertex * 4;
      var end := (fromVertex + nVertices) * 4;
      var updated := colors;
      for i := start to end
        invariant |updated| == |colors|
        invariant forall k | 0 <= k < |colors| ::
          updated[k] == if start <= k < i then arr[k % 4] else colors[k]
      {
        updated := updated[i := arr[i % 4]];
      }
      assert updated == Data().SetColorsRange(color, fromVertex, nVertices).colors;
      colors := updated;
    }

    /** `set_flags`: every vertex, as counted by positions; the flag array must be at least that long. */
    method SetFlags(f: bv8)
      requires Data().NVertices() <= |flags|
      modifies this
      ensures Data() == old(Data()).SetFlagsRange(f, 0, old(Data()).NVertices())
    {
      SetFlagsSlice(f, 0, |positions| / 3);
    }

    method UnsetFlags(f: bv8)
      requires Data().NVertices() <= |flags|
      modifies this
      ensures Data() == old(Data()).UnsetFlagsRange(f, 0, old(Data()).NVertices())
    {
      UnsetFlagsSlice(f, 0, |positions| / 3);
    }

    method SetColors(color: Color)
      requires Data().NVertices() * 4 <= |colors|
      modifies this
      ensures Data() == old(Data()).SetColorsRange(color, 0, old(Data()).NVertices())
    {
      SetColorsSlice(color, 0, |positions| / 3);
    }

    method Clear()
      modifies this
      ensures Data() == old(Data()).Clear()
    {
      positions := [];
      colors := [];
      texcoords := [];
      flags := [];
      if indices.Some? {
        indices := Some([]);
      }
    }
  }
}
