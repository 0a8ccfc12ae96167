// The Milkshape 3D model loader (CAnimatedMeshMS3D): it reads the whole
// file into a byte buffer and walks a cursor over it — a 14-byte header
// ("MS3D000000" and an s32 version), a u16 vertex count and 15-byte vertex
// records, a u16 triangle count and 70-byte triangle records — filling the
// vertex, bone-id and index arrays of its single mesh buffer.
//
// Floating-point values are not decoded: a coordinate is the offset of the
// f32 in the file it was read from (or 1 minus that value, for the T
// texture coordinate).  Materials, groups, joints and the bounding box are
// not read by the source either.
module AnimatedMeshMS3D {
  import opened Common

  const HeaderSize := 14
  const VertexSize := 15
  const TriangleSize := 70
  /** "MS3D000000" */
  const Id: seq<Byte> := [77, 83, 51, 68, 48, 48, 48, 48, 48, 48]

  /** A little-endian u16 of the buffer. */
  function U16At(d: seq<Byte>, p: int): (v: int)
    requires 0 <= p && p + 2 <= |d|
    ensures 0 <= v < 0x1_0000
  {
    d[p] as int + 256 * (d[p + 1] as int)
  }

  /** A little-endian s32 of the buffer. */
  function S32At(d: seq<Byte>, p: int): int
    requires 0 <= p && p + 4 <= |d|
  {
    S32(d[p] as int + 256 * (d[p + 1] as int) + 0x1_0000 * (d[p + 2] as int) + 0x100_0000 * (d[p + 3] as int))
  }

  /** A signed byte (s8) stored in the buffer. */
  function S8(b: Byte): int
  {
    if b < 128 then b else b - 256
  }

  /** The header: the id compared over its 10 bytes, and version 3 or 4. */
  predicate HeaderOk(d: seq<Byte>)
    requires |d| >= HeaderSize
  {
    d[..10] == Id && 3 <= S32At(d, 10) <= 4
  }

  /** Offset of vertex record i, after the header and the vertex count. */
  function VertexAt(i: int): int
  {
    HeaderSize + 2 + VertexSize * i
  }

  /** Offset of triangle record i, after the vertex records and the
      triangle count. */
  function TriangleAt(nv: int, i: int): int
  {
    VertexAt(nv) + 2 + TriangleSize * i
  }

  /** Vertex index iv of the triangle record at offset o (0 past the end
      of the buffer). */
  function CornerIndex(d: seq<Byte>, o: int, iv: int): (j: int)
    ensures 0 <= j < 0x1_0000
  {
    var p := o + 2 + 2 * iv;
    if 0 <= p && p + 2 <= |d| then U16At(d, p) else 0
  }

  /** Triangle record i lies in the buffer and its three vertex indices
      name some of `count` vertices. */
  predicate TriangleIn(d: seq<Byte>, nv: nat, i: nat, count: int)
  {
    var o := TriangleAt(nv, i);
    o + TriangleSize <= |d| &&
    CornerIndex(d, o, 0) < count && CornerIndex(d, o, 1) < count && CornerIndex(d, o, 2) < count
  }

  predicate TrianglesIn(d: seq<Byte>, nv: nat, nt: nat, count: int)
  {
    forall i: nat | i < nt :: TriangleIn(d, nv, i, count)
  }

  lemma CornersBelow(d: seq<Byte>, nv: nat, nt: nat, count: int)
    requires TrianglesIn(d, nv, nt, count)
    ensures forall i: nat, iv | i < nt && 0 <= iv < 3 :: CornerIndex(d, TriangleAt(nv, i), iv) < count
  {
    forall i: nat, iv | i < nt && 0 <= iv < 3
      ensures CornerIndex(d, TriangleAt(nv, i), iv) < count
    {
      assert TriangleIn(d, nv, i, count);
    }
  }

  /** The vertex count and the triangle count of an accepted buffer. */
  function NumVertices(d: seq<Byte>): nat
    requires |d| >= HeaderSize + 2
  {
    U16At(d, HeaderSize)
  }

  function NumTriangles(d: seq<Byte>): nat
    requires |d| >= HeaderSize + 2 && |d| >= VertexAt(NumVertices(d)) + 2
  {
    U16At(d, VertexAt(NumVertices(d)))
  }

  /** What the parser reads without checking: the header, and for an
      accepted header the records the counts announce, whose vertex indices
      name existing vertices. */
  predicate Complete(d: seq<Byte>)
  {
    |d| >= HeaderSize &&
    (HeaderOk(d) ==>
      |d| >= HeaderSize + 2 && |d| >= VertexAt(NumVertices(d)) + 2 &&
      |d| >= TriangleAt(NumVertices(d), NumTriangles(d)) &&
      TrianglesIn(d, NumVertices(d), NumTriangles(d), NumVertices(d)))
  }

  /** A float of the model: the f32 at an offset of the file, 1 minus it,
      or the value a new S3DVertex holds. */
  datatype Real = Initial | At(Offset: int) | OneMinusAt(Offset: int)
  datatype Vec3 = Vec3(X: Real, Y: Real, Z: Real)
  datatype TCoord = TCoord(X: Real, Y: Real)
  datatype Vertex = Vertex(Pos: Vec3, Normal: Vec3, TCoords: TCoord)

  const NewVertex := Vertex(Vec3(Initial, Initial, Initial), Vec3(Initial, Initial, Initial), TCoord(Initial, Initial))

  /** core::array::set_used: the array takes the new size; elements below
      the old size keep their value and the others are new. */
  function Resize<T>(s: seq<T>, n: nat, filler: T): (r: seq<T>)
    ensures |r| == n
    ensures forall i :: 0 <= i < n ==> r[i] == if i < |s| then s[i] else filler
  {
    seq(n, (i: nat) => if i < |s| then s[i] else filler)
  }

  /** A vertex record sets the position from its three floats. */
  function WithPosition(v: Vertex, o: int): Vertex
  {
    v.(Pos := Vec3(At(o + 1), At(o + 5), At(o + 9)))
  }

  /** Corner iv of the triangle record at o sets the normal from row iv of
      VertexNormals, and the texture coordinate to (S[iv], 1 - T[iv]). */
  function WithCorner(v: Vertex, o: int, iv: int): Vertex
  {
    v.(Normal := Vec3(At(o + 8 + 12 * iv), At(o + 12 + 12 * iv), At(o + 16 + 12 * iv)),
       TCoords := TCoord(At(o + 44 + 4 * iv), OneMinusAt(o + 56 + 4 * iv)))
  }

  /** The first `corners` corners of the triangle record at o, in order,
      each writing its normal and texture coordinate onto the vertex it
      names. */
  function ApplyCorners(vs: seq<Vertex>, d: seq<Byte>, o: int, corners: nat): (r: seq<Vertex>)
    requires corners <= 3
    requires forall iv | 0 <= iv < corners :: CornerIndex(d, o, iv) < |vs|
    ensures |r| == |vs|
  {
    if corners == 0 then vs
    else
      var prev := ApplyCorners(vs, d, o, corners - 1);
      var j := CornerIndex(d, o, corners - 1);
      prev[j := WithCorner(prev[j], o, corners - 1)]
  }

  /** The vertex list after the first `nt` triangles have written their
      corners, in triangle order. */
  function ApplyTriangles(vs: seq<Vertex>, d: seq<Byte>, nv: nat, nt: nat): (r: seq<Vertex>)
    requires TrianglesIn(d, nv, nt, |vs|)
    ensures |r| == |vs|
  {
    if nt == 0 then vs
    else
      assert TriangleIn(d, nv, nt - 1, |vs|);
      ApplyCorners(ApplyTriangles(vs, d, nv, nt - 1), d, TriangleAt(nv, nt - 1), 3)
  }

  /** The last corner of the record at o that names vertex j. */
  function LastCornerOf(d: seq<Byte>, o: int, j: int): (r: Option<int>)
    ensures r.Some? ==> 0 <= r.value < 3 && CornerIndex(d, o, r.value) == j &&
                        forall iv | r.value < iv < 3 :: CornerIndex(d, o, iv) != j
    ensures r.None? ==> forall iv | 0 <= iv < 3 :: CornerIndex(d, o, iv) != j
  {
    if CornerIndex(d, o, 2) == j then Some(2)
    else if CornerIndex(d, o, 1) == j then Some(1)
    else if CornerIndex(d, o, 0) == j then Some(0)
    else None
  }

  /** The last corner, as (triangle, corner), of the first `nt` triangles
      that names vertex j. */
  function LastCorner(d: seq<Byte>, nv: nat, nt: nat, j: int): (r: Option<(nat, int)>)
    ensures r.Some? ==> r.value.0 < nt && LastCornerOf(d, TriangleAt(nv, r.value.0), j) == Some(r.value.1)
    ensures r.Some? ==> forall i: nat | r.value.0 < i < nt :: LastCornerOf(d, TriangleAt(nv, i), j).None?
    ensures r.None? ==> forall i: nat | i < nt :: LastCornerOf(d, TriangleAt(nv, i), j).None?
  {
    if nt == 0 then None
    else
      var c := LastCornerOf(d, TriangleAt(nv, nt - 1), j);
      if c.Some? then Some((nt - 1, c.value)) else LastCorner(d, nv, nt - 1, j)
  }

  /** A corner replaces everything but the position. */
  lemma WithCornerOverwrites(v: Vertex, w: Vertex, o: int, iv: int)
    requires w.Pos == v.Pos
    ensures WithCorner(w, o, iv) == WithCorner(v, o, iv)
  {
  }

  /** Within one triangle, a vertex ends with the last of its corners that
      names it, or unchanged. */
  lemma CornersOfTriangle(vs: seq<Vertex>, d: seq<Byte>, o: int, j: int)
    requires forall iv | 0 <= iv < 3 :: CornerIndex(d, o, iv) < |vs|
    requires 0 <= j < |vs|
    ensures var c := LastCornerOf(d, o, j);
      ApplyCorners(vs, d, o, 3)[j] == if c.Some? then WithCorner(vs[j], o, c.value) else vs[j]
  {
    assert ApplyCorners(vs, d, o, 0) == vs;
    var a1 := ApplyCorners(vs, d, o, 1);
    var a2 := ApplyCorners(vs, d, o, 2);
    assert a1[j] == if CornerIndex(d, o, 0) == j then WithCorner(vs[j], o, 0) else vs[j];
    assert a2[j] == if CornerIndex(d, o, 1) == j then WithCorner(vs[j], o, 1) else a1[j];
  }

  /** Later corners overwrite earlier ones: a vertex has the normal and
      texture coordinate of the last corner that names it, keeps them from
      before when no corner does, and keeps its position either way. */
  lemma {:induction false} LastCornerWins(vs: seq<Vertex>, d: seq<Byte>, nv: nat, nt: nat, j: int)
    requires TrianglesIn(d, nv, nt, |vs|) && 0 <= j < |vs|
    ensures var c := LastCorner(d, nv, nt, j);
      ApplyTriangles(vs, d, nv, nt)[j] ==
        if c.Some? then WithCorner(vs[j], TriangleAt(nv, c.value.0), c.value.1) else vs[j]
  {
    if nt > 0 {
      assert TriangleIn(d, nv, nt - 1, |vs|);
      assert TrianglesIn(d, nv, nt - 1, |vs|);
      var o := TriangleAt(nv, nt - 1);
      var before := ApplyTriangles(vs, d, nv, nt - 1);
      LastCornerWins(vs, d, nv, nt - 1, j);
      CornersOfTriangle(before, d, o, j);
      var c := LastCornerOf(d, o, j);
      if c.Some? {
        WithCornerOverwrites(vs[j], before[j], o, c.value);
      }
    }
  }

  /** The vertex loop: record i sets the position of vertex i and its bone
      id. */
  method ReadVertices(d: seq<Byte>, nv: nat, vs0: seq<Vertex>, ids0: seq<int>) returns (vs: seq<Vertex>, ids: seq<int>)
    requires |vs0| == nv && |ids0| == nv && VertexAt(nv) <= |d|
    ensures |vs| == nv && |ids| == nv
    ensures forall i :: 0 <= i < nv ==> vs[i] == WithPosition(vs0[i], VertexAt(i)) && ids[i] == S8(d[VertexAt(i) + 13])
  {
    vs, ids := vs0, ids0;
    var i := 0;
    while i < nv
      invariant 0 <= i <= nv && |vs| == nv && |ids| == nv
      invariant forall m :: 0 <= m < i ==> vs[m] == WithPosition(vs0[m], VertexAt(m)) && ids[m] == S8(d[VertexAt(m) + 13])
      invariant forall m :: i <= m < nv ==> vs[m] == vs0[m]
    {
      var p := VertexAt(i);
      ids := ids[i := S8(d[p + 13])];
      vs := vs[i := WithPosition(vs[i], p)];
      i := i + 1;
    }
  }

  /** One pass of the triangle loop: the record at o stores its three
      vertex indices at 3i, 3i+1, 3i+2 and then writes each corner onto the
      vertex it names. */
  method ReadTriangle(d: seq<Byte>, o: int, i: nat, vs: seq<Vertex>, indices: seq<int>)
      returns (vs': seq<Vertex>, indices': seq<int>)
    requires 3 * i + 3 <= |indices| && 0 <= o && o + TriangleSize <= |d|
    requires forall iv | 0 <= iv < 3 :: CornerIndex(d, o, iv) < |vs|
    ensures |indices'| == |indices| && vs' == ApplyCorners(vs, d, o, 3)
    ensures forall k | 0 <= k < 3 * i :: indices'[k] == indices[k]
    ensures indices'[3 * i] == CornerIndex(d, o, 0)
    ensures indices'[3 * i + 1] == CornerIndex(d, o, 1)
    ensures indices'[3 * i + 2] == CornerIndex(d, o, 2)
  {
    indices' := indices[3 * i := U16At(d, o + 2)][3 * i + 1 := U16At(d, o + 4)][3 * i + 2 := U16At(d, o + 6)];
    vs' := vs;
    var iv := 0;
    while iv < 3
      invariant 0 <= iv <= 3 && vs' == ApplyCorners(vs, d, o, iv)
    {
      var j := indices'[3 * i + iv];
      assert j == CornerIndex(d, o, iv) by {
        if iv == 0 {
        } else if iv == 1 {
        } else {
        }
      }
      vs' := vs'[j := WithCorner(vs'[j], o, iv)];
      iv := iv + 1;
    }
  }

  /** The triangle loop keeps the indices of the triangles before i and
      adds triangle i's. */
  lemma IndicesStep(d: seq<Byte>, nv: nat, i: nat, before: seq<int>, after: seq<int>)
    requires |after| == |before| && 3 * i + 3 <= |before|
    requires forall i': nat, iv | i' < i && 0 <= iv < 3 :: before[3 * i' + iv] == CornerIndex(d, TriangleAt(nv, i'), iv)
    requires forall k | 0 <= k < 3 * i :: after[k] == before[k]
    requires after[3 * i] == CornerIndex(d, TriangleAt(nv, i), 0)
    requires after[3 * i + 1] == CornerIndex(d, TriangleAt(nv, i), 1)
    requires after[3 * i + 2] == CornerIndex(d, TriangleAt(nv, i), 2)
    ensures forall i': nat, iv | i' < i + 1 && 0 <= iv < 3 :: after[3 * i' + iv] == CornerIndex(d, TriangleAt(nv, i'), iv)
  {
    forall i': nat, iv | i' < i + 1 && 0 <= iv < 3
      ensures after[3 * i' + iv] == CornerIndex(d, TriangleAt(nv, i'), iv)
    {
      if i' < i {
        assert after[3 * i' + iv] == before[3 * i' + iv];
      } else if iv == 0 {
      } else if iv == 1 {
      } else {
      }
    }
  }

  /** The triangle loop. */
  method ReadTriangles(d: seq<Byte>, nv: nat, nt: nat, vs0: seq<Vertex>, idx0: seq<int>) returns (vs: seq<Vertex>, indices: seq<int>)
    requires |idx0| == 3 * nt && TrianglesIn(d, nv, nt, |vs0|)
    ensures |indices| == 3 * nt
    ensures forall i: nat, iv | i < nt && 0 <= iv < 3 :: indices[3 * i + iv] == CornerIndex(d, TriangleAt(nv, i), iv)
    ensures vs == ApplyTriangles(vs0, d, nv, nt)
  {
    vs, indices := vs0, idx0;
    var i := 0;
    while i < nt
      invariant 0 <= i <= nt && |indices| == 3 * nt
      invariant forall i': nat, iv | i' < i && 0 <= iv < 3 :: indices[3 * i' + iv] == CornerIndex(d, TriangleAt(nv, i'), iv)
      invariant vs == ApplyTriangles(vs0, d, nv, i)
    {
      assert TriangleIn(d, nv, i, |vs0|);
      ghost var before := indices;
      vs, indices := ReadTriangle(d, TriangleAt(nv, i), i, vs, indices);
      IndicesStep(d, nv, i, before, indices);
      i := i + 1;
    }
  }

  /** What the loader receives: the size getSize reports and the bytes the
      read of that many bytes delivered. */
  datatype File = File(Size: nat, Data: seq<Byte>)

  class Mesh {
    var Vertices: seq<Vertex>
    /** c8 values, one per vertex. */
    var BoneIDs: seq<int>
    var Indices: seq<int>

    constructor ()
      ensures Vertices == [] && BoneIDs == [] && Indices == []
    {
      Vertices, BoneIDs, Indices := [], [], [];
    }

    /** loadFile: false, changing nothing, for a missing file, a short read,
        a wrong id or a version other than 3 and 4.  Otherwise the arrays
        take the sizes the counts give; each vertex gets its position and
        bone id from its own record and its normal and texture coordinate
        from the last corner naming it; index 3i + k is triangle i's vertex
        index k. */
    method LoadFile(file: Option<File>) returns (ok: bool)
      requires file.Some? && |file.value.Data| == file.value.Size ==> Complete(file.value.Data)
      modifies this
      ensures ok <==> file.Some? && |file.value.Data| == file.value.Size && HeaderOk(file.value.Data)
      ensures !ok ==> Vertices == old(Vertices) && BoneIDs == old(BoneIDs) && Indices == old(Indices)
      ensures ok ==>
        var d := file.value.Data;
        var nv := NumVertices(d);
        var nt := NumTriangles(d);
        |Vertices| == nv && |BoneIDs| == nv && |Indices| == 3 * nt &&
        (forall i :: 0 <= i < nv ==> BoneIDs[i] == S8(d[VertexAt(i) + 13])) &&
        (forall i: nat, iv | i < nt && 0 <= iv < 3 :: Indices[3 * i + iv] == CornerIndex(d, TriangleAt(nv, i), iv) < nv) &&
        Vertices == ApplyTriangles(Positioned(old(Vertices), d, nv), d, nv, nt)
    {
      if file.None? {
        return false;
      }
      var d := file.value.Data;
      if |d| != file.value.Size {
        return false;
      }
      if d[..10] != Id || S32At(d, 10) < 3 || S32At(d, 10) > 4 {
        return false;
      }
      var nv := U16At(d, HeaderSize);
      var vs, ids := ReadVertices(d, nv, Resize(Vertices, nv, NewVertex), Resize(BoneIDs, nv, 0));
      assert vs == Positioned(Vertices, d, nv);
      var nt := U16At(d, VertexAt(nv));
      var indices;
      vs, indices := ReadTriangles(d, nv, nt, vs, Resize(Indices, 3 * nt, 0));
      CornersBelow(d, nv, nt, nv);
      Vertices, BoneIDs, Indices := vs, ids, indices;
      return true;
    }

    /** The mesh is static: one frame, one buffer. */
    function GetFrameCount(): (n: int)
      ensures n == 1
    {
      1
    }

    function GetVertexCount(): (n: int)
      reads this
      ensures n == |Vertices|
    {
      |Vertices|
    }

    function GetIndexCount(): (n: int)
      reads this
      ensures n == |Indices|
    {
      |Indices|
    }
  }

  /** The vertex array after the vertex loop: resized to the vertex count,
      each vertex's position from its own record. */
  function Positioned(previous: seq<Vertex>, d: seq<Byte>, nv: nat): (r: seq<Vertex>)
    ensures |r| == nv
  {
    seq(nv, (i: nat) => WithPosition(if i < |previous| then previous[i] else NewVertex, VertexAt(i)))
  }
}
