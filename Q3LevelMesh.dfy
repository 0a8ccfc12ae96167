// The Quake III Arena level loader (CQ3LevelMesh): the header check of an
// IBSP version 46 file, the construction of one lightmap mesh buffer per
// (lightmap, texture) pair from the level's faces, and the texture
// attachment and removal of empty buffers that follow.
//
// The lumps are given already read: the texture names, the lightmap count,
// the vertices and the faces.  Floats (positions, normals, texture
// coordinates) are carried as integers and only moved around.  What the
// file system and the driver answer (which texture files exist, the texture
// each file or lightmap yields) are parameters.
module Q3LevelMesh {
  import opened Common
  import opened SceneMaterial
  import Color

  /** 'PSBI' as a multi-character constant: the bytes "IBSP" read as a
      little-endian s32. */
  const BspId := 0x5053_4249
  const BspVersion := 0x2e

  /** The little-endian 32-bit value of four bytes. */
  function LittleEndian32(b0: Byte, b1: Byte, b2: Byte, b3: Byte): (v: int)
    ensures 0 <= v < Word
  {
    b0 + 256 * b1 + 0x1_0000 * b2 + 0x100_0000 * b3
  }

  /** The header's id field. */
  function HeaderId(h: seq<Byte>): int
    requires |h| >= 8
  {
    LittleEndian32(h[0], h[1], h[2], h[3])
  }

  function HeaderVersion(h: seq<Byte>): int
    requires |h| >= 8
  {
    S32(LittleEndian32(h[4], h[5], h[6], h[7]))
  }

  predicate HeaderOk(h: seq<Byte>)
    requires |h| >= 8
  {
    HeaderId(h) == BspId && HeaderVersion(h) == BspVersion
  }

  /** A little-endian word is determined by its bytes. */
  lemma LittleEndianUnique(a0: Byte, a1: Byte, a2: Byte, a3: Byte, b0: Byte, b1: Byte, b2: Byte, b3: Byte)
    requires LittleEndian32(a0, a1, a2, a3) == LittleEndian32(b0, b1, b2, b3)
    ensures a0 == b0 && a1 == b1 && a2 == b2 && a3 == b3
  {
    var x := LittleEndian32(a0, a1, a2, a3);
    RemainderOf(x, 256, a1 + 256 * a2 + 0x1_0000 * a3, a0);
    RemainderOf(x, 256, b1 + 256 * b2 + 0x1_0000 * b3, b0);
    var y := a1 + 256 * a2 + 0x1_0000 * a3;
    RemainderOf(y, 256, a2 + 256 * a3, a1);
    RemainderOf(y, 256, b2 + 256 * b3, b1);
    RemainderOf(a2 + 256 * a3, 256, a3, a2);
    RemainderOf(a2 + 256 * a3, 256, b3, b2);
  }

  /** The header is accepted exactly when the file starts with the bytes
      "IBSP" followed by the s32 46. */
  lemma HeaderOkIffIBSP46(h: seq<Byte>)
    requires |h| >= 8
    ensures HeaderOk(h) <==> h[..8] == [73, 66, 83, 80, 46, 0, 0, 0]
  {
    if HeaderId(h) == BspId {
      LittleEndianUnique(h[0], h[1], h[2], h[3], 73, 66, 83, 80);
    }
    if HeaderVersion(h) == BspVersion {
      LittleEndianUnique(h[4], h[5], h[6], h[7], 46, 0, 0, 0);
    }
    assert h[..8] == [h[0], h[1], h[2], h[3], h[4], h[5], h[6], h[7]];
  }

  datatype Vec2 = Vec2(X: int, Y: int)
  datatype Vec3 = Vec3(X: int, Y: int, Z: int)

  /** tBSPVertex: vPosition, vTextureCoord, vLightmapCoord, vNormal and
      the colour bytes color[0..3]. */
  datatype BspVertex = BspVertex(Position: Vec3, TextureCoord: Vec2, LightmapCoord: Vec2, Normal: Vec3,
                                 C0: Byte, C1: Byte, C2: Byte, C3: Byte)

  /** tBSPFace, the fields constructMesh reads. */
  datatype Face = Face(TextureID: int, LightmapID: int, Type: int, VertexIndex: int, NumOfVerts: int)

  /** The arguments of the video::Color(a, r, g, b) a vertex colour is
      made from; Value is the A8R8G8B8 word the colour holds. */
  datatype VertexColor = VertexColor(A: Byte, R: Byte, G: Byte, B: Byte)
  {
    function Value(): bv32
    {
      Color.Pack(A as bv32, R as bv32, G as bv32, B as bv32)
    }
  }

  /** S3DVertex2TCoords. */
  datatype LightMapVertex = LightMapVertex(Pos: Vec3, Normal: Vec3, Color: VertexColor, TCoords: Vec2, TCoords2: Vec2)

  datatype MeshBuffer = MeshBuffer(Vertices: seq<LightMapVertex>, Indices: seq<int>, Material: Material)

  /** The level as the lumps deliver it; the header is its first 8 bytes. */
  datatype LevelFile = LevelFile(Header: seq<Byte>, TextureNames: seq<string>, LightMapCount: nat,
                                 Vertices: seq<BspVertex>, Faces: seq<Face>)

  /** A reserved buffer: empty, EMT_LIGHTMAP, no textures. */
  const EmptyBuffer := MeshBuffer([], [], Material(LightMap, 0, 0, false))

  /** The vertex a BSP vertex becomes: Y and Z of the position exchanged
      (Quake's z axis points up), the colour bytes (r, g, b, a) packed as
      A8R8G8B8. */
  function Convert(v: BspVertex): (r: LightMapVertex)
    ensures r.Pos == Vec3(v.Position.X, v.Position.Z, v.Position.Y)
    ensures r.Normal == v.Normal && r.TCoords == v.TextureCoord && r.TCoords2 == v.LightmapCoord
  {
    LightMapVertex(Vec3(v.Position.X, v.Position.Z, v.Position.Y), v.Normal,
                   VertexColor(v.C3, v.C0, v.C1, v.C2), v.TextureCoord, v.LightmapCoord)
  }

  /** The converted colour has alpha color[3], red color[0], green
      color[1] and blue color[2]. */
  lemma ConvertedColor(v: BspVertex)
    ensures var c := Convert(v).Color.Value();
      Color.AlphaOf(c) == v.C3 as bv32 && Color.RedOf(c) == v.C0 as bv32 &&
      Color.GreenOf(c) == v.C1 as bv32 && Color.BlueOf(c) == v.C2 as bv32
  {
    ByteMask(v.C3);
    ByteMask(v.C0);
    ByteMask(v.C1);
    ByteMask(v.C2);
  }

  lemma ByteMask(x: Byte)
    ensures (x as bv32) & 0xFF == x as bv32
  {
    assert x as bv32 < 256;
  }

  /** A lightmap id outside [-1, NumLightMaps - 1] becomes -1. */
  function ClampLightmap(id: int, numLightMaps: nat): (r: int)
    ensures -1 <= r < numLightMaps
    ensures -1 <= id < numLightMaps ==> r == id
    ensures !(-1 <= id < numLightMaps) ==> r == -1
  {
    if id < -1 then -1
    else if id > numLightMaps - 1 then -1
    else id
  }

  function ClampFaces(faces: seq<Face>, numLightMaps: nat): (r: seq<Face>)
    ensures |r| == |faces|
    ensures forall i | 0 <= i < |faces| :: r[i] == faces[i].(LightmapID := ClampLightmap(faces[i].LightmapID, numLightMaps))
  {
    seq(|faces|, i requires 0 <= i < |faces| => faces[i].(LightmapID := ClampLightmap(faces[i].LightmapID, numLightMaps)))
  }

  /** Clamping the lightmap ids leaves what construction reads of a face
      unchanged. */
  lemma ClampKeepsFit(faces: seq<Face>, numVertices: nat, nt: nat, nl: nat)
    requires FacesFit(faces, numVertices, nt)
    ensures FacesFit(ClampFaces(faces, nl), numVertices, nt)
  {
    var r := ClampFaces(faces, nl);
    forall i | 0 <= i < |r|
      ensures FaceFits(r[i], numVertices, nt)
    {
      assert FaceFits(faces[i], numVertices, nt);
    }
  }

  /** Buffer l * (NumTextures + 1) + t holds lightmap l - 1 and texture
      t - 1, for l in [0, NumLightMaps] and t in [0, NumTextures]. */
  function Slot(l: int, t: int, numTextures: nat): int
  {
    l * (numTextures + 1) + t
  }

  /** A slot's row and column are its quotient and remainder by the row
      length, so different (lightmap, texture) pairs never share a buffer,
      and the slots of [0, nl] x [0, nt] fill [0, (nl + 1) (nt + 1)). */
  lemma SlotDivMod(l: int, t: int, nt: nat)
    requires 0 <= t <= nt
    ensures Slot(l, t, nt) / (nt + 1) == l && Slot(l, t, nt) % (nt + 1) == t
  {
    RemainderOf(Slot(l, t, nt), nt + 1, l, t);
  }

  lemma SlotBound(l: int, t: int, nt: nat, nl: nat)
    requires 0 <= l <= nl && 0 <= t <= nt
    ensures 0 <= Slot(l, t, nt) < (nl + 1) * (nt + 1)
  {
    assert (nl + 1) * (nt + 1) == (nl - l) * (nt + 1) + l * (nt + 1) + (nt + 1);
    assert (nl - l) * (nt + 1) >= 0;
  }

  /** The row of a buffer index below (nl + 1) (nt + 1) is at most nl. */
  lemma RowBound(b: int, nt: nat, nl: nat)
    requires 0 <= b < (nl + 1) * (nt + 1)
    ensures 0 <= b / (nt + 1) <= nl
  {
    var l := b / (nt + 1);
    if l > nl {
      assert l * (nt + 1) >= (nl + 1) * (nt + 1) by {
        assert (l - nl - 1) * (nt + 1) >= 0;
      }
    }
  }

  /** The buffer a face is added to. */
  function BufferIndex(f: Face, nt: nat, nl: nat): int
  {
    Slot(ClampLightmap(f.LightmapID, nl) + 1, f.TextureID + 1, nt)
  }

  /** A face that adds geometry: type 1 (a polygon) with at least three
      vertices. */
  predicate Emits(f: Face)
  {
    f.Type == 1 && f.NumOfVerts > 2
  }

  /** What constructMesh reads without checking for an emitting face: a
      texture id in [-1, NumTextures - 1] and a vertex run inside the
      vertex lump. */
  predicate FaceFits(f: Face, numVertices: nat, nt: nat)
  {
    Emits(f) ==> -1 <= f.TextureID < nt && 0 <= f.VertexIndex && f.VertexIndex + f.NumOfVerts <= numVertices
  }

  predicate FacesFit(faces: seq<Face>, numVertices: nat, nt: nat)
  {
    forall i | 0 <= i < |faces| :: FaceFits(faces[i], numVertices, nt)
  }

  lemma FaceBufferInRange(f: Face, nt: nat, nl: nat)
    requires -1 <= f.TextureID < nt
    ensures 0 <= BufferIndex(f, nt, nl) < (nl + 1) * (nt + 1)
  {
    SlotBound(ClampLightmap(f.LightmapID, nl) + 1, f.TextureID + 1, nt, nl);
  }

  /** A u16 index of the buffer. */
  function U16(x: int): int
  {
    x % 0x1_0000
  }

  /** Fan triangle tf of a polygon starting at vertex vi: three new vertices
      vi, vi + tf - 1 and vi + tf, and the indices of the three. */
  function AddTriangle(b: MeshBuffer, vs: seq<BspVertex>, vi: int, tf: int): (r: MeshBuffer)
    requires 0 <= vi && 1 <= tf && vi + tf < |vs|
  {
    var idx := |b.Vertices|;
    b.(Vertices := b.Vertices + [Convert(vs[vi]), Convert(vs[vi + tf - 1]), Convert(vs[vi + tf])],
       Indices := b.Indices + [U16(idx), U16(idx + 1), U16(idx + 2)])
  }

  /** The buffer after fan triangles 2 .. k - 1 of the polygon. */
  function Fan(b: MeshBuffer, vs: seq<BspVertex>, vi: int, k: int): MeshBuffer
    requires 0 <= vi && 2 <= k && vi + k <= |vs|
    decreases k
  {
    if k == 2 then b else AddTriangle(Fan(b, vs, vi, k - 1), vs, vi, k - 1)
  }

  /** The buffers after one face: an emitting face adds its fan to its
      buffer; every other face adds nothing. */
  function AddFace(bs: seq<MeshBuffer>, f: Face, vs: seq<BspVertex>, nt: nat, nl: nat): (r: seq<MeshBuffer>)
    requires |bs| == (nl + 1) * (nt + 1) && FaceFits(f, |vs|, nt)
    ensures |r| == |bs|
  {
    if Emits(f) then
      FaceBufferInRange(f, nt, nl);
      var i := BufferIndex(f, nt, nl);
      bs[i := Fan(bs[i], vs, f.VertexIndex, f.NumOfVerts)]
    else bs
  }

  /** The buffers after the faces of the list, in order. */
  function Constructed(bs: seq<MeshBuffer>, faces: seq<Face>, vs: seq<BspVertex>, nt: nat, nl: nat): (r: seq<MeshBuffer>)
    requires |bs| == (nl + 1) * (nt + 1) && FacesFit(faces, |vs|, nt)
    ensures |r| == |bs|
    decreases |faces|
  {
    if faces == [] then bs
    else
      var n := |faces| - 1;
      assert FaceFits(faces[n], |vs|, nt);
      AddFace(Constructed(bs, faces[..n], vs, nt, nl), faces[n], vs, nt, nl)
  }

  /** Every index of a buffer is the u16 of its own position, one per
      vertex: each triangle's three indices name the three vertices it
      added. */
  predicate WellIndexed(b: MeshBuffer)
  {
    |b.Indices| == |b.Vertices| && forall k | 0 <= k < |b.Indices| :: b.Indices[k] == U16(k)
  }

  /** A fan of a polygon with n vertices adds n - 2 triangles, three vertices
      and three indices each, keeps what the buffer held and keeps it well
      indexed. */
  lemma {:induction false} FanGrows(b: MeshBuffer, vs: seq<BspVertex>, vi: int, k: int)
    requires 0 <= vi && 2 <= k && vi + k <= |vs| && WellIndexed(b)
    ensures var r := Fan(b, vs, vi, k);
      |r.Vertices| == |b.Vertices| + 3 * (k - 2) && WellIndexed(r) &&
      r.Vertices[..|b.Vertices|] == b.Vertices && r.Material == b.Material
    decreases k
  {
    if k > 2 {
      FanGrows(b, vs, vi, k - 1);
      var p := Fan(b, vs, vi, k - 1);
      TriangleGrows(p, vs, vi, k - 1);
      assert p.Vertices[..|b.Vertices|] == b.Vertices;
    }
  }

  /** One fan triangle adds three vertices and their three indices. */
  lemma TriangleGrows(p: MeshBuffer, vs: seq<BspVertex>, vi: int, tf: int)
    requires 0 <= vi && 1 <= tf && vi + tf < |vs| && WellIndexed(p)
    ensures var r := AddTriangle(p, vs, vi, tf);
      |r.Vertices| == |p.Vertices| + 3 && WellIndexed(r) && r.Material == p.Material &&
      forall k | 0 <= k < |p.Vertices| :: r.Vertices[k] == p.Vertices[k]
  {
  }

  /** Construction keeps every buffer well indexed and keeps its material. */
  lemma {:induction false} ConstructedWellIndexed(bs: seq<MeshBuffer>, faces: seq<Face>, vs: seq<BspVertex>, nt: nat, nl: nat)
    requires |bs| == (nl + 1) * (nt + 1) && FacesFit(faces, |vs|, nt)
    requires forall i | 0 <= i < |bs| :: WellIndexed(bs[i])
    ensures forall i | 0 <= i < |bs| ::
      WellIndexed(Constructed(bs, faces, vs, nt, nl)[i]) && Constructed(bs, faces, vs, nt, nl)[i].Material == bs[i].Material
    decreases |faces|
  {
    if faces != [] {
      var n := |faces| - 1;
      assert FaceFits(faces[n], |vs|, nt);
      assert FacesFit(faces[..n], |vs|, nt);
      ConstructedWellIndexed(bs, faces[..n], vs, nt, nl);
      var p := Constructed(bs, faces[..n], vs, nt, nl);
      var r := AddFace(p, faces[n], vs, nt, nl);
      assert Constructed(bs, faces, vs, nt, nl) == r;
      forall k | 0 <= k < |bs|
        ensures WellIndexed(r[k]) && r[k].Material == bs[k].Material
      {
        if Emits(faces[n]) && k == BufferIndex(faces[n], nt, nl) {
          FanGrows(p[k], vs, faces[n].VertexIndex, faces[n].NumOfVerts);
        }
      }
    }
  }

  /** The buffer of a face: the one of its clamped lightmap and its texture,
      so faces with the same pair share a buffer and faces with different
      pairs never do. */
  lemma FaceBufferIsItsPair(f: Face, g: Face, nt: nat, nl: nat)
    requires -1 <= f.TextureID < nt && -1 <= g.TextureID < nt
    ensures BufferIndex(f, nt, nl) == BufferIndex(g, nt, nl) <==>
      f.TextureID == g.TextureID && ClampLightmap(f.LightmapID, nl) == ClampLightmap(g.LightmapID, nl)
  {
    SlotDivMod(ClampLightmap(f.LightmapID, nl) + 1, f.TextureID + 1, nt);
    SlotDivMod(ClampLightmap(g.LightmapID, nl) + 1, g.TextureID + 1, nt);
  }

  /** The texture the driver gives texture name `name`: the file with the
      first of the extensions .jpg and .tga that exists, or none. */
  function TextureFor(name: string, existing: set<string>, textureOf: string -> int): int
  {
    if name + ".jpg" in existing then textureOf(name + ".jpg")
    else if name + ".tga" in existing then textureOf(name + ".tga")
    else 0
  }

  /** tex: entry 0 is no texture, entry t the texture of name t - 1. */
  function TextureList(names: seq<string>, existing: set<string>, textureOf: string -> int): (r: seq<int>)
    ensures |r| == |names| + 1 && r[0] == 0
    ensures forall t | 1 <= t <= |names| :: r[t] == TextureFor(names[t - 1], existing, textureOf)
  {
    [0] + seq(|names|, i requires 0 <= i < |names| => TextureFor(names[i], existing, textureOf))
  }

  /** Buffer attachment: the first texture and the lightmap of the buffer's
      slot; a buffer without a lightmap texture becomes EMT_SOLID. */
  function AttachOne(b: MeshBuffer, texture: int, lightmap: int): MeshBuffer
  {
    b.(Material := b.Material.(Texture1 := texture, Texture2 := lightmap,
                               Type := if lightmap == 0 then Solid else b.Material.Type))
  }

  function AttachAll(bs: seq<MeshBuffer>, tex: seq<int>, lig: seq<int>, nt: nat): (r: seq<MeshBuffer>)
    requires |tex| == nt + 1 && |bs| == |lig| * (nt + 1)
    ensures |r| == |bs|
  {
    seq(|bs|, b requires 0 <= b < |bs| =>
      RowBound(b, nt, |lig| - 1);
      AttachOne(bs[b], tex[b % (nt + 1)], lig[b / (nt + 1)]))
  }

  /** After attachment, the buffer of slot (l, t) carries texture t and
      lightmap l. */
  lemma AttachedSlot(bs: seq<MeshBuffer>, tex: seq<int>, lig: seq<int>, nt: nat, l: int, t: int)
    requires |tex| == nt + 1 && |bs| == |lig| * (nt + 1)
    requires 0 <= l < |lig| && 0 <= t <= nt
    ensures 0 <= Slot(l, t, nt) < |bs|
    ensures AttachAll(bs, tex, lig, nt)[Slot(l, t, nt)] == AttachOne(bs[Slot(l, t, nt)], tex[t], lig[l])
  {
    SlotBound(l, t, nt, |lig| - 1);
    SlotDivMod(l, t, nt);
  }

  /** A buffer with geometry: at least one vertex and one index. */
  predicate HasGeometry(b: MeshBuffer)
  {
    |b.Vertices| != 0 && |b.Indices| != 0
  }

  /** The buffers left after the empty ones are deleted, in their order. */
  function Pruned(bs: seq<MeshBuffer>): (r: seq<MeshBuffer>)
    ensures |r| <= |bs|
  {
    if bs == [] then []
    else (if HasGeometry(bs[0]) then [bs[0]] else []) + Pruned(bs[1..])
  }

  /** Pruning keeps exactly the buffers with geometry. */
  lemma {:induction false} PrunedKeepsGeometry(bs: seq<MeshBuffer>)
    ensures forall b | b in Pruned(bs) :: HasGeometry(b) && b in bs
    ensures forall b | b in bs && HasGeometry(b) :: b in Pruned(bs)
    decreases |bs|
  {
    if bs != [] {
      PrunedKeepsGeometry(bs[1..]);
      assert bs == [bs[0]] + bs[1..];
    }
  }

  /** Pruning splits over a concatenation, so it keeps the relative order
      of the buffers it keeps. */
  lemma {:induction false} PrunedAppend(a: seq<MeshBuffer>, b: seq<MeshBuffer>)
    ensures Pruned(a + b) == Pruned(a) + Pruned(b)
    decreases |a|
  {
    if a == [] {
      assert a + b == b;
    } else {
      var head := if HasGeometry(a[0]) then [a[0]] else [];
      assert (a + b)[0] == a[0] && (a + b)[1..] == a[1..] + b;
      assert Pruned(a + b) == head + Pruned(a[1..] + b);
      PrunedAppend(a[1..], b);
      assert Pruned(a) == head + Pruned(a[1..]);
    }
  }

  /** The buffers a loaded level ends with. */
  function Finished(f: LevelFile, hasDriver: bool, existing: set<string>, textureOf: string -> int, lightmapTextures: seq<int>): seq<MeshBuffer>
    requires FacesFit(f.Faces, |f.Vertices|, |f.TextureNames|) && |lightmapTextures| == f.LightMapCount
  {
    var nt, nl := |f.TextureNames|, f.LightMapCount;
    ClampKeepsFit(f.Faces, |f.Vertices|, nt, nl);
    var built := Constructed(seq((nl + 1) * (nt + 1), _ => EmptyBuffer), ClampFaces(f.Faces, nl), f.Vertices, nt, nl);
    if hasDriver then Pruned(AttachAll(built, TextureList(f.TextureNames, existing, textureOf), [0] + lightmapTextures, nt))
    else built
  }

  /** Construction over one more face adds that face. */
  lemma ConstructedStep(bs: seq<MeshBuffer>, faces: seq<Face>, i: nat, vs: seq<BspVertex>, nt: nat, nl: nat)
    requires |bs| == (nl + 1) * (nt + 1) && FacesFit(faces, |vs|, nt) && i < |faces|
    ensures FacesFit(faces[..i], |vs|, nt) && FacesFit(faces[..i + 1], |vs|, nt) && FaceFits(faces[i], |vs|, nt)
    ensures Constructed(bs, faces[..i + 1], vs, nt, nl) == AddFace(Constructed(bs, faces[..i], vs, nt, nl), faces[i], vs, nt, nl)
  {
    assert faces[..i + 1][..i] == faces[..i];
  }

  /** The slot after the last one of row l is the first of row l + 1. */
  lemma SlotNextRow(l: int, nt: nat)
    ensures Slot(l, nt + 1, nt) == Slot(l + 1, 0, nt)
  {
  }

  class LevelMesh {
    const HasDriver: bool
    var NumTextures: nat
    var NumLightMaps: nat
    var TextureNames: seq<string>
    var Vertices: seq<BspVertex>
    var Faces: seq<Face>
    /** The mesh buffers of the level's one mesh. */
    var Buffers: seq<MeshBuffer>

    constructor (hasDriver: bool)
      ensures HasDriver == hasDriver && Buffers == [] && Faces == [] && Vertices == []
      ensures NumTextures == 0 && NumLightMaps == 0 && TextureNames == []
    {
      HasDriver := hasDriver;
      NumTextures, NumLightMaps := 0, 0;
      TextureNames, Vertices, Faces, Buffers := [], [], [], [];
    }

    /** loadFile: false for a missing file or a header other than IBSP
        version 46, changing nothing; otherwise the lumps are taken, the
        mesh is constructed and the textures are attached. */
    method LoadFile(file: Option<LevelFile>, existing: set<string>, textureOf: string -> int, lightmapTextures: seq<int>)
        returns (ok: bool)
      requires Buffers == []
      requires file.Some? ==> |file.value.Header| >= 8
      requires file.Some? && HeaderOk(file.value.Header) ==>
        FacesFit(file.value.Faces, |file.value.Vertices|, |file.value.TextureNames|) &&
        |lightmapTextures| == file.value.LightMapCount
      modifies this
      ensures ok <==> file.Some? && HeaderOk(file.value.Header)
      ensures !ok ==> Buffers == old(Buffers) && Faces == old(Faces) && Vertices == old(Vertices)
      ensures ok ==> Faces == ClampFaces(file.value.Faces, file.value.LightMapCount) && Vertices == file.value.Vertices
      ensures ok ==> Buffers == Finished(file.value, HasDriver, existing, textureOf, lightmapTextures)
    {
      if file.None? {
        return false;
      }
      var f := file.value;
      if HeaderId(f.Header) != BspId || HeaderVersion(f.Header) != BspVersion {
        return false;
      }
      NumTextures, TextureNames := |f.TextureNames|, f.TextureNames;
      NumLightMaps := f.LightMapCount;
      Vertices, Faces := f.Vertices, f.Faces;
      ConstructMesh();
      LoadTextures(existing, textureOf, lightmapTextures);
      return true;
    }

    /** constructMesh: (NumTextures + 1) (NumLightMaps + 1) empty lightmap
        buffers, then every face in order, its lightmap id clamped in
        place. */
    method ConstructMesh()
      requires Buffers == [] && FacesFit(Faces, |Vertices|, NumTextures)
      modifies this
      ensures NumTextures == old(NumTextures) && NumLightMaps == old(NumLightMaps)
      ensures Vertices == old(Vertices) && TextureNames == old(TextureNames)
      ensures Faces == ClampFaces(old(Faces), NumLightMaps) && FacesFit(Faces, |Vertices|, NumTextures)
      ensures Buffers == Constructed(seq((NumLightMaps + 1) * (NumTextures + 1), _ => EmptyBuffer), Faces, Vertices, NumTextures, NumLightMaps)
      ensures |Buffers| == (NumLightMaps + 1) * (NumTextures + 1)
    {
      var nt, nl := NumTextures, NumLightMaps;
      var reserved := Reserve((nt + 1) * (nl + 1));
      ClampKeepsFit(Faces, |Vertices|, nt, nl);
      Faces, Buffers := AddFaces(reserved, Faces, Vertices, nt, nl);
    }

    /** The reservation loop: count empty lightmap buffers. */
    static method Reserve(count: nat) returns (buffers: seq<MeshBuffer>)
      ensures buffers == seq(count, _ => EmptyBuffer)
    {
      buffers := [];
      for i := 0 to count
        invariant buffers == seq(i, _ => EmptyBuffer)
      {
        buffers := buffers + [EmptyBuffer];
      }
    }

    /** The face loop: each face's lightmap id is clamped in place, then
        an emitting face's fan goes to the buffer of its pair. */
    static method AddFaces(reserved: seq<MeshBuffer>, given: seq<Face>, vs: seq<BspVertex>, nt: nat, nl: nat)
        returns (faces: seq<Face>, buffers: seq<MeshBuffer>)
      requires |reserved| == (nl + 1) * (nt + 1) && FacesFit(given, |vs|, nt)
      requires FacesFit(ClampFaces(given, nl), |vs|, nt)
      ensures faces == ClampFaces(given, nl)
      ensures buffers == Constructed(reserved, faces, vs, nt, nl)
    {
      faces, buffers := given, reserved;
      for i := 0 to |faces|
        invariant |faces| == |given| && |buffers| == |reserved|
        invariant forall k | 0 <= k < i :: faces[k] == given[k].(LightmapID := ClampLightmap(given[k].LightmapID, nl))
        invariant forall k | i <= k < |faces| :: faces[k] == given[k]
        invariant FacesFit(faces, |vs|, nt)
        invariant buffers == Constructed(reserved, faces[..i], vs, nt, nl)
      {
        var face := faces[i];
        if face.LightmapID < -1 {
          face := face.(LightmapID := -1);
        }
        if face.LightmapID > nl as int - 1 {
          face := face.(LightmapID := -1);
        }
        assert FaceFits(faces[i], |vs|, nt);
        ghost var before := faces;
        faces := faces[i := face];
        assert faces[..i] == before[..i];
        ConstructedStep(reserved, faces, i, vs, nt, nl);
        buffers := AddClampedFace(buffers, face, vs, nt, nl);
      }
      assert faces[..|faces|] == faces;
      assert forall k | 0 <= k < |faces| :: faces[k] == ClampFaces(given, nl)[k];
    }

    /** The switch on the type of one face whose lightmap id is clamped:
        a polygon's fan goes to the buffer of its pair. */
    static method AddClampedFace(buffers: seq<MeshBuffer>, face: Face, vs: seq<BspVertex>, nt: nat, nl: nat)
        returns (r: seq<MeshBuffer>)
      requires |buffers| == (nl + 1) * (nt + 1) && FaceFits(face, |vs|, nt) && -1 <= face.LightmapID < nl
      ensures r == AddFace(buffers, face, vs, nt, nl)
    {
      r := buffers;
      var b := Slot(face.LightmapID + 1, face.TextureID + 1, nt);
      if face.Type == 1 {
        if face.NumOfVerts > 2 {
          FaceBufferInRange(face, nt, nl);
          var buffer := AddPolygon(r[b], vs, face.VertexIndex, face.NumOfVerts);
          r := r[b := buffer];
        }
      }
    }

    /** The loop over the fan triangles of one polygon. */
    static method AddPolygon(buffer: MeshBuffer, vs: seq<BspVertex>, vi: int, n: int) returns (r: MeshBuffer)
      requires 0 <= vi && 2 <= n && vi + n <= |vs|
      ensures r == Fan(buffer, vs, vi, n)
    {
      r := buffer;
      for tf := 2 to n
        invariant r == Fan(buffer, vs, vi, tf)
      {
        r := AddFanTriangle(r, vs, vi, tf);
      }
    }

    /** One fan triangle: its three vertices pushed one by one, then the
        three indices. */
    static method AddFanTriangle(buffer: MeshBuffer, vs: seq<BspVertex>, vi: int, tf: int) returns (r: MeshBuffer)
      requires 0 <= vi && 1 <= tf && vi + tf < |vs|
      ensures r == AddTriangle(buffer, vs, vi, tf)
    {
      var idx := |buffer.Vertices|;
      var vidxes := [vi, vi + tf - 1, vi + tf];
      var vertices := buffer.Vertices;
      ghost var triple := [Convert(vs[vi]), Convert(vs[vi + tf - 1]), Convert(vs[vi + tf])];
      for vu := 0 to 3
        invariant vertices == buffer.Vertices + triple[..vu]
      {
        vertices := vertices + [Convert(vs[vidxes[vu]])];
        assert triple[..vu + 1] == triple[..vu] + [triple[vu]];
      }
      assert triple[..3] == triple;
      r := buffer.(Vertices := vertices, Indices := buffer.Indices + [U16(idx), U16(idx + 1), U16(idx + 2)]);
    }

    /** loadTextures(): nothing without a driver.  Otherwise the texture
        list and the lightmap list are built, every buffer gets the
        textures of its slot, and the buffers without geometry are
        deleted. */
    method LoadTextures(existing: set<string>, textureOf: string -> int, lightmapTextures: seq<int>)
      requires |TextureNames| == NumTextures && |lightmapTextures| == NumLightMaps
      requires |Buffers| == (NumLightMaps + 1) * (NumTextures + 1)
      modifies this
      ensures Faces == old(Faces) && Vertices == old(Vertices) && TextureNames == old(TextureNames)
      ensures NumTextures == old(NumTextures) && NumLightMaps == old(NumLightMaps)
      ensures !HasDriver ==> Buffers == old(Buffers)
      ensures HasDriver ==> Buffers == Pruned(AttachAll(old(Buffers), TextureList(TextureNames, existing, textureOf), [0] + lightmapTextures, NumTextures))
    {
      if !HasDriver {
        return;
      }
      var tex := LoadTextureList(TextureNames, existing, textureOf);
      var lig := [0] + lightmapTextures;
      var attached := AttachTextures(Buffers, tex, lig, NumTextures);
      Buffers := DeleteEmptyBuffers(attached);
    }

    /** The texture loop: entry t takes the first existing file of name
        t - 1 with extension .jpg or .tga. */
    static method LoadTextureList(names: seq<string>, existing: set<string>, textureOf: string -> int) returns (tex: seq<int>)
      ensures tex == TextureList(names, existing, textureOf)
    {
      var extensions := [".jpg", ".tga"];
      tex := [0];
      for t := 1 to |names| + 1
        invariant |tex| == t && tex[0] == 0
        invariant forall k | 1 <= k < t :: tex[k] == TextureFor(names[k - 1], existing, textureOf)
      {
        var found, loaded := 0, false;
        for e := 0 to 2
          invariant !loaded && forall k | 0 <= k < e :: names[t - 1] + extensions[k] !in existing
        {
          var s := names[t - 1] + extensions[e];
          if s in existing {
            found, loaded := textureOf(s), true;
            break;
          }
        }
        assert extensions[0] == ".jpg" && extensions[1] == ".tga";
        assert found == TextureFor(names[t - 1], existing, textureOf);
        tex := tex + [found];
      }
      var spec := TextureList(names, existing, textureOf);
      assert forall k | 0 <= k < |tex| :: tex[k] == spec[k];
    }

    /** The attachment loops over lightmap l and texture t, buffer
        l (NumTextures + 1) + t: every buffer gets the first texture of its
        column and the lightmap of its row.  The slots are visited in the
        order 0, 1, 2, ... */
    static method AttachTextures(buffers: seq<MeshBuffer>, tex: seq<int>, lig: seq<int>, nt: nat) returns (r: seq<MeshBuffer>)
      requires |tex| == nt + 1 && |lig| >= 1 && |buffers| == |lig| * (nt + 1)
      ensures r == AttachAll(buffers, tex, lig, nt)
    {
      ghost var all := AttachAll(buffers, tex, lig, nt);
      ghost var b := 0;
      r := buffers;
      for l := 0 to |lig|
        invariant |r| == |buffers| && b == Slot(l, 0, nt)
        invariant forall k | 0 <= k < |r| :: r[k] == if k < b then all[k] else buffers[k]
      {
        for t := 0 to nt + 1
          invariant |r| == |buffers| && b == Slot(l, t, nt)
          invariant forall k | 0 <= k < |r| :: r[k] == if k < b then all[k] else buffers[k]
        {
          AttachedSlot(buffers, tex, lig, nt, l, t);
          r := r[Slot(l, t, nt) := AttachOne(r[Slot(l, t, nt)], tex[t], lig[l])];
          b := b + 1;
        }
        SlotNextRow(l, nt);
      }
      SlotBound(|lig| - 1, nt, nt, |lig| - 1);
      assert b == |r|;
    }

    /** The deletion loop: a buffer without vertices or without indices is
        erased and the next one moves to its place. */
    static method DeleteEmptyBuffers(buffers: seq<MeshBuffer>) returns (r: seq<MeshBuffer>)
      ensures r == Pruned(buffers)
    {
      r := buffers;
      var i := 0;
      while i < |r|
        invariant 0 <= i <= |r| && r[..i] + Pruned(r[i..]) == Pruned(buffers)
      {
        assert r[i..][0] == r[i] && r[i..][1..] == r[i + 1..];
        if |r[i].Vertices| == 0 || |r[i].Indices| == 0 {
          assert r[..i] + r[i + 1..] == (r[..i] + r[i + 1..])[..i] + (r[..i] + r[i + 1..])[i..];
          r := r[..i] + r[i + 1..];
        } else {
          assert r[..i + 1] == r[..i] + [r[i]];
          i := i + 1;
        }
      }
      assert r[..i] == r;
    }

    /** The level is static: one frame. */
    function GetFrameCount(): (n: int)
      ensures n == 1
    {
      1
    }
  }
}
