// The Quake II model loader (CAnimatedMeshMD2): the header check, the
// per-frame vertex lists built from the triangle records, the index list,
// the frame count in eighths of a key frame, the frame wrap of getMesh and
// the choice of the two key frames the interpolation buffer blends.
//
// The file is seen through what the loader's reads deliver: the header
// fields, the byte counts of the two reads it checks, and the records.
// Positions, normals and texture coordinates are floating point in the
// source; here a coordinate names the integer it comes from and the
// frame axis (or normal-table column) that scales it, which is what fixes
// the axis mapping.  The interpolation arithmetic and the bounding box are
// not modelled.
module AnimatedMeshMD2 {
  import opened Common

  /** 'IDP2' read as a little-endian s32. */
  const MagicNumber := 844121161
  const Version := 8
  const MaxVertices := 2048
  /** The frame buffer on the stack: MaxVertices·4 + 128 bytes. */
  const FrameBufferSize := MaxVertices * 4 + 128
  const NormalTableSize := 162

  datatype Header = Header(
    Magic: int, Version: int, SkinWidth: int, SkinHeight: int, FrameSize: int,
    NumSkins: int, NumVertices: int, NumTexcoords: int, NumTriangles: int,
    NumGlCommands: int, NumFrames: int, OffsetSkins: int, OffsetTexcoords: int,
    OffsetTriangles: int, OffsetFrames: int, OffsetGlCommands: int, OffsetEnd: int)

  /** SMD2Vertex: three coordinate bytes and a normal-table index. */
  datatype VertexRecord = VertexRecord(V0: int, V1: int, V2: int, LightNormalIndex: int)

  /** SMD2Triangle: three vertex indices and three texture-coordinate
      indices. */
  datatype Triangle = Triangle(VertexIndices: seq<int>, TextureIndices: seq<int>)

  /** SMD2TextureCoordinate, before the division by the skin size. */
  datatype TexCoord = TexCoord(S: int, T: int)

  /** A coordinate: a frame byte scaled and translated along frame axis
      `Axis`, or column `Axis` of row `Index` of the normal table. */
  datatype Coord = Scaled(Byte: int, Axis: int) | Table(Index: int, Axis: int)

  datatype Vec3 = Vec3(X: Coord, Y: Coord, Z: Coord)

  /** S3DVertex, without its colour, which is white for every vertex. */
  datatype Vertex = Vertex(Pos: Vec3, Normal: Vec3, TCoords: TexCoord)

  /** What the loader's reads deliver: the header, the byte counts returned
      by the texture-coordinate and triangle reads, and the records. */
  datatype File = File(Header: Header, TexcoordBytes: int, Texcoords: seq<TexCoord>,
                       TriangleBytes: int, Triangles: seq<Triangle>, Frames: seq<seq<VertexRecord>>)

  predicate Accepts(h: Header)
  {
    h.Magic == MagicNumber && h.Version == Version
  }

  /** What the source relies on without checking once the header is
      accepted: counts that agree with the records, a frame that fits the
      stack buffer, and triangle indices inside the vertex and
      texture-coordinate lists.  The frame count is kept below 2^28, the
      size at which the frame array could not be allocated and
      `FrameCount << 3` would leave the s32 range. */
  predicate WellFormed(f: File)
  {
    var h := f.Header;
    0 <= h.NumVertices <= MaxVertices && h.FrameSize <= FrameBufferSize &&
    0 <= h.NumFrames < 0x1000_0000 && |f.Frames| == h.NumFrames &&
    |f.Texcoords| == h.NumTexcoords && |f.Triangles| == h.NumTriangles &&
    (forall i :: 0 <= i < |f.Frames| ==> |f.Frames[i]| == h.NumVertices) &&
    (forall t :: 0 <= t < |f.Triangles| ==> IndicesIn(f.Triangles[t], h.NumVertices, |f.Texcoords|))
  }

  predicate IndicesIn(tri: Triangle, vertexCount: int, texcoordCount: int)
  {
    |tri.VertexIndices| == 3 && |tri.TextureIndices| == 3 &&
    (forall n :: 0 <= n < 3 ==> 0 <= tri.VertexIndices[n] < vertexCount) &&
    (forall n :: 0 <= n < 3 ==> 0 <= tri.TextureIndices[n] < texcoordCount)
  }

  /** The position of a frame vertex: X from byte 0, Z from byte 1 and Y from
      byte 2, each along the frame axis of the byte. */
  function Position(r: VertexRecord): (p: Vec3)
    ensures p.X == Scaled(r.V0, 0) && p.Y == Scaled(r.V2, 2) && p.Z == Scaled(r.V1, 1)
  {
    Vec3(Scaled(r.V0, 0), Scaled(r.V2, 2), Scaled(r.V1, 1))
  }

  /** The normal of a frame vertex: the row of the normal table for an index
      in (0, 162), without the axis swap; for any other index, the position
      itself. */
  function Normal(r: VertexRecord): (n: Vec3)
    ensures 0 < r.LightNormalIndex < NormalTableSize <==> n.X.Table?
    ensures n.X.Table? ==> n == Vec3(Table(r.LightNormalIndex, 0), Table(r.LightNormalIndex, 1), Table(r.LightNormalIndex, 2))
    ensures !n.X.Table? ==> n == Position(r)
  {
    var i := r.LightNormalIndex;
    if 0 < i < NormalTableSize then Vec3(Table(i, 0), Table(i, 1), Table(i, 2)) else Position(r)
  }

  /** The loop over one frame's records (the `vertices` and `normals`
      arrays of loadFile). */
  method DecodeFrame(frame: seq<VertexRecord>) returns (positions: seq<Vec3>, normals: seq<Vec3>)
    ensures |positions| == |frame| && |normals| == |frame|
    ensures forall j :: 0 <= j < |frame| ==> positions[j] == Position(frame[j]) && normals[j] == Normal(frame[j])
  {
    positions, normals := [], [];
    var j := 0;
    while j < |frame|
      invariant 0 <= j <= |frame| && |positions| == j && |normals| == j
      invariant forall k :: 0 <= k < j ==> positions[k] == Position(frame[k]) && normals[k] == Normal(frame[k])
    {
      positions := positions + [Position(frame[j])];
      normals := normals + [Normal(frame[j])];
      j := j + 1;
    }
  }

  /** Corner n of triangle `tri` in a frame: position and normal of the
      vertex its vertex index names, texture coordinate of its texture
      index. */
  function Corner(frame: seq<VertexRecord>, tri: Triangle, n: int, texcoords: seq<TexCoord>): Vertex
    requires 0 <= n < 3 && IndicesIn(tri, |frame|, |texcoords|)
  {
    var r := frame[tri.VertexIndices[n]];
    Vertex(Position(r), Normal(r), texcoords[tri.TextureIndices[n]])
  }

  /** A frame's vertex list: three corners per triangle, in triangle order. */
  function FrameVertices(frame: seq<VertexRecord>, tris: seq<Triangle>, texcoords: seq<TexCoord>): (vs: seq<Vertex>)
    requires forall t :: 0 <= t < |tris| ==> IndicesIn(tris[t], |frame|, |texcoords|)
    ensures |vs| == 3 * |tris|
    decreases |tris|
  {
    if tris == [] then []
    else
      var k := |tris| - 1;
      FrameVertices(frame, tris[..k], texcoords) +
        [Corner(frame, tris[k], 0, texcoords), Corner(frame, tris[k], 1, texcoords), Corner(frame, tris[k], 2, texcoords)]
  }

  /** Vertex 3t + n of a frame's list is corner n of triangle t. */
  lemma {:induction false} FrameVertexAt(frame: seq<VertexRecord>, tris: seq<Triangle>, texcoords: seq<TexCoord>, t: int, n: int)
    requires forall t :: 0 <= t < |tris| ==> IndicesIn(tris[t], |frame|, |texcoords|)
    requires 0 <= t < |tris| && 0 <= n < 3
    ensures FrameVertices(frame, tris, texcoords)[3 * t + n] == Corner(frame, tris[t], n, texcoords)
    decreases |tris|
  {
    var k := |tris| - 1;
    if t < k {
      assert tris[..k][t] == tris[t];
      FrameVertexAt(frame, tris[..k], texcoords, t, n);
    }
  }

  /** The triangle loop for one frame; the corners come from the decoded
      position and normal arrays. */
  method BuildFrame(frame: seq<VertexRecord>, tris: seq<Triangle>, texcoords: seq<TexCoord>) returns (vs: seq<Vertex>)
    requires forall t :: 0 <= t < |tris| ==> IndicesIn(tris[t], |frame|, |texcoords|)
    ensures vs == FrameVertices(frame, tris, texcoords)
  {
    var positions, normals := DecodeFrame(frame);
    vs := [];
    var t := 0;
    while t < |tris|
      invariant 0 <= t <= |tris|
      invariant vs == FrameVertices(frame, tris[..t], texcoords)
    {
      vs := AppendCorners(vs, frame, tris[t], texcoords, positions, normals);
      assert tris[..t + 1][..t] == tris[..t];
      t := t + 1;
    }
    assert tris[..t] == tris;
  }

  /** The corner loop of one triangle: n runs from 0 to 2. */
  method AppendCorners(before: seq<Vertex>, frame: seq<VertexRecord>, tri: Triangle, texcoords: seq<TexCoord>,
                       positions: seq<Vec3>, normals: seq<Vec3>) returns (vs: seq<Vertex>)
    requires IndicesIn(tri, |frame|, |texcoords|)
    requires |positions| == |frame| && |normals| == |frame|
    requires forall j :: 0 <= j < |frame| ==> positions[j] == Position(frame[j]) && normals[j] == Normal(frame[j])
    ensures vs == before + [Corner(frame, tri, 0, texcoords), Corner(frame, tri, 1, texcoords), Corner(frame, tri, 2, texcoords)]
  {
    vs := before;
    var n := 0;
    while n < 3
      invariant 0 <= n <= 3 && |vs| == |before| + n
      invariant vs[..|before|] == before
      invariant forall m :: 0 <= m < n ==> vs[|before| + m] == Corner(frame, tri, m, texcoords)
    {
      var i := tri.VertexIndices[n];
      vs := vs + [Vertex(positions[i], normals[i], texcoords[tri.TextureIndices[n]])];
      n := n + 1;
    }
  }

  /** The index list loadFile appends: 0, 1, …, count - 1, each stored in a
      u16. */
  function IndexList(count: nat): (r: seq<int>)
    ensures |r| == count
    ensures forall k :: 0 <= k < count ==> r[k] == k % 0x1_0000
  {
    seq(count, k => k % 0x1_0000)
  }

  /** The index loop: n steps by three and pushes n, n+1 and n+2. */
  method MakeIndices(triangles: nat) returns (indices: seq<int>)
    ensures indices == IndexList(3 * triangles)
  {
    indices := [];
    var count := triangles * 3;
    var n := 0;
    while n < count
      invariant 0 <= n <= count && n % 3 == 0
      invariant indices == IndexList(n)
    {
      indices := indices + [n % 0x1_0000, (n + 1) % 0x1_0000, (n + 2) % 0x1_0000];
      n := n + 3;
    }
  }

  /** While the indices fit a u16, the index list of a mesh is the identity
      on its vertex list: every index names the vertex at its own place, so
      every index lies inside each frame's vertex list. */
  lemma IndicesAreIdentity(frame: seq<VertexRecord>, tris: seq<Triangle>, texcoords: seq<TexCoord>, k: int)
    requires forall t :: 0 <= t < |tris| ==> IndicesIn(tris[t], |frame|, |texcoords|)
    requires 3 * |tris| <= 0x1_0000 && 0 <= k < 3 * |tris|
    ensures IndexList(3 * |tris|)[k] == k < |FrameVertices(frame, tris, texcoords)|
  {
  }

  /** The key frames the interpolation buffer blends, and the blend weight
      as the fraction Num / Den. */
  datatype Blend = Blend(First: int, Second: int, Num: int, Den: int)

  /** updateInterpolationBuffer's choice for frame `last` (an s32, shifted
      arithmetically) of a mesh with `frameCount` key frames, in u32
      arithmetic: frame>>3 and the one after it, or the last two key frames
      when the one after lies past the end. */
  function SelectKeyFrames(last: int, frameCount: int): Blend
  {
    var first := U32(last / 8);
    var second := U32(last / 8 + 1);
    var (f, s) := if second >= frameCount then (U32(frameCount - 2), U32(frameCount - 1)) else (first, second);
    Blend(f, s, U32(last - U32(f * 8)), U32(U32(s * 8) - U32(f * 8)))
  }

  /** For a frame inside the animation the blend is between key frame
      frame/8 and the next one, at weight (frame mod 8)/8; from the last key
      frame on, it is between the last two key frames at a weight from 1 up
      to 2, so those frames extrapolate rather than loop back. */
  lemma SelectKeyFramesInRange(last: int, frameCount: int)
    requires 2 <= frameCount < 0x1000_0000 && 0 <= last <= 8 * frameCount
    ensures var b := SelectKeyFrames(last, frameCount);
      b.Second == b.First + 1 < frameCount && b.Den == 8 &&
      (last < 8 * (frameCount - 1) ==> b.First == last / 8 && b.Num == last % 8) &&
      (last >= 8 * (frameCount - 1) ==> b.First == frameCount - 2 && 8 <= b.Num <= 16)
  {
  }

  /** The frame getMesh keeps for a requested frame: compared as a u32 with
      FrameCount << 3 and reduced modulo it only when strictly greater. */
  function WrapFrame(frame: int, frameCount: int): int
    requires IsS32(frame) && 0 <= frameCount < 0x1000_0000 && (frameCount == 0 ==> frame == 0)
  {
    var limit := U32(frameCount * 8);
    if U32(frame) > limit then S32(U32(frame) % limit) else frame
  }

  /** The kept frame lies in [0, FrameCount·8]: frames in that range are
      kept, the end frame FrameCount·8 included, a larger one is reduced
      modulo FrameCount·8, and a negative one is reduced as the u32 it
      converts to. */
  lemma WrapFrameInRange(frame: int, frameCount: int)
    requires IsS32(frame) && 0 < frameCount < 0x1000_0000
    ensures 0 <= WrapFrame(frame, frameCount) <= 8 * frameCount
    ensures 0 <= frame <= 8 * frameCount ==> WrapFrame(frame, frameCount) == frame
    ensures frame > 8 * frameCount ==> WrapFrame(frame, frameCount) == frame % (8 * frameCount)
    ensures frame < 0 ==> WrapFrame(frame, frameCount) == (frame + Word) % (8 * frameCount)
  {
  }

  /** The frame loop of loadFile: each frame's vertex list, in frame order. */
  method BuildFrames(file: File) returns (lists: seq<seq<Vertex>>)
    requires WellFormed(file)
    ensures |lists| == file.Header.NumFrames
    ensures forall f :: 0 <= f < |lists| ==> lists[f] == FrameVertices(file.Frames[f], file.Triangles, file.Texcoords)
  {
    lists := [];
    var f := 0;
    while f < file.Header.NumFrames
      invariant 0 <= f <= file.Header.NumFrames && |lists| == f
      invariant forall g :: 0 <= g < f ==> lists[g] == FrameVertices(file.Frames[g], file.Triangles, file.Texcoords)
    {
      var vs := BuildFrame(file.Frames[f], file.Triangles, file.Texcoords);
      lists := lists + [vs];
      f := f + 1;
    }
  }

  class Mesh {
    var Indices: seq<int>
    var FrameList: seq<seq<Vertex>>
    /** A u32 field. */
    var FrameCount: int
    var TriangleCount: int
    var LastFrame: int
    var LastUpdatedFrame: int
    /** The key frames the interpolation buffer was last computed from. */
    var Interpolated: Option<Blend>

    ghost predicate Valid()
      reads this
    {
      |FrameList| == FrameCount && 0 <= FrameCount < 0x1000_0000 && IsS32(LastFrame) && IsS32(LastUpdatedFrame)
    }

    /** The constructor: no frames, and no frame computed yet (-1).  The
        source leaves LastFrame and TriangleCount unset; here they are 0. */
    constructor ()
      ensures Valid()
      ensures FrameCount == 0 && FrameList == [] && Indices == [] && LastUpdatedFrame == -1
      ensures Interpolated == None
    {
      Indices, FrameList, FrameCount := [], [], 0;
      TriangleCount, LastFrame, LastUpdatedFrame := 0, 0, -1;
      Interpolated := None;
    }

    /** loadFile.  A missing file or a wrong header changes nothing.  After
        the header the frame lists are replaced by empty ones and the frame
        count is set, and a checked read that returns 0 bytes ends the load
        there.  A completed load gives each frame three vertices per
        triangle and appends the indices 0 … 3T-1 to the index list. */
    method LoadFile(file: Option<File>) returns (ok: bool)
      requires Valid()
      requires file.Some? && Accepts(file.value.Header) ==> WellFormed(file.value)
      modifies this
      ensures Valid()
      ensures ok <==> file.Some? && Accepts(file.value.Header) &&
                      file.value.TexcoordBytes != 0 && file.value.TriangleBytes != 0
      ensures (file.None? || !Accepts(file.value.Header)) ==>
                FrameList == old(FrameList) && FrameCount == old(FrameCount) && Indices == old(Indices)
      ensures file.Some? && Accepts(file.value.Header) && !ok ==>
                FrameList == seq(file.value.Header.NumFrames, i => []) &&
                FrameCount == file.value.Header.NumFrames && Indices == old(Indices)
      ensures ok ==> (FrameCount == file.value.Header.NumFrames &&
                      (forall f :: 0 <= f < FrameCount ==>
                        FrameList[f] == FrameVertices(file.value.Frames[f], file.value.Triangles, file.value.Texcoords)) &&
                      Indices == old(Indices) + IndexList(3 * file.value.Header.NumTriangles) &&
                      TriangleCount == |Indices| / 3)
      ensures LastFrame == old(LastFrame) && LastUpdatedFrame == old(LastUpdatedFrame) && Interpolated == old(Interpolated)
    {
      if file.None? {
        return false;
      }
      var h := file.value.Header;
      if h.Magic != MagicNumber || h.Version != Version {
        return false;
      }
      FrameList := seq(h.NumFrames, i => []);
      FrameCount := h.NumFrames;
      if file.value.TexcoordBytes == 0 || file.value.TriangleBytes == 0 {
        return false;
      }
      FrameList := BuildFrames(file.value);
      var indices := MakeIndices(h.NumTriangles);
      Indices := Indices + indices;
      TriangleCount := |Indices| / 3;
      return true;
    }

    /** getFrameCount: FrameCount << 3 returned as an s32, eight frames per
        key frame. */
    function GetFrameCount(): (n: int)
      requires Valid()
      reads this
      ensures n == 8 * FrameCount
    {
      S32(U32(FrameCount * 8))
    }

    /** updateInterpolationBuffer: nothing to do when the frame is the one
        computed last; otherwise the buffer is computed from the chosen key
        frames, both of which must be inside the frame list. */
    method UpdateInterpolationBuffer()
      requires Valid()
      requires LastUpdatedFrame != LastFrame ==> 0 <= LastFrame <= 8 * FrameCount && FrameCount >= 2
      modifies this
      ensures Valid()
      ensures old(LastUpdatedFrame) == old(LastFrame) ==> Interpolated == old(Interpolated)
      ensures old(LastUpdatedFrame) != old(LastFrame) ==> Interpolated == Some(SelectKeyFrames(LastFrame, FrameCount))
      ensures Interpolated.Some? && old(LastUpdatedFrame) != old(LastFrame) ==>
                Interpolated.value.First < FrameCount && Interpolated.value.Second < FrameCount
      ensures LastUpdatedFrame == LastFrame
      ensures LastFrame == old(LastFrame) && FrameList == old(FrameList) && FrameCount == old(FrameCount)
      ensures Indices == old(Indices) && TriangleCount == old(TriangleCount)
    {
      if LastUpdatedFrame == LastFrame {
        return;
      }
      var firstFrame := U32(LastFrame / 8);
      var secondFrame := U32(LastFrame / 8 + 1);
      if secondFrame >= FrameCount {
        firstFrame := U32(FrameCount - 2);
        secondFrame := U32(FrameCount - 1);
      }
      var num := U32(LastFrame - U32(firstFrame * 8));
      var den := U32(U32(secondFrame * 8) - U32(firstFrame * 8));
      SelectKeyFramesInRange(LastFrame, FrameCount);
      Interpolated := Some(Blend(firstFrame, secondFrame, num, den));
      LastUpdatedFrame := LastFrame;
    }

    /** getMesh: keeps the wrapped frame and brings the interpolation buffer
        up to it.  A mesh with no frames takes only frame 0, since it would
        otherwise divide by zero, and a mesh with fewer than two key frames
        only the frame already computed, since it would otherwise read key
        frame FrameCount - 2 as a u32. */
    method GetMesh(frame: int)
      requires Valid() && IsS32(frame)
      requires FrameCount == 0 ==> frame == 0
      requires FrameCount < 2 ==> WrapFrame(frame, FrameCount) == LastUpdatedFrame
      modifies this
      ensures Valid()
      ensures FrameList == old(FrameList) && FrameCount == old(FrameCount) && Indices == old(Indices)
      ensures LastFrame == WrapFrame(frame, FrameCount) && LastUpdatedFrame == LastFrame
      ensures 0 < FrameCount ==> 0 <= LastFrame <= 8 * FrameCount
      ensures old(LastUpdatedFrame) != LastFrame ==> Interpolated == Some(SelectKeyFrames(LastFrame, FrameCount))
    {
      LastFrame := frame;
      if U32(LastFrame) > U32(FrameCount * 8) {
        LastFrame := S32(U32(LastFrame) % U32(FrameCount * 8));
      }
      if FrameCount > 0 {
        WrapFrameInRange(frame, FrameCount);
      }
      UpdateInterpolationBuffer();
    }
  }
}
