// The scene node that draws static geometry through an octree
// (COctTreeSceneNode): createTree copies the mesh buffers into octree chunks
// and builds the tree for the vertex type of the first buffer, render queries
// that tree with the camera's view box and draws each material's triangles
// found, OnPreRender registers a visible node, and getMaterial looks a
// material up.
//
// The mesh is seen through its buffers.  Vertices of both layouts are values
// of one type parameter V: the source reinterprets every buffer's vertex
// array with the layout of the first buffer, which the model does not
// distinguish.  The video driver and the active camera enter as whether they
// exist, and the view box computed from the camera (float geometry) as the
// octree's intersection test `hits`; the octree's depth bound and octant test
// are parameters of createTree.
module OctTreeSceneNode {
  import opened Common
  import opened SceneMaterial
  import opened SceneManagerEntries
  import SceneManager
  import OctTree

  /** E_VERTEX_TYPE; a value the node does not build a tree for is kept by
      its number. */
  datatype VertexType = Standard | TwoTCoords | OtherVertexType(code: int)

  /** What createTree reads of an IMeshBuffer. */
  datatype Buffer<V> = Buffer(Type: VertexType, Material: Material, Vertices: seq<V>, Indices: seq<int>)

  /** One setMaterial and drawIndexedTriangleList pair of render: the
      material, the chunk's vertices, the indices the query found and the
      triangle count passed to the driver. */
  datatype Draw<V> = Draw(Material: Material, Vertices: seq<V>, Indices: seq<int>, TriangleCount: int)

  /** The index lists of the buffers, one per buffer. */
  function BufferIndices<V>(buffers: seq<Buffer<V>>): (r: seq<seq<int>>)
    ensures |r| == |buffers| && forall i | 0 <= i < |buffers| :: r[i] == buffers[i].Indices
  {
    seq(|buffers|, i requires 0 <= i < |buffers| => buffers[i].Indices)
  }

  /** The tree createTree builds: the vertex type of the first buffer, when
      it is one of the two the node has a tree for. */
  predicate BuildsTree<V>(buffers: seq<Buffer<V>>)
  {
    buffers != [] && (buffers[0].Type == Standard || buffers[0].Type == TwoTCoords)
  }

  /** The registrations OnPreRender makes: one in the default pass for a
      visible node, none for an invisible one. */
  function PreRender(visible: bool, node: SceneNode): seq<SceneManager.Registration>
  {
    if visible then [SceneManager.Registration(node, SceneManager.DefaultTime)] else []
  }

  /** A visible node lands in exactly one of the lists drawAll renders,
      never among the lights and cameras: the transparent list when one
      of its materials is transparent and the default list otherwise; an
      invisible node lands in none. */
  lemma PreRenderLands(visible: bool, node: SceneNode, camera: Vec3)
    ensures SceneManager.LightsOf(PreRender(visible, node)) == []
    ensures SceneManager.DefaultsOf(PreRender(visible, node)) ==
      if visible && !SceneManager.HasTransparentMaterial(node) then [MakeDefaultEntry(node)] else []
    ensures SceneManager.TransparentsOf(PreRender(visible, node), camera) ==
      if visible && SceneManager.HasTransparentMaterial(node) then [MakeTransparentEntry(node, camera)] else []
  {
    var r := PreRender(visible, node);
    if visible {
      assert r[..0] == [];
    }
  }

  /** The copy of one buffer into a chunk: its vertices, then its indices,
      one by one, with the buffer's position as material id. */
  method MakeChunk<V>(b: Buffer<V>, i: int) returns (chunk: OctTree.MeshChunk<V>)
    ensures chunk.Vertices == b.Vertices && chunk.Indices == b.Indices && chunk.MaterialId == i
  {
    var vertices := [];
    for v := 0 to |b.Vertices|
      invariant vertices == b.Vertices[..v]
    {
      vertices := vertices + [b.Vertices[v]];
    }
    var indices := [];
    for v := 0 to |b.Indices|
      invariant indices == b.Indices[..v]
    {
      indices := indices + [b.Indices[v]];
    }
    assert b.Vertices[..|b.Vertices|] == b.Vertices && b.Indices[..|b.Indices|] == b.Indices;
    chunk := OctTree.MeshChunk(vertices, indices, i);
  }

  /** The loop of createTree over the buffers: each buffer's material is
      pushed, and a chunk is made from it. */
  method CopyBuffers<V>(buffers: seq<Buffer<V>>) returns (materials: seq<Material>, chunks: seq<OctTree.MeshChunk<V>>)
    ensures |materials| == |buffers| && |chunks| == |buffers|
    ensures forall i | 0 <= i < |buffers| :: materials[i] == buffers[i].Material
    ensures forall i | 0 <= i < |buffers| :: chunks[i] == OctTree.MeshChunk(buffers[i].Vertices, buffers[i].Indices, i)
    ensures OctTree.IndexLists(chunks) == BufferIndices(buffers)
  {
    materials, chunks := [], [];
    for i := 0 to |buffers|
      invariant |materials| == i && |chunks| == i
      invariant forall k | 0 <= k < i :: materials[k] == buffers[k].Material
      invariant forall k | 0 <= k < i :: chunks[k] == OctTree.MeshChunk(buffers[k].Vertices, buffers[k].Indices, k)
    {
      materials := materials + [buffers[i].Material];
      var chunk := MakeChunk(buffers[i], i);
      chunks := chunks + [chunk];
    }
  }

  /** The body of either branch of createTree: the materials and chunks of
      the buffers, and the octree built from the chunks. */
  method NewTree<V>(buffers: seq<Buffer<V>>, depth: nat, fits: OctTree.Fits)
      returns (materials: seq<Material>, chunks: seq<OctTree.MeshChunk<V>>, tree: OctTree.OctTree<V>)
    requires OctTree.Triangles(BufferIndices(buffers))
    ensures fresh(tree) && tree.Valid() && tree.Meshes == chunks && tree.Depth == depth && tree.Fit == fits
    ensures |materials| == |buffers| && |chunks| == |buffers|
    ensures forall i | 0 <= i < |buffers| :: materials[i] == buffers[i].Material
    ensures forall i | 0 <= i < |buffers| :: chunks[i] == OctTree.MeshChunk(buffers[i].Vertices, buffers[i].Indices, i)
  {
    materials, chunks := CopyBuffers(buffers);
    tree := new OctTree.OctTree(chunks, depth, fits);
  }

  /** The draw calls of one material list over a queried tree's buffers:
      material i is drawn with its chunk's vertices, the indices found for
      it and a third of their number as the triangle count. */
  method DrawAll<V>(materials: seq<Material>, meshes: seq<OctTree.MeshChunk<V>>, found: seq<seq<int>>) returns (draws: seq<Draw<V>>)
    requires |materials| <= |meshes| && |materials| <= |found|
    ensures |draws| == |materials|
    ensures forall i | 0 <= i < |materials| ::
      draws[i] == Draw(materials[i], meshes[i].Vertices, found[i], |found[i]| / 3)
  {
    draws := [];
    for i := 0 to |materials|
      invariant |draws| == i
      invariant forall k | 0 <= k < i :: draws[k] == Draw(materials[k], meshes[k].Vertices, found[k], |found[k]| / 3)
    {
      draws := draws + [Draw(materials[i], meshes[i].Vertices, found[i], |found[i]| / 3)];
    }
  }

  class Node<V> {
    const Id: int
    var Position: Vec3
    var Visible: bool
    /** vertexType: None for the -1 the constructor sets. */
    var VertexType: Option<VertexType>
    var Materials: seq<Material>
    var StdMeshes: seq<OctTree.MeshChunk<V>>
    var LightMapMeshes: seq<OctTree.MeshChunk<V>>
    var StdTree: OctTree.OctTree?<V>
    var LightMapTree: OctTree.OctTree?<V>

    /** Before createTree there are no materials, chunks or trees; after it,
        the tree of the vertex type was built from its chunks, one per
        material. */
    ghost predicate Valid()
      reads this, StdTree, LightMapTree
    {
      (VertexType.None? ==> Materials == [] && StdMeshes == [] && LightMapMeshes == [] && StdTree == null && LightMapTree == null) &&
      (VertexType == Some(Standard) ==>
        StdTree != null && StdTree.Valid() && StdTree.Meshes == StdMeshes && |Materials| == |StdMeshes|) &&
      (VertexType == Some(TwoTCoords) ==>
        LightMapTree != null && LightMapTree.Valid() && LightMapTree.Meshes == LightMapMeshes && |Materials| == |LightMapMeshes|)
    }

    /** The node as the scene manager sees it when it registers. */
    function AsSceneNode(): (n: SceneNode)
      reads this
      ensures n.Id == Id && n.Materials == Materials
    {
      SceneNode(Id, Materials, Position)
    }

    /** The constructor: no tree yet (vertexType -1). */
    constructor (id: int, position: Vec3, visible: bool)
      ensures Valid()
      ensures Id == id && Position == position && Visible == visible && VertexType.None?
    {
      Id, Position, Visible := id, position, visible;
      VertexType := None;
      Materials, StdMeshes, LightMapMeshes := [], [], [];
      StdTree, LightMapTree := null, null;
    }

    /** createTree: always true.  Without buffers nothing changes; otherwise
        the vertex type is the first buffer's, and for a standard or
        two-texture-coordinate type every buffer gives a material and a
        chunk, and the tree of that type is built from the chunks (Valid
        states that its root is the tree the chunks' index lists build).
        The octree needs whole triangles in every buffer. */
    method CreateTree(buffers: seq<Buffer<V>>, depth: nat, fits: OctTree.Fits) returns (ok: bool)
      requires Valid() && VertexType.None?
      requires BuildsTree(buffers) ==> OctTree.Triangles(BufferIndices(buffers))
      modifies this
      ensures Valid() && ok
      ensures Position == old(Position) && Visible == old(Visible)
      ensures buffers == [] ==> VertexType.None?
      ensures buffers != [] ==> VertexType == Some(buffers[0].Type)
      ensures !BuildsTree(buffers) ==> Materials == [] && StdTree == null && LightMapTree == null
      ensures BuildsTree(buffers) ==> (|Materials| == |buffers| &&
        forall i | 0 <= i < |buffers| :: Materials[i] == buffers[i].Material)
      ensures VertexType == Some(Standard) ==> (fresh(StdTree) && LightMapTree == null &&
        StdTree.Depth == depth && StdTree.Fit == fits && |StdMeshes| == |buffers| &&
        forall i | 0 <= i < |buffers| :: StdMeshes[i] == OctTree.MeshChunk(buffers[i].Vertices, buffers[i].Indices, i))
      ensures VertexType == Some(TwoTCoords) ==> (fresh(LightMapTree) && StdTree == null &&
        LightMapTree.Depth == depth && LightMapTree.Fit == fits && |LightMapMeshes| == |buffers| &&
        forall i | 0 <= i < |buffers| :: LightMapMeshes[i] == OctTree.MeshChunk(buffers[i].Vertices, buffers[i].Indices, i))
    {
      if buffers != [] {
        VertexType := Some(buffers[0].Type);
        match buffers[0].Type
        case Standard =>
          var materials, chunks, tree := NewTree(buffers, depth, fits);
          Materials, StdMeshes, StdTree := materials, chunks, tree;
        case TwoTCoords =>
          var materials, chunks, tree := NewTree(buffers, depth, fits);
          Materials, LightMapMeshes, LightMapTree := materials, chunks, tree;
        case OtherVertexType(_) =>
      }
      return true;
    }

    /** render: nothing without a tree, a driver or an active camera.
        Otherwise the tree of the vertex type is queried with the view box,
        and each material is drawn with the indices found for it: only
        indices of its own buffer, each at most as often as the buffer
        holds it.  A tree built from buffers without any index has no index
        data, which the query would read. */
    method Render(hasDriver: bool, hasCamera: bool, hits: seq<seq<int>> -> bool) returns (draws: seq<Draw<V>>)
      requires Valid()
      requires VertexType == Some(Standard) && hasDriver && hasCamera ==> !OctTree.AllEmpty(OctTree.IndexLists(StdMeshes))
      requires VertexType == Some(TwoTCoords) && hasDriver && hasCamera ==> !OctTree.AllEmpty(OctTree.IndexLists(LightMapMeshes))
      modifies StdTree, LightMapTree
      ensures Valid()
      ensures VertexType.None? || !hasDriver || !hasCamera ==> draws == []
      ensures VertexType.Some? && VertexType.value.OtherVertexType? ==> draws == []
      ensures VertexType == Some(Standard) && hasDriver && hasCamera ==> (|draws| == |Materials| &&
        forall i | 0 <= i < |Materials| ::
          draws[i] == Draw(Materials[i], StdMeshes[i].Vertices, StdTree.Current[i], |StdTree.Current[i]| / 3) &&
          StdTree.Current[i] == OctTree.Polys(StdTree.Root, hits, i) &&
          multiset(draws[i].Indices) <= multiset(StdMeshes[i].Indices))
      ensures VertexType == Some(TwoTCoords) && hasDriver && hasCamera ==> (|draws| == |Materials| &&
        forall i | 0 <= i < |Materials| ::
          draws[i] == Draw(Materials[i], LightMapMeshes[i].Vertices, LightMapTree.Current[i], |LightMapTree.Current[i]| / 3) &&
          LightMapTree.Current[i] == OctTree.Polys(LightMapTree.Root, hits, i) &&
          multiset(draws[i].Indices) <= multiset(LightMapMeshes[i].Indices))
    {
      if VertexType.None? || !hasDriver {
        return [];
      }
      if !hasCamera {
        return [];
      }
      draws := [];
      match VertexType.value
      case Standard =>
        StdTree.CalculatePolys(hits);
        draws := DrawAll(Materials, StdMeshes, StdTree.Current);
      case TwoTCoords =>
        LightMapTree.CalculatePolys(hits);
        draws := DrawAll(Materials, LightMapMeshes, LightMapTree.Current);
      case OtherVertexType(_) =>
    }

    /** OnPreRender: the registrations of this frame. */
    method OnPreRender() returns (regs: seq<SceneManager.Registration>)
      ensures regs == PreRender(Visible, AsSceneNode())
    {
      if Visible {
        regs := [SceneManager.Registration(AsSceneNode(), SceneManager.DefaultTime)];
      } else {
        regs := [];
      }
    }

    /** getMaterial: None stands for the base class's material, which an
        index outside the list falls back to. */
    function GetMaterial(i: int): (m: Option<Material>)
      reads this
      ensures m.Some? <==> 0 <= i < GetMaterialCount()
      ensures m.Some? ==> m.value == Materials[i]
    {
      if i < 0 || i >= |Materials| then None else Some(Materials[i])
    }

    /** getMaterialCount: one material per buffer. */
    function GetMaterialCount(): (n: int)
      reads this
      ensures n == |Materials|
    {
      |Materials|
    }
  }
}
