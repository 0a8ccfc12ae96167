// The value types of the BSP tree (CBspTree.h): a polygon carrying its own
// vertices, triangle indices, splitter flag, plane and material number; a
// tree node; a per-material render buffer; and the build and render
// statistics.
//
// Vertices (`V`) and planes (`P`) are float geometry and stay abstract.  A
// bounding box is represented by the points it was grown around: the box
// itself is the smallest axis-aligned box holding them.
module BspTreeTypes {
  import opened Common

  /** EIntersectionRelation3D: where a point, polygon or box lies relative
      to a plane. */
  datatype Relation = Front | Back | Planar | Spanning | Clipped

  /** The relations plane3d::classifyPointRelation gives for a point. */
  type PointRelation = r: Relation | r.Front? || r.Back? || r.Planar? witness Front

  /** BspPoly.  `Indices` are u16 triangle-list indices into `Vertices`,
      `Plane` is the plane of the polygon, `Material` the number of the mesh
      buffer it came from. */
  datatype Poly<V, P> = Poly(Vertices: seq<V>, Indices: seq<int>, WasSplitter: bool, Plane: P, Material: nat)

  /** The element-by-element comparison loop of operator==, from position i
      on, for two sequences of the same length. */
  function SameFrom<T(==)>(s: seq<T>, t: seq<T>, i: nat): (r: bool)
    requires |s| == |t| && i <= |s|
    ensures r <==> s[i..] == t[i..]
    decreases |s| - i
  {
    if i == |s| then true
    else
      assert s[i..] == [s[i]] + s[i + 1..] && t[i..] == [t[i]] + t[i + 1..];
      s[i] == t[i] && SameFrom(s, t, i + 1)
  }

  /** BspPoly::operator==: sizes and plane first, then every index and every
      vertex.  Two polygons are equal exactly when they differ at most in
      their material and splitter flag. */
  function Equals<V(==), P(==)>(a: Poly<V, P>, b: Poly<V, P>): (r: bool)
    ensures r <==> a.(WasSplitter := b.WasSplitter, Material := b.Material) == b
  {
    if |a.Vertices| != |b.Vertices| || |a.Indices| != |b.Indices| || a.Plane != b.Plane then false
    else
      assert a.Indices[0..] == a.Indices && b.Indices[0..] == b.Indices;
      assert a.Vertices[0..] == a.Vertices && b.Vertices[0..] == b.Vertices;
      SameFrom(a.Indices, b.Indices, 0) && SameFrom(a.Vertices, b.Vertices, 0)
  }

  /** BspNode: the splitting plane, the bounding box, the leaf flag, the
      polygons (which only leaves keep once the tree is built) and the front
      and back children (None for a null pointer). */
  datatype Node<V, P> = Node(Plane: P, Box: seq<V>, IsLeaf: bool, Polys: seq<Poly<V, P>>,
                             Front: Option<Node<V, P>>, Back: Option<Node<V, P>>)

  /** The BspNode constructor: not a leaf, no children, no polygons; the
      plane and the box keep their default values. */
  function NewNode<V, P>(defaultPlane: P): (n: Node<V, P>)
    ensures !n.IsLeaf && n.Front.None? && n.Back.None? && n.Polys == []
    ensures n.Plane == defaultPlane && n.Box == []
  {
    Node(defaultPlane, [], false, [], None, None)
  }

  /** RenderBuffer: one material's vertices and u16 indices. */
  datatype RenderBuffer<V> = RenderBuffer(Vertices: seq<V>, Indices: seq<int>)

  /** SBspTreeStats.  `IndexCount` and `VertexCount` hold one counter per
      material, `MaterialMap` one material per mesh buffer, `Boxes` the
      bounding box of every leaf in creation order. */
  datatype TreeStats<V, M> = TreeStats(
    LeafCounts: nat,
    PolySplits: nat,
    NodeCount: nat,
    OriginalTotalVertexCount: nat,
    OriginalTotalIndexCount: nat,
    TotalIndexCount: nat,
    TotalVertexCount: nat,
    IndexCount: seq<nat>,
    VertexCount: seq<nat>,
    MaterialMap: seq<M>,
    RenderCullings: nat,
    MaterialCount: nat,
    RenderedIndices: nat,
    Boxes: seq<seq<V>>)
}
