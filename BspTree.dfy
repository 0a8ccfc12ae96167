// CBspTree (CBspTree.cpp, CBspTree.h): the tree object.  Construction
// fills in the statistics, collects the root polygons from the mesh
// buffers, builds the tree and allocates one render buffer per material;
// render refills those buffers with the polygons of the leaves the camera
// can see.
//
// Nodes are values: where the source fills in a node in place, the model
// builds the node and stores it.
module BspTree {
  import opened Common
  import opened BspTreeTypes
  import opened BspPolygons
  import opened BspBuild
  import opened BspRender

  class BspTree<V, P, M> {
    const G: Geometry<V, P>
    /** Whether countPolyIndizes counts as written or as evidently intended. */
    const Counting: Variant
    var Stats: TreeStats<V, M>
    var Root: Node<V, P>
    var RenderBuffers: seq<RenderBuffer<V>>

    /** The per-material arrays have materialCount entries each. */
    predicate Sized()
      reads this
    {
      |Stats.IndexCount| == Stats.MaterialCount && |Stats.VertexCount| == Stats.MaterialCount
      && |Stats.MaterialMap| == Stats.MaterialCount
    }

    /** Besides: the tree is well formed, every leaf polygon names a
        material, and there is one render buffer per material. */
    predicate Valid()
      reads this
    {
      Sized() && |RenderBuffers| == Stats.MaterialCount
      && WellFormed(Root) && MaterialsBelow(LeafPolys(Root), Stats.MaterialCount)
    }

    /** The constructor: createStats, createRoot, createBspTree on the root,
        createRenderBuffer.  The buffers need whole triangles and at least
        one of them, since the build reads the first polygon.  `blank` is a
        default-constructed material, which the material map holds until
        createRoot fills it in; `depth` bounds the recursion; `v` chooses
        whether countPolyIndizes counts as written (vertices) or as
        evidently intended (indices). */
    constructor (v: Variant, g: Geometry<V, P>, meshes: seq<MeshBuffer<V, M>>, blank: M, depth: nat)
      requires AllWhole(meshes) && IndexSum(meshes, |meshes|) > 0
      ensures Valid() && G == g && Counting == v
      ensures Root == Build(g, RootPolys(g, meshes, |meshes|), depth)
      ensures Stats.MaterialCount == |meshes| && Stats.MaterialMap == Materials(meshes)
      ensures Stats.OriginalTotalIndexCount == IndexSum(meshes, |meshes|) == 3 * |RootPolys(g, meshes, |meshes|)|
      ensures Stats.OriginalTotalVertexCount == VertexSum(meshes, |meshes|)
      ensures Stats.LeafCounts == LeafCount(Root) && Stats.NodeCount + 2 == 2 * Stats.LeafCounts
      ensures Stats.PolySplits == Splits(g, RootPolys(g, meshes, |meshes|), depth)
      ensures |LeafPolys(Root)| == |RootPolys(g, meshes, |meshes|)| + Stats.PolySplits
      ensures Stats.TotalIndexCount == SizeTotal(LeafPolys(Root), IndexMeasure(v)) == Sum(Stats.IndexCount)
      ensures v == AsWritten ==> Stats.IndexCount == Stats.VertexCount
      ensures Stats.TotalVertexCount == SizeTotal(LeafPolys(Root), VertexNumber) == Sum(Stats.VertexCount)
      ensures Stats.Boxes == LeafBoxes(Root)
      ensures Stats.RenderCullings == 0 && Stats.RenderedIndices == 0
      ensures RenderBuffers == Cleared(|meshes|)
    {
      G := g;
      Counting := v;
      var s := CreateStats(meshes, blank);
      Stats := s;
      Root := NewNode(g.DefaultPlane);
      RenderBuffers := [];
      new;
      ghost var rootPolys := RootPolys(g, meshes, |meshes|);
      CreateRoot(meshes, rootPolys);
      ghost var s0 := Stats;
      var polys := Root.Polys;
      assert polys == rootPolys;
      RootReady(g, meshes, polys);
      ghost var tree, splits := Build(g, polys, depth), Splits(g, polys, depth);
      var built := CreateBspTree(polys, depth, tree, splits);
      Root := built;
      CreateRenderBuffer();
      BuiltTree(g, polys, depth, |meshes|, tree, splits);
      GrownFromZero(Counting, s0, built);
    }

    /** createRoot: the root is an inner node without children, and one
        triangle polygon is appended per index triple of every buffer; the
        material map gets every buffer's material. */
    method CreateRoot(meshes: seq<MeshBuffer<V, M>>, ghost polys: seq<Poly<V, P>>)
      requires AllWhole(meshes) && |Stats.MaterialMap| == |meshes| && polys == RootPolys(G, meshes, |meshes|)
      modifies this
      ensures Root == old(Root).(IsLeaf := false, Front := None, Back := None, Polys := old(Root.Polys) + polys)
      ensures Stats == old(Stats).(MaterialMap := Materials(meshes))
      ensures RenderBuffers == old(RenderBuffers)
    {
      var triangles, materialMap := RootPolygons(G, meshes, Stats.MaterialMap);
      Root := Root.(IsLeaf := false, Front := None, Back := None, Polys := Root.Polys + triangles);
      Stats := Stats.(MaterialMap := materialMap);
    }

    /** The polygons of a node about to be built: see Buildable. */
    predicate Ready(polys: seq<Poly<V, P>>)
      reads this
    {
      Sized() && Buildable(polys, Stats.MaterialCount)
    }

    /** createBspTree: grow the box; below 50 vertices, at depth 0 or
        without a splitter the node becomes a leaf whose polygons and box go
        into the statistics; otherwise it gets two children, its polygons
        are routed to them and both are built in turn.  The ghost `tree`
        and `splits` name the outcome the specification functions give. */
    method CreateBspTree(polys: seq<Poly<V, P>>, depth: nat, ghost tree: Node<V, P>, ghost splits: nat)
      returns (node: Node<V, P>)
      requires Ready(polys) && tree == Build(G, polys, depth) && splits == Splits(G, polys, depth)
      modifies this`Stats
      ensures node == tree && Sized()
      ensures Stats == Built(Counting, old(Stats), tree, splits)
      decreases depth, 2
    {
      var vertexCount, box := CreateBoundingBox(polys);
      var found := true;
      if vertexCount < 50 || depth == 0 {
        found := false;
      }
      var plane := G.DefaultPlane;
      var marked := polys;
      if found {
        found, plane, marked := FindSplitter(G, polys, plane);
      }
      if !found {
        BuildLeaf(G, polys, depth);
        node := Node(plane, box, true, polys, None, None);
        CountLeaf(polys, box);
        return;
      }
      node := Divide(polys, depth, Best(G, polys).value, plane, marked, box, tree, splits);
    }

    /** The inner-node half of createBspTree: the polygons routed against
        the splitter's plane, both of whose sides then hold some. */
    method Divide(polys: seq<Poly<V, P>>, depth: nat, ghost i: nat, plane: P, marked: seq<Poly<V, P>>, box: seq<V>,
                  ghost tree: Node<V, P>, ghost splits: nat)
      returns (node: Node<V, P>)
      requires Ready(polys) && Splitter(G, polys, depth) == Some(i)
      requires plane == polys[i].Plane && marked == Mark(polys, i) && box == BoxPoints(polys)
      requires tree == Build(G, polys, depth) && splits == Splits(G, polys, depth)
      modifies this`Stats
      ensures node == tree && Sized()
      ensures Stats == Built(Counting, old(Stats), tree, splits)
      decreases depth, 1
    {
      var front, back, routed := SortPolys(G, plane, marked);
      ghost var r := Routed(front, back, routed);
      assert Children(G, polys, i) == r;
      ChildrenFilled(G, polys, i, Stats.MaterialCount, r);
      var d: nat := depth - 1;
      ghost var frontTree, backTree := Build(G, front, d), Build(G, back, d);
      ghost var frontSplits, backSplits := Splits(G, front, d), Splits(G, back, d);
      BuildInner(G, polys, depth, d, i, r, tree, frontTree, backTree, splits, frontSplits, backSplits);
      node := CreateChildren(front, back, routed, d, plane, box, frontTree, backTree, frontSplits, backSplits);
    }

    /** An inner node: two more nodes, the splits routing made, and both
        children built in turn one level down, front first.  (The source
        counts the two nodes before routing; nothing in between reads the
        count.) */
    method CreateChildren(front: seq<Poly<V, P>>, back: seq<Poly<V, P>>, routed: nat, depth: nat, plane: P, box: seq<V>,
                          ghost frontTree: Node<V, P>, ghost backTree: Node<V, P>,
                          ghost frontSplits: nat, ghost backSplits: nat)
      returns (node: Node<V, P>)
      requires Ready(front) && frontTree == Build(G, front, depth) && frontSplits == Splits(G, front, depth)
      requires Ready(back) && backTree == Build(G, back, depth) && backSplits == Splits(G, back, depth)
      modifies this`Stats
      ensures node == Node(plane, box, false, [], Some(frontTree), Some(backTree)) && Sized()
      ensures Stats == Built(Counting, old(Stats), node, routed + frontSplits + backSplits)
      decreases depth + 1, 0
    {
      ghost var s0 := Stats;
      Stats := Stats.(NodeCount := Stats.NodeCount + 2, PolySplits := Stats.PolySplits + routed);
      ghost var inner := Stats;
      var f := CreateBspTree(front, depth, frontTree, frontSplits);
      ghost var afterFront := Stats;
      var b := CreateBspTree(back, depth, backTree, backSplits);
      node := Node(plane, box, false, [], Some(f), Some(b));
      BuiltJoin(Counting, s0, inner, afterFront, Stats, node, f, b, routed, frontSplits, backSplits);
    }

    /** The leaf half of createBspTree: one more leaf, its indices and
        vertices counted, its box recorded. */
    method CountLeaf(polys: seq<Poly<V, P>>, box: seq<V>)
      requires Sized() && MaterialsBelow(polys, Stats.MaterialCount)
      modifies this`Stats
      ensures Stats == LeafStats(Counting, old(Stats), polys, box) && Sized()
    {
      Stats := Stats.(LeafCounts := Stats.LeafCounts + 1);
      var s := CountPolyIndices(Counting, Stats, polys);
      s := CountPolyVertices(s, polys);
      Stats := s.(Boxes := s.Boxes + [box]);
    }

    /** createRenderBuffer: one empty buffer per material. */
    method CreateRenderBuffer()
      modifies this
      ensures RenderBuffers == Cleared(Stats.MaterialCount)
      ensures Stats == old(Stats) && Root == old(Root)
    {
      RenderBuffers := seq(Stats.MaterialCount, i => RenderBuffer([], []));
    }

    /** renderLeaf: every polygon appended to its material's buffer, its
        indices counted as rendered. */
    method RenderLeaf(polys: seq<Poly<V, P>>)
      requires MaterialsBelow(polys, |RenderBuffers|)
      modifies this`Stats, this`RenderBuffers
      ensures RenderBuffers == Batch(old(RenderBuffers), polys)
      ensures Stats == old(Stats).(RenderedIndices := old(Stats.RenderedIndices) + SizeTotal(polys, IndexNumber))
    {
      var buffers := RenderBuffers;
      var rendered := Stats.RenderedIndices;
      var i := 0;
      while i < |polys|
        invariant unchanged(this)
        invariant i <= |polys|
        invariant buffers == Batch(old(RenderBuffers), polys[..i])
        invariant rendered == old(Stats.RenderedIndices) + SizeTotal(polys[..i], IndexNumber)
      {
        assert polys[..i + 1][..i] == polys[..i];
        var material := polys[i].Material;
        var b := AppendPoly(buffers[material], polys[i]);
        buffers := buffers[material := b];
        rendered := rendered + |polys[i].Indices|;
        i := i + 1;
      }
      assert polys[..i] == polys;
      RenderBuffers := buffers;
      Stats := Stats.(RenderedIndices := rendered);
    }

    /** render(node): count the visit, cull the box, and render what is
        not completely outside the frustum. */
    method RenderNode(n: Node<V, P>, view: View<V, P>)
      requires |view.Planes| == 6 && WellFormed(n) && MaterialsBelow(LeafPolys(n), |RenderBuffers|)
      modifies this`Stats, this`RenderBuffers
      ensures RenderBuffers == Batch(old(RenderBuffers), Drawn(view, n))
      ensures Stats == old(Stats).(RenderCullings := old(Stats.RenderCullings) + Visits(view, n),
                                   RenderedIndices := old(Stats.RenderedIndices) + SizeTotal(Drawn(view, n), IndexNumber))
      decreases n, 2
    {
      Stats := Stats.(RenderCullings := Stats.RenderCullings + 1);
      var culling := CullBoxAgainstView(view, n.Box);
      if culling == CompleteOutside {
        return;
      }
      RenderVisible(n, view);
    }

    /** The rest of render(node) for a box not completely outside: draw a
        leaf, or visit the children in the order the camera's side of the
        plane gives. Every visit below this node is counted. */
    method RenderVisible(n: Node<V, P>, view: View<V, P>)
      requires |view.Planes| == 6 && WellFormed(n) && MaterialsBelow(LeafPolys(n), |RenderBuffers|)
      requires Cull(view, n.Box) != CompleteOutside
      modifies this`Stats, this`RenderBuffers
      ensures RenderBuffers == Batch(old(RenderBuffers), Drawn(view, n))
      ensures Stats == old(Stats).(RenderCullings := old(Stats.RenderCullings) + Visits(view, n) - 1,
                                   RenderedIndices := old(Stats.RenderedIndices) + SizeTotal(Drawn(view, n), IndexNumber))
      decreases n, 1
    {
      if n.IsLeaf {
        RenderLeaf(n.Polys);
        return;
      }
      var f, b := n.Front.value, n.Back.value;
      MaterialsBelowSplit(LeafPolys(f), LeafPolys(b), |RenderBuffers|);
      if view.CameraSide(n.Plane) == Back {
        RenderChildren(n, f, b, view);
      } else {
        RenderChildren(n, b, f, view);
      }
    }

    /** The two children of an inner node, in the order the camera's side
        of its plane gives. */
    method RenderChildren(ghost parent: Node<V, P>, first: Node<V, P>, second: Node<V, P>, view: View<V, P>)
      requires |view.Planes| == 6 && parent.Front.Some? && parent.Back.Some?
      requires (first == parent.Front.value && second == parent.Back.value)
            || (first == parent.Back.value && second == parent.Front.value)
      requires WellFormed(first) && MaterialsBelow(LeafPolys(first), |RenderBuffers|)
      requires WellFormed(second) && MaterialsBelow(LeafPolys(second), |RenderBuffers|)
      modifies this`Stats, this`RenderBuffers
      ensures RenderBuffers == Batch(old(RenderBuffers), Drawn(view, first) + Drawn(view, second))
      ensures Stats == old(Stats).(RenderCullings := old(Stats.RenderCullings) + Visits(view, first) + Visits(view, second),
                                   RenderedIndices := old(Stats.RenderedIndices)
                                                      + SizeTotal(Drawn(view, first) + Drawn(view, second), IndexNumber))
      decreases parent, 0
    {
      RenderNode(first, view);
      RenderNode(second, view);
      BatchAppend(old(RenderBuffers), Drawn(view, first), Drawn(view, second));
      SizeTotalAppend(Drawn(view, first), Drawn(view, second), IndexNumber);
    }

    /** renderBoxCulling: count the visit, skip a box that misses the
        frustum's box, draw a leaf, or visit front then back. */
    method RenderBoxCulling(n: Node<V, P>, view: View<V, P>)
      requires WellFormed(n) && MaterialsBelow(LeafPolys(n), |RenderBuffers|)
      modifies this`Stats, this`RenderBuffers
      ensures RenderBuffers == Batch(old(RenderBuffers), DrawnBoxes(view, n))
      ensures Stats == old(Stats).(RenderCullings := old(Stats.RenderCullings) + BoxVisits(view, n),
                                   RenderedIndices := old(Stats.RenderedIndices) + SizeTotal(DrawnBoxes(view, n), IndexNumber))
      decreases n
    {
      Stats := Stats.(RenderCullings := Stats.RenderCullings + 1);
      if !view.Overlaps(n.Box) {
        return;
      }
      if n.IsLeaf {
        RenderLeaf(n.Polys);
        return;
      }
      var f, b := n.Front.value, n.Back.value;
      MaterialsBelowSplit(LeafPolys(f), LeafPolys(b), |RenderBuffers|);
      RenderBoxCulling(f, view);
      RenderBoxCulling(b, view);
      BatchAppend(old(RenderBuffers), DrawnBoxes(view, f), DrawnBoxes(view, b));
      SizeTotalAppend(DrawnBoxes(view, f), DrawnBoxes(view, b), IndexNumber);
    }

    /** render: clear every material's buffer and the render counters, then
        fill the buffers by the exact or the box traversal.  Afterwards the
        rendered-index counter is the number of indices in the buffers. */
    method Render(view: View<V, P>, aabbRendering: bool)
      requires Valid() && |view.Planes| == 6
      modifies this`Stats, this`RenderBuffers
      ensures Valid() && Root == old(Root)
      ensures var drawn := if aabbRendering then DrawnBoxes(view, Root) else Drawn(view, Root);
        RenderBuffers == Batch(Cleared(Stats.MaterialCount), drawn)
        && Stats == old(Stats).(RenderCullings := if aabbRendering then BoxVisits(view, Root) else Visits(view, Root),
                                RenderedIndices := SizeTotal(drawn, IndexNumber))
      ensures Stats.RenderedIndices == BufferIndices(RenderBuffers)
    {
      var buffers := RenderBuffers;
      var i := 0;
      while i < Stats.MaterialCount
        invariant unchanged(this)
        invariant i <= Stats.MaterialCount == |buffers|
        invariant forall k | 0 <= k < i :: buffers[k] == RenderBuffer([], [])
      {
        buffers := buffers[i := RenderBuffer([], [])];
        i := i + 1;
      }
      assert buffers == Cleared(Stats.MaterialCount);
      RenderBuffers := buffers;
      Stats := Stats.(RenderCullings := 0, RenderedIndices := 0);
      ClearedIndices<V>(Stats.MaterialCount);
      if !aabbRendering {
        RenderNode(Root, view);
        DrawnWithin(view, Root);
        MaterialsBelowWithin(Drawn(view, Root), LeafPolys(Root), Stats.MaterialCount);
        BatchCountsIndices(Cleared(Stats.MaterialCount), Drawn(view, Root));
      } else {
        RenderBoxCulling(Root, view);
        DrawnBoxesWithin(view, Root);
        MaterialsBelowWithin(DrawnBoxes(view, Root), LeafPolys(Root), Stats.MaterialCount);
        BatchCountsIndices(Cleared(Stats.MaterialCount), DrawnBoxes(view, Root));
      }
    }
  }
}
