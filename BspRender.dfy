// The render half of CBspTree (CBspTree.cpp): culling a node's box against
// the view frustum, the order in which the exact traversal visits the
// subtrees, the box-overlap traversal, and the batching of leaf polygons
// into one vertex and index buffer per material.
//
// Frustum planes, the box-against-plane test, the box-overlap test and the
// camera's side of a node plane are float geometry; they enter as the
// functions of a View.
module BspRender {
  import opened Common
  import opened BspTreeTypes
  import opened BspPolygons
  import opened BspBuild

  // ---------------------------------------------------------------- cullBoxAgainsView

  /** BoxCullingResult. */
  datatype Culling = CompleteInside | CompleteOutside | BoxClipped

  /** What a render call sees of the camera: the frustum planes, where a box
      lies against a plane, whether a box meets the frustum's bounding box,
      and on which side of a plane the camera stands. */
  datatype View<!V, !P> = View(Planes: seq<P>, BoxSide: (seq<V>, P) -> Relation,
                              Overlaps: seq<V> -> bool, CameraSide: P -> PointRelation)

  /** cullBoxAgainsView's answer: outside when some frustum plane has the
      box in front of it, clipped when none does but some plane clips it,
      inside otherwise. */
  function Cull<V, P>(view: View<V, P>, box: seq<V>): Culling
    requires |view.Planes| == 6
  {
    if exists i | 0 <= i < 6 :: view.BoxSide(box, view.Planes[i]) == Front then CompleteOutside
    else if exists i | 0 <= i < 6 :: view.BoxSide(box, view.Planes[i]) == Clipped then BoxClipped
    else CompleteInside
  }

  /** cullBoxAgainsView: the six planes in order, returning at the first
      one the box lies in front of. */
  method CullBoxAgainstView<V, P>(view: View<V, P>, box: seq<V>) returns (r: Culling)
    requires |view.Planes| == 6
    ensures r == Cull(view, box)
  {
    var clipped := false;
    var i := 0;
    while i < 6
      invariant i <= 6
      invariant forall j | 0 <= j < i :: view.BoxSide(box, view.Planes[j]) != Front
      invariant clipped <==> exists j | 0 <= j < i :: view.BoxSide(box, view.Planes[j]) == Clipped
    {
      match view.BoxSide(box, view.Planes[i]) {
        case Front =>
          return CompleteOutside;
        case Clipped =>
          clipped := true;
        case _ =>
      }
      i := i + 1;
    }
    if clipped {
      return BoxClipped;
    }
    return CompleteInside;
  }

  // ---------------------------------------------------------------- render(node) / renderBoxCulling

  /** The leaf polygons the exact traversal sends to the buffers, in order:
      nothing below a box entirely outside the frustum; a leaf's polygons;
      below an inner node, the front subtree first when the camera is
      behind the node's plane and the back subtree first otherwise. */
  function Drawn<V, P>(view: View<V, P>, n: Node<V, P>): seq<Poly<V, P>>
    requires |view.Planes| == 6
  {
    if Cull(view, n.Box) == CompleteOutside then []
    else if n.IsLeaf then n.Polys
    else
      var f := if n.Front.Some? then Drawn(view, n.Front.value) else [];
      var b := if n.Back.Some? then Drawn(view, n.Back.value) else [];
      if view.CameraSide(n.Plane) == Back then f + b else b + f
  }

  /** The nodes the exact traversal culls: every node it reaches. */
  function Visits<V, P>(view: View<V, P>, n: Node<V, P>): nat
    requires |view.Planes| == 6
  {
    1 + if Cull(view, n.Box) == CompleteOutside || n.IsLeaf then 0
        else (if n.Front.Some? then Visits(view, n.Front.value) else 0)
             + (if n.Back.Some? then Visits(view, n.Back.value) else 0)
  }

  /** The leaf polygons of the box traversal: nothing below a box that
      misses the frustum's box, front subtree before back subtree. */
  function DrawnBoxes<V, P>(view: View<V, P>, n: Node<V, P>): seq<Poly<V, P>>
  {
    if !view.Overlaps(n.Box) then []
    else if n.IsLeaf then n.Polys
    else (if n.Front.Some? then DrawnBoxes(view, n.Front.value) else [])
         + (if n.Back.Some? then DrawnBoxes(view, n.Back.value) else [])
  }

  function BoxVisits<V, P>(view: View<V, P>, n: Node<V, P>): nat
  {
    1 + if !view.Overlaps(n.Box) || n.IsLeaf then 0
        else (if n.Front.Some? then BoxVisits(view, n.Front.value) else 0)
             + (if n.Back.Some? then BoxVisits(view, n.Back.value) else 0)
  }

  /** No node of the tree is entirely outside the frustum. */
  predicate Unculled<V, P>(view: View<V, P>, n: Node<V, P>)
    requires |view.Planes| == 6
  {
    Cull(view, n.Box) != CompleteOutside
    && (n.Front.Some? ==> Unculled(view, n.Front.value))
    && (n.Back.Some? ==> Unculled(view, n.Back.value))
  }

  /** The exact traversal draws each leaf polygon at most once. */
  lemma {:induction false} DrawnWithin<V, P>(view: View<V, P>, n: Node<V, P>)
    requires |view.Planes| == 6
    ensures multiset(Drawn(view, n)) <= multiset(LeafPolys(n))
    decreases n
  {
    if Cull(view, n.Box) != CompleteOutside && !n.IsLeaf {
      var f := if n.Front.Some? then Drawn(view, n.Front.value) else [];
      var b := if n.Back.Some? then Drawn(view, n.Back.value) else [];
      var lf := if n.Front.Some? then LeafPolys(n.Front.value) else [];
      var lb := if n.Back.Some? then LeafPolys(n.Back.value) else [];
      assert multiset(Drawn(view, n)) == multiset(f) + multiset(b);
      assert multiset(LeafPolys(n)) == multiset(lf) + multiset(lb);
      if n.Front.Some? {
        DrawnWithin(view, n.Front.value);
      }
      if n.Back.Some? {
        DrawnWithin(view, n.Back.value);
      }
    }
  }

  /** When no box is culled the exact traversal draws every leaf polygon. */
  lemma {:induction false} DrawnAll<V, P>(view: View<V, P>, n: Node<V, P>)
    requires |view.Planes| == 6 && Unculled(view, n)
    ensures multiset(Drawn(view, n)) == multiset(LeafPolys(n))
    decreases n
  {
    if !n.IsLeaf {
      var f := if n.Front.Some? then Drawn(view, n.Front.value) else [];
      var b := if n.Back.Some? then Drawn(view, n.Back.value) else [];
      var lf := if n.Front.Some? then LeafPolys(n.Front.value) else [];
      var lb := if n.Back.Some? then LeafPolys(n.Back.value) else [];
      assert multiset(Drawn(view, n)) == multiset(f) + multiset(b);
      assert multiset(LeafPolys(n)) == multiset(lf) + multiset(lb);
      if n.Front.Some? {
        DrawnAll(view, n.Front.value);
      }
      if n.Back.Some? {
        DrawnAll(view, n.Back.value);
      }
    }
  }

  /** The box traversal draws each leaf polygon at most once. */
  lemma {:induction false} DrawnBoxesWithin<V, P>(view: View<V, P>, n: Node<V, P>)
    ensures multiset(DrawnBoxes(view, n)) <= multiset(LeafPolys(n))
    decreases n
  {
    if view.Overlaps(n.Box) && !n.IsLeaf {
      if n.Front.Some? {
        DrawnBoxesWithin(view, n.Front.value);
      }
      if n.Back.Some? {
        DrawnBoxesWithin(view, n.Back.value);
      }
    }
  }

  // ---------------------------------------------------------------- renderLeaf

  /** A polygon's indices moved past `start` vertices, kept to 16 bits as
      the u16 index list stores them. */
  function Shifted(indices: seq<int>, start: int): (r: seq<int>)
    ensures |r| == |indices| && forall j | 0 <= j < |r| :: r[j] == U16(indices[j] + start)
  {
    seq(|indices|, j requires 0 <= j < |indices| => U16(indices[j] + start))
  }

  /** A buffer after one polygon: its vertices appended, and its indices
      appended shifted by the buffer's vertex count before the append. */
  function Appended<V, P>(b: RenderBuffer<V>, p: Poly<V, P>): RenderBuffer<V>
  {
    RenderBuffer(b.Vertices + p.Vertices, b.Indices + Shifted(p.Indices, |b.Vertices|))
  }

  /** The per-material buffers after a list of polygons, each appended to
      its material's buffer (a material out of range changes nothing). */
  function Batch<V, P>(buffers: seq<RenderBuffer<V>>, polys: seq<Poly<V, P>>): (r: seq<RenderBuffer<V>>)
    ensures |r| == |buffers|
  {
    if polys == [] then buffers
    else
      var r := Batch(buffers, polys[..|polys| - 1]);
      var p := polys[|polys| - 1];
      if p.Material < |r| then r[p.Material := Appended(r[p.Material], p)] else r
  }

  /** n empty buffers. */
  function Cleared<V>(n: nat): (r: seq<RenderBuffer<V>>)
    ensures |r| == n && forall i | 0 <= i < n :: r[i] == RenderBuffer([], [])
  {
    seq(n, i => RenderBuffer([], []))
  }

  /** renderLeaf's two inner loops: push every vertex, then every index
      plus the start offset. */
  method AppendPoly<V, P>(buffer: RenderBuffer<V>, p: Poly<V, P>) returns (r: RenderBuffer<V>)
    ensures r == Appended(buffer, p)
  {
    var start := |buffer.Vertices|;
    var vertices := buffer.Vertices;
    var v := 0;
    while v < |p.Vertices|
      invariant v <= |p.Vertices| && vertices == buffer.Vertices + p.Vertices[..v]
    {
      assert p.Vertices[..v + 1] == p.Vertices[..v] + [p.Vertices[v]];
      vertices := vertices + [p.Vertices[v]];
      v := v + 1;
    }
    assert p.Vertices[..v] == p.Vertices;
    var indices := buffer.Indices;
    var j := 0;
    while j < |p.Indices|
      invariant j <= |p.Indices| && indices == buffer.Indices + Shifted(p.Indices[..j], start)
    {
      assert Shifted(p.Indices[..j + 1], start) == Shifted(p.Indices[..j], start) + [U16(p.Indices[j] + start)];
      indices := indices + [U16(p.Indices[j] + start)];
      j := j + 1;
    }
    assert p.Indices[..j] == p.Indices;
    r := RenderBuffer(vertices, indices);
  }

  /** Batching one list after another is batching them together. */
  lemma {:induction false} BatchAppend<V, P>(buffers: seq<RenderBuffer<V>>, a: seq<Poly<V, P>>, b: seq<Poly<V, P>>)
    ensures Batch(buffers, a + b) == Batch(Batch(buffers, a), b)
    decreases |b|
  {
    if b == [] {
      assert a + b == a;
    } else {
      assert (a + b)[..|a + b| - 1] == a + b[..|b| - 1];
      assert (a + b)[|a + b| - 1] == b[|b| - 1];
      BatchAppend(buffers, a, b[..|b| - 1]);
    }
  }

  /** Every index names a vertex of its own list. */
  predicate IndicesInRange<V>(b: RenderBuffer<V>)
  {
    forall j | 0 <= j < |b.Indices| :: 0 <= b.Indices[j] < |b.Vertices|
  }

  predicate PolyIndicesInRange<V, P>(p: Poly<V, P>)
  {
    forall j | 0 <= j < |p.Indices| :: 0 <= p.Indices[j] < |p.Vertices|
  }

  lemma U16Below(x: int)
    requires x >= 0
    ensures 0 <= U16(x) <= x
  {
    if x >= 0x10000 {
      assert U16(x) < 0x10000;
    }
  }

  /** Appending a polygon whose indices name its own vertices keeps every
      index of the buffer below the buffer's vertex count. */
  lemma AppendedInRange<V, P>(b: RenderBuffer<V>, p: Poly<V, P>)
    requires IndicesInRange(b) && PolyIndicesInRange(p)
    ensures IndicesInRange(Appended(b, p))
  {
    var a := Appended(b, p);
    forall j | 0 <= j < |a.Indices|
      ensures 0 <= a.Indices[j] < |a.Vertices|
    {
      if j >= |b.Indices| {
        var k := j - |b.Indices|;
        assert a.Indices[j] == U16(p.Indices[k] + |b.Vertices|);
        U16Below(p.Indices[k] + |b.Vertices|);
      } else {
        assert a.Indices[j] == b.Indices[j];
      }
    }
  }

  /** As long as a buffer holds at most 65536 vertices, an appended index
      names the same vertex the polygon's index named. */
  lemma AppendedSameVertex<V, P>(b: RenderBuffer<V>, p: Poly<V, P>, j: nat)
    requires PolyIndicesInRange(p) && j < |p.Indices| && |b.Vertices| + |p.Vertices| <= 0x10000
    ensures Appended(b, p).Vertices[Appended(b, p).Indices[|b.Indices| + j]] == p.Vertices[p.Indices[j]]
  {
    var a := Appended(b, p);
    assert a.Indices[|b.Indices| + j] == U16(p.Indices[j] + |b.Vertices|) == p.Indices[j] + |b.Vertices|;
  }

  /** Batching keeps every buffer's indices in range. */
  lemma {:induction false} BatchInRange<V, P>(buffers: seq<RenderBuffer<V>>, polys: seq<Poly<V, P>>)
    requires forall m | 0 <= m < |buffers| :: IndicesInRange(buffers[m])
    requires forall i | 0 <= i < |polys| :: PolyIndicesInRange(polys[i])
    ensures forall m | 0 <= m < |buffers| :: IndicesInRange(Batch(buffers, polys)[m])
    decreases |polys|
  {
    if polys != [] {
      var init := polys[..|polys| - 1];
      assert forall i | 0 <= i < |init| :: init[i] == polys[i];
      BatchInRange(buffers, init);
      var r := Batch(buffers, init);
      var p := polys[|polys| - 1];
      if p.Material < |r| {
        AppendedInRange(r[p.Material], p);
      }
    }
  }

  /** The indices held by all buffers together. */
  function BufferIndices<V>(buffers: seq<RenderBuffer<V>>): nat
  {
    if buffers == [] then 0 else BufferIndices(buffers[..|buffers| - 1]) + |buffers[|buffers| - 1].Indices|
  }

  lemma {:induction false} BufferIndicesUpdate<V>(buffers: seq<RenderBuffer<V>>, m: nat, b: RenderBuffer<V>)
    requires m < |buffers|
    ensures BufferIndices(buffers[m := b]) + |buffers[m].Indices| == BufferIndices(buffers) + |b.Indices|
    decreases |buffers|
  {
    var n := |buffers|;
    if m < n - 1 {
      assert buffers[m := b][..n - 1] == buffers[..n - 1][m := b];
      BufferIndicesUpdate(buffers[..n - 1], m, b);
    } else {
      assert buffers[m := b][..n - 1] == buffers[..n - 1];
    }
  }

  /** Every index of a batched polygon lands in a buffer: the buffers grow
      by exactly the polygons' index count, which is what renderLeaf adds
      to renderedIndices. */
  lemma {:induction false} BatchCountsIndices<V, P>(buffers: seq<RenderBuffer<V>>, polys: seq<Poly<V, P>>)
    requires MaterialsBelow(polys, |buffers|)
    ensures BufferIndices(Batch(buffers, polys)) == BufferIndices(buffers) + SizeTotal(polys, IndexNumber)
    decreases |polys|
  {
    if polys != [] {
      var init := polys[..|polys| - 1];
      assert forall i | 0 <= i < |init| :: init[i] == polys[i];
      BatchCountsIndices(buffers, init);
      var r := Batch(buffers, init);
      var p := polys[|polys| - 1];
      BufferIndicesUpdate(r, p.Material, Appended(r[p.Material], p));
    }
  }

  lemma {:induction false} ClearedIndices<V>(n: nat)
    ensures BufferIndices(Cleared<V>(n)) == 0
  {
    if n > 0 {
      assert Cleared<V>(n)[..n - 1] == Cleared<V>(n - 1);
      ClearedIndices<V>(n - 1);
    }
  }
}
