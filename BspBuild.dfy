// The build half of CBspTree (CBspTree.cpp): the root polygons taken from
// the mesh buffers, the creation statistics, and the recursive split into
// a tree whose leaves keep the polygons, all as functions of the input.
//
// The source recurses until no splitter is found or a node holds fewer
// than 50 vertices; here a depth bound is added so that the recursion
// visibly ends (at depth 0 a node becomes a leaf).
module BspBuild {
  import opened Common
  import opened BspTreeTypes
  import opened BspPolygons

  // ---------------------------------------------------------------- createRoot

  /** An IMeshBuffer as the tree reads it: vertices, u16 triangle-list
      indices and a material. */
  datatype MeshBuffer<V, M> = MeshBuffer(Vertices: seq<V>, Indices: seq<int>, Material: M)

  /** createRoot reads the indices three at a time and every index as a
      vertex position. */
  predicate WholeTriangles<V, M>(b: MeshBuffer<V, M>)
  {
    |b.Indices| % 3 == 0 && forall k | 0 <= k < |b.Indices| :: 0 <= b.Indices[k] < |b.Vertices|
  }

  predicate AllWhole<V, M>(meshes: seq<MeshBuffer<V, M>>)
  {
    forall i | 0 <= i < |meshes| :: WholeTriangles(meshes[i])
  }

  /** The polygon of triangle t of a buffer: its three vertices, indices 0,
      1 and 2, not yet a splitter, the plane through it, and the buffer's
      number as its material. */
  function Triangle<V, P, M>(g: Geometry<V, P>, b: MeshBuffer<V, M>, material: nat, t: nat): Poly<V, P>
    requires WholeTriangles(b) && 3 * t + 2 < |b.Indices|
  {
    var vs := [b.Vertices[b.Indices[3 * t]], b.Vertices[b.Indices[3 * t + 1]], b.Vertices[b.Indices[3 * t + 2]]];
    Poly(vs, [0, 1, 2], false, g.PlaneOf(vs, [0, 1, 2]), material)
  }

  /** The polygons of the first t triangles of a buffer. */
  function Triangles<V, P, M>(g: Geometry<V, P>, b: MeshBuffer<V, M>, material: nat, t: nat): (r: seq<Poly<V, P>>)
    requires WholeTriangles(b) && 3 * t <= |b.Indices|
    ensures |r| == t
  {
    if t == 0 then [] else Triangles(g, b, material, t - 1) + [Triangle(g, b, material, t - 1)]
  }

  /** The root's polygons: every triangle of buffers 0..k-1, buffer after
      buffer. */
  function RootPolys<V, P, M>(g: Geometry<V, P>, meshes: seq<MeshBuffer<V, M>>, k: nat): seq<Poly<V, P>>
    requires AllWhole(meshes) && k <= |meshes|
  {
    if k == 0 then []
    else
      var b := meshes[k - 1];
      assert WholeTriangles(b);
      RootPolys(g, meshes, k - 1) + Triangles(g, b, k - 1, |b.Indices| / 3)
  }

  lemma RootPolysStep<V, P, M>(g: Geometry<V, P>, meshes: seq<MeshBuffer<V, M>>, k: nat)
    requires AllWhole(meshes) && k < |meshes|
    ensures WholeTriangles(meshes[k])
    ensures RootPolys(g, meshes, k + 1) == RootPolys(g, meshes, k) + Triangles(g, meshes[k], k, |meshes[k].Indices| / 3)
  {
  }

  /** The indices of buffers 0..k-1. */
  function IndexSum<V, M>(meshes: seq<MeshBuffer<V, M>>, k: nat): nat
    requires k <= |meshes|
  {
    if k == 0 then 0 else IndexSum(meshes, k - 1) + |meshes[k - 1].Indices|
  }

  /** The vertices of buffers 0..k-1. */
  function VertexSum<V, M>(meshes: seq<MeshBuffer<V, M>>, k: nat): nat
    requires k <= |meshes|
  {
    if k == 0 then 0 else VertexSum(meshes, k - 1) + |meshes[k - 1].Vertices|
  }

  /** The root polygons are triangles with indices 0, 1, 2, none of them a
      splitter yet, each tagged with the buffer it came from. */
  predicate RootShaped<V, P>(polys: seq<Poly<V, P>>, materials: nat)
  {
    forall i | 0 <= i < |polys| ::
      |polys[i].Vertices| == 3 && polys[i].Indices == [0, 1, 2] && !polys[i].WasSplitter && polys[i].Material < materials
  }

  lemma {:induction false} TrianglesShaped<V, P, M>(g: Geometry<V, P>, b: MeshBuffer<V, M>, material: nat, t: nat)
    requires WholeTriangles(b) && 3 * t <= |b.Indices|
    ensures RootShaped(Triangles(g, b, material, t), material + 1)
  {
    if t > 0 {
      TrianglesShaped(g, b, material, t - 1);
    }
  }

  /** Three indices make one polygon: the root holds one triangle polygon
      per index triple of every buffer. */
  lemma {:induction false} RootTriangles<V, P, M>(g: Geometry<V, P>, meshes: seq<MeshBuffer<V, M>>, k: nat)
    requires AllWhole(meshes) && k <= |meshes|
    ensures 3 * |RootPolys(g, meshes, k)| == IndexSum(meshes, k)
    ensures RootShaped(RootPolys(g, meshes, k), k)
  {
    if k > 0 {
      RootTriangles(g, meshes, k - 1);
      var b := meshes[k - 1];
      assert WholeTriangles(b);
      TrianglesShaped(g, b, k - 1, |b.Indices| / 3);
      var front := RootPolys(g, meshes, k - 1);
      var last := Triangles(g, b, k - 1, |b.Indices| / 3);
      var all: seq<Poly<V, P>> := front + last;
      assert RootPolys(g, meshes, k) == all;
      forall i | 0 <= i < |all|
        ensures |all[i].Vertices| == 3 && all[i].Indices == [0, 1, 2] && !all[i].WasSplitter && all[i].Material < k
      {
        if i >= |front| {
          assert all[i] == last[i - |front|];
        }
      }
    }
  }

  /** The root's polygons are ready for the build: one per index triple,
      each with vertices and a material below the buffer count. */
  lemma RootReady<V, P, M>(g: Geometry<V, P>, meshes: seq<MeshBuffer<V, M>>, polys: seq<Poly<V, P>>)
    requires AllWhole(meshes) && polys == RootPolys(g, meshes, |meshes|)
    ensures 3 * |polys| == IndexSum(meshes, |meshes|) && HasVertices(polys) && MaterialsBelow(polys, |meshes|)
  {
    RootTriangles(g, meshes, |meshes|);
  }

  /** createRoot's inner loop: one polygon per index triple of a buffer. */
  method TrianglesOf<V, P, M>(g: Geometry<V, P>, b: MeshBuffer<V, M>, material: nat) returns (polys: seq<Poly<V, P>>)
    requires WholeTriangles(b)
    ensures polys == Triangles(g, b, material, |b.Indices| / 3)
  {
    polys := [];
    var index := 0;
    ghost var t := 0;
    while index < |b.Indices|
      invariant index == 3 * t <= |b.Indices|
      invariant polys == Triangles(g, b, material, t)
    {
      var vertices := [b.Vertices[b.Indices[index]], b.Vertices[b.Indices[index + 1]], b.Vertices[b.Indices[index + 2]]];
      polys := polys + [Poly(vertices, [0, 1, 2], false, g.PlaneOf(vertices, [0, 1, 2]), material)];
      index := index + 3;
      t := t + 1;
    }
  }

  /** The material of every buffer, in buffer order. */
  function Materials<V, M>(meshes: seq<MeshBuffer<V, M>>): (r: seq<M>)
    ensures |r| == |meshes| && forall i | 0 <= i < |meshes| :: r[i] == meshes[i].Material
  {
    seq(|meshes|, i requires 0 <= i < |meshes| => meshes[i].Material)
  }

  /** createRoot's loop: every buffer's material into the material map,
      every buffer's triangles onto the root's polygons. */
  method RootPolygons<V, P, M>(g: Geometry<V, P>, meshes: seq<MeshBuffer<V, M>>, materialMap: seq<M>)
    returns (polys: seq<Poly<V, P>>, materialMap': seq<M>)
    requires AllWhole(meshes) && |materialMap| == |meshes|
    ensures polys == RootPolys(g, meshes, |meshes|) && materialMap' == Materials(meshes)
  {
    polys, materialMap' := [], materialMap;
    var i := 0;
    while i < |meshes|
      invariant i <= |meshes| && |materialMap'| == |meshes|
      invariant forall k | 0 <= k < i :: materialMap'[k] == meshes[k].Material
      invariant polys == RootPolys(g, meshes, i)
    {
      materialMap' := materialMap'[i := meshes[i].Material];
      var triangles := TrianglesOf(g, meshes[i], i);
      RootPolysStep(g, meshes, i);
      polys := polys + triangles;
      i := i + 1;
    }
  }

  // ---------------------------------------------------------------- createStats

  function Zeros(n: nat): (r: seq<nat>)
    ensures |r| == n && forall i | 0 <= i < n :: r[i] == 0
  {
    seq(n, i => 0)
  }

  /** The sum of a sequence of counters. */
  function Sum(c: seq<nat>): nat
  {
    if c == [] then 0 else Sum(c[..|c| - 1]) + c[|c| - 1]
  }

  lemma {:induction false} SumZeros(n: nat)
    ensures Sum(Zeros(n)) == 0
  {
    if n > 0 {
      assert Zeros(n)[..n - 1] == Zeros(n - 1);
      SumZeros(n - 1);
    }
  }

  /** createStats: all counters zero, the original totals summed over the
      buffers, one zero index and vertex counter per material, and a
      material map of default materials for createRoot to fill in.  The
      source leaves the render counters unset until the first render; here
      they start at zero. */
  method CreateStats<V, M>(meshes: seq<MeshBuffer<V, M>>, blank: M) returns (s: TreeStats<V, M>)
    ensures s.LeafCounts == 0 && s.PolySplits == 0 && s.NodeCount == 0
    ensures s.TotalIndexCount == 0 && s.TotalVertexCount == 0 && s.Boxes == []
    ensures s.RenderCullings == 0 && s.RenderedIndices == 0
    ensures s.OriginalTotalVertexCount == VertexSum(meshes, |meshes|)
    ensures s.OriginalTotalIndexCount == IndexSum(meshes, |meshes|)
    ensures s.MaterialCount == |meshes| && s.IndexCount == Zeros(|meshes|) && s.VertexCount == Zeros(|meshes|)
    ensures s.MaterialMap == seq(|meshes|, i => blank)
  {
    var vertexSum, indexSum := 0, 0;
    var i := 0;
    while i < |meshes|
      invariant i <= |meshes|
      invariant vertexSum == VertexSum(meshes, i) && indexSum == IndexSum(meshes, i)
    {
      vertexSum := vertexSum + |meshes[i].Vertices|;
      indexSum := indexSum + |meshes[i].Indices|;
      i := i + 1;
    }
    var indexCount: seq<nat> := [];
    var vertexCount: seq<nat> := [];
    i := 0;
    while i < |meshes|
      invariant i <= |meshes|
      invariant indexCount == Zeros(i) && vertexCount == Zeros(i)
    {
      indexCount := indexCount + [0];
      vertexCount := vertexCount + [0];
      i := i + 1;
    }
    s := TreeStats(0, 0, 0, vertexSum, indexSum, 0, 0, indexCount, vertexCount,
                   seq(|meshes|, i => blank), 0, |meshes|, 0, []);
  }

  // ---------------------------------------------------------------- countPolyIndizes / countPolyVertizes

  /** What a leaf adds to the statistics: its polygons' vertex or index
      counts. */
  datatype Measure = VertexNumber | IndexNumber

  /** What countPolyIndizes adds to the index statistics for a polygon: as
      written, its vertex count; as evidently intended, its index count. */
  function IndexMeasure(v: Variant): Measure
  {
    if v == AsWritten then VertexNumber else IndexNumber
  }

  /** What the counters of measure m count under variant v. */
  function CountedAs(v: Variant, m: Measure): Measure
  {
    if m == IndexNumber then IndexMeasure(v) else VertexNumber
  }

  function SizeOf<V, P>(p: Poly<V, P>, m: Measure): nat
  {
    if m == VertexNumber then |p.Vertices| else |p.Indices|
  }

  /** The size of all polygons together. */
  function SizeTotal<V, P>(polys: seq<Poly<V, P>>, m: Measure): nat
  {
    if polys == [] then 0 else SizeTotal(polys[..|polys| - 1], m) + SizeOf(polys[|polys| - 1], m)
  }

  /** The per-material counters after each polygon's size is added to its
      material's counter (a material out of range changes nothing). */
  function AddSizes<V, P>(counts: seq<nat>, polys: seq<Poly<V, P>>, m: Measure): (r: seq<nat>)
    ensures |r| == |counts|
  {
    if polys == [] then counts
    else
      var c := AddSizes(counts, polys[..|polys| - 1], m);
      var p := polys[|polys| - 1];
      if p.Material < |c| then c[p.Material := c[p.Material] + SizeOf(p, m)] else c
  }

  lemma {:induction false} SumUpdate(c: seq<nat>, i: nat, d: nat)
    requires i < |c|
    ensures Sum(c[i := c[i] + d]) == Sum(c) + d
    decreases |c|
  {
    var c' := c[i := c[i] + d];
    assert c'[..|c| - 1] == if i < |c| - 1 then c[..|c| - 1][i := c[i] + d] else c[..|c| - 1];
    if i < |c| - 1 {
      SumUpdate(c[..|c| - 1], i, d);
    }
  }

  lemma MaterialsBelowSplit<V, P>(a: seq<Poly<V, P>>, b: seq<Poly<V, P>>, m: nat)
    requires MaterialsBelow(a + b, m)
    ensures MaterialsBelow(a, m) && MaterialsBelow(b, m)
  {
    assert forall i | 0 <= i < |a| :: a[i] == (a + b)[i];
    assert forall i | 0 <= i < |b| :: b[i] == (a + b)[|a| + i];
  }

  /** A polygon list drawn from another keeps its materials in range. */
  lemma MaterialsBelowWithin<V, P>(a: seq<Poly<V, P>>, b: seq<Poly<V, P>>, m: nat)
    requires multiset(a) <= multiset(b) && MaterialsBelow(b, m)
    ensures MaterialsBelow(a, m)
  {
    forall i | 0 <= i < |a|
      ensures a[i].Material < m
    {
      assert a[i] in multiset(a);
      assert a[i] in b;
    }
  }

  /** The per-material counters always add up to the total: what a leaf
      adds to the counters is what it adds to the total. */
  lemma {:induction false} AddSizesSum<V, P>(counts: seq<nat>, polys: seq<Poly<V, P>>, m: Measure)
    requires MaterialsBelow(polys, |counts|)
    ensures Sum(AddSizes(counts, polys, m)) == Sum(counts) + SizeTotal(polys, m)
    decreases |polys|
  {
    if polys != [] {
      var init := polys[..|polys| - 1];
      var p := polys[|polys| - 1];
      assert MaterialsBelow(init, |counts|) && p.Material < |counts| by {
        assert forall i | 0 <= i < |init| :: init[i] == polys[i];
      }
      AddSizesSum(counts, init, m);
      var c := AddSizes(counts, init, m);
      assert AddSizes(counts, polys, m) == c[p.Material := c[p.Material] + SizeOf(p, m)];
      assert SizeTotal(polys, m) == SizeTotal(init, m) + SizeOf(p, m);
      SumUpdate(c, p.Material, SizeOf(p, m));
    }
  }

  lemma {:induction false} SizeTotalAppend<V, P>(a: seq<Poly<V, P>>, b: seq<Poly<V, P>>, m: Measure)
    ensures SizeTotal(a + b, m) == SizeTotal(a, m) + SizeTotal(b, m)
    decreases |b|
  {
    if b == [] {
      assert a + b == a;
    } else {
      assert (a + b)[..|a + b| - 1] == a + b[..|b| - 1];
      assert (a + b)[|a + b| - 1] == b[|b| - 1];
      SizeTotalAppend(a, b[..|b| - 1], m);
    }
  }

  lemma {:induction false} AddSizesAppend<V, P>(counts: seq<nat>, a: seq<Poly<V, P>>, b: seq<Poly<V, P>>, m: Measure)
    ensures AddSizes(counts, a + b, m) == AddSizes(AddSizes(counts, a, m), b, m)
    decreases |b|
  {
    if b == [] {
      assert a + b == a;
    } else {
      assert (a + b)[..|a + b| - 1] == a + b[..|b| - 1];
      assert (a + b)[|a + b| - 1] == b[|b| - 1];
      AddSizesAppend(counts, a, b[..|b| - 1], m);
    }
  }

  /** The loop of countPolyVertizes and countPolyIndizes: a total and the
      per-material counters grow by each polygon's size. */
  method Accumulate<V, P>(total: nat, counts: seq<nat>, polys: seq<Poly<V, P>>, m: Measure)
    returns (total': nat, counts': seq<nat>)
    requires MaterialsBelow(polys, |counts|)
    ensures total' == total + SizeTotal(polys, m) && counts' == AddSizes(counts, polys, m)
  {
    total', counts' := total, counts;
    var i := 0;
    while i < |polys|
      invariant i <= |polys|
      invariant total' == total + SizeTotal(polys[..i], m) && counts' == AddSizes(counts, polys[..i], m)
    {
      assert polys[..i + 1][..i] == polys[..i];
      var p := polys[i];
      var size := if m == VertexNumber then |p.Vertices| else |p.Indices|;
      total' := total' + size;
      counts' := counts'[p.Material := counts'[p.Material] + size];
      i := i + 1;
    }
    assert polys[..i] == polys;
  }

  /** countPolyVertizes: the leaf's vertices, in total and per material. */
  method CountPolyVertices<V, M, P>(s: TreeStats<V, M>, polys: seq<Poly<V, P>>) returns (s': TreeStats<V, M>)
    requires MaterialsBelow(polys, |s.VertexCount|)
    ensures s' == s.(TotalVertexCount := s.TotalVertexCount + SizeTotal(polys, VertexNumber),
                     VertexCount := AddSizes(s.VertexCount, polys, VertexNumber))
  {
    var total, counts := Accumulate(s.TotalVertexCount, s.VertexCount, polys, VertexNumber);
    s' := s.(TotalVertexCount := total, VertexCount := counts);
  }

  /** countPolyIndizes, as written or as evidently intended: the leaf's
      polygons, measured by IndexMeasure(v), are added to the index
      statistics, in total and per material. */
  method CountPolyIndices<V, M, P>(v: Variant, s: TreeStats<V, M>, polys: seq<Poly<V, P>>) returns (s': TreeStats<V, M>)
    requires MaterialsBelow(polys, |s.IndexCount|)
    ensures s' == s.(TotalIndexCount := s.TotalIndexCount + SizeTotal(polys, IndexMeasure(v)),
                     IndexCount := AddSizes(s.IndexCount, polys, IndexMeasure(v)))
  {
    var total, counts := Accumulate(s.TotalIndexCount, s.IndexCount, polys, IndexMeasure(v));
    s' := s.(TotalIndexCount := total, IndexCount := counts);
  }

  /** A split fragment with four vertices is fanned into two triangles: six
      indices, which renderLeaf emits, against the four that countPolyIndizes
      as written records. */
  lemma QuadFragmentIndices<V, P>(g: Geometry<V, P>, poly: Poly<V, P>, vs: seq<V>)
    requires |vs| == 4
    ensures SizeTotal([Piece(g, poly, vs)], VertexNumber) == 4
    ensures SizeTotal([Piece(g, poly, vs)], IndexNumber) == 6
  {
    assert FanCount(4) == 2;
    assert [Piece(g, poly, vs)][..0] == [];
    FanShape(2);
  }

  // ---------------------------------------------------------------- createBspTree

  /** Only leaves are without children; inner nodes have both and no
      polygons of their own. */
  predicate WellFormed<V, P>(n: Node<V, P>)
  {
    if n.IsLeaf then n.Front.None? && n.Back.None?
    else n.Front.Some? && n.Back.Some? && n.Polys == [] && WellFormed(n.Front.value) && WellFormed(n.Back.value)
  }

  /** The polygons of the leaves, front subtree before back subtree. */
  function LeafPolys<V, P>(n: Node<V, P>): seq<Poly<V, P>>
  {
    if n.IsLeaf then n.Polys
    else (if n.Front.Some? then LeafPolys(n.Front.value) else [])
         + (if n.Back.Some? then LeafPolys(n.Back.value) else [])
  }

  /** The boxes of the leaves, in the same order. */
  function LeafBoxes<V, P>(n: Node<V, P>): seq<seq<V>>
  {
    if n.IsLeaf then [n.Box]
    else (if n.Front.Some? then LeafBoxes(n.Front.value) else [])
         + (if n.Back.Some? then LeafBoxes(n.Back.value) else [])
  }

  function LeafCount<V, P>(n: Node<V, P>): nat
  {
    if n.IsLeaf then 1
    else (if n.Front.Some? then LeafCount(n.Front.value) else 0)
         + (if n.Back.Some? then LeafCount(n.Back.value) else 0)
  }

  function InnerCount<V, P>(n: Node<V, P>): nat
  {
    if n.IsLeaf then 0
    else 1 + (if n.Front.Some? then InnerCount(n.Front.value) else 0)
           + (if n.Back.Some? then InnerCount(n.Back.value) else 0)
  }

  /** Every inner node has two children, so there is one leaf more than
      there are inner nodes. */
  lemma {:induction false} LeavesOutnumberInner<V, P>(n: Node<V, P>)
    requires WellFormed(n)
    ensures LeafCount(n) == InnerCount(n) + 1
  {
    if !n.IsLeaf {
      LeavesOutnumberInner(n.Front.value);
      LeavesOutnumberInner(n.Back.value);
    }
  }

  /** The node's splitter: none below 50 vertices or at depth 0, otherwise
      findSplitter's choice. */
  function Splitter<V, P>(g: Geometry<V, P>, polys: seq<Poly<V, P>>, depth: nat): (r: Option<nat>)
    ensures r.Some? ==> r.value < |polys| && depth > 0
  {
    if VertexTotal(polys) < 50 || depth == 0 then None else Best(g, polys)
  }

  /** The routing below a splitter: the splitter marked, every polygon
      sorted against its plane. */
  function Children<V, P>(g: Geometry<V, P>, polys: seq<Poly<V, P>>, i: nat): Routed<V, P>
    requires i < |polys|
  {
    Route(g, polys[i].Plane, Mark(polys, i))
  }

  /** The tree createBspTree builds: a leaf keeps its polygons and the
      default plane; an inner node takes the splitter's plane and its
      children are the trees of the routed polygons.  Every node's box is
      grown around its polygons. */
  function Build<V, P>(g: Geometry<V, P>, polys: seq<Poly<V, P>>, depth: nat): Node<V, P>
    decreases depth
  {
    match Splitter(g, polys, depth)
    case None => Node(g.DefaultPlane, BoxPoints(polys), true, polys, None, None)
    case Some(i) =>
      var r := Children(g, polys, i);
      Node(polys[i].Plane, BoxPoints(polys), false, [],
           Some(Build(g, r.Front, depth - 1)), Some(Build(g, r.Back, depth - 1)))
  }

  /** The splits made while building the tree. */
  function Splits<V, P>(g: Geometry<V, P>, polys: seq<Poly<V, P>>, depth: nat): nat
    decreases depth
  {
    match Splitter(g, polys, depth)
    case None => 0
    case Some(i) =>
      var r := Children(g, polys, i);
      r.Splits + Splits(g, r.Front, depth - 1) + Splits(g, r.Back, depth - 1)
  }

  /** createBspTree itself has no depth bound.  Its recursion on these
      polygons ends within `depth` levels when every node it reaches with
      no levels left has no splitter anyway. */
  predicate EndsWithin<V, P>(g: Geometry<V, P>, polys: seq<Poly<V, P>>, depth: nat)
    decreases depth
  {
    var unbounded := if VertexTotal(polys) < 50 then None else Best(g, polys);
    match unbounded
    case None => true
    case Some(i) =>
      depth > 0 &&
      var r := Children(g, polys, i);
      EndsWithin(g, r.Front, depth - 1) && EndsWithin(g, r.Back, depth - 1)
  }

  /** A recursion that ends within d levels ends within any more. */
  lemma {:induction false} EndsWithinMonotone<V, P>(g: Geometry<V, P>, polys: seq<Poly<V, P>>, d: nat, e: nat)
    requires EndsWithin(g, polys, d) && d <= e
    ensures EndsWithin(g, polys, e)
    decreases d
  {
    var unbounded := if VertexTotal(polys) < 50 then None else Best(g, polys);
    if unbounded.Some? {
      var r := Children(g, polys, unbounded.value);
      EndsWithinMonotone(g, r.Front, d - 1, e - 1);
      EndsWithinMonotone(g, r.Back, d - 1, e - 1);
    }
  }

  /** Once the recursion ends within d levels, the depth bound never
      decides anything: every larger bound builds the same tree with the
      same splits, which is the tree the unbounded recursion builds. */
  lemma {:induction false} BuildStable<V, P>(g: Geometry<V, P>, polys: seq<Poly<V, P>>, d: nat, e: nat)
    requires EndsWithin(g, polys, d) && d <= e
    ensures Build(g, polys, d) == Build(g, polys, e)
    ensures Splits(g, polys, d) == Splits(g, polys, e)
    decreases d
  {
    var unbounded := if VertexTotal(polys) < 50 then None else Best(g, polys);
    if unbounded.Some? {
      var i := unbounded.value;
      var r := Children(g, polys, i);
      var dc: nat, ec: nat := d - 1, e - 1;
      assert Splitter(g, polys, d) == Some(i) && Splitter(g, polys, e) == Some(i);
      BuildStable(g, r.Front, dc, ec);
      BuildStable(g, r.Back, dc, ec);
      BuildInner(g, polys, d, dc, i, r, Build(g, polys, d), Build(g, r.Front, dc), Build(g, r.Back, dc),
                 Splits(g, polys, d), Splits(g, r.Front, dc), Splits(g, r.Back, dc));
      BuildInner(g, polys, e, ec, i, r, Build(g, polys, e), Build(g, r.Front, ec), Build(g, r.Back, ec),
                 Splits(g, polys, e), Splits(g, r.Front, ec), Splits(g, r.Back, ec));
    } else {
      assert Splitter(g, polys, d).None? && Splitter(g, polys, e).None?;
      BuildLeaf(g, polys, d);
      BuildLeaf(g, polys, e);
    }
  }

  /** Without a splitter the node is a leaf and nothing is split. */
  lemma BuildLeaf<V, P>(g: Geometry<V, P>, polys: seq<Poly<V, P>>, depth: nat)
    requires Splitter(g, polys, depth).None?
    ensures Build(g, polys, depth) == Node(g.DefaultPlane, BoxPoints(polys), true, polys, None, None)
    ensures Splits(g, polys, depth) == 0
  {
  }

  /** With a splitter the node's children are the trees of the routed
      polygons one level down (at depth `child`), and the splits add up.  The trees and counts
      are named by parameters so that callers need not unfold Build. */
  lemma BuildInner<V, P>(g: Geometry<V, P>, polys: seq<Poly<V, P>>, depth: nat, child: nat, i: nat, r: Routed<V, P>,
                         tree: Node<V, P>, front: Node<V, P>, back: Node<V, P>,
                         splits: nat, frontSplits: nat, backSplits: nat)
    requires Splitter(g, polys, depth) == Some(i) && r == Children(g, polys, i) && child + 1 == depth
    requires tree == Build(g, polys, depth) && splits == Splits(g, polys, depth)
    requires front == Build(g, r.Front, child) && frontSplits == Splits(g, r.Front, child)
    requires back == Build(g, r.Back, child) && backSplits == Splits(g, r.Back, child)
    ensures tree == Node(polys[i].Plane, BoxPoints(polys), false, [], Some(front), Some(back))
    ensures splits == r.Splits + frontSplits + backSplits
  {
  }

  /** What a leaf adds to the statistics: itself, its polygons' indices
      and vertices, and its box. */
  function LeafStats<V, M, P>(v: Variant, s: TreeStats<V, M>, polys: seq<Poly<V, P>>, box: seq<V>): TreeStats<V, M>
  {
    s.(LeafCounts := s.LeafCounts + 1,
       TotalIndexCount := s.TotalIndexCount + SizeTotal(polys, IndexMeasure(v)),
       IndexCount := AddSizes(s.IndexCount, polys, IndexMeasure(v)),
       TotalVertexCount := s.TotalVertexCount + SizeTotal(polys, VertexNumber),
       VertexCount := AddSizes(s.VertexCount, polys, VertexNumber),
       Boxes := s.Boxes + [box])
  }

  /** The statistics as createBspTree updates them while it walks a
      subtree: a leaf adds itself, an inner node adds two nodes and then
      its front subtree and its back subtree. */
  function Grown<V, M, P>(v: Variant, s: TreeStats<V, M>, n: Node<V, P>): (r: TreeStats<V, M>)
    ensures r.MaterialCount == s.MaterialCount && r.MaterialMap == s.MaterialMap && r.PolySplits == s.PolySplits
    ensures |r.IndexCount| == |s.IndexCount| && |r.VertexCount| == |s.VertexCount|
    ensures r.OriginalTotalVertexCount == s.OriginalTotalVertexCount && r.OriginalTotalIndexCount == s.OriginalTotalIndexCount
    ensures r.RenderCullings == s.RenderCullings && r.RenderedIndices == s.RenderedIndices
    decreases n
  {
    if n.IsLeaf then LeafStats(v, s, n.Polys, n.Box)
    else
      var s1 := s.(NodeCount := s.NodeCount + 2);
      var s2 := if n.Front.Some? then Grown(v, s1, n.Front.value) else s1;
      if n.Back.Some? then Grown(v, s2, n.Back.value) else s2
  }

  /** The grand total and the per-material counters of one measure. */
  function TotalOf<V, M>(s: TreeStats<V, M>, m: Measure): nat
  {
    if m.IndexNumber? then s.TotalIndexCount else s.TotalVertexCount
  }

  function CountsOf<V, M>(s: TreeStats<V, M>, m: Measure): seq<nat>
  {
    if m.IndexNumber? then s.IndexCount else s.VertexCount
  }

  /** Growing counts every leaf once and every inner node twice. */
  lemma {:induction false} GrownCounts<V, M, P>(v: Variant, s: TreeStats<V, M>, n: Node<V, P>)
    ensures Grown(v, s, n).LeafCounts == s.LeafCounts + LeafCount(n)
    ensures Grown(v, s, n).NodeCount == s.NodeCount + 2 * InnerCount(n)
    decreases n
  {
    if !n.IsLeaf {
      var s1 := s.(NodeCount := s.NodeCount + 2);
      var s2 := if n.Front.Some? then Grown(v, s1, n.Front.value) else s1;
      if n.Front.Some? {
        GrownCounts(v, s1, n.Front.value);
      }
      if n.Back.Some? {
        GrownCounts(v, s2, n.Back.value);
      }
    }
  }

  /** Growing adds the sizes of all leaf polygons, in leaf order, to the
      totals and to the per-material counters. */
  lemma {:induction false} GrownSizes<V, M, P>(v: Variant, s: TreeStats<V, M>, n: Node<V, P>, m: Measure)
    ensures TotalOf(Grown(v, s, n), m) == TotalOf(s, m) + SizeTotal(LeafPolys(n), CountedAs(v, m))
    ensures CountsOf(Grown(v, s, n), m) == AddSizes(CountsOf(s, m), LeafPolys(n), CountedAs(v, m))
    decreases n
  {
    var c := CountedAs(v, m);
    if n.IsLeaf {
      assert Grown(v, s, n) == LeafStats(v, s, n.Polys, n.Box);
    } else {
      var s2 := s.(NodeCount := s.NodeCount + 2);
      var pf: seq<Poly<V, P>> := [];
      if n.Front.Some? {
        GrownSizes(v, s2, n.Front.value, m);
        pf := LeafPolys(n.Front.value);
        s2 := Grown(v, s2, n.Front.value);
      }
      assert TotalOf(s2, m) == TotalOf(s, m) + SizeTotal(pf, c);
      assert CountsOf(s2, m) == AddSizes(CountsOf(s, m), pf, c);
      var s3 := s2;
      var pb: seq<Poly<V, P>> := [];
      if n.Back.Some? {
        GrownSizes(v, s2, n.Back.value, m);
        pb := LeafPolys(n.Back.value);
        s3 := Grown(v, s2, n.Back.value);
      }
      assert Grown(v, s, n) == s3;
      assert TotalOf(s3, m) == TotalOf(s2, m) + SizeTotal(pb, c);
      assert CountsOf(s3, m) == AddSizes(CountsOf(s2, m), pb, c);
      assert LeafPolys(n) == pf + pb;
      SizeTotalAppend(pf, pb, c);
      AddSizesAppend(CountsOf(s, m), pf, pb, c);
    }
  }

  /** Growing records every leaf's box, in leaf order. */
  lemma {:induction false} GrownBoxes<V, M, P>(v: Variant, s: TreeStats<V, M>, n: Node<V, P>)
    ensures Grown(v, s, n).Boxes == s.Boxes + LeafBoxes(n)
    ensures s.Boxes == [] ==> Grown(v, s, n).Boxes == LeafBoxes(n)
    decreases n
  {
    if !n.IsLeaf {
      var s2 := s.(NodeCount := s.NodeCount + 2);
      var bf: seq<seq<V>> := [];
      if n.Front.Some? {
        GrownBoxes(v, s2, n.Front.value);
        bf := LeafBoxes(n.Front.value);
        s2 := Grown(v, s2, n.Front.value);
      }
      assert s2.Boxes == s.Boxes + bf;
      if n.Back.Some? {
        GrownBoxes(v, s2, n.Back.value);
        assert LeafBoxes(n) == bf + LeafBoxes(n.Back.value);
        assert s.Boxes + bf + LeafBoxes(n.Back.value) == s.Boxes + LeafBoxes(n);
      } else {
        assert LeafBoxes(n) == bf + [];
      }
    }
    assert [] + LeafBoxes(n) == LeafBoxes(n);
  }

  /** Growing from zeroed counters: one leaf more than there are inner
      nodes, hence two node counts per leaf but one; the index and vertex
      totals are the sizes of the leaf polygons and the sums of the
      per-material counters; and the boxes are the leaves' boxes. */
  lemma GrownFromZero<V, M, P>(v: Variant, s: TreeStats<V, M>, n: Node<V, P>)
    requires s.LeafCounts == 0 && s.NodeCount == 0 && s.TotalIndexCount == 0 && s.TotalVertexCount == 0 && s.Boxes == []
    requires s.IndexCount == Zeros(s.MaterialCount) && s.VertexCount == Zeros(s.MaterialCount)
    requires WellFormed(n) && MaterialsBelow(LeafPolys(n), s.MaterialCount)
    ensures Grown(v, s, n).LeafCounts == LeafCount(n) && Grown(v, s, n).NodeCount + 2 == 2 * Grown(v, s, n).LeafCounts
    ensures Grown(v, s, n).TotalIndexCount == SizeTotal(LeafPolys(n), IndexMeasure(v)) == Sum(Grown(v, s, n).IndexCount)
    ensures Grown(v, s, n).TotalVertexCount == SizeTotal(LeafPolys(n), VertexNumber) == Sum(Grown(v, s, n).VertexCount)
    ensures v == AsWritten ==> Grown(v, s, n).IndexCount == Grown(v, s, n).VertexCount
    ensures Grown(v, s, n).Boxes == LeafBoxes(n)
  {
    GrownCounts(v, s, n);
    LeavesOutnumberInner(n);
    GrownSizes(v, s, n, IndexNumber);
    GrownSizes(v, s, n, VertexNumber);
    GrownBoxes(v, s, n);
    SumZeros(s.MaterialCount);
    AddSizesSum(s.IndexCount, LeafPolys(n), IndexMeasure(v));
    AddSizesSum(s.VertexCount, LeafPolys(n), VertexNumber);
  }

  /** Growing leaves the split counter alone. */
  lemma {:induction false} GrownKeepsSplits<V, M, P>(v: Variant, s: TreeStats<V, M>, n: Node<V, P>, k: nat)
    ensures Grown(v, s.(PolySplits := k), n) == Grown(v, s, n).(PolySplits := k)
    decreases n
  {
    if !n.IsLeaf {
      var s1 := s.(NodeCount := s.NodeCount + 2);
      assert s.(PolySplits := k).(NodeCount := s.NodeCount + 2) == s1.(PolySplits := k);
      var s2 := if n.Front.Some? then Grown(v, s1, n.Front.value) else s1;
      if n.Front.Some? {
        GrownKeepsSplits(v, s1, n.Front.value, k);
      }
      if n.Back.Some? {
        GrownKeepsSplits(v, s2, n.Back.value, k);
      }
    }
  }

  /** The statistics after a subtree is built and the routing inside it
      made `splits` splits. */
  function Built<V, M, P>(v: Variant, s: TreeStats<V, M>, n: Node<V, P>, splits: nat): TreeStats<V, M>
  {
    Grown(v, s, n).(PolySplits := s.PolySplits + splits)
  }

  /** Building an inner node is counting its two nodes and its own splits,
      then building its front subtree, then its back subtree. */
  lemma BuiltJoin<V, M, P>(v: Variant, s: TreeStats<V, M>, inner: TreeStats<V, M>, afterFront: TreeStats<V, M>, afterBack: TreeStats<V, M>,
                           node: Node<V, P>, f: Node<V, P>, b: Node<V, P>, sp: nat, sf: nat, sb: nat)
    requires inner == s.(NodeCount := s.NodeCount + 2, PolySplits := s.PolySplits + sp)
    requires afterFront == Built(v, inner, f, sf) && afterBack == Built(v, afterFront, b, sb)
    requires !node.IsLeaf && node.Front == Some(f) && node.Back == Some(b)
    ensures afterBack == Built(v, s, node, sp + sf + sb)
  {
    var s1 := s.(NodeCount := s.NodeCount + 2);
    assert s.(NodeCount := s.NodeCount + 2, PolySplits := s.PolySplits + sp) == s1.(PolySplits := s.PolySplits + sp);
    GrownKeepsSplits(v, s1, f, s.PolySplits + sp);
    GrownKeepsSplits(v, Grown(v, s1, f), b, s.PolySplits + sp + sf);
  }

  /** A witness of a counted class: some polygon other than candidate i has
      that class against the candidate's plane. */
  lemma {:induction false} Witness<V, P>(g: Geometry<V, P>, polys: seq<Poly<V, P>>, i: nat, k: nat, rel: Relation)
    returns (j: nat)
    requires i < |polys| && k <= |polys|
    requires (rel == Front && CountAgainst(g, polys, i, k).Front > 0)
          || (rel == Back && CountAgainst(g, polys, i, k).Back > 0)
          || (rel == Spanning && CountAgainst(g, polys, i, k).Spanning > 0)
    ensures j < k && j != i && Classify(g.Side, polys[i].Plane, polys[j].Vertices) == rel
  {
    var c := CountAgainst(g, polys, i, k - 1);
    if k - 1 != i && Classify(g.Side, polys[i].Plane, polys[k - 1].Vertices) == rel {
      j := k - 1;
    } else {
      j := Witness(g, polys, i, k - 1, rel);
    }
  }

  /** What createBspTree needs of a node's polygons: there is one, each
      has a vertex, and each names one of m materials. */
  predicate Buildable<V, P>(polys: seq<Poly<V, P>>, m: nat)
  {
    polys != [] && HasVertices(polys) && MaterialsBelow(polys, m)
  }

  /** Below a chosen splitter both children get polygons: its plane sees a
      polygon on each side or cuts one, and routing sends those to the
      children.  The children's polygons keep their vertices and
      materials. */
  lemma ChildrenFilled<V, P>(g: Geometry<V, P>, polys: seq<Poly<V, P>>, i: nat, m: nat, r: Routed<V, P>)
    requires Best(g, polys) == Some(i) && Buildable(polys, m) && r == Children(g, polys, i)
    ensures Buildable(r.Front, m) && Buildable(r.Back, m)
  {
    BestIsFirstMinimum(g, polys);
    assert FirstMinimum(g, polys, i);
    var c := Counts(g, polys, i);
    var plane := polys[i].Plane;
    var marked := Mark(polys, i);
    assert forall j | 0 <= j < |polys| :: marked[j].Vertices == polys[j].Vertices && marked[j].Material == polys[j].Material;
    if c.Spanning > 0 {
      var j := Witness(g, polys, i, |polys|, Spanning);
      RouteFills(g, plane, marked, j);
    } else {
      var j := Witness(g, polys, i, |polys|, Front);
      RouteFills(g, plane, marked, j);
      var k := Witness(g, polys, i, |polys|, Back);
      RouteFills(g, plane, marked, k);
    }
    RouteHasVertices(g, plane, marked);
    RouteMaterials(g, plane, marked, m);
  }

  /** Routing below splitter i: as many polygons come out as went in,
      plus one per split; and every material stays below m. */
  lemma ChildrenCount<V, P>(g: Geometry<V, P>, polys: seq<Poly<V, P>>, i: nat, r: Routed<V, P>)
    requires i < |polys| && r == Children(g, polys, i)
    ensures |r.Front| + |r.Back| == |polys| + r.Splits
  {
    RouteCount(g, polys[i].Plane, Mark(polys, i));
  }

  lemma ChildrenMaterials<V, P>(g: Geometry<V, P>, polys: seq<Poly<V, P>>, i: nat, r: Routed<V, P>, m: nat)
    requires i < |polys| && r == Children(g, polys, i) && MaterialsBelow(polys, m)
    ensures MaterialsBelow(r.Front, m) && MaterialsBelow(r.Back, m)
  {
    var marked := Mark(polys, i);
    assert forall j | 0 <= j < |polys| :: marked[j].Material == polys[j].Material;
    RouteMaterials(g, polys[i].Plane, marked, m);
  }

  /** The built tree is well formed. */
  lemma {:induction false} BuildWellFormed<V, P>(g: Geometry<V, P>, polys: seq<Poly<V, P>>, depth: nat)
    ensures WellFormed(Build(g, polys, depth))
    decreases depth
  {
    match Splitter(g, polys, depth)
    case None =>
    case Some(i) =>
      var r := Children(g, polys, i);
      var child: nat := depth - 1;
      var f, b := Build(g, r.Front, child), Build(g, r.Back, child);
      BuildInner(g, polys, depth, child, i, r, Build(g, polys, depth), f, b,
                 Splits(g, polys, depth), Splits(g, r.Front, child), Splits(g, r.Back, child));
      BuildWellFormed(g, r.Front, child);
      BuildWellFormed(g, r.Back, child);
  }

  /** The leaves hold every input polygon once, plus one more polygon per
      split. */
  lemma {:induction false} BuildKeepsPolys<V, P>(g: Geometry<V, P>, polys: seq<Poly<V, P>>, depth: nat)
    ensures |LeafPolys(Build(g, polys, depth))| == |polys| + Splits(g, polys, depth)
    decreases depth
  {
    match Splitter(g, polys, depth)
    case None =>
    case Some(i) =>
      var r := Children(g, polys, i);
      var child: nat := depth - 1;
      var f, b := Build(g, r.Front, child), Build(g, r.Back, child);
      BuildInner(g, polys, depth, child, i, r, Build(g, polys, depth), f, b,
                 Splits(g, polys, depth), Splits(g, r.Front, child), Splits(g, r.Back, child));
      ChildrenCount(g, polys, i, r);
      BuildKeepsPolys(g, r.Front, child);
      BuildKeepsPolys(g, r.Back, child);
  }

  /** Every leaf polygon keeps a material of the input. */
  lemma {:induction false} BuildMaterials<V, P>(g: Geometry<V, P>, polys: seq<Poly<V, P>>, depth: nat, m: nat)
    requires MaterialsBelow(polys, m)
    ensures MaterialsBelow(LeafPolys(Build(g, polys, depth)), m)
    decreases depth
  {
    match Splitter(g, polys, depth)
    case None =>
    case Some(i) =>
      var r := Children(g, polys, i);
      var child: nat := depth - 1;
      var f, b := Build(g, r.Front, child), Build(g, r.Back, child);
      BuildInner(g, polys, depth, child, i, r, Build(g, polys, depth), f, b,
                 Splits(g, polys, depth), Splits(g, r.Front, child), Splits(g, r.Back, child));
      ChildrenMaterials(g, polys, i, r, m);
      BuildMaterials(g, r.Front, child, m);
      BuildMaterials(g, r.Back, child, m);
      assert LeafPolys(Build(g, polys, depth)) == LeafPolys(f) + LeafPolys(b);
  }

  /** The three facts above about one built tree, named by parameters so
      that a caller need not unfold Build. */
  lemma BuiltTree<V, P>(g: Geometry<V, P>, polys: seq<Poly<V, P>>, depth: nat, m: nat, tree: Node<V, P>, splits: nat)
    requires MaterialsBelow(polys, m) && tree == Build(g, polys, depth) && splits == Splits(g, polys, depth)
    ensures WellFormed(tree) && MaterialsBelow(LeafPolys(tree), m) && |LeafPolys(tree)| == |polys| + splits
  {
    BuildWellFormed(g, polys, depth);
    BuildMaterials(g, polys, depth, m);
    BuildKeepsPolys(g, polys, depth);
  }

  /** The leaf rule: a node is a leaf exactly when it has fewer than 50
      vertices, the depth is used up, or no polygon is eligible as a
      splitter; a leaf keeps its polygons, an inner node keeps none. */
  lemma LeafRule<V, P>(g: Geometry<V, P>, polys: seq<Poly<V, P>>, depth: nat)
    ensures Build(g, polys, depth).IsLeaf
        <==> (VertexTotal(polys) < 50 || depth == 0 || forall j | 0 <= j < |polys| :: !Eligible(g, polys, j))
    ensures Build(g, polys, depth).Polys == if Build(g, polys, depth).IsLeaf then polys else []
  {
    BestIsFirstMinimum(g, polys);
  }
}
