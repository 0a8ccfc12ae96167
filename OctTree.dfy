// The octree of static geometry (OctTree.h): construction moves every
// triangle of a node's index lists into the first of its eight octants that
// holds it entirely, and a query appends the index lists of every node whose
// box meets the query box into per-material output buffers sized by the
// input.
//
// Positions and boxes are float geometry: a node's box is a function of the
// index lists it was built from, so the test "all three vertices totally
// inside octant ch of the node's box" is a parameter `fits` taking those
// lists, the octant, the material and the three indices, and the query's
// "node box intersects the query box" is a parameter `hits` on the lists.
//
// The source subdivides as long as a node holds more than 128 indices; what
// ends the recursion there is the float geometry (boxes shrink until no
// octant holds a triangle strictly inside).  The model gives construction a
// depth bound `depth` instead: a node at depth 0 is a leaf.
module OctTree {
  import opened Common

  /** The octant test's arguments other than the triangle. */
  datatype Where = Where(Box: seq<seq<int>>, Octant: nat, Material: nat)

  type Fits = (Where, int, int, int) -> bool

  /** SMeshChunk: a material's vertices and u16 triangle-list indices. */
  datatype MeshChunk<V> = MeshChunk(Vertices: seq<V>, Indices: seq<int>, MaterialId: int)

  /** The index lists of the chunks, one per material. */
  function IndexLists<V>(meshes: seq<MeshChunk<V>>): (r: seq<seq<int>>)
    ensures |r| == |meshes| && forall i | 0 <= i < |meshes| :: r[i] == meshes[i].Indices
  {
    seq(|meshes|, i requires 0 <= i < |meshes| => meshes[i].Indices)
  }

  /** Every list holds whole triangles, and its length fits a u32. */
  predicate Triangles(lists: seq<seq<int>>)
  {
    forall i | 0 <= i < |lists| :: |lists[i]| % 3 == 0 && |lists[i]| < Word
  }

  predicate AllEmpty(lists: seq<seq<int>>)
  {
    forall i | 0 <= i < |lists| :: lists[i] == []
  }

  /** totalPrimitives: the number of indices (not triangles) of all lists. */
  function Total(lists: seq<seq<int>>): nat
  {
    if lists == [] then 0 else Total(lists[..|lists| - 1]) + |lists[|lists| - 1]|
  }

  predicate Inside(fits: Fits, w: Where, s: seq<int>)
    requires |s| >= 3
  {
    fits(w, s[0], s[1], s[2])
  }

  /** The triangles of a list that the octant holds, in order. */
  function Moved(s: seq<int>, fits: Fits, w: Where): (r: seq<int>)
    decreases |s|
  {
    if |s| < 3 then [] else (if Inside(fits, w, s) then s[..3] else []) + Moved(s[3..], fits, w)
  }

  /** The triangles of a list that the octant does not hold, in order. */
  function Kept(s: seq<int>, fits: Fits, w: Where): (r: seq<int>)
    decreases |s|
  {
    if |s| < 3 then s else (if Inside(fits, w, s) then [] else s[..3]) + Kept(s[3..], fits, w)
  }

  /** A list of whole triangles splits into two lists of whole triangles,
      neither longer than the list. */
  lemma {:induction false} WholeTriangles(s: seq<int>, fits: Fits, w: Where)
    requires |s| % 3 == 0
    ensures |Kept(s, fits, w)| % 3 == 0 && |Kept(s, fits, w)| <= |s|
    ensures |Moved(s, fits, w)| % 3 == 0 && |Moved(s, fits, w)| <= |s|
    decreases |s|
  {
    if |s| >= 3 {
      WholeTriangles(s[3..], fits, w);
    }
  }

  /** Every triangle is either moved or kept, never both and never lost. */
  lemma {:induction false} KeptMovedPartition(s: seq<int>, fits: Fits, w: Where)
    ensures multiset(Kept(s, fits, w)) + multiset(Moved(s, fits, w)) == multiset(s)
    decreases |s|
  {
    if |s| >= 3 {
      KeptMovedPartition(s[3..], fits, w);
      assert s == s[..3] + s[3..];
    }
  }

  /** Triangle j of a list (indices 3j .. 3j+2) lies in the octant. */
  predicate TriangleInside(fits: Fits, w: Where, r: seq<int>, j: nat)
    requires 3 * j + 3 <= |r|
  {
    fits(w, r[3 * j], r[3 * j + 1], r[3 * j + 2])
  }

  /** A moved triangle is one the octant holds, and a kept one is not. */
  lemma {:induction false} MovedInside(s: seq<int>, fits: Fits, w: Where)
    ensures forall j: nat | 3 * j + 3 <= |Moved(s, fits, w)| :: TriangleInside(fits, w, Moved(s, fits, w), j)
    ensures forall j: nat | 3 * j + 3 <= |Kept(s, fits, w)| :: !TriangleInside(fits, w, Kept(s, fits, w), j)
    decreases |s|
  {
    if |s| >= 3 {
      var m, r := Moved(s[3..], fits, w), Kept(s[3..], fits, w);
      MovedInside(s[3..], fits, w);
      var head := s[..3];
      if Inside(fits, w, s) {
        assert Moved(s, fits, w) == head + m && Kept(s, fits, w) == r;
        forall j: nat | 3 * j + 3 <= |head + m|
          ensures TriangleInside(fits, w, head + m, j)
        {
          if j > 0 {
            assert TriangleInside(fits, w, m, j - 1);
          }
        }
      } else {
        assert Kept(s, fits, w) == head + r && Moved(s, fits, w) == m;
        forall j: nat | 3 * j + 3 <= |head + r|
          ensures !TriangleInside(fits, w, head + r, j)
        {
          if j > 0 {
            assert !TriangleInside(fits, w, r, j - 1);
          }
        }
      }
    }
  }

  /** One step of the scan: the list's first triangle goes to exactly one
      side. */
  lemma ScanStep(s: seq<int>, fits: Fits, w: Where)
    requires |s| >= 3
    ensures Inside(fits, w, s) ==> Moved(s, fits, w) == s[..3] + Moved(s[3..], fits, w) && Kept(s, fits, w) == Kept(s[3..], fits, w)
    ensures !Inside(fits, w, s) ==> Moved(s, fits, w) == Moved(s[3..], fits, w) && Kept(s, fits, w) == s[..3] + Kept(s[3..], fits, w)
  {
  }

  /** The lists octant ch of a node with box `box` takes from `rem`. */
  function MovedLists(box: seq<seq<int>>, rem: seq<seq<int>>, ch: nat, fits: Fits): (r: seq<seq<int>>)
    ensures |r| == |rem|
    ensures forall i | 0 <= i < |rem| :: r[i] == Moved(rem[i], fits, Where(box, ch, i))
  {
    seq(|rem|, i requires 0 <= i < |rem| => Moved(rem[i], fits, Where(box, ch, i)))
  }

  /** The lists `rem` keeps after octant ch took its triangles. */
  function KeptLists(box: seq<seq<int>>, rem: seq<seq<int>>, ch: nat, fits: Fits): (r: seq<seq<int>>)
    ensures |r| == |rem|
    ensures forall i | 0 <= i < |rem| :: r[i] == Kept(rem[i], fits, Where(box, ch, i))
  {
    seq(|rem|, i requires 0 <= i < |rem| => Kept(rem[i], fits, Where(box, ch, i)))
  }

  /** The tree: a node built from no indices has no index data and no
      children; any other node keeps its box (the lists it was built from),
      the triangles no octant took, and eight child slots. */
  datatype OctNode = Empty | Node(Box: seq<seq<int>>, Lists: seq<seq<int>>, Children: seq<Option<OctNode>>)

  datatype Split = Split(Remaining: seq<seq<int>>, Children: seq<Option<OctNode>>)

  const MaxLeafIndices := 128

  /** The list of material m; a material the lists do not have has none. */
  function At(lists: seq<seq<int>>, m: nat): seq<int>
  {
    if m < |lists| then lists[m] else []
  }

  /** The node built from index lists.  A node subdivides only when it holds
      more than 128 indices; `depth` bounds the subdivision (see the
      module comment). */
  function Build(lists: seq<seq<int>>, depth: nat, fits: Fits): (n: OctNode)
    ensures n.Empty? <==> AllEmpty(lists)
    ensures n.Node? ==> n.Box == lists && |n.Lists| == |lists| && |n.Children| == 8
    decreases 20 * depth + 10
  {
    if AllEmpty(lists) then Empty
    else if Total(lists) <= MaxLeafIndices || depth == 0 then Node(lists, lists, [None, None, None, None, None, None, None, None])
    else
      var split := Octants(lists, lists, 0, depth - 1, fits);
      Node(lists, split.Remaining, split.Children)
  }

  /** The child of an octant: built from the triangles the octant takes,
      and absent when it takes none. */
  function ChildOf(moved: seq<seq<int>>, depth: nat, fits: Fits): (c: Option<OctNode>)
    ensures c.None? <==> AllEmpty(moved)
    decreases 20 * depth + 11
  {
    if AllEmpty(moved) then None else Some(Build(moved, depth, fits))
  }

  /** The octants ch .. 7 of a node with box `box` taking their triangles
      in turn from what the earlier ones left; the children are built with
      depth `depth`. */
  function Octants(box: seq<seq<int>>, rem: seq<seq<int>>, ch: nat, depth: nat, fits: Fits): (r: Split)
    ensures |r.Remaining| == |rem|
    ensures ch <= 8 ==> |r.Children| == 8 - ch
    decreases 20 * depth + 19 - ch
  {
    if ch >= 8 then Split(rem, [])
    else
      var rest := Octants(box, KeptLists(box, rem, ch, fits), ch + 1, depth, fits);
      Split(rest.Remaining, [ChildOf(MovedLists(box, rem, ch, fits), depth, fits)] + rest.Children)
  }

  /** The source's subdivision has no depth bound.  On these lists it ends
      within `depth` levels when every node it reaches with no levels left
      holds at most 128 indices anyway. */
  predicate SubdivisionEndsWithin(lists: seq<seq<int>>, depth: nat, fits: Fits)
    decreases 20 * depth + 10
  {
    AllEmpty(lists) || Total(lists) <= MaxLeafIndices ||
    (depth > 0 && OctantsEndWithin(lists, lists, 0, depth - 1, fits))
  }

  predicate OctantsEndWithin(box: seq<seq<int>>, rem: seq<seq<int>>, ch: nat, depth: nat, fits: Fits)
    decreases 20 * depth + 19 - ch
  {
    ch >= 8 ||
    ((AllEmpty(MovedLists(box, rem, ch, fits)) || SubdivisionEndsWithin(MovedLists(box, rem, ch, fits), depth, fits)) &&
     OctantsEndWithin(box, KeptLists(box, rem, ch, fits), ch + 1, depth, fits))
  }

  /** Once the subdivision ends within d levels, the depth bound never
      decides anything: every larger bound builds the same tree, which is
      the tree the unbounded subdivision builds. */
  lemma {:induction false} BuildStable(lists: seq<seq<int>>, d: nat, e: nat, fits: Fits)
    requires SubdivisionEndsWithin(lists, d, fits) && d <= e
    ensures Build(lists, d, fits) == Build(lists, e, fits)
    decreases 20 * d + 10
  {
    if !AllEmpty(lists) && Total(lists) > MaxLeafIndices {
      OctantsStable(lists, lists, 0, d - 1, e - 1, fits);
    }
  }

  lemma {:induction false} OctantsStable(box: seq<seq<int>>, rem: seq<seq<int>>, ch: nat, d: nat, e: nat, fits: Fits)
    requires OctantsEndWithin(box, rem, ch, d, fits) && d <= e
    ensures Octants(box, rem, ch, d, fits) == Octants(box, rem, ch, e, fits)
    decreases 20 * d + 19 - ch
  {
    if ch < 8 {
      var moved := MovedLists(box, rem, ch, fits);
      if !AllEmpty(moved) {
        BuildStable(moved, d, e, fits);
      }
      OctantsStable(box, KeptLists(box, rem, ch, fits), ch + 1, d, e, fits);
    }
  }

  /** What an octant keeps and takes of material m, also for a material
      the lists do not have. */
  lemma AtLists(box: seq<seq<int>>, rem: seq<seq<int>>, ch: nat, fits: Fits, m: nat)
    ensures At(KeptLists(box, rem, ch, fits), m) == Kept(At(rem, m), fits, Where(box, ch, m))
    ensures At(MovedLists(box, rem, ch, fits), m) == Moved(At(rem, m), fits, Where(box, ch, m))
  {
  }

  /** The indices of material m held anywhere in a subtree. */
  function Collected(n: OctNode, m: nat): seq<int>
    decreases n, 1
  {
    match n
    case Empty => []
    case Node(_, lists, children) => At(lists, m) + CollectedAll(children, m)
  }

  function CollectedAll(cs: seq<Option<OctNode>>, m: nat): seq<int>
    decreases cs, 0
  {
    if cs == [] then []
    else
      CollectedAll(cs[..|cs| - 1], m) + CollectedIn(cs[|cs| - 1], m)
  }

  function CollectedIn(c: Option<OctNode>, m: nat): seq<int>
    decreases c, 2
  {
    match c
    case None => []
    case Some(n) => Collected(n, m)
  }

  /** The indices of material m a query appends: those of every node whose
      box the query box meets, reached through such nodes only, parent
      before children and children in octant order. */
  function Polys(n: OctNode, hits: seq<seq<int>> -> bool, m: nat): seq<int>
    decreases n, 1
  {
    match n
    case Empty => []
    case Node(box, lists, children) =>
      if hits(box) then At(lists, m) + PolysAll(children, hits, m) else []
  }

  function PolysAll(cs: seq<Option<OctNode>>, hits: seq<seq<int>> -> bool, m: nat): seq<int>
    decreases cs, 0
  {
    if cs == [] then []
    else
      PolysAll(cs[..|cs| - 1], hits, m) + PolysIn(cs[|cs| - 1], hits, m)
  }

  function PolysIn(c: Option<OctNode>, hits: seq<seq<int>> -> bool, m: nat): seq<int>
    decreases c, 2
  {
    match c
    case None => []
    case Some(n) => Polys(n, hits, m)
  }

  lemma {:induction false} NoChildrenCollectNothing(cs: seq<Option<OctNode>>, m: nat)
    requires forall c | 0 <= c < |cs| :: cs[c].None?
    ensures CollectedAll(cs, m) == []
    decreases |cs|
  {
    if cs != [] {
      NoChildrenCollectNothing(cs[..|cs| - 1], m);
    }
  }

  lemma CollectedAllCons(child: Option<OctNode>, cs: seq<Option<OctNode>>, m: nat)
    ensures CollectedAll([child] + cs, m) == CollectedIn(child, m) + CollectedAll(cs, m)
    decreases |cs|
  {
    if cs != [] {
      var all := [child] + cs;
      assert all[..|all| - 1] == [child] + cs[..|cs| - 1];
      CollectedAllCons(child, cs[..|cs| - 1], m);
    } else {
      assert ([child] + cs)[..0] == [];
    }
  }

  /** Index conservation: the lists of all nodes of a built tree hold, per
      material, exactly the input's indices. */
  lemma {:induction false} BuildConserves(lists: seq<seq<int>>, depth: nat, fits: Fits, m: nat)
    ensures multiset(Collected(Build(lists, depth, fits), m)) == multiset(At(lists, m))
    decreases 20 * depth + 10
  {
    if AllEmpty(lists) {
      EmptyConserves(lists, depth, fits, m);
    } else if Total(lists) <= MaxLeafIndices || depth == 0 {
      LeafConserves(lists, depth, fits, m);
    } else {
      SplitConserves(lists, depth - 1, fits, m);
    }
  }

  /** A subdivided node, whose children are built with depth `sub`. */
  lemma {:induction false} SplitConserves(lists: seq<seq<int>>, sub: nat, fits: Fits, m: nat)
    requires !AllEmpty(lists) && Total(lists) > MaxLeafIndices
    ensures multiset(Collected(Build(lists, sub + 1, fits), m)) == multiset(At(lists, m))
    decreases 20 * sub + 20
  {
    OctantsConserve(lists, lists, 0, sub, fits, m);
    NodeConserves(lists, Octants(lists, lists, 0, sub, fits), m);
  }

  /** Lists without indices build a tree without indices. */
  lemma EmptyConserves(lists: seq<seq<int>>, depth: nat, fits: Fits, m: nat)
    requires AllEmpty(lists)
    ensures multiset(Collected(Build(lists, depth, fits), m)) == multiset(At(lists, m))
  {
    assert At(lists, m) == [];
  }

  /** A leaf holds its lists and nothing below it. */
  lemma LeafConserves(lists: seq<seq<int>>, depth: nat, fits: Fits, m: nat)
    requires !AllEmpty(lists) && (Total(lists) <= MaxLeafIndices || depth == 0)
    ensures multiset(Collected(Build(lists, depth, fits), m)) == multiset(At(lists, m))
  {
    var none := [None, None, None, None, None, None, None, None];
    assert Build(lists, depth, fits) == Node(lists, lists, none);
    NoChildrenCollectNothing(none, m);
    assert Collected(Node(lists, lists, none), m) == At(lists, m) + [];
  }

  /** A subdivided node holds what its octants left and what its children
      hold. */
  lemma NodeConserves(lists: seq<seq<int>>, split: Split, m: nat)
    requires multiset(At(split.Remaining, m)) + multiset(CollectedAll(split.Children, m)) == multiset(At(lists, m))
    ensures multiset(Collected(Node(lists, split.Remaining, split.Children), m)) == multiset(At(lists, m))
  {
  }

  /** The octants from ch on, with what they leave, hold exactly the
      indices they started from. */
  lemma {:induction false} OctantsConserve(box: seq<seq<int>>, rem: seq<seq<int>>, ch: nat, depth: nat, fits: Fits, m: nat)
    ensures var split := Octants(box, rem, ch, depth, fits);
      multiset(At(split.Remaining, m)) + multiset(CollectedAll(split.Children, m)) == multiset(At(rem, m))
    decreases 20 * depth + 19 - ch
  {
    if ch < 8 {
      var moved := MovedLists(box, rem, ch, fits);
      var kept := KeptLists(box, rem, ch, fits);
      var child := ChildOf(moved, depth, fits);
      var rest := Octants(box, kept, ch + 1, depth, fits);
      assert Octants(box, rem, ch, depth, fits) == Split(rest.Remaining, [child] + rest.Children);
      ChildConserves(moved, depth, fits, m);
      AtLists(box, rem, ch, fits, m);
      KeptMovedPartition(At(rem, m), fits, Where(box, ch, m));
      OctantsConserve(box, kept, ch + 1, depth, fits, m);
      CollectedAllCons(child, rest.Children, m);
      Regroup(At(rest.Remaining, m), CollectedAll(rest.Children, m), CollectedIn(child, m), At(kept, m), At(moved, m), At(rem, m));
    }
  }

  lemma Regroup(left: seq<int>, below: seq<int>, child: seq<int>, kept: seq<int>, moved: seq<int>, all: seq<int>)
    requires multiset(left) + multiset(below) == multiset(kept)
    requires multiset(child) == multiset(moved)
    requires multiset(kept) + multiset(moved) == multiset(all)
    ensures multiset(left) + multiset(child + below) == multiset(all)
  {
  }

  /** The child of an octant holds exactly the triangles the octant took. */
  lemma {:induction false} ChildConserves(moved: seq<seq<int>>, depth: nat, fits: Fits, m: nat)
    ensures multiset(CollectedIn(ChildOf(moved, depth, fits), m)) == multiset(At(moved, m))
    decreases 20 * depth + 11
  {
    if AllEmpty(moved) {
      assert At(moved, m) == [];
    } else {
      BuildConserves(moved, depth, fits, m);
    }
  }

  /** The nodes a query can reach: every node, the root included, has index
      data and as many lists as there are materials. */
  predicate Queryable(n: OctNode, materials: nat)
    decreases n, 1
  {
    n.Node? && |n.Lists| == materials && |n.Children| == 8 && AllQueryable(n.Children, materials)
  }

  predicate AllQueryable(cs: seq<Option<OctNode>>, materials: nat)
    decreases cs, 0
  {
    forall c | 0 <= c < |cs| :: QueryableIn(cs[c], materials)
  }

  /** An absent child is never queried. */
  predicate QueryableIn(c: Option<OctNode>, materials: nat)
    decreases c, 2
  {
    match c
    case None => true
    case Some(n) => Queryable(n, materials)
  }

  /** A tree built from lists with at least one index can be queried. */
  lemma {:induction false} BuildQueryable(lists: seq<seq<int>>, depth: nat, fits: Fits)
    requires !AllEmpty(lists)
    ensures Queryable(Build(lists, depth, fits), |lists|)
    decreases 20 * depth + 10
  {
    if Total(lists) > MaxLeafIndices && depth > 0 {
      OctantsQueryable(lists, lists, 0, depth - 1, fits);
    }
  }

  lemma {:induction false} OctantsQueryable(box: seq<seq<int>>, rem: seq<seq<int>>, ch: nat, depth: nat, fits: Fits)
    ensures AllQueryable(Octants(box, rem, ch, depth, fits).Children, |rem|)
    decreases 20 * depth + 19 - ch
  {
    if ch < 8 {
      var moved := MovedLists(box, rem, ch, fits);
      var kept := KeptLists(box, rem, ch, fits);
      var child := ChildOf(moved, depth, fits);
      var rest := Octants(box, kept, ch + 1, depth, fits);
      var all := Octants(box, rem, ch, depth, fits).Children;
      assert all == [child] + rest.Children;
      OctantsQueryable(box, kept, ch + 1, depth, fits);
      if !AllEmpty(moved) {
        BuildQueryable(moved, depth, fits);
      }
      forall c | 0 <= c < |all|
        ensures QueryableIn(all[c], |rem|)
      {
        if c > 0 {
          assert all[c] == rest.Children[c - 1];
        }
      }
    }
  }

  /** A query appends, per material, only indices the tree holds, each at
      most as often as the tree holds it. */
  lemma {:induction false} PolysWithin(n: OctNode, hits: seq<seq<int>> -> bool, m: nat)
    ensures multiset(Polys(n, hits, m)) <= multiset(Collected(n, m))
    decreases n, 1
  {
    match n
    case Empty =>
    case Node(box, lists, children) =>
      PolysAllWithin(children, hits, m);
  }

  lemma {:induction false} PolysAllWithin(cs: seq<Option<OctNode>>, hits: seq<seq<int>> -> bool, m: nat)
    ensures multiset(PolysAll(cs, hits, m)) <= multiset(CollectedAll(cs, m))
    decreases cs, 0
  {
    if cs != [] {
      PolysAllWithin(cs[..|cs| - 1], hits, m);
      PolysInWithin(cs[|cs| - 1], hits, m);
    }
  }

  lemma {:induction false} PolysInWithin(c: Option<OctNode>, hits: seq<seq<int>> -> bool, m: nat)
    ensures multiset(PolysIn(c, hits, m)) <= multiset(CollectedIn(c, m))
    decreases c, 2
  {
    match c
    case None =>
    case Some(n) => PolysWithin(n, hits, m);
  }

  lemma SubMultisetSize(a: seq<int>, b: seq<int>)
    requires multiset(a) <= multiset(b)
    ensures |a| <= |b|
  {
    var d := multiset(b) - multiset(a);
    assert multiset(b) == multiset(a) + d;
    assert |multiset(b)| == |multiset(a)| + |d|;
    assert |multiset(a)| == |a| && |multiset(b)| == |b|;
  }

  /** A query of a built tree appends, per material, only indices of that
      material's input, each at most as often as the input holds it. */
  lemma QueryWithin(lists: seq<seq<int>>, depth: nat, fits: Fits, hits: seq<seq<int>> -> bool, m: nat)
    ensures multiset(Polys(Build(lists, depth, fits), hits, m)) <= multiset(At(lists, m))
  {
    var n := Build(lists, depth, fits);
    PolysWithin(n, hits, m);
    BuildConserves(lists, depth, fits, m);
  }

  /** A query whose box meets every node's box reaches every node, so it
      appends exactly what the subtree holds, in the same order. */
  lemma {:induction false} PolysEverything(n: OctNode, hits: seq<seq<int>> -> bool, m: nat)
    requires forall b :: hits(b)
    ensures Polys(n, hits, m) == Collected(n, m)
    decreases n, 1
  {
    match n
    case Empty =>
    case Node(box, lists, children) =>
      PolysAllEverything(children, hits, m);
  }

  lemma {:induction false} PolysAllEverything(cs: seq<Option<OctNode>>, hits: seq<seq<int>> -> bool, m: nat)
    requires forall b :: hits(b)
    ensures PolysAll(cs, hits, m) == CollectedAll(cs, m)
    decreases cs, 0
  {
    if cs != [] {
      PolysAllEverything(cs[..|cs| - 1], hits, m);
      PolysInEverything(cs[|cs| - 1], hits, m);
    }
  }

  lemma {:induction false} PolysInEverything(c: Option<OctNode>, hits: seq<seq<int>> -> bool, m: nat)
    requires forall b :: hits(b)
    ensures PolysIn(c, hits, m) == CollectedIn(c, m)
    decreases c, 2
  {
    match c
    case None =>
    case Some(n) => PolysEverything(n, hits, m);
  }

  /** The converse of QueryWithin: a query whose box meets every node's
      box returns, per material, exactly that material's input indices. */
  lemma QueryEverything(lists: seq<seq<int>>, depth: nat, fits: Fits, hits: seq<seq<int>> -> bool, m: nat)
    requires forall b :: hits(b)
    ensures multiset(Polys(Build(lists, depth, fits), hits, m)) == multiset(At(lists, m))
  {
    PolysEverything(Build(lists, depth, fits), hits, m);
    BuildConserves(lists, depth, fits, m);
  }

  /** After a query of a built tree, no material's buffer holds more
      indices than that material's input, its MaxSize. */
  lemma QueryFits(lists: seq<seq<int>>, depth: nat, fits: Fits, hits: seq<seq<int>> -> bool, m: nat)
    ensures |Polys(Build(lists, depth, fits), hits, m)| <= |At(lists, m)|
  {
    QueryWithin(lists, depth, fits, hits, m);
    SubMultisetSize(Polys(Build(lists, depth, fits), hits, m), At(lists, m));
  }

  /** The u32 scan index after `t -= 3` and the loop's `t += 3` is t again,
      also for t == 0, where the first step wraps. */
  lemma WrapBack(t: int)
    requires IsU32(t)
    ensures U32(U32(t - 3) + 3) == t
  {
    if t >= 3 {
      RemainderOf(t - 3, Word, 0, t - 3);
    } else {
      RemainderOf(t - 3, Word, -1, t - 3 + Word);
      RemainderOf(t + Word, Word, 1, t);
    }
  }

  class OctTree<V> {
    /** The chunks the tree was built from (allmeshdata). */
    const Meshes: seq<MeshChunk<V>>
    const Depth: nat
    const Fit: Fits
    const Root: OctNode
    /** IndexData[i].MaxSize. */
    const MaxSize: seq<nat>
    /** IndexData[i].Indices[..CurrentSize], the filled part of each
        material's output buffer. */
    var Current: seq<seq<int>>

    ghost predicate Valid()
      reads this
    {
      Triangles(IndexLists(Meshes)) && Root == Build(IndexLists(Meshes), Depth, Fit) &&
      |MaxSize| == |Meshes| && |Current| == |Meshes| &&
      forall i | 0 <= i < |Meshes| :: MaxSize[i] == |Meshes[i].Indices|
    }

    /** One output buffer per chunk, sized by its index count and empty,
        and the tree built from copies of the chunks' index lists. */
    constructor (meshes: seq<MeshChunk<V>>, depth: nat, fits: Fits)
      requires Triangles(IndexLists(meshes))
      ensures Valid() && Meshes == meshes && Depth == depth && Fit == fits
      ensures forall i | 0 <= i < |meshes| :: Current[i] == []
    {
      var maxSize: seq<nat> := [];
      var current: seq<seq<int>> := [];
      var chunks: seq<seq<int>> := [];
      for i := 0 to |meshes|
        invariant |maxSize| == i && |current| == i && chunks == IndexLists(meshes[..i])
        invariant forall k | 0 <= k < i :: maxSize[k] == |meshes[k].Indices| && current[k] == []
      {
        maxSize := maxSize + [|meshes[i].Indices|];
        current := current + [[]];
        var copy := [];
        for t := 0 to |meshes[i].Indices|
          invariant copy == meshes[i].Indices[..t]
        {
          copy := copy + [meshes[i].Indices[t]];
        }
        assert meshes[i].Indices[..|meshes[i].Indices|] == meshes[i].Indices;
        chunks := chunks + [copy];
      }
      assert meshes[..|meshes|] == meshes;
      var root := BuildNode(chunks, depth, fits);
      Meshes, Depth, Fit, Root := meshes, depth, fits, root;
      MaxSize, Current := maxSize, current;
    }

    /** calculatePolys: every CurrentSize reset to 0, then the root
        queried.  A tree built from no indices has no index data, so the
        input must hold at least one index. */
    method CalculatePolys(hits: seq<seq<int>> -> bool)
      requires Valid() && !AllEmpty(IndexLists(Meshes))
      modifies this
      ensures Valid()
      ensures forall i | 0 <= i < |Meshes| :: Current[i] == Polys(Root, hits, i) && |Current[i]| <= MaxSize[i]
      ensures forall i | 0 <= i < |Meshes| :: multiset(Current[i]) <= multiset(Meshes[i].Indices)
    {
      var current: seq<seq<int>> := [];
      for i := 0 to |Meshes|
        invariant current == seq(i, _ => [])
      {
        current := current + [[]];
      }
      BuildQueryable(IndexLists(Meshes), Depth, Fit);
      current := GetPolys(Root, hits, current);
      Current := current;
      forall i | 0 <= i < |Meshes|
        ensures |Current[i]| <= MaxSize[i] && multiset(Current[i]) <= multiset(Meshes[i].Indices)
      {
        QueryFits(IndexLists(Meshes), Depth, Fit, hits, i);
        QueryWithin(IndexLists(Meshes), Depth, Fit, hits, i);
      }
    }
  }

  /** The node constructor: no index data for empty input; otherwise, with
      more than 128 indices, the eight octants take their triangles in turn
      and a child is built for each octant that took any. */
  method BuildNode(lists: seq<seq<int>>, depth: nat, fits: Fits) returns (n: OctNode)
    requires Triangles(lists)
    ensures n == Build(lists, depth, fits)
    decreases 3 * depth + 2
  {
    if |lists| == 0 {
      return Empty;
    }
    var found := HasIndices(lists);
    if !found {
      return Empty;
    }
    var totalPrimitives := CountIndices(lists);
    if totalPrimitives > MaxLeafIndices && depth > 0 {
      var remaining, children := BuildChildren(lists, depth - 1, fits);
      n := Node(lists, remaining, children);
    } else {
      n := Node(lists, lists, [None, None, None, None, None, None, None, None]);
    }
  }

  /** The scan for a list with at least one index. */
  method HasIndices(lists: seq<seq<int>>) returns (found: bool)
    ensures found <==> !AllEmpty(lists)
  {
    found := false;
    for i := 0 to |lists|
      invariant !found ==> forall k | 0 <= k < i :: lists[k] == []
      invariant found ==> !AllEmpty(lists)
    {
      if lists[i] != [] {
        found := true;
        break;
      }
    }
  }

  /** totalPrimitives: the sum of the lists' index counts. */
  method CountIndices(lists: seq<seq<int>>) returns (total: nat)
    ensures total == Total(lists)
  {
    total := 0;
    for i := 0 to |lists|
      invariant total == Total(lists[..i])
    {
      assert lists[..i + 1][..i] == lists[..i];
      total := total + |lists[i]|;
    }
    assert lists[..|lists|] == lists;
  }

  /** The eight octants of a node in turn, each taking its triangles from
      what the earlier ones left; the children are built with depth
      `depth`. */
  method BuildChildren(lists: seq<seq<int>>, depth: nat, fits: Fits) returns (remaining: seq<seq<int>>, children: seq<Option<OctNode>>)
    requires Triangles(lists)
    ensures Split(remaining, children) == Octants(lists, lists, 0, depth, fits)
    decreases 3 * depth + 4
  {
    remaining, children := lists, [];
    for ch := 0 to 8
      invariant Triangles(remaining) && |children| == ch
      invariant var rest := Octants(lists, remaining, ch, depth, fits);
        Octants(lists, lists, 0, depth, fits) == Split(rest.Remaining, children + rest.Children)
    {
      var kept, child := BuildOctant(lists, remaining, ch, depth, fits);
      ghost var rest := Octants(lists, kept, ch + 1, depth, fits);
      assert Octants(lists, remaining, ch, depth, fits) == Split(rest.Remaining, [child] + rest.Children);
      assert (children + [child]) + rest.Children == children + ([child] + rest.Children);
      remaining, children := kept, children + [child];
    }
    assert children + [] == children;
  }

  /** Octant ch of a node: the scan of every material's list, then the
      child built when some triangle moved. */
  method BuildOctant(box: seq<seq<int>>, remaining: seq<seq<int>>, ch: nat, depth: nat, fits: Fits)
      returns (next: seq<seq<int>>, child: Option<OctNode>)
    requires Triangles(remaining)
    ensures Triangles(next) && next == KeptLists(box, remaining, ch, fits)
    ensures child == ChildOf(MovedLists(box, remaining, ch, fits), depth, fits)
    decreases 3 * depth + 3
  {
    var moved, added;
    next, moved, added := MoveAll(box, remaining, ch, fits);
    child := None;
    if added {
      var c := BuildNode(moved, depth, fits);
      child := Some(c);
      assert child == ChildOf(moved, depth, fits);
    }
  }

  /** The scan of every material's list for octant ch: the child's index
      chunks and whether any triangle moved. */
  method MoveAll(box: seq<seq<int>>, remaining: seq<seq<int>>, ch: nat, fits: Fits)
      returns (next: seq<seq<int>>, moved: seq<seq<int>>, added: bool)
    requires Triangles(remaining)
    ensures Triangles(next) && Triangles(moved)
    ensures next == KeptLists(box, remaining, ch, fits) && moved == MovedLists(box, remaining, ch, fits)
    ensures added <==> !AllEmpty(moved)
  {
    moved, added := [], false;
    next := remaining;
    for i := 0 to |remaining|
      invariant |next| == |remaining| && |moved| == i && Triangles(next) && Triangles(moved)
      invariant forall k | 0 <= k < i :: next[k] == Kept(remaining[k], fits, Where(box, ch, k)) && moved[k] == Moved(remaining[k], fits, Where(box, ch, k))
      invariant forall k | i <= k < |remaining| :: next[k] == remaining[k]
      invariant added <==> !AllEmpty(moved)
    {
      var kept, m := MoveTriangles(next[i], fits, Where(box, ch, i));
      next := next[i := kept];
      moved := moved + [m];
      added := added || m != [];
    }
  }

  lemma WholeTriangle(t: int, n: int)
    requires t % 3 == 0 && n % 3 == 0 && 0 <= t < n
    ensures t + 3 <= n
  {
  }

  lemma ThreeMore(x: int)
    ensures (x + 3) % 3 == x % 3
  {
  }

  /** Taking triangle t, which the octant holds, out of the scanned list
      and appending it to the moved indices keeps the scan's account of what
      the whole list keeps and moves. */
  lemma EraseStep(k: seq<int>, t: nat, moved: seq<int>, fits: Fits, w: Where, kept: seq<int>, all: seq<int>)
    requires |k| % 3 == 0 && t % 3 == 0 && t + 3 <= |k| && fits(w, k[t], k[t + 1], k[t + 2])
    requires k[..t] + Kept(k[t..], fits, w) == kept && moved + Moved(k[t..], fits, w) == all
    ensures var e := k[..t] + k[t + 3..];
      |e| == |k| - 3 && |e| % 3 == 0 && e[..t] + Kept(e[t..], fits, w) == kept && (moved + k[t..t + 3]) + Moved(e[t..], fits, w) == all
  {
    var e := k[..t] + k[t + 3..];
    ScanStep(k[t..], fits, w);
    assert k[t..][..3] == k[t..t + 3] && k[t..][3..] == k[t + 3..];
    assert e[..t] == k[..t] && e[t..] == k[t + 3..];
  }

  /** Stepping over a triangle the octant does not hold keeps the same
      account. */
  lemma KeepStep(k: seq<int>, t: nat, moved: seq<int>, fits: Fits, w: Where, kept: seq<int>, all: seq<int>)
    requires |k| % 3 == 0 && t % 3 == 0 && t + 3 <= |k| && !fits(w, k[t], k[t + 1], k[t + 2])
    requires k[..t] + Kept(k[t..], fits, w) == kept && moved + Moved(k[t..], fits, w) == all
    ensures k[..t + 3] + Kept(k[t + 3..], fits, w) == kept && moved + Moved(k[t + 3..], fits, w) == all
  {
    ScanStep(k[t..], fits, w);
    assert k[t..][..3] == k[t..t + 3] && k[t..][3..] == k[t + 3..];
    assert k[..t + 3] == k[..t] + k[t..t + 3];
  }

  /** The scan of one list: a triangle the octant holds is appended to the
      child's list and erased from the parent's, and the unsigned scan
      index steps back over it. */
  method MoveTriangles(list: seq<int>, fits: Fits, w: Where) returns (kept: seq<int>, moved: seq<int>)
    requires |list| % 3 == 0 && |list| < Word
    ensures kept == Kept(list, fits, w) && moved == Moved(list, fits, w)
    ensures |kept| % 3 == 0 && |kept| <= |list| && |moved| % 3 == 0 && |moved| <= |list|
  {
    kept, moved := list, [];
    var t := 0;
    while t < |kept|
      invariant 0 <= t <= |kept| <= |list| && t % 3 == 0 && |kept| % 3 == 0
      invariant kept[..t] + Kept(kept[t..], fits, w) == Kept(list, fits, w)
      invariant moved + Moved(kept[t..], fits, w) == Moved(list, fits, w)
      decreases 2 * |kept| - t
    {
      ghost var t0 := t;
      WholeTriangle(t, |kept|);
      if fits(w, kept[t], kept[t + 1], kept[t + 2]) {
        EraseStep(kept, t, moved, fits, w, Kept(list, fits, w), Moved(list, fits, w));
        moved := moved + kept[t..t + 3];
        kept := kept[..t] + kept[t + 3..];
        WrapBack(t);
        t := U32(t - 3);
        t := U32(t + 3);
        assert t == t0;
        ThreeMore(|kept|);
      } else {
        KeepStep(kept, t, moved, fits, w, Kept(list, fits, w), Moved(list, fits, w));
        t := U32(t + 3);
        ThreeMore(t0);
      }
    }
    assert kept[t..] == [];
    WholeTriangles(list, fits, w);
  }

  /** getPolys: when the node's box meets the query box, each material's
      non-empty list is copied behind the buffer's CurrentSize, and the
      children are queried in octant order. */
  method GetPolys(n: OctNode, hits: seq<seq<int>> -> bool, current: seq<seq<int>>) returns (r: seq<seq<int>>)
    requires Queryable(n, |current|)
    ensures |r| == |current|
    ensures forall i | 0 <= i < |r| :: r[i] == current[i] + Polys(n, hits, i)
    decreases n
  {
    r := current;
    if hits(n.Box) {
      var cnt := |n.Lists|;
      for i := 0 to cnt
        invariant |r| == |current|
        invariant forall k | 0 <= k < |r| :: r[k] == current[k] + (if k < i then n.Lists[k] else [])
      {
        var idxcnt := |n.Lists[i]|;
        if idxcnt != 0 {
          r := r[i := r[i] + n.Lists[i]];
        }
      }
      for c := 0 to 8
        invariant |r| == |current|
        invariant forall k | 0 <= k < |r| :: r[k] == current[k] + n.Lists[k] + PolysAll(n.Children[..c], hits, k)
      {
        assert n.Children[..c + 1][..c] == n.Children[..c];
        assert QueryableIn(n.Children[c], |current|);
        match n.Children[c]
        case None =>
        case Some(child) =>
          r := GetPolys(child, hits, r);
      }
      assert n.Children[..8] == n.Children;
    }
  }
}
