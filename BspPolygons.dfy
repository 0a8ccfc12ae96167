// The polygon work of BSP construction (CBspTree.cpp): classifying a
// polygon against a plane by counting its vertices' sides, choosing a
// splitter by score, walking a polygon's vertex ring to cut it in two,
// re-triangulating the pieces as fans, routing a node's polygons to its
// children, and the vertex total and bounding box of a node.
//
// The float geometry enters as a `Geometry` value: the side of a plane a
// vertex lies on, the vertex where an edge crosses a plane (the source
// computes it with getIntersectionWithLimitedLine, keeps it when the
// fraction along the edge lies in [0, 1], and interpolates colour and
// texture coordinates), the plane of a polygon (planeFromPoly), and whether
// two planes face the same way (a non-negative dot product of normals).
module BspPolygons {
  import opened Common
  import opened BspTreeTypes

  datatype Geometry<!V, !P> = Geometry(
    Side: (P, V) -> PointRelation,
    Cut: (P, V, V) -> Option<V>,
    PlaneOf: (seq<V>, seq<int>) -> P,
    Facing: (P, P) -> bool,
    DefaultPlane: P)

  // ---------------------------------------------------------------- classifyPoly

  predicate FrontOrPlanar(r: Relation) { r.Front? || r.Planar? }

  predicate BackOrPlanar(r: Relation) { r.Back? || r.Planar? }

  datatype SideCounts = SideCounts(Front: nat, Back: nat, Planar: nat)

  /** classifyPoly's three counters over a vertex list: a PLANAR vertex
      counts as front, as back and as planar. */
  function Tally<V, P>(side: (P, V) -> PointRelation, plane: P, vs: seq<V>): SideCounts
  {
    if vs == [] then SideCounts(0, 0, 0)
    else
      var c := Tally(side, plane, vs[..|vs| - 1]);
      var r := side(plane, vs[|vs| - 1]);
      if r.Front? then c.(Front := c.Front + 1)
      else if r.Back? then c.(Back := c.Back + 1)
      else SideCounts(c.Front + 1, c.Back + 1, c.Planar + 1)
  }

  /** The relation classifyPoly reports: PLANAR when every vertex counted
      as planar, else FRONT when every one counted as front, else BACK when
      every one counted as back, else SPANNING. */
  function Classify<V, P>(side: (P, V) -> PointRelation, plane: P, vs: seq<V>): Relation
  {
    var c := Tally(side, plane, vs);
    if c.Planar == |vs| then Planar
    else if c.Front == |vs| then Front
    else if c.Back == |vs| then Back
    else Spanning
  }

  /** Each counter reaches the vertex count exactly when every vertex is of
      its kind. */
  lemma {:induction false} TallyAll<V, P>(side: (P, V) -> PointRelation, plane: P, vs: seq<V>)
    ensures Tally(side, plane, vs).Front <= |vs| && Tally(side, plane, vs).Back <= |vs|
    ensures Tally(side, plane, vs).Planar <= |vs|
    ensures Tally(side, plane, vs).Front == |vs| <==> forall i | 0 <= i < |vs| :: FrontOrPlanar(side(plane, vs[i]))
    ensures Tally(side, plane, vs).Back == |vs| <==> forall i | 0 <= i < |vs| :: BackOrPlanar(side(plane, vs[i]))
    ensures Tally(side, plane, vs).Planar == |vs| <==> forall i | 0 <= i < |vs| :: side(plane, vs[i]).Planar?
    decreases |vs|
  {
    if vs != [] {
      var init := vs[..|vs| - 1];
      TallyAll(side, plane, init);
      assert forall i | 0 <= i < |init| :: init[i] == vs[i];
    }
  }

  /** What classifyPoly's answer means for the vertices: PLANAR iff all lie
      on the plane; FRONT iff none lies behind and one lies in front; BACK
      iff none lies in front and one lies behind; SPANNING iff one lies in
      front and one behind. */
  lemma ClassifyMeaning<V, P>(side: (P, V) -> PointRelation, plane: P, vs: seq<V>)
    ensures Classify(side, plane, vs) == Planar <==> forall i | 0 <= i < |vs| :: side(plane, vs[i]).Planar?
    ensures Classify(side, plane, vs) == Front <==>
      (forall i | 0 <= i < |vs| :: FrontOrPlanar(side(plane, vs[i]))) && exists i | 0 <= i < |vs| :: side(plane, vs[i]).Front?
    ensures Classify(side, plane, vs) == Back <==>
      (forall i | 0 <= i < |vs| :: BackOrPlanar(side(plane, vs[i]))) && exists i | 0 <= i < |vs| :: side(plane, vs[i]).Back?
    ensures Classify(side, plane, vs) == Spanning <==>
      (exists i | 0 <= i < |vs| :: side(plane, vs[i]).Front?) && exists i | 0 <= i < |vs| :: side(plane, vs[i]).Back?
  {
    TallyAll(side, plane, vs);
  }

  /** classifyPoly: one pass counting the vertices' sides. */
  method ClassifyPoly<V, P>(g: Geometry<V, P>, plane: P, poly: Poly<V, P>) returns (r: Relation)
    ensures r == Classify(g.Side, plane, poly.Vertices)
  {
    var vs := poly.Vertices;
    var countFront, countBack, countPlanar := 0, 0, 0;
    var i := 0;
    while i < |vs|
      invariant i <= |vs|
      invariant SideCounts(countFront, countBack, countPlanar) == Tally(g.Side, plane, vs[..i])
    {
      var ir3d := g.Side(plane, vs[i]);
      if ir3d.Front? {
        countFront := countFront + 1;
      } else if ir3d.Back? {
        countBack := countBack + 1;
      } else {
        countPlanar, countFront, countBack := countPlanar + 1, countFront + 1, countBack + 1;
      }
      assert vs[..i + 1][..i] == vs[..i];
      i := i + 1;
    }
    assert vs[..i] == vs;
    if countPlanar == |vs| {
      return Planar;
    }
    if countFront == |vs| {
      return Front;
    }
    if countBack == |vs| {
      return Back;
    }
    return Spanning;
  }

  // ---------------------------------------------------------------- findSplitter

  datatype PolyCounts = PolyCounts(Front: nat, Back: nat, Planar: nat, Spanning: nat)

  /** findSplitter's switch: one more polygon of the given class. */
  function Count(c: PolyCounts, r: Relation): PolyCounts
  {
    match r
    case Front => c.(Front := c.Front + 1)
    case Back => c.(Back := c.Back + 1)
    case Planar => c.(Planar := c.Planar + 1)
    case Spanning => c.(Spanning := c.Spanning + 1)
    case Clipped => c
  }

  /** The classes of polygons 0..k-1 other than candidate i, against the
      candidate's plane. */
  function CountAgainst<V, P>(g: Geometry<V, P>, polys: seq<Poly<V, P>>, i: nat, k: nat): PolyCounts
    requires i < |polys| && k <= |polys|
  {
    if k == 0 then PolyCounts(0, 0, 0, 0)
    else
      var c := CountAgainst(g, polys, i, k - 1);
      if k - 1 == i then c else Count(c, Classify(g.Side, polys[i].Plane, polys[k - 1].Vertices))
  }

  function Counts<V, P>(g: Geometry<V, P>, polys: seq<Poly<V, P>>, i: nat): PolyCounts
    requires i < |polys|
  {
    CountAgainst(g, polys, i, |polys|)
  }

  /** The score as the source computes it: the u32 difference front - back
      read as a signed int, its absolute value, three per spanning polygon
      and one per planar one, summed modulo 2^32 and read as s32.  Below
      2^28 per counter no wrap-around occurs. */
  function Score(c: PolyCounts): (r: int)
    ensures c.Front < 0x1000_0000 && c.Back < 0x1000_0000 && c.Planar < 0x1000_0000 && c.Spanning < 0x1000_0000 ==>
      r == (if c.Front >= c.Back then c.Front - c.Back else c.Back - c.Front) + 3 * c.Spanning + c.Planar
  {
    var d := S32(c.Front - c.Back);
    S32((if d < 0 then -d else d) + 3 * c.Spanning + c.Planar)
  }

  /** The polygon list is not convex as seen from the candidate's plane. */
  predicate NonConvex(c: PolyCounts)
  {
    (c.Front > 0 && c.Back > 0) || c.Spanning > 0
  }

  predicate Candidate<V, P>(g: Geometry<V, P>, polys: seq<Poly<V, P>>, i: nat)
    requires i < |polys|
  {
    !polys[i].WasSplitter && NonConvex(Counts(g, polys, i))
  }

  function ScoreOf<V, P>(g: Geometry<V, P>, polys: seq<Poly<V, P>>, i: nat): int
    requires i < |polys|
  {
    Score(Counts(g, polys, i))
  }

  /** bestScore's initial value. */
  const InitialBestScore: int := 0xfffffff

  /** The index findSplitter keeps after looking at polygons 0..k-1, given
      which polygons are candidates and their scores: a later candidate
      replaces the kept one only with a strictly smaller score. */
  function Scan(candidate: seq<bool>, scores: seq<int>, k: nat): (b: Option<nat>)
    requires k <= |candidate| == |scores|
    ensures b.Some? ==> b.value < k
  {
    if k == 0 then None
    else
      var b := Scan(candidate, scores, k - 1);
      var bestScore := if b.None? then InitialBestScore else scores[b.value];
      if candidate[k - 1] && scores[k - 1] < bestScore then Some(k - 1) else b
  }

  lemma ScanStep(candidate: seq<bool>, scores: seq<int>, i: nat, next: nat)
    requires next == i + 1 <= |candidate| == |scores|
    ensures var b := Scan(candidate, scores, i);
      Scan(candidate, scores, next)
      == if candidate[i] && scores[i] < (if b.None? then InitialBestScore else scores[b.value]) then Some(i) else b
  {
  }

  function Candidates<V, P>(g: Geometry<V, P>, polys: seq<Poly<V, P>>): (r: seq<bool>)
    ensures |r| == |polys| && forall i | 0 <= i < |polys| :: r[i] == Candidate(g, polys, i)
  {
    seq(|polys|, i requires 0 <= i < |polys| => Candidate(g, polys, i))
  }

  function Scores<V, P>(g: Geometry<V, P>, polys: seq<Poly<V, P>>): (r: seq<int>)
    ensures |r| == |polys| && forall i | 0 <= i < |polys| :: r[i] == ScoreOf(g, polys, i)
  {
    seq(|polys|, i requires 0 <= i < |polys| => ScoreOf(g, polys, i))
  }

  /** findSplitter's choice. */
  function Best<V, P>(g: Geometry<V, P>, polys: seq<Poly<V, P>>): (b: Option<nat>)
    ensures b.Some? ==> b.value < |polys|
  {
    Scan(Candidates(g, polys), Scores(g, polys), |polys|)
  }

  /** A polygon findSplitter may pick: not yet a splitter, its plane sees
      polygons on both sides or cuts one, and its score beats the initial
      bound. */
  predicate Eligible<V, P>(g: Geometry<V, P>, polys: seq<Poly<V, P>>, i: nat)
    requires i < |polys|
  {
    Candidate(g, polys, i) && ScoreOf(g, polys, i) < InitialBestScore
  }

  /** Polygon i has the smallest score among the eligible ones, and every
      eligible polygon before it scores strictly more. */
  predicate FirstMinimum<V, P>(g: Geometry<V, P>, polys: seq<Poly<V, P>>, i: nat)
  {
    i < |polys| && Eligible(g, polys, i)
    && (forall j | 0 <= j < i && Eligible(g, polys, j) :: ScoreOf(g, polys, i) < ScoreOf(g, polys, j))
    && (forall j | i < j < |polys| && Eligible(g, polys, j) :: ScoreOf(g, polys, i) <= ScoreOf(g, polys, j))
  }

  predicate ScanEligible(candidate: seq<bool>, scores: seq<int>, j: nat)
    requires j < |candidate| == |scores|
  {
    candidate[j] && scores[j] < InitialBestScore
  }

  lemma {:induction false} ScanPrefix(candidate: seq<bool>, scores: seq<int>, k: nat)
    requires k <= |candidate| == |scores|
    ensures Scan(candidate, scores, k).None? <==> forall j | 0 <= j < k :: !ScanEligible(candidate, scores, j)
    ensures Scan(candidate, scores, k).Some? ==>
      var i := Scan(candidate, scores, k).value;
      ScanEligible(candidate, scores, i)
      && (forall j | 0 <= j < i && ScanEligible(candidate, scores, j) :: scores[i] < scores[j])
      && (forall j | i < j < k && ScanEligible(candidate, scores, j) :: scores[i] <= scores[j])
  {
    if k > 0 {
      ScanPrefix(candidate, scores, k - 1);
      var b := Scan(candidate, scores, k - 1);
      if b.Some? {
        assert ScanEligible(candidate, scores, b.value);
      } else {
        assert Scan(candidate, scores, k).None? <==> !ScanEligible(candidate, scores, k - 1);
      }
    }
  }

  /** findSplitter's choice: there is none exactly when no polygon is
      eligible, and otherwise it is the first eligible polygon of least
      score. */
  lemma BestIsFirstMinimum<V, P>(g: Geometry<V, P>, polys: seq<Poly<V, P>>)
    ensures Best(g, polys).None? <==> forall j | 0 <= j < |polys| :: !Eligible(g, polys, j)
    ensures forall i: nat :: Best(g, polys) == Some(i) <==> FirstMinimum(g, polys, i)
  {
    var candidate, scores := Candidates(g, polys), Scores(g, polys);
    ScanPrefix(candidate, scores, |polys|);
    assert forall j | 0 <= j < |polys| :: ScanEligible(candidate, scores, j) == Eligible(g, polys, j);
    forall i: nat | FirstMinimum(g, polys, i)
      ensures Best(g, polys) == Some(i)
    {
      var b := Best(g, polys);
      assert Eligible(g, polys, b.value) && Eligible(g, polys, i);
    }
  }

  /** The candidate after its `wasSplitter` flag is set. */
  function Mark<V, P>(polys: seq<Poly<V, P>>, i: nat): (r: seq<Poly<V, P>>)
    requires i < |polys|
  {
    polys[i := polys[i].(WasSplitter := true)]
  }

  /** findSplitter's inner loop: the classes of all other polygons against
      candidate i's plane. */
  method CountRelations<V, P>(g: Geometry<V, P>, polys: seq<Poly<V, P>>, i: nat) returns (c: PolyCounts)
    requires i < |polys|
    ensures c == Counts(g, polys, i)
  {
    c := PolyCounts(0, 0, 0, 0);
    var j := 0;
    while j < |polys|
      invariant j <= |polys|
      invariant c == CountAgainst(g, polys, i, j)
    {
      if i != j {
        var bpc := ClassifyPoly(g, polys[i].Plane, polys[j]);
        c := Count(c, bpc);
      }
      j := j + 1;
    }
  }

  /** One turn of findSplitter's outer loop: polygon i, if not yet a
      splitter, is scored against all others and kept when it beats the
      best score so far and its plane sees a non-convex list. */
  method Consider<V, P>(g: Geometry<V, P>, polys: seq<Poly<V, P>>, i: nat, best: Option<nat>, bestScore: int)
    returns (best': Option<nat>, bestScore': int)
    requires i < |polys|
    ensures var better := Candidate(g, polys, i) && ScoreOf(g, polys, i) < bestScore;
      best' == (if better then Some(i) else best) && bestScore' == (if better then ScoreOf(g, polys, i) else bestScore)
  {
    best', bestScore' := best, bestScore;
    if !polys[i].WasSplitter {
      var c := CountRelations(g, polys, i);
      var score := Score(c);
      if score < bestScore {
        if (c.Front > 0 && c.Back > 0) || c.Spanning > 0 {
          bestScore' := score;
          best' := Some(i);
        }
      }
    }
  }

  /** findSplitter: scores every polygon not yet used as a splitter and
      keeps the best non-convex one.  When one is found its flag is set and
      its plane is the node's new plane; otherwise polygons and plane are
      left as they were. */
  method FindSplitter<V, P>(g: Geometry<V, P>, polys: seq<Poly<V, P>>, plane: P)
    returns (found: bool, splitter: P, marked: seq<Poly<V, P>>)
    ensures found <==> Best(g, polys).Some?
    ensures found ==> (splitter == polys[Best(g, polys).value].Plane && marked == Mark(polys, Best(g, polys).value))
    ensures !found ==> splitter == plane && marked == polys
  {
    ghost var candidate, scores := Candidates(g, polys), Scores(g, polys);
    var best: Option<nat> := None;
    var bestScore := InitialBestScore;
    var i := 0;
    while i < |polys|
      invariant i <= |polys|
      invariant best == Scan(candidate, scores, i)
      invariant bestScore == if best.None? then InitialBestScore else scores[best.value]
    {
      var next := i + 1;
      ScanStep(candidate, scores, i, next);
      assert candidate[i] == Candidate(g, polys, i) && scores[i] == ScoreOf(g, polys, i);
      best, bestScore := Consider(g, polys, i, best, bestScore);
      i := next;
    }
    assert best == Best(g, polys);
    if best.None? {
      return false, plane, polys;
    }
    marked := Mark(polys, best.value);
    return true, polys[best.value].Plane, marked;
  }

  // ---------------------------------------------------------------- createBoundingBox

  /** The number of vertices of all polygons. */
  function VertexTotal<V, P>(polys: seq<Poly<V, P>>): nat
  {
    if polys == [] then 0 else VertexTotal(polys[..|polys| - 1]) + |polys[|polys| - 1].Vertices|
  }

  /** The vertices of all polygons, in order. */
  function Points<V, P>(polys: seq<Poly<V, P>>): seq<V>
  {
    if polys == [] then [] else Points(polys[..|polys| - 1]) + polys[|polys| - 1].Vertices
  }

  /** The points the box is grown around: reset to the first polygon's
      first vertex, then every vertex added. */
  function BoxPoints<V, P>(polys: seq<Poly<V, P>>): seq<V>
  {
    (if polys != [] && polys[0].Vertices != [] then [polys[0].Vertices[0]] else []) + Points(polys)
  }

  lemma {:induction false} PointsCount<V, P>(polys: seq<Poly<V, P>>)
    ensures |Points(polys)| == VertexTotal(polys)
    decreases |polys|
  {
    if polys != [] {
      PointsCount(polys[..|polys| - 1]);
    }
  }

  lemma {:induction false} PointListed<V, P>(polys: seq<Poly<V, P>>, i: nat, j: nat)
    requires i < |polys| && j < |polys[i].Vertices|
    ensures polys[i].Vertices[j] in Points(polys)
    decreases |polys|
  {
    var init := polys[..|polys| - 1];
    assert Points(polys) == Points(init) + polys[|polys| - 1].Vertices;
    if i < |init| {
      PointListed(init, i, j);
      assert init[i] == polys[i];
    }
  }

  /** The box holds every vertex of every polygon, and the count it comes
      with is the number of those vertices. */
  lemma BoxHoldsVertices<V, P>(polys: seq<Poly<V, P>>)
    ensures |Points(polys)| == VertexTotal(polys)
    ensures forall i, j | 0 <= i < |polys| && 0 <= j < |polys[i].Vertices| :: polys[i].Vertices[j] in BoxPoints(polys)
  {
    PointsCount(polys);
    forall i, j | 0 <= i < |polys| && 0 <= j < |polys[i].Vertices|
      ensures polys[i].Vertices[j] in BoxPoints(polys)
    {
      PointListed(polys, i, j);
    }
  }

  /** createBoundingBox: the vertex total, and the box around all vertices.
      It reads the first polygon's first vertex, so the list must not be
      empty. */
  method CreateBoundingBox<V, P>(polys: seq<Poly<V, P>>) returns (totalCount: int, box: seq<V>)
    requires polys != [] && polys[0].Vertices != []
    ensures totalCount == VertexTotal(polys) && box == BoxPoints(polys)
  {
    totalCount := 0;
    var added: seq<V> := [];
    var i := 0;
    while i < |polys|
      invariant i <= |polys|
      invariant totalCount == VertexTotal(polys[..i]) && added == Points(polys[..i])
    {
      assert polys[..i + 1][..i] == polys[..i];
      totalCount := totalCount + |polys[i].Vertices|;
      added := added + polys[i].Vertices;
      i := i + 1;
    }
    assert polys[..i] == polys;
    box := [polys[0].Vertices[0]] + added;
  }

  // ---------------------------------------------------------------- splitPoly

  /** The front and back vertex lists of a split. */
  datatype Lists<V> = Lists(Front: seq<V>, Back: seq<V>)

  /** A vertex goes to the front list when it lies in front of or on the
      plane, to the back list when it lies behind or on it. */
  function OnFront<V, P>(g: Geometry<V, P>, plane: P, v: V): seq<V>
  {
    if FrontOrPlanar(g.Side(plane, v)) then [v] else []
  }

  function OnBack<V, P>(g: Geometry<V, P>, plane: P, v: V): seq<V>
  {
    if BackOrPlanar(g.Side(plane, v)) then [v] else []
  }

  /** The vertex the edge from a to b contributes to both lists: where it
      crosses the plane, unless b lies on the plane. */
  function CutAt<V, P>(g: Geometry<V, P>, plane: P, a: V, b: V): seq<V>
  {
    if g.Side(plane, b).Planar? then []
    else match g.Cut(plane, a, b)
      case Some(x) => [x]
      case None => []
  }

  /** The ring predecessor: the walk starts from the last vertex. */
  function Prev(n: nat, k: nat): nat
    requires k < n
  {
    if k == 0 then n - 1 else k - 1
  }

  /** The lists after the ring walk's first k steps.  The walk starts with
      the last vertex; step k adds the cut of the edge ending at vertex k and
      then vertex k itself, except that the last vertex is not added twice. */
  function Walk<V, P>(g: Geometry<V, P>, plane: P, vs: seq<V>, k: nat): Lists<V>
    requires 1 <= |vs| && k <= |vs|
  {
    var n := |vs|;
    if k == 0 then Lists(OnFront(g, plane, vs[n - 1]), OnBack(g, plane, vs[n - 1]))
    else
      var l := Walk(g, plane, vs, k - 1);
      var x := CutAt(g, plane, vs[Prev(n, k - 1)], vs[k - 1]);
      if k - 1 == n - 1 then Lists(l.Front + x, l.Back + x)
      else Lists(l.Front + x + OnFront(g, plane, vs[k - 1]), l.Back + x + OnBack(g, plane, vs[k - 1]))
  }

  /** The vertices of a list that lie in front of or on the plane, and
      those behind or on it, in order. */
  function FrontVertices<V, P>(g: Geometry<V, P>, plane: P, vs: seq<V>): seq<V>
  {
    if vs == [] then [] else FrontVertices(g, plane, vs[..|vs| - 1]) + OnFront(g, plane, vs[|vs| - 1])
  }

  function BackVertices<V, P>(g: Geometry<V, P>, plane: P, vs: seq<V>): seq<V>
  {
    if vs == [] then [] else BackVertices(g, plane, vs[..|vs| - 1]) + OnBack(g, plane, vs[|vs| - 1])
  }

  /** The cut vertices of the walk's first k edges. */
  function Cuts<V, P>(g: Geometry<V, P>, plane: P, vs: seq<V>, k: nat): seq<V>
    requires 1 <= |vs| && k <= |vs|
  {
    if k == 0 then [] else Cuts(g, plane, vs, k - 1) + CutAt(g, plane, vs[Prev(|vs|, k - 1)], vs[k - 1])
  }

  /** One step of the walk before the last vertex: the cut, then the
      vertex. */
  lemma WalkStep<V, P>(g: Geometry<V, P>, plane: P, vs: seq<V>, j: nat, k: nat)
    requires j + 1 == k < |vs|
    ensures var x := CutAt(g, plane, vs[Prev(|vs|, j)], vs[j]);
      Walk(g, plane, vs, k) == Lists(Walk(g, plane, vs, j).Front + x + OnFront(g, plane, vs[j]),
                                     Walk(g, plane, vs, j).Back + x + OnBack(g, plane, vs[j]))
      && Cuts(g, plane, vs, k) == Cuts(g, plane, vs, j) + x
      && FrontVertices(g, plane, vs[..k]) == FrontVertices(g, plane, vs[..j]) + OnFront(g, plane, vs[j])
      && BackVertices(g, plane, vs[..k]) == BackVertices(g, plane, vs[..j]) + OnBack(g, plane, vs[j])
  {
    assert vs[..k][..j] == vs[..j];
  }

  /** A walk step keeps the sharing: the cut goes to the cut vertices,
      the vertex to the side's vertices. */
  lemma ShareStep<V>(w: seq<V>, last: seq<V>, side: seq<V>, cuts: seq<V>, x: seq<V>, v: seq<V>)
    requires multiset(w) == multiset(last) + multiset(side) + multiset(cuts)
    ensures multiset(w + x + v) == multiset(last) + multiset(side + v) + multiset(cuts + x)
  {
    assert multiset(w + x + v) == multiset(w) + multiset(x) + multiset(v);
  }

  lemma {:induction false} WalkFrontPrefix<V, P>(g: Geometry<V, P>, plane: P, vs: seq<V>, k: nat)
    requires 1 <= |vs| && k < |vs|
    ensures multiset(Walk(g, plane, vs, k).Front)
      == multiset(OnFront(g, plane, vs[|vs| - 1])) + multiset(FrontVertices(g, plane, vs[..k])) + multiset(Cuts(g, plane, vs, k))
  {
    if k > 0 {
      var j := k - 1;
      WalkFrontPrefix(g, plane, vs, j);
      WalkStep(g, plane, vs, j, k);
      ShareStep(Walk(g, plane, vs, j).Front, OnFront(g, plane, vs[|vs| - 1]), FrontVertices(g, plane, vs[..j]), Cuts(g, plane, vs, j),
                CutAt(g, plane, vs[Prev(|vs|, j)], vs[j]), OnFront(g, plane, vs[j]));
    }
  }

  lemma {:induction false} WalkBackPrefix<V, P>(g: Geometry<V, P>, plane: P, vs: seq<V>, k: nat)
    requires 1 <= |vs| && k < |vs|
    ensures multiset(Walk(g, plane, vs, k).Back)
      == multiset(OnBack(g, plane, vs[|vs| - 1])) + multiset(BackVertices(g, plane, vs[..k])) + multiset(Cuts(g, plane, vs, k))
  {
    if k > 0 {
      var j := k - 1;
      WalkBackPrefix(g, plane, vs, j);
      WalkStep(g, plane, vs, j, k);
      ShareStep(Walk(g, plane, vs, j).Back, OnBack(g, plane, vs[|vs| - 1]), BackVertices(g, plane, vs[..j]), Cuts(g, plane, vs, j),
                CutAt(g, plane, vs[Prev(|vs|, j)], vs[j]), OnBack(g, plane, vs[j]));
    }
  }

  /** The last step adds only the cut of the edge closing the ring. */
  lemma WalkLast<V, P>(g: Geometry<V, P>, plane: P, vs: seq<V>, j: nat, n: nat)
    requires j + 1 == n == |vs|
    ensures var x := CutAt(g, plane, vs[Prev(n, j)], vs[j]);
      Walk(g, plane, vs, n) == Lists(Walk(g, plane, vs, j).Front + x, Walk(g, plane, vs, j).Back + x)
      && Cuts(g, plane, vs, n) == Cuts(g, plane, vs, j) + x
      && FrontVertices(g, plane, vs) == FrontVertices(g, plane, vs[..j]) + OnFront(g, plane, vs[j])
      && BackVertices(g, plane, vs) == BackVertices(g, plane, vs[..j]) + OnBack(g, plane, vs[j])
  {
    assert vs[..|vs| - 1] == vs[..j];
  }

  /** The last step keeps the sharing: the last vertex, already in the
      list, joins the side's vertices, and the closing cut the cut
      vertices. */
  lemma ShareLast<V>(w: seq<V>, last: seq<V>, side: seq<V>, cuts: seq<V>, x: seq<V>)
    requires multiset(w) == multiset(last) + multiset(side) + multiset(cuts)
    ensures multiset(w + x) == multiset(side + last) + multiset(cuts + x)
  {
    assert multiset(w + x) == multiset(w) + multiset(x);
  }

  /** splitPoly's ring walk shares vertices: the front list holds exactly
      the vertices in front of or on the plane plus every cut vertex, the
      back list exactly those behind or on it plus the same cut vertices. */
  lemma WalkShares<V, P>(g: Geometry<V, P>, plane: P, vs: seq<V>)
    requires 1 <= |vs|
    ensures multiset(Walk(g, plane, vs, |vs|).Front) == multiset(FrontVertices(g, plane, vs)) + multiset(Cuts(g, plane, vs, |vs|))
    ensures multiset(Walk(g, plane, vs, |vs|).Back) == multiset(BackVertices(g, plane, vs)) + multiset(Cuts(g, plane, vs, |vs|))
  {
    var n := |vs|;
    var j := n - 1;
    WalkFrontPrefix(g, plane, vs, j);
    WalkBackPrefix(g, plane, vs, j);
    WalkLast(g, plane, vs, j, n);
    assert vs[j] == vs[|vs| - 1];
    var x := CutAt(g, plane, vs[Prev(n, j)], vs[j]);
    ShareLast(Walk(g, plane, vs, j).Front, OnFront(g, plane, vs[j]), FrontVertices(g, plane, vs[..j]), Cuts(g, plane, vs, j), x);
    ShareLast(Walk(g, plane, vs, j).Back, OnBack(g, plane, vs[j]), BackVertices(g, plane, vs[..j]), Cuts(g, plane, vs, j), x);
  }

  /** The intersection part of a turn of splitPoly's ring loop: the cut
      vertex of the edge from a to b goes into both lists. */
  method AddCut<V, P>(g: Geometry<V, P>, plane: P, a: V, b: V, frontList: seq<V>, backList: seq<V>)
    returns (front: seq<V>, back: seq<V>)
    ensures front == frontList + CutAt(g, plane, a, b) && back == backList + CutAt(g, plane, a, b)
  {
    front, back := frontList, backList;
    var i3d := g.Side(plane, b);
    if !i3d.Planar? {
      var intersection := g.Cut(plane, a, b);
      if intersection.Some? {
        front := front + [intersection.value];
        back := back + [intersection.value];
      }
    }
  }

  /** The switch of splitPoly: a vertex goes into the list of its side, or
      into both when it lies on the plane. */
  method AddVertex<V, P>(g: Geometry<V, P>, plane: P, v: V, frontList: seq<V>, backList: seq<V>)
    returns (front: seq<V>, back: seq<V>)
    ensures front == frontList + OnFront(g, plane, v) && back == backList + OnBack(g, plane, v)
  {
    front, back := frontList, backList;
    var r := g.Side(plane, v);
    if r.Front? {
      front := front + [v];
    } else if r.Back? {
      back := back + [v];
    } else {
      back, front := back + [v], front + [v];
    }
  }

  /** One turn of splitPoly's ring loop at vertex k, `currentIdx` being
      its ring predecessor. */
  method WalkVertex<V, P>(g: Geometry<V, P>, plane: P, vs: seq<V>, k: nat, currentIdx: nat, frontList: seq<V>, backList: seq<V>)
    returns (front: seq<V>, back: seq<V>)
    requires k < |vs| && currentIdx == Prev(|vs|, k)
    requires Lists(frontList, backList) == Walk(g, plane, vs, k)
    ensures Lists(front, back) == Walk(g, plane, vs, k + 1)
  {
    front, back := AddCut(g, plane, vs[currentIdx], vs[k], frontList, backList);
    if k != |vs| - 1 {
      front, back := AddVertex(g, plane, vs[k], front, back);
    }
  }

  /** The ring walk of splitPoly, with `currentIdx` trailing one vertex
      behind `currentIdx2` around the ring. */
  method WalkRing<V, P>(g: Geometry<V, P>, plane: P, vs: seq<V>) returns (frontList: seq<V>, backList: seq<V>)
    requires 1 <= |vs|
    ensures Lists(frontList, backList) == Walk(g, plane, vs, |vs|)
  {
    var n := |vs|;
    var currentIdx := n - 1;
    frontList, backList := [], [];
    frontList, backList := AddVertex(g, plane, vs[currentIdx], frontList, backList);
    var currentIdx2 := 0;
    while currentIdx2 < n
      invariant currentIdx2 <= n && currentIdx < n
      invariant currentIdx2 == 0 ==> currentIdx == n - 1
      invariant 0 < currentIdx2 < n ==> currentIdx == currentIdx2 - 1
      invariant Lists(frontList, backList) == Walk(g, plane, vs, currentIdx2)
    {
      frontList, backList := WalkVertex(g, plane, vs, currentIdx2, currentIdx, frontList, backList);
      currentIdx := currentIdx + 1;
      if currentIdx == n {
        currentIdx := 0;
      }
      currentIdx2 := currentIdx2 + 1;
    }
  }

  /** An index pushed into a u16 list keeps its low 16 bits. */
  function U16(x: int): int
  {
    x % 0x10000
  }

  /** The number of fan triangles for n vertices as the source computes it:
      (n - 2) * 3 in u32, stored in an s32, cast back to u32 and divided by
      3.  Below two vertices the subtraction wraps around. */
  function FanCount(n: nat): (t: nat)
    ensures 2 <= n <= 0x5555_5556 ==> t == n - 2
  {
    U32((n - 2) * 3) / 3
  }

  /** The first t fan triangles (0, k+1, k+2), as u16 indices. */
  function Fan(t: nat): seq<int>
  {
    if t == 0 then [] else Fan(t - 1) + [0, U16(t), U16(t + 1)]
  }

  /** A fragment of n vertices (2 <= n <= 65536) gets n - 2 triangles; the
      k-th is (0, k+1, k+2), so every index names one of its vertices. */
  lemma {:induction false} FanShape(t: nat)
    requires t + 2 <= 0x10000
    ensures |Fan(t)| == 3 * t
    ensures forall k | 0 <= k < t :: Fan(t)[3 * k] == 0 && Fan(t)[3 * k + 1] == k + 1 && Fan(t)[3 * k + 2] == k + 2
    ensures forall i | 0 <= i < |Fan(t)| :: 0 <= Fan(t)[i] < t + 2
  {
    if t > 0 {
      FanShape(t - 1);
      var f := Fan(t);
      assert f == Fan(t - 1) + [0, t, t + 1];
      forall i | 0 <= i < |f|
        ensures 0 <= f[i] < t + 2
      {
        if i < |Fan(t - 1)| {
          assert f[i] == Fan(t - 1)[i];
        }
      }
    }
  }

  /** The fan loop of splitPoly: v0 stays 0, v1 and v2 step along the
      ring. */
  method FanIndices(count: nat) returns (indices: seq<int>)
    ensures indices == Fan(count)
  {
    indices := [];
    var v0, v1, v2 := 0, 1, 2;
    var i := 0;
    while i < count
      invariant i <= count
      invariant indices == Fan(i)
      invariant i == 0 ==> v1 == 1 && v2 == 2
      invariant i > 0 ==> v1 == i && v2 == i + 1
    {
      if i != 0 {
        v1 := v2;
        v2 := v2 + 1;
      }
      indices := indices + [U16(v0), U16(v1), U16(v2)];
      i := i + 1;
    }
  }

  /** A piece of a split polygon: the given vertices, fan indices, the
      plane through them, and the original's flag and material. */
  function Piece<V, P>(g: Geometry<V, P>, poly: Poly<V, P>, vs: seq<V>): Poly<V, P>
  {
    var indices := Fan(FanCount(|vs|));
    Poly(vs, indices, poly.WasSplitter, g.PlaneOf(vs, indices), poly.Material)
  }

  function FrontPiece<V, P>(g: Geometry<V, P>, plane: P, poly: Poly<V, P>): Poly<V, P>
    requires 1 <= |poly.Vertices|
  {
    Piece(g, poly, Walk(g, plane, poly.Vertices, |poly.Vertices|).Front)
  }

  function BackPiece<V, P>(g: Geometry<V, P>, plane: P, poly: Poly<V, P>): Poly<V, P>
    requires 1 <= |poly.Vertices|
  {
    Piece(g, poly, Walk(g, plane, poly.Vertices, |poly.Vertices|).Back)
  }

  /** splitPoly: the ring walk, then each list re-triangulated as a fan.
      Both pieces keep the polygon's material and splitter flag.  (The
      source also counts the split in the statistics; the caller adds the
      splits of a whole routing pass.) */
  method SplitPoly<V, P>(g: Geometry<V, P>, poly: Poly<V, P>, plane: P) returns (frontSplit: Poly<V, P>, backSplit: Poly<V, P>)
    requires 1 <= |poly.Vertices|
    ensures frontSplit == FrontPiece(g, plane, poly) && backSplit == BackPiece(g, plane, poly)
    ensures frontSplit.Material == poly.Material && backSplit.Material == poly.Material
    ensures frontSplit.WasSplitter == poly.WasSplitter && backSplit.WasSplitter == poly.WasSplitter
  {
    var frontList, backList := WalkRing(g, plane, poly.Vertices);
    var frontIndices := FanIndices(FanCount(|frontList|));
    frontSplit := Poly(frontList, frontIndices, poly.WasSplitter, g.PlaneOf(frontList, frontIndices), poly.Material);
    var backIndices := FanIndices(FanCount(|backList|));
    backSplit := Poly(backList, backIndices, poly.WasSplitter, g.PlaneOf(backList, backIndices), poly.Material);
  }

  /** A spanning polygon has a vertex in front and one behind, so each
      piece gets at least one vertex. */
  lemma PiecesNotEmpty<V, P>(g: Geometry<V, P>, plane: P, poly: Poly<V, P>)
    requires Classify(g.Side, plane, poly.Vertices) == Spanning
    ensures 1 <= |poly.Vertices|
    ensures |FrontPiece(g, plane, poly).Vertices| >= 1 && |BackPiece(g, plane, poly).Vertices| >= 1
  {
    var vs := poly.Vertices;
    ClassifyMeaning(g.Side, plane, vs);
    var f :| 0 <= f < |vs| && g.Side(plane, vs[f]).Front?;
    var b :| 0 <= b < |vs| && g.Side(plane, vs[b]).Back?;
    SideVertexListed(g, plane, vs, f);
    SideVertexListed(g, plane, vs, b);
    WalkNotEmpty(g, plane, vs, vs[f], vs[b]);
  }

  lemma WalkNotEmpty<V, P>(g: Geometry<V, P>, plane: P, vs: seq<V>, f: V, b: V)
    requires 1 <= |vs| && f in FrontVertices(g, plane, vs) && b in BackVertices(g, plane, vs)
    ensures Walk(g, plane, vs, |vs|).Front != [] && Walk(g, plane, vs, |vs|).Back != []
  {
    WalkShares(g, plane, vs);
    assert f in multiset(Walk(g, plane, vs, |vs|).Front);
    assert b in multiset(Walk(g, plane, vs, |vs|).Back);
  }

  lemma {:induction false} SideVertexListed<V, P>(g: Geometry<V, P>, plane: P, vs: seq<V>, i: nat)
    requires i < |vs|
    ensures FrontOrPlanar(g.Side(plane, vs[i])) ==> vs[i] in FrontVertices(g, plane, vs)
    ensures BackOrPlanar(g.Side(plane, vs[i])) ==> vs[i] in BackVertices(g, plane, vs)
    decreases |vs|
  {
    if i < |vs| - 1 {
      var init := vs[..|vs| - 1];
      SideVertexListed(g, plane, init, i);
      assert init[i] == vs[i];
    }
  }

  // ---------------------------------------------------------------- sortPolys

  datatype Routed<V, P> = Routed(Front: seq<Poly<V, P>>, Back: seq<Poly<V, P>>, Splits: nat)

  /** sortPolys: FRONT polygons go to the front child, BACK ones to the back
      child, a SPANNING one is split and gives one piece to each, and a
      PLANAR one goes to the front child when it faces the way the node's
      plane does and to the back child otherwise. */
  function Route<V, P>(g: Geometry<V, P>, plane: P, polys: seq<Poly<V, P>>): Routed<V, P>
  {
    if polys == [] then Routed([], [], 0)
    else
      var r := Route(g, plane, polys[..|polys| - 1]);
      var p := polys[|polys| - 1];
      match Classify(g.Side, plane, p.Vertices)
      case Front => r.(Front := r.Front + [p])
      case Back => r.(Back := r.Back + [p])
      case Spanning =>
        PiecesNotEmpty(g, plane, p);
        Routed(r.Front + [FrontPiece(g, plane, p)], r.Back + [BackPiece(g, plane, p)], r.Splits + 1)
      case Planar => if g.Facing(p.Plane, plane) then r.(Front := r.Front + [p]) else r.(Back := r.Back + [p])
      case Clipped => r
  }

  /** sortPolys, one polygon at a time. */
  method SortPolys<V, P>(g: Geometry<V, P>, plane: P, polys: seq<Poly<V, P>>)
    returns (front: seq<Poly<V, P>>, back: seq<Poly<V, P>>, splits: nat)
    ensures Routed(front, back, splits) == Route(g, plane, polys)
  {
    front, back, splits := [], [], 0;
    var i := 0;
    while i < |polys|
      invariant i <= |polys|
      invariant Routed(front, back, splits) == Route(g, plane, polys[..i])
    {
      assert polys[..i + 1][..i] == polys[..i];
      var bpc := ClassifyPoly(g, plane, polys[i]);
      match bpc {
        case Front =>
          front := front + [polys[i]];
        case Back =>
          back := back + [polys[i]];
        case Spanning =>
          PiecesNotEmpty(g, plane, polys[i]);
          var newFront, newBack := SplitPoly(g, polys[i], plane);
          front, back, splits := front + [newFront], back + [newBack], splits + 1;
        case Planar =>
          if g.Facing(polys[i].Plane, plane) {
            front := front + [polys[i]];
          } else {
            back := back + [polys[i]];
          }
        case Clipped =>
      }
      i := i + 1;
    }
    assert polys[..i] == polys;
  }

  /** Every polygon has a vertex. */
  predicate HasVertices<V, P>(polys: seq<Poly<V, P>>)
  {
    forall i | 0 <= i < |polys| :: polys[i].Vertices != []
  }

  /** Every polygon's material names one of m buffers. */
  predicate MaterialsBelow<V, P>(polys: seq<Poly<V, P>>, m: nat)
  {
    forall i | 0 <= i < |polys| :: polys[i].Material < m
  }

  /** Routing loses and duplicates nothing: each polygon lands in one
      child, except that a split one becomes two pieces. */
  lemma {:induction false} RouteCount<V, P>(g: Geometry<V, P>, plane: P, polys: seq<Poly<V, P>>)
    ensures |Route(g, plane, polys).Front| + |Route(g, plane, polys).Back| == |polys| + Route(g, plane, polys).Splits
    decreases |polys|
  {
    if polys != [] {
      RouteCount(g, plane, polys[..|polys| - 1]);
    }
  }

  /** Every routed polygon, piece or whole, has a vertex when every input
      polygon has one. */
  lemma {:induction false} RouteHasVertices<V, P>(g: Geometry<V, P>, plane: P, polys: seq<Poly<V, P>>)
    requires HasVertices(polys)
    ensures HasVertices(Route(g, plane, polys).Front) && HasVertices(Route(g, plane, polys).Back)
    decreases |polys|
  {
    if polys != [] {
      var init := polys[..|polys| - 1];
      var p := polys[|polys| - 1];
      assert forall i | 0 <= i < |init| :: init[i] == polys[i];
      RouteHasVertices(g, plane, init);
      if Classify(g.Side, plane, p.Vertices) == Spanning {
        PiecesNotEmpty(g, plane, p);
      }
    }
  }

  /** Routing keeps every polygon's material, pieces included. */
  lemma {:induction false} RouteMaterials<V, P>(g: Geometry<V, P>, plane: P, polys: seq<Poly<V, P>>, m: nat)
    requires MaterialsBelow(polys, m)
    ensures MaterialsBelow(Route(g, plane, polys).Front, m) && MaterialsBelow(Route(g, plane, polys).Back, m)
    decreases |polys|
  {
    if polys != [] {
      var init := polys[..|polys| - 1];
      assert forall i | 0 <= i < |init| :: init[i] == polys[i];
      RouteMaterials(g, plane, init, m);
    }
  }

  /** A polygon of each class reaches the children: one in front fills the
      front child, one behind fills the back child, a spanning one both. */
  lemma {:induction false} RouteFills<V, P>(g: Geometry<V, P>, plane: P, polys: seq<Poly<V, P>>, j: nat)
    requires j < |polys|
    ensures Classify(g.Side, plane, polys[j].Vertices) in {Front, Spanning} ==> Route(g, plane, polys).Front != []
    ensures Classify(g.Side, plane, polys[j].Vertices) in {Back, Spanning} ==> Route(g, plane, polys).Back != []
    decreases |polys|
  {
    var init := polys[..|polys| - 1];
    var r := Route(g, plane, polys);
    var ri := Route(g, plane, init);
    assert |r.Front| >= |ri.Front| && |r.Back| >= |ri.Back|;
    if j < |init| {
      RouteFills(g, plane, init, j);
      assert init[j] == polys[j];
    }
  }
}
