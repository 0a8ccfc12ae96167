// The entries of the scene manager's lists (CSceneManager.h): the mesh
// cache entry ordered by name, the default-pass entry keyed by the identity
// of its first texture, and the transparent-pass entry keyed by its distance
// from the camera.  Both pass keys are computed once, when the entry is made.
//
// Positions are integer vectors and the distance key is the squared
// Euclidean distance: the square root the source takes is monotone, so the
// two keys order the entries alike.
module SceneManagerEntries {
  import opened Common
  import opened SceneMaterial

  /** A node position. The engine uses f32 vectors; here the coordinates
      are integers, so distances are exact. */
  datatype Vec3 = Vec3(X: int, Y: int, Z: int)

  const Origin := Vec3(0, 0, 0)

  /** A scene node as the manager sees it: its identity, the materials
      getMaterial returns below getMaterialCount, and its absolute
      position. */
  datatype SceneNode = SceneNode(Id: int, Materials: seq<Material>, Position: Vec3)

  /** A loaded mesh: the loader that made it and the object's identity. */
  datatype LoaderKind = Md2 | Obj | Ms3d | Bsp
  datatype MeshRef = MeshRef(Loader: LoaderKind, Id: int)

  datatype MeshEntry = MeshEntry(Name: string, Mesh: MeshRef)
  datatype DefaultNodeEntry = DefaultNodeEntry(Node: SceneNode, TextureValue: int)
  datatype TransparentNodeEntry = TransparentNodeEntry(Node: SceneNode, Distance: int)

  /** The name order of core::stringc, taken as the lexicographic order of
      the characters. */
  predicate NameLess(a: string, b: string)
    decreases |a|
  {
    if b == [] then false
    else if a == [] then true
    else if a[0] != b[0] then a[0] < b[0]
    else NameLess(a[1..], b[1..])
  }

  /** MeshEntry::operator< compares the names only. */
  predicate MeshEntryLess(a: MeshEntry, b: MeshEntry)
  {
    NameLess(a.Name, b.Name)
  }

  /** The name order is a strict order ... */
  lemma {:induction false} NameLessIrreflexive(a: string)
    ensures !NameLess(a, a)
    decreases |a|
  {
    if a != [] {
      NameLessIrreflexive(a[1..]);
    }
  }

  lemma {:induction false} NameLessTransitive(a: string, b: string, c: string)
    requires NameLess(a, b) && NameLess(b, c)
    ensures NameLess(a, c)
    decreases |a|
  {
    if a != [] && a[0] == b[0] && b[0] == c[0] {
      NameLessTransitive(a[1..], b[1..], c[1..]);
    }
  }

  /** ... under which two different names are never equivalent. */
  lemma {:induction false} NameLessTotal(a: string, b: string)
    requires a != b
    ensures NameLess(a, b) || NameLess(b, a)
    decreases |a|
  {
    if a != [] && b != [] && a[0] == b[0] {
      assert a == [a[0]] + a[1..] && b == [b[0]] + b[1..];
      NameLessTotal(a[1..], b[1..]);
    }
  }

  /** Two mesh entries are equivalent under operator< exactly when their
      names are equal, whatever meshes they hold, so a search by operator<
      is a search by name. */
  lemma MeshEntriesEquivalent(a: MeshEntry, b: MeshEntry)
    ensures !MeshEntryLess(a, b) && !MeshEntryLess(b, a) <==> a.Name == b.Name
  {
    if a.Name == b.Name {
      NameLessIrreflexive(a.Name);
    } else {
      NameLessTotal(a.Name, b.Name);
    }
  }

  /** The key of DefaultNodeEntry: the identity of the first material's
      first texture cast to s32, or 0 for a node without materials. */
  function TextureKey(n: SceneNode): (k: int)
    ensures IsS32(k)
    ensures n.Materials == [] ==> k == 0
    ensures n.Materials != [] && IsS32(n.Materials[0].Texture1) ==> k == n.Materials[0].Texture1
    ensures n.Materials != [] ==> (k - n.Materials[0].Texture1) % Word == 0
  {
    if n.Materials == [] then 0 else S32(n.Materials[0].Texture1)
  }

  function MakeDefaultEntry(n: SceneNode): (e: DefaultNodeEntry)
    ensures e.Node == n
  {
    DefaultNodeEntry(n, TextureKey(n))
  }

  /** Nodes whose first materials share their first texture get the same
      key, so sorting by the key brings them together. */
  lemma SameTextureSameKey(n: SceneNode, m: SceneNode)
    requires n.Materials != [] && m.Materials != []
    requires n.Materials[0].Texture1 == m.Materials[0].Texture1
    ensures MakeDefaultEntry(n).TextureValue == MakeDefaultEntry(m).TextureValue
  {
  }

  /** The squared distance between two positions. */
  function DistanceSquared(p: Vec3, q: Vec3): (d: int)
    ensures d >= 0
    ensures d == 0 <==> p == q
  {
    var dx, dy, dz := p.X - q.X, p.Y - q.Y, p.Z - q.Z;
    SquareIsZero(dx);
    SquareIsZero(dy);
    SquareIsZero(dz);
    dx * dx + dy * dy + dz * dz
  }

  lemma SquareIsZero(x: int)
    ensures x * x >= 0
    ensures x * x == 0 <==> x == 0
  {
  }

  /** The transparent entry measures the node's distance from the camera
      position of the frame. */
  function MakeTransparentEntry(n: SceneNode, camera: Vec3): (e: TransparentNodeEntry)
    ensures e.Node == n && e.Distance >= 0
    ensures e.Distance == 0 <==> n.Position == camera
  {
    TransparentNodeEntry(n, DistanceSquared(n.Position, camera))
  }

  function DefaultKey(e: DefaultNodeEntry): int
  {
    e.TextureValue
  }

  function TransparentKey(e: TransparentNodeEntry): int
  {
    e.Distance
  }

  predicate SortedBy<T>(s: seq<T>, key: T -> int)
  {
    forall i, j | 0 <= i < j < |s| :: key(s[i]) <= key(s[j])
  }

  /** Inserts x before the first element with a greater key. */
  function Insert<T>(s: seq<T>, x: T, key: T -> int): (r: seq<T>)
    requires SortedBy(s, key)
    ensures multiset(r) == multiset(s) + multiset{x}
    ensures SortedBy(r, key)
  {
    if s == [] then [x]
    else if key(x) < key(s[0]) then
      SortedCons(x, s, key);
      [x] + s
    else
      var rest := Insert(s[1..], x, key);
      assert s == [s[0]] + s[1..];
      HeadBelow(s[0], x, s[1..], rest, key);
      SortedCons(s[0], rest, key);
      [s[0]] + rest
  }

  lemma SortedCons<T>(h: T, t: seq<T>, key: T -> int)
    requires SortedBy(t, key) && (t != [] ==> key(h) <= key(t[0]))
    ensures SortedBy([h] + t, key)
  {
  }

  /** An element with a key at most those of x and of s stays at most every
      key of a rearrangement of s and x. */
  lemma HeadBelow<T>(h: T, x: T, s: seq<T>, rest: seq<T>, key: T -> int)
    requires multiset(rest) == multiset(s) + multiset{x}
    requires key(h) <= key(x) && forall i | 0 <= i < |s| :: key(h) <= key(s[i])
    ensures forall i | 0 <= i < |rest| :: key(h) <= key(rest[i])
  {
    forall i | 0 <= i < |rest|
      ensures key(h) <= key(rest[i])
    {
      assert rest[i] in multiset(rest);
      if rest[i] != x {
        assert rest[i] in multiset(s);
        var k :| 0 <= k < |s| && s[k] == rest[i];
      }
    }
  }

  /** The pass lists are sorted with their entries' operator<; the order the
      engine's array sort gives equal keys is not part of this model, so
      the sort is stated only as a sorted permutation. */
  function SortByKey<T>(s: seq<T>, key: T -> int): (r: seq<T>)
    ensures multiset(r) == multiset(s)
    ensures SortedBy(r, key)
  {
    if s == [] then []
    else
      assert s == s[..|s| - 1] + [s[|s| - 1]];
      Insert(SortByKey(s[..|s| - 1], key), s[|s| - 1], key)
  }
}
