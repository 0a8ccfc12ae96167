// The base video driver (CVideoNull): the per-frame primitive counter and
// the texture cache, a list of (lower-cased file name, texture) entries.
//
// Textures are reference counted objects (IUnknown's grab/drop); the model
// keeps the counter and leaves out the deletion that a drop to zero causes.
// Opening and decoding a file is outside the model: getTexture receives
// what loading would produce.
module VideoNull {
  import opened Common

  /** A texture with the reference counter every engine object carries. */
  class Texture {
    var ReferenceCounter: int

    constructor ()
      ensures ReferenceCounter == 1
    {
      ReferenceCounter := 1;
    }

    method Grab()
      modifies this
      ensures ReferenceCounter == old(ReferenceCounter) + 1
    {
      ReferenceCounter := ReferenceCounter + 1;
    }

    method Drop()
      modifies this
      ensures ReferenceCounter == old(ReferenceCounter) - 1
    {
      ReferenceCounter := ReferenceCounter - 1;
    }
  }

  /** SSurface: one cache entry. */
  datatype SurfaceEntry = SurfaceEntry(Filename: string, Surface: Texture)

  /** The name a null file name pointer stands for. */
  function NameOf(filename: Option<string>): string
  {
    if filename.Some? then filename.value else ""
  }

  /** No entry before index i has this name. */
  ghost predicate FirstWith(entries: seq<SurfaceEntry>, name: string, i: int)
    requires 0 <= i <= |entries|
  {
    forall j :: 0 <= j < i ==> entries[j].Filename != name
  }

  /** The entry lookup findTexture performs: the first entry with this name. */
  function Lookup(entries: seq<SurfaceEntry>, name: string): (r: Option<Texture>)
    ensures r.Some? <==> exists i :: 0 <= i < |entries| && entries[i].Filename == name
    ensures r.Some? ==> exists i :: 0 <= i < |entries| && entries[i].Filename == name &&
                                    entries[i].Surface == r.value && FirstWith(entries, name, i)
  {
    if |entries| == 0 then None
    else if entries[0].Filename == name then Some(entries[0].Surface)
    else
      var r := Lookup(entries[1..], name);
      assert forall i :: 1 <= i < |entries| ==> entries[i] == entries[1..][i - 1];
      r
  }

  /** Appending an entry does not change what was already found. */
  lemma {:induction false} LookupAfterAppend(entries: seq<SurfaceEntry>, e: SurfaceEntry, name: string)
    ensures Lookup(entries + [e], name) ==
      if Lookup(entries, name).Some? then Lookup(entries, name)
      else if e.Filename == name then Some(e.Surface) else None
  {
    if |entries| > 0 {
      assert (entries + [e])[1..] == entries[1..] + [e];
      LookupAfterAppend(entries[1..], e, name);
    }
  }

  /** Number of cache entries holding t. */
  function Count(entries: seq<SurfaceEntry>, t: Texture): (n: nat)
    ensures n <= |entries|
  {
    if |entries| == 0 then 0
    else Count(entries[..|entries| - 1], t) + (if entries[|entries| - 1].Surface == t then 1 else 0)
  }

  /** The counter after drawing triangle lists of the given sizes: u32 += s32. */
  function Counted(start: int, triangleCounts: seq<int>): (n: int)
    ensures IsU32(n)
  {
    if |triangleCounts| == 0 then U32(start)
    else U32(Counted(start, triangleCounts[..|triangleCounts| - 1]) + triangleCounts[|triangleCounts| - 1])
  }

  function Sum(xs: seq<int>): int
  {
    if |xs| == 0 then 0 else Sum(xs[..|xs| - 1]) + xs[|xs| - 1]
  }

  /** After beginScene, the counter is the total of the triangle counts drawn,
      modulo 2^32. */
  lemma {:induction false} CountedIsSum(triangleCounts: seq<int>)
    ensures Counted(0, triangleCounts) == U32(Sum(triangleCounts))
  {
    if |triangleCounts| > 0 {
      var init := triangleCounts[..|triangleCounts| - 1];
      var last := triangleCounts[|triangleCounts| - 1];
      CountedIsSum(init);
      ModAdd(Sum(init), last);
    }
  }

  lemma ModAdd(x: int, y: int)
    ensures U32(U32(x) + y) == U32(x + y)
  {
    var k := x / Word;
    assert x == Word * k + U32(x);
    assert x + y == Word * k + (U32(x) + y);
    var z := U32(x) + y;
    assert z == Word * (z / Word) + z % Word;
    assert x + y == Word * (k + z / Word) + z % Word;
  }

  class Driver {
    var PrimitivesDrawn: int
    var Textures: seq<SurfaceEntry>

    ghost function Surfaces(): set<Texture>
      reads this
    {
      set i | 0 <= i < |Textures| :: Textures[i].Surface
    }

    ghost predicate Valid()
      reads this
    {
      IsU32(PrimitivesDrawn)
    }

    constructor ()
      ensures Valid() && PrimitivesDrawn == 0 && Textures == []
    {
      PrimitivesDrawn := 0;
      Textures := [];
    }

    /** beginScene: the counter starts again from zero. */
    method BeginScene() returns (ok: bool)
      modifies this
      ensures Valid() && ok
      ensures PrimitivesDrawn == 0 && Textures == old(Textures)
    {
      PrimitivesDrawn := 0;
      return true;
    }

    /** drawIndexedTriangleList: only counts. */
    method DrawIndexedTriangleList(triangleCount: int)
      requires Valid() && IsS32(triangleCount)
      modifies this
      ensures Valid()
      ensures PrimitivesDrawn == Counted(old(PrimitivesDrawn), [triangleCount])
      ensures Textures == old(Textures)
    {
      PrimitivesDrawn := U32(PrimitivesDrawn + triangleCount);
    }

    function GetPrimitiveCountDrawed(): (n: int)
      requires Valid()
      reads this
      ensures IsU32(n) && n == PrimitivesDrawn
    {
      PrimitivesDrawn
    }

    /** addTexture(texture, filename): a null texture is ignored; otherwise it
        is appended under its lower-cased name and grabbed once. */
    method AddTexture(texture: Texture?, filename: Option<string>)
      modifies this, texture
      ensures PrimitivesDrawn == old(PrimitivesDrawn)
      ensures texture == null ==> Textures == old(Textures)
      ensures texture != null ==>
        Textures == old(Textures) + [SurfaceEntry(Lower(NameOf(filename)), texture)] &&
        texture.ReferenceCounter == old(texture.ReferenceCounter) + 1
    {
      if texture != null {
        var name := Lower(NameOf(filename));
        texture.Grab();
        Textures := Textures + [SurfaceEntry(name, texture)];
      }
    }

    /** findTexture: the cached texture under the lower-cased name, if any. */
    function FindTexture(filename: Option<string>): (r: Option<Texture>)
      reads this
      ensures r.Some? <==> exists i :: 0 <= i < |Textures| && Textures[i].Filename == Lower(NameOf(filename))
      ensures r.Some? ==> r.value in Surfaces()
    {
      Lookup(Textures, Lower(NameOf(filename)))
    }

    /** getTexture(filename): a cached texture is returned as it is; otherwise
        `loaded` (what opening and decoding the file gives, null on failure)
        is cached under the name, and the cache's grab replaces the loader's. */
    method GetTexture(filename: Option<string>, loaded: Texture?) returns (texture: Texture?)
      modifies this, loaded
      ensures PrimitivesDrawn == old(PrimitivesDrawn)
      ensures old(FindTexture(filename)).Some? ==>
        texture == old(FindTexture(filename)).value && Textures == old(Textures) &&
        (loaded != null ==> loaded.ReferenceCounter == old(loaded.ReferenceCounter))
      ensures old(FindTexture(filename)).None? ==>
        texture == loaded &&
        (loaded == null ==> Textures == old(Textures)) &&
        (loaded != null ==>
          Textures == old(Textures) + [SurfaceEntry(Lower(NameOf(filename)), loaded)] &&
          loaded.ReferenceCounter == old(loaded.ReferenceCounter))
    {
      var found := FindTexture(filename);
      if found.Some? {
        return found.value;
      }
      texture := loaded;
      if texture != null {
        AddTexture(texture, filename);
        texture.Drop();
      }
    }

    /** deleteAllTextures: every entry drops its texture once, then the list
        is emptied. */
    method DeleteAllTextures()
      modifies this, Surfaces()
      ensures Textures == [] && PrimitivesDrawn == old(PrimitivesDrawn)
      ensures forall t :: t in old(Surfaces()) ==>
        t.ReferenceCounter == old(t.ReferenceCounter) - Count(old(Textures), t)
    {
      var i := 0;
      while i < |Textures|
        invariant 0 <= i <= |Textures|
        invariant Textures == old(Textures) && PrimitivesDrawn == old(PrimitivesDrawn)
        invariant forall t :: t in old(Surfaces()) ==>
          t.ReferenceCounter == old(t.ReferenceCounter) - Count(Textures[..i], t)
      {
        assert Textures[..i + 1][..i] == Textures[..i];
        Textures[i].Surface.Drop();
        i := i + 1;
      }
      assert Textures[..i] == Textures;
      Textures := [];
    }
  }

  /** A texture found after getTexture is the one findTexture then returns:
      looking the same name up again hits the cache. */
  lemma GetTextureCaches(entries: seq<SurfaceEntry>, name: string, loaded: Texture)
    requires Lookup(entries, name).None?
    ensures Lookup(entries + [SurfaceEntry(name, loaded)], name) == Some(loaded)
  {
    LookupAfterAppend(entries, SurfaceEntry(name, loaded), name);
  }
}
