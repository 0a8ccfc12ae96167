// The software driver's texture (CSoftwareTexture): the surface it was made
// from, and the surface the rasteriser samples, whose sides are powers of
// two.  A surface whose sides already are powers of two is shared; any
// other is copied, scaled, into a new padded surface.
//
// The scaled copy (ISurface::copyToScaling) is floating-point resampling
// and is not modelled: its result is a parameter.  The grab/drop reference
// counting of surfaces is not modelled either.
module SoftwareTexture {
  import opened Common
  import Surface

  function Pow2(k: nat): (p: int)
    ensures p >= 1
  {
    if k == 0 then 1 else 2 * Pow2(k - 1)
  }

  /** 2^30, the largest size the doubling loop reaches without overflowing
      an s32. */
  const MaxPaddedSize := Pow2(30)

  /** What doubling `ts` until it reaches `size` ends with. */
  function PaddedFrom(ts: int, size: int): (r: int)
    requires 1 <= ts
    decreases size - ts
  {
    if ts < size then PaddedFrom(2 * ts, size) else ts
  }

  /** getTextureSizeFromSurfaceSize, as a value: doubling from 1. */
  function PaddedSize(size: int): int
  {
    PaddedFrom(1, size)
  }

  /** The doubling keeps a power of two, ends at or above the size, and
      never overshoots by a factor of two or more. */
  lemma {:induction false} PaddedFromBounds(k: nat, size: int)
    requires Pow2(k) == 1 || Pow2(k) / 2 < size
    decreases size - Pow2(k)
    ensures exists j: nat :: PaddedFrom(Pow2(k), size) == Pow2(j) && Pow2(j) >= size &&
                             (j == 0 || Pow2(j - 1) < size)
  {
    if Pow2(k) < size {
      assert Pow2(k + 1) == 2 * Pow2(k);
      PaddedFromBounds(k + 1, size);
    } else {
      assert k == 0 || Pow2(k - 1) < size by {
        if k > 0 {
          assert Pow2(k) == 2 * Pow2(k - 1);
        }
      }
    }
  }

  lemma {:induction false} Pow2Monotone(i: nat, j: nat)
    requires i <= j
    ensures Pow2(i) <= Pow2(j)
  {
    if i < j {
      Pow2Monotone(i, j - 1);
    }
  }

  /** getTextureSizeFromSurfaceSize gives the smallest power of two that is
      at least the size: 1 for a size of at most 1, the size itself for a
      power of two, and no power of two in between. */
  lemma PaddedSizeIsCeiling(size: int)
    ensures exists j: nat :: PaddedSize(size) == Pow2(j)
    ensures PaddedSize(size) >= size && PaddedSize(size) >= 1
    ensures forall j: nat :: Pow2(j) >= size ==> Pow2(j) >= PaddedSize(size)
  {
    PaddedFromBounds(0, size);
    var j: nat :| PaddedSize(size) == Pow2(j) && Pow2(j) >= size && (j == 0 || Pow2(j - 1) < size);
    forall i: nat | Pow2(i) >= size
      ensures Pow2(i) >= PaddedSize(size)
    {
      if i < j {
        Pow2Monotone(i, j - 1);
      } else {
        Pow2Monotone(j, i);
      }
    }
  }

  /** A surface whose side is a power of two keeps that side. */
  lemma PaddedSizeOfPower(k: nat)
    ensures PaddedSize(Pow2(k)) == Pow2(k)
  {
    PaddedSizeIsCeiling(Pow2(k));
  }

  /** getTextureSizeFromSurfaceSize: the doubling loop on an s32.  A size
      above 2^30 would make the doubling overflow, so the caller keeps
      below it. */
  method TextureSizeFromSurfaceSize(size: int) returns (ts: int)
    requires size <= MaxPaddedSize
    ensures ts == PaddedSize(size) && 1 <= ts <= MaxPaddedSize
  {
    ts := 1;
    ghost var k: nat := 0;
    while ts < size
      invariant ts == Pow2(k) && ts <= MaxPaddedSize
      invariant PaddedFrom(ts, size) == PaddedSize(size)
      decreases size - ts
    {
      DoublingFits(k);
      ts, k := 2 * ts, k + 1;
    }
  }

  /** A power of two below 2^30 can be doubled without passing 2^30. */
  lemma DoublingFits(k: nat)
    requires Pow2(k) < MaxPaddedSize
    ensures 2 * Pow2(k) <= MaxPaddedSize
  {
    if k >= 30 {
      Pow2Monotone(30, k);
    } else {
      Pow2Monotone(k + 1, 30);
    }
  }

  class Texture {
    /** The surface the texture was made from, and the one it samples. */
    const Source: Surface.Surface?
    const Target: Surface.Surface?

    ghost predicate Valid()
      reads this, Source, Target
    {
      (Source == null <==> Target == null) &&
      (Source != null ==>
        Source.Valid() && Target.Valid() &&
        Source.Width <= MaxPaddedSize && Source.Height <= MaxPaddedSize &&
        Target.Width == PaddedSize(Source.Width) && Target.Height == PaddedSize(Source.Height) &&
        (Target == Source <==> Target.Width == Source.Width && Target.Height == Source.Height) &&
        (Target != Source ==> Target.Data != Source.Data))
    }

    /** The constructor: a null surface gives a texture with no surfaces;
        otherwise the surface is shared when both padded sides equal its
        own, and else a new padded surface receives the scaled copy. */
    constructor (surface: Surface.Surface?, scaled: seq<bv16>)
      requires surface != null ==> surface.Valid() && surface.Width <= MaxPaddedSize && surface.Height <= MaxPaddedSize
      requires surface != null ==> |scaled| == PaddedSize(surface.Width) * PaddedSize(surface.Height)
      ensures Valid() && Source == surface
      ensures surface != null && Target != surface ==> fresh(Target) && Target.Data[..] == scaled
    {
      Source := surface;
      if surface == null {
        Target := null;
      } else {
        var width := TextureSizeFromSurfaceSize(surface.Width);
        var height := TextureSizeFromSurfaceSize(surface.Height);
        if width != surface.Width || height != surface.Height {
          var t := new Surface.Surface(width, height);
          Load(t, scaled);
          Target := t;
        } else {
          Target := surface;
        }
      }
    }

    /** unlock: the scaled copy is made again only when the texture does not
        share its source. */
    method Unlock(scaled: seq<bv16>)
      requires Valid() && Source != null && |scaled| == Target.Data.Length
      modifies Target.Data
      ensures Target != Source ==> Target.Data[..] == scaled
      ensures Target == Source ==> Target.Data[..] == old(Target.Data[..])
    {
      if Source != Target {
        Load(Target, scaled);
      }
    }

    /** getDimension: the size of the original surface, not the padded one. */
    function GetDimension(): (d: (int, int))
      requires Valid() && Source != null
      reads this, Source, Target
      ensures d.0 <= Target.Width && d.1 <= Target.Height
      ensures d.0 == Target.Width && d.1 == Target.Height <==> Target == Source
    {
      PaddedSizeIsCeiling(Source.Width);
      PaddedSizeIsCeiling(Source.Height);
      (Source.Width, Source.Height)
    }

    /** getPitch: the bytes of one row of the original surface, two per pixel. */
    function GetPitch(): (p: int)
      requires Valid() && Source != null
      reads this, Source, Target
      ensures p == 2 * GetDimension().0
    {
      Source.Width * 2
    }
  }

  /** Writes `pixels` over the whole of a surface's buffer. */
  method Load(s: Surface.Surface, pixels: seq<bv16>)
    requires |pixels| == s.Data.Length
    modifies s.Data
    ensures s.Data[..] == pixels
  {
    var i := 0;
    while i < s.Data.Length
      invariant 0 <= i <= s.Data.Length
      invariant s.Data[..i] == pixels[..i]
    {
      s.Data[i] := pixels[i];
      i := i + 1;
    }
  }
}
