// The software driver (CVideoSoftware): the choice of triangle renderer
// from the render states, texture and material changes, the render target
// and the viewport arithmetic.  It derives from the null driver, whose
// counter and texture cache it reaches through `Base`.
//
// The rasterisers themselves (vertex transformation and span filling) are
// not modelled; a renderer is represented by its kind and by the state the
// driver hands to it (back-face culling, the texture it draws from, the
// render target and the viewport).
module VideoSoftware {
  import opened Common
  import Color
  import VideoNull
  import Surface

  /** ETriangleRenderer, in declaration order. */
  datatype Renderer =
    | Flat | FlatWire | Gouraud | GouraudWire
    | TextureFlat | TextureFlatWire | TextureGouraud | TextureGouraudWire

  predicate IsTextured(r: Renderer)
  {
    r.TextureFlat? || r.TextureFlatWire? || r.TextureGouraud? || r.TextureGouraudWire?
  }

  predicate IsGouraud(r: Renderer)
  {
    r.Gouraud? || r.GouraudWire? || r.TextureGouraud? || r.TextureGouraudWire?
  }

  predicate IsWire(r: Renderer)
  {
    r.FlatWire? || r.GouraudWire? || r.TextureFlatWire? || r.TextureGouraudWire?
  }

  /** selectRightTriangleRenderer's decision table: the renderer is textured,
      Gouraud-shaded and wire-framed exactly when asked to be. */
  function SelectRenderer(hasTexture: bool, gouraud: bool, wireframe: bool): (r: Renderer)
    ensures IsTextured(r) == hasTexture && IsGouraud(r) == gouraud && IsWire(r) == wireframe
  {
    if hasTexture then
      if !gouraud then (if !wireframe then TextureFlat else TextureFlatWire)
      else (if !wireframe then TextureGouraud else TextureGouraudWire)
    else
      if !gouraud then (if !wireframe then Flat else FlatWire)
      else (if !wireframe then Gouraud else GouraudWire)
  }

  /** Every renderer is chosen for exactly one combination of states: the
      three properties of a renderer select it back. */
  lemma SelectRendererIsOnto(r: Renderer)
    ensures SelectRenderer(IsTextured(r), IsGouraud(r), IsWire(r)) == r
  {
    match r
    case Flat =>
    case FlatWire =>
    case Gouraud =>
    case GouraudWire =>
    case TextureFlat =>
    case TextureFlatWire =>
    case TextureGouraud =>
    case TextureGouraudWire =>
  }

  /** The part of SMaterial the driver reads. */
  datatype Material = Material(Texture1: VideoNull.Texture?, GouraudShading: bool, Wireframe: bool, BackfaceCulling: bool)

  /** C's `/ 2` on an s32: the quotient truncated towards zero. */
  function Half(x: int): (h: int)
    ensures x >= 0 ==> 0 <= x - 2 * h <= 1
    ensures x < 0 ==> 0 <= 2 * h - x <= 1
  {
    if x >= 0 then x / 2 else -((-x) / 2)
  }

  /** The point the 2D drawing is centred on for a viewport: half the width
      right of the left edge, and the bottom edge moved up by half the height. */
  function Translation(viewPort: Rect): Surface.Point
  {
    var w, h := viewPort.Right - viewPort.Left, viewPort.Bottom - viewPort.Top;
    Surface.Point(Half(w) + viewPort.Left, viewPort.Top + h - Half(h))
  }

  /** For a viewport that is not inverted the translation is its centre,
      rounded up and left: Left + ⌊w / 2⌋ and Top + ⌈h / 2⌉. */
  lemma TranslationIsCentre(viewPort: Rect)
    requires viewPort.Left <= viewPort.Right && viewPort.Top <= viewPort.Bottom
    ensures var w, h := viewPort.Right - viewPort.Left, viewPort.Bottom - viewPort.Top;
            var t := Translation(viewPort);
            t.X == viewPort.Left + w / 2 && t.Y == viewPort.Top + (h + 1) / 2 &&
            InRect(viewPort, t.X, t.Y - 1) == (w > 0 && h > 0)
  {
  }

  class Driver {
    /** The null driver this one extends. */
    const Base: VideoNull.Driver
    const BackBuffer: Surface.Surface
    var Texture: VideoNull.Texture?
    var Material: Material
    /** CurrentTriangleRenderer (None while null), and what it was given. */
    var CurrentRenderer: Option<Renderer>
    var RendererBackfaceCulling: bool
    /** The texture whose surface the renderer was given (its surface is
        null exactly when this is). */
    var RendererTexture: VideoNull.Texture?
    var RendererTarget: Surface.Surface?
    var RendererViewPort: Rect
    var RenderTargetSurface: Surface.Surface?
    var RenderTargetWidth: int
    var RenderTargetHeight: int
    var ViewPort: Rect
    var ViewPortWidth: int
    var ViewPortHeight: int
    var Render2DTranslation: Surface.Point
    /** The z-buffer's dimension, None when there is none. */
    var ZBufferSize: Option<(int, int)>
    var TransformedPointsCount: int

    /** The render target's size is the surface's, or 0 × 0 without one; the
        viewport lies inside it, and its size and translation follow it. */
    ghost predicate Valid()
      reads this
    {
      (RenderTargetSurface == null ==> RenderTargetWidth == 0 && RenderTargetHeight == 0) &&
      (RenderTargetSurface != null ==>
        RenderTargetWidth == RenderTargetSurface.Width && RenderTargetHeight == RenderTargetSurface.Height) &&
      ViewPortWidth == ViewPort.Right - ViewPort.Left && ViewPortHeight == ViewPort.Bottom - ViewPort.Top &&
      Render2DTranslation == Translation(ViewPort) &&
      (CurrentRenderer.Some? ==> RendererViewPort == ViewPort && RendererTarget == RenderTargetSurface)
    }

    /** The constructor: a cleared back buffer of the window's size, a
        z-buffer, the back buffer as render target, and the renderer chosen
        for the default material. */
    constructor (width: int, height: int, material: Material)
      requires 0 <= width && 0 <= height && material.Texture1 == null
      ensures Valid() && Base.Valid() && BackBuffer.Valid() && fresh(Base) && fresh(BackBuffer)
      ensures BackBuffer.Width == width && BackBuffer.Height == height
      ensures forall k :: 0 <= k < BackBuffer.Data.Length - BackBuffer.Data.Length % 2 ==> BackBuffer.Data[k] == 0
      ensures RenderTargetSurface == BackBuffer && ViewPort == Rect(0, 0, width, height)
      ensures ZBufferSize == Some((width, height)) && Texture == null && TransformedPointsCount == 0
      ensures CurrentRenderer == Some(SelectRenderer(false, material.GouraudShading, material.Wireframe))
    {
      Base := new VideoNull.Driver();
      var back := new Surface.Surface(width, height);
      back.Fill(0);
      BackBuffer := back;
      Texture := null;
      Material := material;
      CurrentRenderer := None;
      RendererBackfaceCulling := false;
      RendererTarget := null;
      RendererViewPort := Rect(0, 0, 0, 0);
      RenderTargetSurface := null;
      RenderTargetWidth, RenderTargetHeight := 0, 0;
      ViewPort := Rect(0, 0, 0, 0);
      ViewPortWidth, ViewPortHeight := 0, 0;
      Render2DTranslation := Translation(Rect(0, 0, 0, 0));
      ZBufferSize := Some((width, height));
      TransformedPointsCount := 0;
      new;
      SetRenderTarget(back);
      SelectRightTriangleRenderer();
    }

    /** selectRightTriangleRenderer, with switchToTriangleRenderer: the
        renderer for the current texture and material, given the material's
        culling flag, the current texture, the render target and the viewport. */
    method SelectRightTriangleRenderer()
      requires Valid()
      modifies this
      ensures Valid()
      ensures CurrentRenderer == Some(SelectRenderer(Texture != null, Material.GouraudShading, Material.Wireframe))
      ensures RendererBackfaceCulling == Material.BackfaceCulling && RendererTexture == Texture
      ensures Texture == old(Texture) && Material == old(Material)
      ensures RenderTargetSurface == old(RenderTargetSurface) && ViewPort == old(ViewPort)
      ensures ZBufferSize == old(ZBufferSize) && TransformedPointsCount == old(TransformedPointsCount)
    {
      var renderer := SelectRenderer(Texture != null, Material.GouraudShading, Material.Wireframe);
      CurrentRenderer := Some(renderer);
      RendererBackfaceCulling := Material.BackfaceCulling;
      RendererTexture := Texture;
      RendererTarget := RenderTargetSurface;
      RendererViewPort := ViewPort;
    }

    /** setTexture: the old texture is dropped, the new one grabbed, and the
        renderer chosen again. */
    method SetTexture(texture: VideoNull.Texture?)
      requires Valid()
      modifies this, Texture, texture
      ensures Valid() && Texture == texture && Material == old(Material)
      ensures var previous := old(Texture);
        previous != null && previous != texture ==> previous.ReferenceCounter == old(previous.ReferenceCounter) - 1
      ensures texture != null && old(Texture) != texture ==>
        texture.ReferenceCounter == old(texture.ReferenceCounter) + 1
      ensures texture != null && old(Texture) == texture ==>
        texture.ReferenceCounter == old(texture.ReferenceCounter)
      ensures CurrentRenderer == Some(SelectRenderer(texture != null, Material.GouraudShading, Material.Wireframe))
      ensures RendererBackfaceCulling == Material.BackfaceCulling && RendererTexture == texture
      ensures RenderTargetSurface == old(RenderTargetSurface) && ViewPort == old(ViewPort)
      ensures ZBufferSize == old(ZBufferSize) && TransformedPointsCount == old(TransformedPointsCount)
    {
      if Texture != null {
        Texture.Drop();
      }
      Texture := texture;
      if Texture != null {
        Texture.Grab();
      }
      SelectRightTriangleRenderer();
    }

    /** setMaterial: the material is stored and its first texture set. */
    method SetMaterial(material: Material)
      requires Valid()
      modifies this, Texture, material.Texture1
      ensures Valid() && Material == material && Texture == material.Texture1
      ensures CurrentRenderer == Some(SelectRenderer(material.Texture1 != null, material.GouraudShading, material.Wireframe))
      ensures RendererBackfaceCulling == material.BackfaceCulling && RendererTexture == material.Texture1
      ensures RenderTargetSurface == old(RenderTargetSurface) && ViewPort == old(ViewPort)
      ensures ZBufferSize == old(ZBufferSize) && TransformedPointsCount == old(TransformedPointsCount)
    {
      Material := material;
      SetTexture(material.Texture1);
    }

    /** setViewPort: the area clipped against the render target; the size
        and the 2D translation follow the clipped viewport. */
    method SetViewPort(area: Rect)
      requires Valid()
      modifies this`ViewPort, this`ViewPortWidth, this`ViewPortHeight, this`Render2DTranslation
      modifies this`RendererTarget, this`RendererViewPort
      ensures Valid()
      ensures ViewPort == Intersect(area, Rect(0, 0, RenderTargetWidth, RenderTargetHeight))
      ensures ViewPortWidth == ViewPort.Right - ViewPort.Left && ViewPortHeight == ViewPort.Bottom - ViewPort.Top
      ensures Render2DTranslation == Translation(ViewPort)
    {
      ViewPort := Intersect(area, Rect(0, 0, RenderTargetWidth, RenderTargetHeight));
      ViewPortWidth := ViewPort.Right - ViewPort.Left;
      ViewPortHeight := ViewPort.Bottom - ViewPort.Top;
      Render2DTranslation := Translation(ViewPort);
      if CurrentRenderer.Some? {
        RendererTarget := RenderTargetSurface;
        RendererViewPort := ViewPort;
      }
    }

    /** setRenderTarget(surface): the target's size is the surface's, or
        0 × 0 for null; the viewport becomes the whole target and the
        z-buffer takes the target's size. */
    method SetRenderTarget(surface: Surface.Surface?)
      requires Valid() && (surface != null ==> surface.Valid())
      modifies this`RenderTargetSurface, this`RenderTargetWidth, this`RenderTargetHeight, this`ZBufferSize
      modifies this`ViewPort, this`ViewPortWidth, this`ViewPortHeight, this`Render2DTranslation
      modifies this`RendererTarget, this`RendererViewPort
      ensures Valid() && RenderTargetSurface == surface
      ensures surface == null ==> RenderTargetWidth == 0 && RenderTargetHeight == 0
      ensures surface != null ==> RenderTargetWidth == surface.Width && RenderTargetHeight == surface.Height
      ensures ViewPort == Rect(0, 0, RenderTargetWidth, RenderTargetHeight)
      ensures ZBufferSize == if old(ZBufferSize).Some? then Some((RenderTargetWidth, RenderTargetHeight)) else None
    {
      AttachSurface(surface);
      SetViewPort(Rect(0, 0, RenderTargetWidth, RenderTargetHeight));
      if ZBufferSize.Some? {
        ZBufferSize := Some((RenderTargetWidth, RenderTargetHeight));
      }
    }

    /** The first half of setRenderTarget(surface): the surface and its
        size, or 0 × 0 for null, become the target; a renderer is handed
        the new target. */
    method AttachSurface(surface: Surface.Surface?)
      requires Valid() && (surface != null ==> surface.Valid())
      modifies this`RenderTargetSurface, this`RenderTargetWidth, this`RenderTargetHeight, this`RendererTarget
      ensures Valid() && RenderTargetSurface == surface
      ensures surface == null ==> RenderTargetWidth == 0 && RenderTargetHeight == 0
      ensures surface != null ==> RenderTargetWidth == surface.Width && RenderTargetHeight == surface.Height
    {
      RenderTargetSurface := surface;
      RenderTargetWidth, RenderTargetHeight := 0, 0;
      if surface != null {
        RenderTargetWidth, RenderTargetHeight := surface.Width, surface.Height;
      }
      if CurrentRenderer.Some? {
        RendererTarget := RenderTargetSurface;
      }
    }

    /** beginScene: the null driver's counter is reset, and the back buffer
        filled with the colour when asked to. */
    method BeginScene(backBuffer: bool, color: bv32) returns (ok: bool)
      requires Valid() && Base.Valid() && BackBuffer.Valid()
      modifies Base, BackBuffer.Data
      ensures Valid() && Base.Valid() && ok && Base.PrimitivesDrawn == 0 && Base.Textures == old(Base.Textures)
      ensures backBuffer ==> BackBuffer.Data[..] == Surface.FillResult(old(BackBuffer.Data[..]), Color.X8R8G8B8toA1R5G5B5(color))
      ensures !backBuffer ==> BackBuffer.Data[..] == old(BackBuffer.Data[..])
    {
      ok := Base.BeginScene();
      if backBuffer {
        BackBuffer.Fill(Color.X8R8G8B8toA1R5G5B5(color));
      }
      ok := true;
    }

    /** The bookkeeping of drawIndexedTriangleList: nothing without a render
        target or a z-buffer; otherwise the null driver counts the triangles
        and the transformed-point buffer grows to hold every vertex. */
    method DrawIndexedTriangleList(vertexCount: int, triangleCount: int)
      requires Valid() && Base.Valid() && IsS32(triangleCount)
      modifies this, Base
      ensures Valid() && Base.Valid()
      ensures RenderTargetSurface == null || ZBufferSize.None? ==>
        Base.PrimitivesDrawn == old(Base.PrimitivesDrawn) && TransformedPointsCount == old(TransformedPointsCount)
      ensures RenderTargetSurface != null && ZBufferSize.Some? ==>
        Base.PrimitivesDrawn == VideoNull.Counted(old(Base.PrimitivesDrawn), [triangleCount]) &&
        TransformedPointsCount == Max(old(TransformedPointsCount), vertexCount)
      ensures Base.Textures == old(Base.Textures) && Texture == old(Texture) && ViewPort == old(ViewPort)
      ensures RenderTargetSurface == old(RenderTargetSurface) && ZBufferSize == old(ZBufferSize)
    {
      if RenderTargetSurface == null || ZBufferSize.None? {
        return;
      }
      Base.DrawIndexedTriangleList(triangleCount);
      if TransformedPointsCount < vertexCount {
        TransformedPointsCount := vertexCount;
      }
    }
  }
}
