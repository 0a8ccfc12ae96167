// The bitmap font (CGUIFont): a texture whose pixels mark glyph rectangles.
// The first pixel's colour marks the top-left corner of a glyph, the second
// pixel's colour the lower-right corner, and the third pixel's colour is the
// background.  Loading scans the texture row by row, opens a rectangle at
// every top-left marker, closes the oldest open one at every lower-right
// marker, and rewrites every pixel into a transparent background or an
// opaque white font pixel.  Glyph i draws the character 32 + i.
//
// The font works on a software texture; its pixels are the source surface's
// 16-bit buffer, whose pitch is twice its width, so the row-by-row scan
// visits the buffer in index order.
module GuiFont {
  import opened Common
  import Color
  import Surface
  import SoftwareTexture

  /** The three marker colours read from the first three pixels. */
  datatype Markers = Markers(TopLeft: bv16, LowerRight: bv16, Background: bv16)

  /** colorFont: white with the alpha bit set. */
  const FontColor: bv16 := 0xFFFF

  lemma FontColorIsOpaqueWhite()
    ensures FontColor == 0x8000 | (0x7FFF & Color.RGB16(255, 255, 255))
  {
  }

  /** colorBackGroundWithAlphaFalse: the background with the alpha bit clear;
      no other bit changes. */
  function Transparent(m: Markers): (c: bv16)
    ensures c & 0x8000 == 0
    ensures c == m.Background || c == m.Background ^ 0x8000
  {
    m.Background & 0x7FFF
  }

  predicate IsMarker(m: Markers, c: bv16)
  {
    c == m.TopLeft || c == m.LowerRight || c == m.Background
  }

  /** What a scanned pixel becomes: markers and background turn into the
      transparent background, everything else into the opaque font colour. */
  function Rewrite(m: Markers, c: bv16): (r: bv16)
    ensures (r & 0x8000 != 0) <==> !IsMarker(m, c)
    ensures IsMarker(m, c) ==> r == Transparent(m)
    ensures !IsMarker(m, c) ==> r == FontColor
  {
    if c == m.TopLeft || c == m.LowerRight || c == m.Background then Transparent(m) else FontColor
  }

  /** The pixels the scan reads: pixels 1 and 2 are overwritten with the
      background before it starts. */
  function Prepared(pixels: seq<bv16>): (p: seq<bv16>)
    requires |pixels| >= 3
    ensures |p| == |pixels| && p[0] == pixels[0] && p[1] == p[2] == pixels[2]
    ensures forall i :: 3 <= i < |p| ==> p[i] == pixels[i]
  {
    pixels[1 := pixels[2]][2 := pixels[2]]
  }

  /** The buffer once the first n pixels of the scan are rewritten. */
  function Rewritten(m: Markers, pixels: seq<bv16>, n: int): (r: seq<bv16>)
    requires 0 <= n <= |pixels|
    ensures |r| == |pixels|
    ensures forall i :: 0 <= i < n ==> r[i] == Rewrite(m, pixels[i])
    ensures forall i :: n <= i < |pixels| ==> r[i] == pixels[i]
  {
    seq(|pixels|, i requires 0 <= i < |pixels| => if i < n then Rewrite(m, pixels[i]) else pixels[i])
  }

  lemma RewrittenStep(m: Markers, pixels: seq<bv16>, n: int)
    requires 0 <= n < |pixels|
    ensures Rewritten(m, pixels, n)[n := Rewrite(m, pixels[n])] == Rewritten(m, pixels, n + 1)
  {
    var a, b := Rewritten(m, pixels, n)[n := Rewrite(m, pixels[n])], Rewritten(m, pixels, n + 1);
    assert forall i :: 0 <= i < |pixels| ==> a[i] == b[i];
  }

  /** The scan's state: the glyph rectangles, how many of them the scan has
      closed (lowerRightPostions), and the index of the pixel where it gave
      up, if it did. */
  datatype Scan = Scan(Positions: seq<Rect>, Closed: nat, Stop: Option<nat>)

  /** A lower-right marker sets the rectangle's lower-right corner. */
  function Close(r: Rect, x: int, y: int): Rect
  {
    Rect(r.Left, r.Top, x, y)
  }

  /** One pixel of the scan, at buffer index k and coordinates (x, y). */
  function Step(m: Markers, s: Scan, c: bv16, x: int, y: int, k: nat): Scan
  {
    if c == m.TopLeft then s.(Positions := s.Positions + [Rect(x, y, x, y)])
    else if c == m.LowerRight then
      if |s.Positions| <= s.Closed then s.(Stop := Some(k))
      else s.(Positions := s.Positions[s.Closed := Close(s.Positions[s.Closed], x, y)], Closed := s.Closed + 1)
    else s
  }

  /** The column and row of pixel k, counted the way the scan's two loops
      count them. */
  function Coordinates(width: int, k: nat): (p: (int, int))
    requires width > 0
    ensures 0 <= p.0 < width && 0 <= p.1
  {
    if k == 0 then (0, 0)
    else
      var q := Coordinates(width, k - 1);
      if q.0 + 1 == width then (0, q.1 + 1) else (q.0 + 1, q.1)
  }

  /** Those are the coordinates whose buffer index is k. */
  lemma {:induction false} CoordinatesLocate(width: int, k: nat)
    requires width > 0
    ensures var p := Coordinates(width, k);
      Surface.Index(width, p.0, p.1) == k && p == (Surface.Col(width, k), Surface.Row(width, k))
  {
    if k > 0 {
      CoordinatesLocate(width, k - 1);
      var q := Coordinates(width, k - 1);
      Surface.IndexNextRow(width, 0, q.1);
    }
    var p := Coordinates(width, k);
    Surface.IndexCoordinates(width, p.0, p.1);
  }

  /** The scan of the first k pixels of a buffer of the given width, starting
      from the rectangles the font already holds. */
  function ScanPrefix(m: Markers, start: seq<Rect>, pixels: seq<bv16>, width: int, k: nat): (s: Scan)
    requires width > 0 && k <= |pixels|
    ensures s.Stop.Some? ==> s.Stop.value < k
  {
    if k == 0 then Scan(start, 0, None)
    else
      var s := ScanPrefix(m, start, pixels, width, k - 1);
      if s.Stop.Some? then s
      else
        var p := Coordinates(width, k - 1);
        Step(m, s, pixels[k - 1], p.0, p.1, k - 1)
  }

  /** One more pixel of a scan that has not given up is one more Step. */
  lemma ScanPrefixNext(m: Markers, start: seq<Rect>, pixels: seq<bv16>, width: int, k: nat, next: nat)
    requires width > 0 && next == k + 1 <= |pixels| && ScanPrefix(m, start, pixels, width, k).Stop.None?
    ensures var p := Coordinates(width, k);
      ScanPrefix(m, start, pixels, width, next) == Step(m, ScanPrefix(m, start, pixels, width, k), pixels[k], p.0, p.1, k)
  {
  }

  /** The next pixel is one column on, or the first of the next row. */
  lemma CoordinatesNext(width: int, k: nat)
    requires width > 0
    ensures var p := Coordinates(width, k);
      Coordinates(width, k + 1) == if p.0 + 1 == width then (0, p.1 + 1) else (p.0 + 1, p.1)
  {
  }

  /** Top-left markers in a run of pixels. */
  function Opens(m: Markers, s: seq<bv16>): nat
  {
    if |s| == 0 then 0 else Opens(m, s[..|s| - 1]) + (if s[|s| - 1] == m.TopLeft then 1 else 0)
  }

  predicate IsCloser(m: Markers, c: bv16)
  {
    c != m.TopLeft && c == m.LowerRight
  }

  /** Lower-right markers in a run of pixels (a pixel of both colours opens). */
  function Closes(m: Markers, s: seq<bv16>): nat
  {
    if |s| == 0 then 0 else Closes(m, s[..|s| - 1]) + (if IsCloser(m, s[|s| - 1]) then 1 else 0)
  }

  /** A scan that has given up stays given up. */
  lemma {:induction false} StopPersists(m: Markers, start: seq<Rect>, pixels: seq<bv16>, width: int, j: nat, k: nat)
    requires width > 0 && j <= k <= |pixels| && ScanPrefix(m, start, pixels, width, j).Stop.Some?
    ensures ScanPrefix(m, start, pixels, width, k) == ScanPrefix(m, start, pixels, width, j)
    decreases k
  {
    if j < k {
      StopPersists(m, start, pixels, width, j, k - 1);
    }
  }

  /** Until it gives up, the scan holds one rectangle per top-left marker
      (besides those it started with) and has closed one per lower-right
      marker, never more than it holds.  It gives up at a lower-right marker
      that finds every rectangle closed already. */
  lemma {:induction false} ScanCounts(m: Markers, start: seq<Rect>, pixels: seq<bv16>, width: int, k: nat)
    requires width > 0 && k <= |pixels|
    ensures var s := ScanPrefix(m, start, pixels, width, k);
      s.Stop.None? ==>
        |s.Positions| == |start| + Opens(m, pixels[..k]) && s.Closed == Closes(m, pixels[..k]) &&
        s.Closed <= |s.Positions|
    ensures var s := ScanPrefix(m, start, pixels, width, k);
      s.Stop.Some? ==>
        s.Stop.value < k && IsCloser(m, pixels[s.Stop.value]) &&
        Closes(m, pixels[..s.Stop.value]) == |start| + Opens(m, pixels[..s.Stop.value])
  {
    if k > 0 {
      var j := k - 1;
      ScanCounts(m, start, pixels, width, j);
      MarkersStep(m, pixels, j, k);
      var s := ScanPrefix(m, start, pixels, width, j);
      if s.Stop.None? {
        ScanPrefixNext(m, start, pixels, width, j, k);
        var p := Coordinates(width, j);
        StepCounts(m, s, pixels[j], p.0, p.1, j);
      }
    }
  }

  /** The marker counts of one more pixel. */
  lemma MarkersStep(m: Markers, pixels: seq<bv16>, j: nat, k: nat)
    requires j + 1 == k <= |pixels|
    ensures Opens(m, pixels[..k]) == Opens(m, pixels[..j]) + (if pixels[j] == m.TopLeft then 1 else 0)
    ensures Closes(m, pixels[..k]) == Closes(m, pixels[..j]) + (if IsCloser(m, pixels[j]) then 1 else 0)
  {
    assert pixels[..k][..j] == pixels[..j];
  }

  /** What one Step does to the counts: a top-left marker adds a rectangle,
      a lower-right marker closes one or gives up when none is open. */
  lemma StepCounts(m: Markers, s: Scan, c: bv16, x: int, y: int, k: nat)
    requires s.Stop.None? && s.Closed <= |s.Positions|
    ensures var t := Step(m, s, c, x, y, k);
      t.Stop.None? ==>
        |t.Positions| == |s.Positions| + (if c == m.TopLeft then 1 else 0) &&
        t.Closed == s.Closed + (if IsCloser(m, c) then 1 else 0) && t.Closed <= |t.Positions|
    ensures var t := Step(m, s, c, x, y, k);
      t.Stop.Some? ==> t.Stop.value == k && IsCloser(m, c) && s.Closed == |s.Positions|
  {
  }

  /** loadTexture fails exactly when some lower-right marker comes when
      every rectangle opened so far is closed already. */
  lemma ScanStopsIff(m: Markers, start: seq<Rect>, pixels: seq<bv16>, width: int, k: nat)
    requires width > 0 && k <= |pixels|
    ensures ScanPrefix(m, start, pixels, width, k).Stop.Some? <==>
      exists j :: 0 <= j < k && IsCloser(m, pixels[j]) && Closes(m, pixels[..j]) >= |start| + Opens(m, pixels[..j])
  {
    ScanCounts(m, start, pixels, width, k);
    if ScanPrefix(m, start, pixels, width, k).Stop.None? {
      forall j | 0 <= j < k && IsCloser(m, pixels[j])
        ensures Closes(m, pixels[..j]) < |start| + Opens(m, pixels[..j])
      {
        if ScanPrefix(m, start, pixels, width, j).Stop.Some? {
          StopPersists(m, start, pixels, width, j, k);
          assert false;
        }
        ScanCounts(m, start, pixels, width, j);
        if ScanPrefix(m, start, pixels, width, j + 1).Stop.Some? {
          StopPersists(m, start, pixels, width, j + 1, k);
          assert false;
        }
      }
    }
  }

  /** The first pixel always carries the top-left colour, so a font loaded
      from scratch has its first glyph at the origin; later markers change
      only its lower-right corner. */
  lemma {:induction false} FirstGlyphAtOrigin(m: Markers, pixels: seq<bv16>, width: int, k: nat)
    requires width > 0 && 1 <= k <= |pixels| && pixels[0] == m.TopLeft
    ensures var s := ScanPrefix(m, [], pixels, width, k);
      |s.Positions| >= 1 && s.Positions[0].Left == 0 && s.Positions[0].Top == 0
  {
    if k > 1 {
      FirstGlyphAtOrigin(m, pixels, width, k - 1);
    }
  }

  /** The scan of loadTexture over a width × height buffer.  The source
      walks it with a row pointer advanced by the pitch and a pixel pointer
      within the row; the pitch of a software texture is its row length, so
      the pixel pointer visits the buffer in index order while (x, y) count
      the columns and rows. */
  method ScanGlyphs(data: array<bv16>, width: int, height: int, m: Markers, start: seq<Rect>)
    returns (failed: bool, Positions: seq<Rect>, closed: nat)
    requires 0 < width && 0 <= height && data.Length == width * height
    modifies data
    ensures var s := ScanPrefix(m, start, old(data[..]), width, data.Length);
      Positions == s.Positions && failed == s.Stop.Some? &&
      (failed ==> data[..] == Rewritten(m, old(data[..]), s.Stop.value)) &&
      (!failed ==> closed == s.Closed && data[..] == Rewritten(m, old(data[..]), data.Length))
  {
    ghost var pixels := data[..];
    Positions := start;
    closed := 0;
    var k, x, y := 0, 0, 0;
    while k < data.Length
      invariant 0 <= k <= data.Length
      invariant Coordinates(width, k) == (x, y)
      invariant ScanPrefix(m, start, pixels, width, k) == Scan(Positions, closed, None)
      invariant data[..] == Rewritten(m, pixels, k)
    {
      CoordinatesNext(width, k);
      var stopped;
      stopped, Positions, closed := ScanNext(data, k, x, y, m, Positions, closed, start, pixels, width);
      if stopped {
        return true, Positions, closed;
      }
      k, x := k + 1, x + 1;
      if x == width {
        x, y := 0, y + 1;
      }
    }
    failed := false;
  }

  /** The loop body of ScanGlyphs: pixel k of the scan, at (x, y), moves
      the scan of the first k pixels on to the first k + 1, or gives up. */
  method ScanNext(data: array<bv16>, k: nat, x: int, y: int, m: Markers, positions0: seq<Rect>, closed0: nat,
                  ghost start: seq<Rect>, ghost pixels: seq<bv16>, ghost width: int)
    returns (stopped: bool, Positions: seq<Rect>, closed: nat)
    requires width > 0 && k < |pixels| == data.Length && Coordinates(width, k) == (x, y)
    requires ScanPrefix(m, start, pixels, width, k) == Scan(positions0, closed0, None)
    requires data[..] == Rewritten(m, pixels, k)
    modifies data
    ensures stopped ==> ScanPrefix(m, start, pixels, width, |pixels|) == Scan(Positions, closed, Some(k)) &&
                        data[..] == Rewritten(m, pixels, k)
    ensures !stopped ==> ScanPrefix(m, start, pixels, width, k + 1) == Scan(Positions, closed, None) &&
                         data[..] == Rewritten(m, pixels, k + 1)
  {
    ScanCounts(m, start, pixels, width, k);
    ScanPrefixNext(m, start, pixels, width, k, k + 1);
    stopped, Positions, closed := ScanPixel(data, k, x, y, m, positions0, closed0);
    if stopped {
      StopPersists(m, start, pixels, width, k + 1, |pixels|);
    } else {
      RewrittenStep(m, pixels, k);
    }
  }

  /** One pixel of the scan at buffer index k, coordinates (x, y). */
  method ScanPixel(data: array<bv16>, k: int, x: int, y: int, m: Markers, positions0: seq<Rect>, closed0: nat)
    returns (stopped: bool, Positions: seq<Rect>, closed: nat)
    requires 0 <= k < data.Length && closed0 <= |positions0|
    modifies data
    ensures Scan(Positions, closed, if stopped then Some(k) else None) ==
      Step(m, Scan(positions0, closed0, None), old(data[k]), x, y, k)
    ensures stopped ==> data[..] == old(data[..])
    ensures !stopped ==> data[..] == old(data[..])[k := Rewrite(m, old(data[k]))]
  {
    Positions, closed := positions0, closed0;
    var c := data[k];
    if c == m.TopLeft {
      data[k] := Transparent(m);
      Positions := Positions + [Rect(x, y, x, y)];
    } else if c == m.LowerRight {
      if |Positions| <= closed {
        return true, Positions, closed;
      }
      data[k] := Transparent(m);
      Positions := Positions[closed := Close(Positions[closed], x, y)];
      closed := closed + 1;
    } else if c == m.Background {
      data[k] := Transparent(m);
    } else {
      data[k] := FontColor;
    }
    stopped := false;
  }

  /** getDimension's glyph choice as written: c - 32 as a u32, replaced by
      WrongCharacter only when it is greater than the glyph count. */
  function GlyphIndexAsWritten(c: int, count: int, wrong: int): int
  {
    var n := U32(c - 32);
    if n > count then wrong else n
  }

  /** The character just past the last glyph is not replaced and indexes one
      past the end of Positions. */
  lemma GlyphIndexPastEnd(count: nat, wrong: int)
    requires count <= 0xFFFF - 32
    ensures GlyphIndexAsWritten(32 + count, count, wrong) == count
  {
  }

  /** The glyph for a character: c - 32, or WrongCharacter for every
      character without a glyph (including those below 32). */
  function GlyphIndex(c: int, count: int, wrong: int): (n: int)
    requires 0 <= c <= 0xFFFF && 0 <= wrong < count <= S32Max
    ensures 0 <= n < count
    ensures 32 <= c < 32 + count ==> n == c - 32
    ensures !(32 <= c < 32 + count) ==> n == wrong
  {
    var n := U32(c - 32);
    if n >= count then wrong else n
  }

  /** The two choices differ only for the character just past the last glyph. */
  lemma GlyphIndexAgrees(c: int, count: int, wrong: int)
    requires 0 <= c <= 0xFFFF && 0 <= wrong < count <= S32Max && c != 32 + count
    ensures GlyphIndexAsWritten(c, count, wrong) == GlyphIndex(c, count, wrong)
  {
    if c < 32 {
      assert U32(c - 32) == c - 32 + Word;
    }
  }

  /** The text holds the character just past the last of `count` glyphs. */
  predicate PastEnd(count: int, text: seq<int>)
  {
    exists i :: 0 <= i < |text| && text[i] == 32 + count
  }

  /** The glyph getDimension and draw look up for character c: as written,
      it is `count` (one past the end) exactly for the character 32 + count;
      otherwise both variants pick GlyphIndex. */
  lemma GlyphChoice(v: Variant, c: int, count: int, wrong: int)
    requires 0 <= c <= 0xFFFF && 0 <= wrong < count <= S32Max
    ensures v == AsWritten && c == 32 + count ==> GlyphIndexAsWritten(c, count, wrong) == count
    ensures !(v == AsWritten && c == 32 + count) ==>
      (if v == AsWritten then GlyphIndexAsWritten(c, count, wrong) else GlyphIndex(c, count, wrong)) ==
        GlyphIndex(c, count, wrong)
  {
    if c == 32 + count {
      GlyphIndexPastEnd(count, wrong);
    } else {
      GlyphIndexAgrees(c, count, wrong);
    }
  }

  function Width(r: Rect): int
  {
    r.Right - r.Left
  }

  function Height(r: Rect): int
  {
    r.Bottom - r.Top
  }

  predicate IsText(text: seq<int>)
  {
    forall i :: 0 <= i < |text| ==> 0 <= text[i] <= 0xFFFF
  }

  /** The width of a text: the sum of its glyphs' widths. */
  function TextWidth(positions: seq<Rect>, wrong: int, text: seq<int>): int
    requires 0 <= wrong < |positions| <= S32Max && IsText(text)
  {
    if |text| == 0 then 0
    else TextWidth(positions, wrong, text[..|text| - 1]) +
         Width(positions[GlyphIndex(text[|text| - 1], |positions|, wrong)])
  }

  /** The width of two texts written one after the other is the sum of
      their widths. */
  lemma {:induction false} TextWidthAppend(positions: seq<Rect>, wrong: int, s: seq<int>, t: seq<int>)
    requires 0 <= wrong < |positions| <= S32Max && IsText(s) && IsText(t)
    ensures TextWidth(positions, wrong, s + t) == TextWidth(positions, wrong, s) + TextWidth(positions, wrong, t)
  {
    if |t| > 0 {
      assert (s + t)[..|s + t| - 1] == s + t[..|t| - 1];
      TextWidthAppend(positions, wrong, s, t[..|t| - 1]);
    } else {
      assert s + t == s;
    }
  }

  /** One glyph drawn by `draw`: the position and the texture rectangle. */
  datatype DrawCall = DrawCall(X: int, Y: int, Glyph: Rect)

  /** `(size - textSize) >> 1` on an s32: half the margin, rounded down. */
  function HalfMargin(size: int, textSize: int): (h: int)
    ensures 0 <= (size - textSize) - 2 * h <= 1
  {
    (size - textSize) / 2
  }

  class Font {
    const HasDriver: bool
    var Positions: seq<Rect>
    var Texture: SoftwareTexture.Texture?
    var WrongCharacter: int

    /** The constructor: no glyphs, no texture, and glyph 0 for characters
        without one. */
    constructor (hasDriver: bool)
      ensures HasDriver == hasDriver && Positions == [] && Texture == null && WrongCharacter == 0
    {
      HasDriver := hasDriver;
      Positions := [];
      Texture := null;
      WrongCharacter := 0;
    }

    /** loadTexture: nothing for a null texture; otherwise the texture's
        pixels are scanned (ScanTexture) and the texture is unlocked, which
        refreshes a padded texture surface with `scale` (copyToScaling) of
        the rewritten pixels. */
    method LoadTexture(texture: SoftwareTexture.Texture?, scale: seq<bv16> -> seq<bv16>) returns (ok: bool)
      requires texture != null ==> texture.Valid() && texture.Source != null && texture.Source.Data.Length >= 3
      requires texture != null && texture.Target != null ==> forall d :: |scale(d)| == texture.Target.Data.Length
      modifies this
      modifies if texture != null && texture.Source != null && texture.Target != null
               then {texture.Source.Data, texture.Target.Data} else {}
      ensures texture == null ==> !ok && Positions == old(Positions) && Texture == old(Texture) &&
                                  WrongCharacter == old(WrongCharacter)
      ensures texture != null ==> Scanned(texture, old(texture.Source.Data[..]), old(Positions), old(WrongCharacter), ok)
      ensures texture != null && texture.Target != texture.Source ==>
        texture.Target.Data[..] == scale(texture.Source.Data[..])
    {
      if texture == null {
        return false;
      }
      ok := ScanTexture(texture);
      texture.Unlock(scale(texture.Source.Data[..]));
    }

    /** What the scan of loadTexture leaves, from the pixels, glyphs and
        WrongCharacter before it: the glyph list is the scan's and the
        pixels are rewritten up to where it gave up; a scan that gives up
        fails, and one that completes sets WrongCharacter to 127 for a font
        of more than 127 glyphs and succeeds when a rectangle was opened and
        one closed. */
    ghost predicate Scanned(texture: SoftwareTexture.Texture, data: seq<bv16>, positions: seq<Rect>, wrong: int, ok: bool)
      requires texture.Source != null && texture.Source.Width > 0 && |data| >= 3
      reads this, texture, texture.Source, texture.Source.Data
    {
      var m := Markers(data[0], data[1], data[2]);
      var s := ScanPrefix(m, positions, Prepared(data), texture.Source.Width, |data|);
      Texture == texture && Positions == s.Positions &&
      (s.Stop.Some? ==>
        !ok && WrongCharacter == wrong &&
        texture.Source.Data[..] == Rewritten(m, Prepared(data), s.Stop.value)) &&
      (s.Stop.None? ==>
        ok == (|s.Positions| > 0 && s.Closed > 0) &&
        WrongCharacter == (if |s.Positions| > 127 then 127 else wrong) &&
        texture.Source.Data[..] == Rewritten(m, Prepared(data), |data|))
    }

    /** The scan of loadTexture, up to the unlock: the marker colours are
        read from the first three pixels, the second and third are painted
        with the background, and the pixels are scanned row by row. */
    method ScanTexture(texture: SoftwareTexture.Texture) returns (ok: bool)
      requires texture.Valid() && texture.Source != null && texture.Source.Data.Length >= 3
      modifies this, texture.Source.Data
      ensures Scanned(texture, old(texture.Source.Data[..]), old(Positions), old(WrongCharacter), ok)
    {
      Texture := texture;
      var surface := texture.Source;
      var data := surface.Data;
      var m := Markers(data[0], data[1], data[2]);
      data[1] := m.Background;
      data[2] := m.Background;
      var failed, positions, closed := ScanGlyphs(data, surface.Width, surface.Height, m, Positions);
      Positions := positions;
      if failed {
        return false;
      }
      if |Positions| > 127 {
        WrongCharacter := 127;
      }
      ok := |Positions| > 0 && closed > 0;
    }

    /** getDimension, as written or with the corrected glyph check: glyph
        0's height, and the sum of the glyph widths.  As written, the
        character just past the last glyph reads one past the end of
        Positions, where the model stops with `fault`. */
    method GetDimension(v: Variant, text: seq<int>) returns (fault: bool, width: int, height: int)
      requires 0 <= WrongCharacter < |Positions| <= S32Max && IsText(text)
      ensures height == Height(Positions[0])
      ensures fault <==> v == AsWritten && PastEnd(|Positions|, text)
      ensures !fault ==> width == TextWidth(Positions, WrongCharacter, text)
    {
      fault, width, height := false, 0, Height(Positions[0]);
      var i := 0;
      while i < |text|
        invariant 0 <= i <= |text|
        invariant v == AsWritten ==> forall j :: 0 <= j < i ==> text[j] != 32 + |Positions|
        invariant width == TextWidth(Positions, WrongCharacter, text[..i])
      {
        assert text[..i + 1][..i] == text[..i];
        var n := if v == AsWritten then GlyphIndexAsWritten(text[i], |Positions|, WrongCharacter)
                 else GlyphIndex(text[i], |Positions|, WrongCharacter);
        GlyphChoice(v, text[i], |Positions|, WrongCharacter);
        if n >= |Positions| {
          return true, width, height;
        }
        width := width + Width(Positions[n]);
        i := i + 1;
      }
      assert text[..i] == text;
    }

    /** draw, as written or with the corrected glyph check: nothing without
        a driver; otherwise one glyph per character, starting at the
        upper-left corner of `position`, or centred in it when asked to. */
    method Draw(v: Variant, text: seq<int>, position: Rect, hcenter: bool, vcenter: bool)
      returns (fault: bool, calls: seq<DrawCall>)
      requires 0 <= WrongCharacter < |Positions| <= S32Max && IsText(text)
      ensures !HasDriver ==> !fault && calls == []
      ensures HasDriver ==> (fault <==> v == AsWritten && PastEnd(|Positions|, text))
      ensures HasDriver && !fault ==>
        var x := if hcenter then position.Left + HalfMargin(Width(position), TextWidth(Positions, WrongCharacter, text))
                 else position.Left;
        var y := if vcenter then position.Top + HalfMargin(Height(position), Height(Positions[0])) else position.Top;
        calls == DrawCalls(Positions, WrongCharacter, x, y, text)
    {
      if !HasDriver {
        return false, [];
      }
      var x, y := position.Left, position.Top;
      if hcenter || vcenter {
        var textWidth, textHeight;
        fault, textWidth, textHeight := GetDimension(v, text);
        if fault {
          return true, [];
        }
        if hcenter {
          x := HalfMargin(Width(position), textWidth) + x;
        }
        if vcenter {
          y := HalfMargin(Height(position), textHeight) + y;
        }
      }
      fault, calls := DrawFrom(v, text, x, y);
    }

    /** The glyph loop of draw, from (x, y): each glyph advances the
        position by its width.  As written, the loop draws the glyphs up
        to the character just past the last glyph and stops there with
        `fault`. */
    method DrawFrom(v: Variant, text: seq<int>, x0: int, y: int) returns (fault: bool, calls: seq<DrawCall>)
      requires 0 <= WrongCharacter < |Positions| <= S32Max && IsText(text)
      ensures fault <==> v == AsWritten && PastEnd(|Positions|, text)
      ensures !fault ==> calls == DrawCalls(Positions, WrongCharacter, x0, y, text)
      ensures fault ==> |calls| < |text| && text[|calls|] == 32 + |Positions| &&
                        calls == DrawCalls(Positions, WrongCharacter, x0, y, text[..|calls|])
    {
      var x := x0;
      fault, calls := false, [];
      var i := 0;
      while i < |text|
        invariant 0 <= i <= |text| && |calls| == i
        invariant v == AsWritten ==> forall j :: 0 <= j < i ==> text[j] != 32 + |Positions|
        invariant x == x0 + TextWidth(Positions, WrongCharacter, text[..i])
        invariant calls == DrawCalls(Positions, WrongCharacter, x0, y, text[..i])
      {
        assert text[..i + 1][..i] == text[..i];
        var n := if v == AsWritten then GlyphIndexAsWritten(text[i], |Positions|, WrongCharacter)
                 else GlyphIndex(text[i], |Positions|, WrongCharacter);
        GlyphChoice(v, text[i], |Positions|, WrongCharacter);
        if n >= |Positions| {
          return true, calls;
        }
        calls := calls + [DrawCall(x, y, Positions[n])];
        x := x + Width(Positions[n]);
        i := i + 1;
      }
      assert text[..i] == text;
    }
  }

  /** The glyphs `draw` hands to the driver for a text starting at (x, y). */
  function DrawCalls(positions: seq<Rect>, wrong: int, x: int, y: int, text: seq<int>): (calls: seq<DrawCall>)
    requires 0 <= wrong < |positions| <= S32Max && IsText(text)
    ensures |calls| == |text|
  {
    if |text| == 0 then []
    else
      var init := text[..|text| - 1];
      DrawCalls(positions, wrong, x, y, init) +
        [DrawCall(x + TextWidth(positions, wrong, init), y, positions[GlyphIndex(text[|text| - 1], |positions|, wrong)])]
  }

  /** Character i is drawn with its own glyph, on the text's line, right of
      the glyphs of the characters before it. */
  lemma {:induction false} DrawCallsAt(positions: seq<Rect>, wrong: int, x: int, y: int, text: seq<int>, i: int)
    requires 0 <= wrong < |positions| <= S32Max && IsText(text) && 0 <= i < |text|
    ensures DrawCalls(positions, wrong, x, y, text)[i] ==
      DrawCall(x + TextWidth(positions, wrong, text[..i]), y, positions[GlyphIndex(text[i], |positions|, wrong)])
  {
    var init := text[..|text| - 1];
    if i < |text| - 1 {
      DrawCallsAt(positions, wrong, x, y, init, i);
      assert init[..i] == text[..i] && init[i] == text[i];
    } else {
      assert init == text[..i];
    }
  }

  /** Each glyph starts where the previous one ends. */
  lemma DrawCallsAbut(positions: seq<Rect>, wrong: int, x: int, y: int, text: seq<int>, i: int)
    requires 0 <= wrong < |positions| <= S32Max && IsText(text) && 0 <= i && i + 1 < |text|
    ensures var calls := DrawCalls(positions, wrong, x, y, text);
      calls[i + 1].X == calls[i].X + Width(calls[i].Glyph)
  {
    DrawCallsAt(positions, wrong, x, y, text, i);
    DrawCallsAt(positions, wrong, x, y, text, i + 1);
    assert text[..i + 1][..i] == text[..i];
  }

  /** A centred text leaves margins on its two sides that differ by at most
      one pixel, the extra one on the right. */
  lemma CentredTextMargins(position: Rect, textWidth: int)
    ensures var x := position.Left + HalfMargin(Width(position), textWidth);
      var left, right := x - position.Left, position.Right - (x + textWidth);
      0 <= right - left <= 1
  {
  }
}
