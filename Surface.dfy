// The 16-bit A1R5G5B5 software surface (CSurface): a Width × Height pixel
// buffer stored row by row, so pixel (x, y) is Data[y * Width + x].  Pixels
// are s16 in the source; the model keeps their bit patterns as bv16.
//
// Each drawing routine is a method over the `Data` array, specified by a
// function that gives every pixel's new value from the old buffer.
module Surface {
  import opened Common
  import Color

  // ---------------------------------------------------------------------
  // Index arithmetic of the row-major buffer.

  /** Pixel (x, y) of a buffer with rows of `width` pixels. */
  function Index(width: int, x: int, y: int): int
  {
    y * width + x
  }

  /** Column and row of a buffer index. */
  function Col(width: int, k: int): int
    requires width > 0
  {
    k % width
  }

  function Row(width: int, k: int): int
    requires width > 0
  {
    k / width
  }

  lemma IndexCoordinates(width: int, x: int, y: int)
    requires 0 <= x < width
    ensures Row(width, Index(width, x, y)) == y && Col(width, Index(width, x, y)) == x
  {
    RemainderOf(Index(width, x, y), width, y, x);
  }

  lemma IndexOfCoordinates(width: int, k: int)
    requires width > 0
    ensures k == Index(width, Col(width, k), Row(width, k)) && 0 <= Col(width, k) < width
  {
  }

  lemma IndexNextRow(width: int, x: int, y: int)
    ensures Index(width, x, y + 1) == Index(width, x, y) + width
  {
  }

  lemma IndexInRange(width: int, height: int, x: int, y: int)
    requires 0 <= x < width && 0 <= y < height
    ensures 0 <= Index(width, x, y) < width * height
  {
    assert y * width <= (height - 1) * width;
  }

  lemma RowInRange(width: int, height: int, k: int)
    requires width > 0 && 0 <= k < width * height
    ensures 0 <= Row(width, k) < height
  {
    IndexOfCoordinates(width, k);
  }

  // ---------------------------------------------------------------------
  // Masks.

  const RedMask: bv16 := 0x1F << 10
  const GreenMask: bv16 := 0x1F << 5
  const BlueMask: bv16 := 0x1F
  const AlphaMask: bv16 := 1 << 15

  /** The four masks are pairwise disjoint and cover all sixteen bits, and
      each one selects exactly its channel of the colour format. */
  lemma MasksPartitionPixel(c: bv16)
    ensures RedMask & GreenMask == 0 && RedMask & BlueMask == 0 && RedMask & AlphaMask == 0
    ensures GreenMask & BlueMask == 0 && GreenMask & AlphaMask == 0 && BlueMask & AlphaMask == 0
    ensures RedMask | GreenMask | BlueMask | AlphaMask == 0xFFFF
    ensures (c & RedMask) >> 10 == Color.Red16(c) && (c & GreenMask) >> 5 == Color.Green16(c)
    ensures c & BlueMask == Color.Blue16(c) && (c & AlphaMask) >> 15 == Color.Alpha16(c)
  {
  }

  // ---------------------------------------------------------------------
  // Coordinate clamping, as the private clipX / clipY do it: into the
  // inclusive range [0, size].

  function Clip(v: int, size: int): (r: int)
    requires size >= 0
    ensures 0 <= r <= size
    ensures 0 <= v <= size ==> r == v
    ensures v < 0 ==> r == 0
    ensures v > size ==> r == size
  {
    if v < 0 then 0 else if v > size then size else v
  }

  // ---------------------------------------------------------------------
  // getPixel / setPixel as written: both let a coordinate equal to the
  // width or height through.

  /** The buffer index getPixel reads, or None when it returns 0. */
  function GetPixelIndexAsWritten(width: int, height: int, x: int, y: int): (r: Option<int>)
    requires width >= 0 && height >= 0
    ensures r.Some? <==> 0 <= x <= width && 0 <= y <= height
    ensures r.Some? ==> r.value == Index(width, x, y) && r.value >= 0
  {
    if x < 0 || y < 0 || x > width || y > height then None
    else
      assert y * width >= 0;
      Some(Index(width, x, y))
  }

  /** The buffer index setPixel writes, after clamping with clipX / clipY. */
  function SetPixelIndexAsWritten(width: int, height: int, x: int, y: int): int
    requires width >= 0 && height >= 0
  {
    Index(width, Clip(x, width), Clip(y, height))
  }

  /** On a 2×2 surface, getPixel(2, 1) and setPixel(5, 1) both reach index 4,
      one past the buffer; getPixel(2, 0) reads pixel (0, 1) instead. */
  lemma PixelAccessOffByOne()
    ensures GetPixelIndexAsWritten(2, 2, 2, 1) == Some(4)
    ensures SetPixelIndexAsWritten(2, 2, 5, 1) == 4
    ensures GetPixelIndexAsWritten(2, 2, 2, 0) == Some(Index(2, 0, 1))
  {
  }

  /** The bounds check getPixel evidently intends: inside [0, W) × [0, H). */
  function GetPixelIndex(width: int, height: int, x: int, y: int): (r: Option<int>)
    requires width >= 0 && height >= 0
    ensures r.Some? <==> 0 <= x < width && 0 <= y < height
    ensures r.Some? ==> 0 <= r.value < width * height && r.value == Index(width, x, y)
  {
    if x < 0 || y < 0 || x >= width || y >= height then None
    else
      IndexInRange(width, height, x, y);
      Some(Index(width, x, y))
  }

  /** The clamp setPixel evidently intends: onto the last row and column. */
  function SetPixelIndex(width: int, height: int, x: int, y: int): (r: int)
    requires width > 0 && height > 0
    ensures 0 <= r < width * height
    ensures 0 <= x < width && 0 <= y < height ==> r == Index(width, x, y)
  {
    IndexInRange(width, height, Clip(x, width - 1), Clip(y, height - 1));
    Index(width, Clip(x, width - 1), Clip(y, height - 1))
  }

  /** Inside the surface the as-written and the corrected accesses agree. */
  lemma PixelAccessAgreesInside(width: int, height: int, x: int, y: int)
    requires width > 0 && height > 0 && 0 <= x < width && 0 <= y < height
    ensures GetPixelIndexAsWritten(width, height, x, y) == GetPixelIndex(width, height, x, y)
    ensures SetPixelIndexAsWritten(width, height, x, y) == SetPixelIndex(width, height, x, y)
  {
  }

  // ---------------------------------------------------------------------
  // fill: writes the colour into both halves of DataSize >> 1 s32 words.

  function FillResult(old_: seq<bv16>, color: bv16): (r: seq<bv16>)
    ensures |r| == |old_|
    ensures forall k :: 0 <= k < |old_| ==> r[k] == if k < 2 * (|old_| / 2) then color else old_[k]
  {
    seq(|old_|, k requires 0 <= k < |old_| => if k < 2 * (|old_| / 2) then color else old_[k])
  }

  /** A surface with an odd number of pixels keeps its last pixel. */
  lemma FillSkipsOddLastPixel(old_: seq<bv16>, color: bv16)
    requires |old_| % 2 == 1
    ensures FillResult(old_, color)[|old_| - 1] == old_[|old_| - 1]
    ensures forall k :: 0 <= k < |old_| - 1 ==> FillResult(old_, color)[k] == color
  {
  }

  // ---------------------------------------------------------------------
  // drawRectangle.

  /** The area drawRectangle fills: corners clamped with clipX / clipY, then
      put in order. */
  function ClampedSpan(width: int, height: int, x: int, y: int, x2: int, y2: int): (s: Rect)
    requires width >= 0 && height >= 0
    ensures 0 <= s.Left <= s.Right <= width && 0 <= s.Top <= s.Bottom <= height
    ensures s.Left == Min(Clip(x, width), Clip(x2, width)) && s.Right == Max(Clip(x, width), Clip(x2, width))
    ensures s.Top == Min(Clip(y, height), Clip(y2, height)) && s.Bottom == Max(Clip(y, height), Clip(y2, height))
  {
    var cx, cx2 := Clip(x, width), Clip(x2, width);
    var cy, cy2 := Clip(y, height), Clip(y2, height);
    var (l, r) := if cx > cx2 then (cx2, cx) else (cx, cx2);
    var (t, b) := if cy > cy2 then (cy2, cy) else (cy, cy2);
    Rect(l, t, r, b)
  }

  /** Buffer index k lies in the span. */
  predicate InSpan(width: int, k: int, s: Rect)
  {
    width > 0 && s.Top <= Row(width, k) < s.Bottom && s.Left <= Col(width, k) < s.Right
  }

  /** One channel of the translucent branch: (channel · (255 − alpha) + colour channel · alpha) >> 5. */
  function BlendChannel(src: int, col: int, alpha: int): (v: bv32)
    requires 0 <= src < 32 && 0 <= col < 32 && 0 <= alpha < 256
  {
    var sum := src * (255 - alpha) + col * alpha;
    assert 0 <= sum < 8192 by {
      MulBelow(src, 255 - alpha, 31);
      MulBelow(col, alpha, 31);
    }
    (sum / 32) as bv32
  }

  lemma MulBelow(a: int, b: int, m: int)
    requires 0 <= a <= m && 0 <= b
    ensures 0 <= a * b <= m * b
  {
  }

  /** The value drawRectangle gives a pixel that held `p`: the 16-bit colour
      when alpha is 255, otherwise the blend with the pixel. */
  function RectanglePixel(color: bv32, p: bv16): bv16
  {
    var c := Color.X8R8G8B8toA1R5G5B5(color);
    var ia := Color.AlphaOf(color) as int;
    if ia == 255 then c
    else Color.RGB16(BlendChannel(Color.Red16(p) as int, Color.Red16(c) as int, ia),
                     BlendChannel(Color.Green16(p) as int, Color.Green16(c) as int, ia),
                     BlendChannel(Color.Blue16(p) as int, Color.Blue16(c) as int, ia))
  }

  /** Every pixel of the span is redrawn with `pixel`; every other pixel is kept. */
  function SpanResult(old_: seq<bv16>, width: int, s: Rect, pixel: bv16 -> bv16): (r: seq<bv16>)
    ensures |r| == |old_|
  {
    seq(|old_|, k requires 0 <= k < |old_| => if InSpan(width, k, s) then pixel(old_[k]) else old_[k])
  }

  /** Read by coordinates: pixel (px, py) is redrawn exactly when it lies in
      the span, and keeps its value otherwise. */
  lemma SpanResultAt(old_: seq<bv16>, width: int, height: int, s: Rect, pixel: bv16 -> bv16, px: int, py: int)
    requires |old_| == width * height && 0 <= px < width && 0 <= py < height
    ensures 0 <= Index(width, px, py) < |old_|
    ensures SpanResult(old_, width, s, pixel)[Index(width, px, py)] ==
      if s.Left <= px < s.Right && s.Top <= py < s.Bottom then pixel(old_[Index(width, px, py)])
      else old_[Index(width, px, py)]
  {
    IndexInRange(width, height, px, py);
    IndexCoordinates(width, px, py);
  }

  /** With alpha 255 the redrawn pixel is the 16-bit colour, whatever it held. */
  lemma OpaqueRectanglePixel(color: bv32, p: bv16)
    requires Color.AlphaOf(color) == 255
    ensures RectanglePixel(color, p) == Color.X8R8G8B8toA1R5G5B5(color)
  {
  }

  // ---------------------------------------------------------------------
  // Blits: clipRect and the clipping the copyTo variants repeat inline.  The
  // source clips columns and then rows with the same two steps, so a block
  // is a pair of one-dimensional runs.

  /** Length pixels read from Source and written to Target, along one axis. */
  datatype Run = Run(Target: int, Source: int, Length: int)

  /** A block: its run of columns and its run of rows. */
  datatype Blit = Blit(X: Run, Y: Run)

  /** The two clipping steps against [low, high): a run starting before low
      loses the pixels before it and starts reading that much further on; a
      run reaching past high is cut there.  None when a step leaves no
      length (the source's early return). */
  function ClipRun(r: Run, low: int, high: int): Option<Run>
  {
    var r1 :=
      if r.Target < low then
        var n := r.Length + r.Target - low;
        if n <= 0 then None else Some(Run(low, r.Source - (r.Target - low), n))
      else Some(r);
    if r1.Some? && r1.value.Target + r1.value.Length > high then
      var n := r1.value.Length - (r1.value.Target + r1.value.Length - high);
      if n <= 0 then None else Some(r1.value.(Length := n))
    else r1
  }

  /** A clipped run lies inside [low, high) and inside the run asked for,
      and its source moved by exactly as much as its target. */
  lemma ClipRunStaysInside(r: Run, low: int, high: int)
    requires r.Length >= 0
    ensures var c := ClipRun(r, low, high);
      c.Some? ==>
        low <= c.value.Target && c.value.Target + c.value.Length <= high && 0 <= c.value.Length <= r.Length &&
        r.Target <= c.value.Target && c.value.Target + c.value.Length <= r.Target + r.Length &&
        c.value.Source - r.Source == c.value.Target - r.Target
  {
  }

  /** For a non-empty run, clipping fails exactly when the run and [low, high)
      do not overlap, and otherwise yields their intersection. */
  lemma ClipRunIsIntersection(r: Run, low: int, high: int)
    requires r.Length > 0
    ensures var c := ClipRun(r, low, high);
            (c.None? <==> Max(r.Target, low) >= Min(r.Target + r.Length, high)) &&
            (c.Some? ==> c.value.Target == Max(r.Target, low) && c.value.Target + c.value.Length == Min(r.Target + r.Length, high))
  {
  }

  /** clipRect: the block clipped against [left, right) × [top, bottom). */
  function ClipTo(b: Blit, left: int, top: int, right: int, bottom: int): Option<Blit>
  {
    var x := ClipRun(b.X, left, right);
    if x.None? then None
    else
      var y := ClipRun(b.Y, top, bottom);
      if y.None? then None else Some(Blit(x.value, y.value))
  }

  /** The target area of a block. */
  function TargetArea(b: Blit): Rect
  {
    Rect(b.X.Target, b.Y.Target, b.X.Target + b.X.Length, b.Y.Target + b.Y.Length)
  }

  /** The block a source rectangle placed at (x, y) asks for. */
  function Requested(x: int, y: int, sourceRect: Rect): Blit
  {
    Blit(Run(x, sourceRect.Left, sourceRect.Right - sourceRect.Left), Run(y, sourceRect.Top, sourceRect.Bottom - sourceRect.Top))
  }

  /** The block a copy with a source rectangle, an optional clip rectangle
      and a target of tw × th pixels ends up writing: None for an empty or
      inverted source rectangle and whenever a clipping step returns. */
  function BlitPlan(x: int, y: int, sourceRect: Rect, clip: Option<Rect>, tw: int, th: int): Option<Blit>
  {
    if IsEmpty(sourceRect) then None
    else
      var b := Requested(x, y, sourceRect);
      var c := if clip.Some? then ClipTo(b, clip.value.Left, clip.value.Top, clip.value.Right, clip.value.Bottom) else Some(b);
      if c.None? then None else ClipTo(c.value, 0, 0, tw, th)
  }

  /** The part of the placed source rectangle inside the clip rectangle (if
      any) and the target. */
  function Visible(x: int, y: int, sourceRect: Rect, clip: Option<Rect>, tw: int, th: int): Rect
  {
    var placed := TargetArea(Requested(x, y, sourceRect));
    Intersect(if clip.Some? then Intersect(placed, clip.value) else placed, Rect(0, 0, tw, th))
  }

  /** The run clipped against [low, high) and then against [0, size). */
  lemma ClipRunTwice(r: Run, low: int, high: int, size: int)
    requires r.Length > 0
    ensures var c := ClipRun(r, low, high);
            var lo, hi := Max(Max(r.Target, low), 0), Min(Min(r.Target + r.Length, high), size);
            var d := if c.Some? then ClipRun(c.value, 0, size) else None;
            (d.None? <==> lo >= hi) &&
            (d.Some? ==> d.value.Target == lo && d.value.Target + d.value.Length == hi &&
                         d.value.Source - r.Source == d.value.Target - r.Target)
  {
    ClipRunIsIntersection(r, low, high);
    ClipRunStaysInside(r, low, high);
    var c := ClipRun(r, low, high);
    if c.Some? {
      ClipRunIsIntersection(c.value, 0, size);
      ClipRunStaysInside(c.value, 0, size);
    }
  }

  /** A copy writes exactly the visible part of the placed source rectangle,
      reading the source pixel that is as far from the source rectangle's
      corner as the written pixel is from (x, y); it writes nothing when that
      part is empty. */
  lemma BlitPlanIsIntersection(x: int, y: int, sourceRect: Rect, clip: Option<Rect>, tw: int, th: int)
    requires !IsEmpty(sourceRect)
    ensures var area := Visible(x, y, sourceRect, clip, tw, th);
            var p := BlitPlan(x, y, sourceRect, clip, tw, th);
            (p.None? <==> IsEmpty(area)) &&
            (p.Some? ==> TargetArea(p.value) == area &&
                         p.value.X.Source - sourceRect.Left == p.value.X.Target - x &&
                         p.value.Y.Source - sourceRect.Top == p.value.Y.Target - y)
  {
    var b := Requested(x, y, sourceRect);
    if clip.Some? {
      var q := clip.value;
      ClipRunTwice(b.X, q.Left, q.Right, tw);
      ClipRunTwice(b.Y, q.Top, q.Bottom, th);
    } else {
      ClipRunIsIntersection(b.X, 0, tw);
      ClipRunStaysInside(b.X, 0, tw);
      ClipRunIsIntersection(b.Y, 0, th);
      ClipRunStaysInside(b.Y, 0, th);
    }
  }

  /** The block reads inside an sw × sh source and writes inside a tw × th target. */
  predicate BlitInside(b: Blit, tw: int, th: int, sw: int, sh: int)
  {
    RunInside(b.X, tw, sw) && RunInside(b.Y, th, sh)
  }

  predicate RunInside(r: Run, targetSize: int, sourceSize: int)
  {
    0 <= r.Length && 0 <= r.Target && r.Target + r.Length <= targetSize && 0 <= r.Source && r.Source + r.Length <= sourceSize
  }

  /** A clipped run whose requested source lies in [0, sourceSize) reads there. */
  lemma ClipRunInside(r: Run, low: int, high: int, size: int, sourceSize: int)
    requires 0 <= r.Length && 0 <= r.Source && r.Source + r.Length <= sourceSize
    ensures var c := ClipRun(r, low, high);
            var d := if c.Some? then ClipRun(c.value, 0, size) else None;
            d.Some? ==> RunInside(d.value, size, sourceSize)
    ensures ClipRun(r, 0, size).Some? ==> RunInside(ClipRun(r, 0, size).value, size, sourceSize)
  {
    ClipRunStaysInside(r, low, high);
    ClipRunStaysInside(r, 0, size);
    var c := ClipRun(r, low, high);
    if c.Some? {
      ClipRunStaysInside(c.value, 0, size);
    }
  }

  /** A planned block lies inside the target, and inside the source whenever
      the source rectangle does. */
  lemma BlitPlanInside(x: int, y: int, sourceRect: Rect, clip: Option<Rect>, tw: int, th: int, sw: int, sh: int)
    requires 0 <= sourceRect.Left && sourceRect.Right <= sw && 0 <= sourceRect.Top && sourceRect.Bottom <= sh
    ensures var p := BlitPlan(x, y, sourceRect, clip, tw, th);
            p.Some? ==> BlitInside(p.value, tw, th, sw, sh)
  {
    if !IsEmpty(sourceRect) {
      var b := Requested(x, y, sourceRect);
      if clip.Some? {
        ClipRunInside(b.X, clip.value.Left, clip.value.Right, tw, sw);
        ClipRunInside(b.Y, clip.value.Top, clip.value.Bottom, th, sh);
      } else {
        ClipRunInside(b.X, 0, 0, tw, sw);
        ClipRunInside(b.Y, 0, 0, th, sh);
      }
    }
  }

  /** How far a run reads from where it writes. */
  function Offset(r: Run): int
  {
    r.Source - r.Target
  }

  /** The block reads from an sw × sh source with |src| pixels. */
  predicate SourceInside(b: Blit, src: seq<bv16>, sw: int, sh: int)
  {
    |src| == sw * sh && 0 <= b.X.Source && b.X.Source + b.X.Length <= sw && 0 <= b.Y.Source && b.Y.Source + b.Y.Length <= sh
  }

  /** The pixel written at target index k of the block's area, combined by
      `op` from the source pixel at the block's offset and the old pixel;
      any other pixel keeps its value. */
  function BlitPixel(old_: seq<bv16>, tw: int, src: seq<bv16>, sw: int, sh: int, b: Blit, op: (bv16, bv16) -> bv16, k: int): bv16
    requires SourceInside(b, src, sw, sh) && 0 <= k < |old_|
  {
    if InSpan(tw, k, TargetArea(b)) then
      var sx, sy := Col(tw, k) + Offset(b.X), Row(tw, k) + Offset(b.Y);
      IndexInRange(sw, sh, sx, sy);
      op(src[Index(sw, sx, sy)], old_[k])
    else old_[k]
  }

  /** The target after a block is copied with `op`, which combines the
      source pixel with the target pixel it lands on. */
  function BlitResult(old_: seq<bv16>, tw: int, src: seq<bv16>, sw: int, sh: int, b: Blit, op: (bv16, bv16) -> bv16): (r: seq<bv16>)
    requires SourceInside(b, src, sw, sh)
    ensures |r| == |old_|
  {
    seq(|old_|, k requires 0 <= k < |old_| => BlitPixel(old_, tw, src, sw, sh, b, op, k))
  }

  /** Read by coordinates: pixel (px, py) of the target area gets the source
      pixel at the same offset from the block's source corner; every other
      pixel keeps its value. */
  lemma BlitResultAt(old_: seq<bv16>, tw: int, th: int, src: seq<bv16>, sw: int, sh: int, b: Blit,
                     op: (bv16, bv16) -> bv16, px: int, py: int)
    requires |old_| == tw * th && |src| == sw * sh && BlitInside(b, tw, th, sw, sh)
    requires 0 <= px < tw && 0 <= py < th
    ensures var k := Index(tw, px, py);
            var sx, sy := b.X.Source + px - b.X.Target, b.Y.Source + py - b.Y.Target;
            0 <= k < |old_| &&
            if b.X.Target <= px < b.X.Target + b.X.Length && b.Y.Target <= py < b.Y.Target + b.Y.Length then
              0 <= Index(sw, sx, sy) < |src| && BlitResult(old_, tw, src, sw, sh, b, op)[k] == op(src[Index(sw, sx, sy)], old_[k])
            else BlitResult(old_, tw, src, sw, sh, b, op)[k] == old_[k]
  {
    var k := Index(tw, px, py);
    IndexInRange(tw, th, px, py);
    IndexCoordinates(tw, px, py);
    assert BlitResult(old_, tw, src, sw, sh, b, op)[k] == BlitPixel(old_, tw, src, sw, sh, b, op, k);
    if b.X.Target <= px < b.X.Target + b.X.Length && b.Y.Target <= py < b.Y.Target + b.Y.Length {
      IndexInRange(sw, sh, b.X.Source + px - b.X.Target, b.Y.Source + py - b.Y.Target);
    }
  }

  /** The first n rows of a block, and its row i alone. */
  function Rows(b: Blit, n: int): Blit
  {
    Blit(b.X, Run(b.Y.Target, b.Y.Source, n))
  }

  function RowOf(b: Blit, i: int): Blit
  {
    Blit(b.X, Run(b.Y.Target + i, b.Y.Source + i, 1))
  }

  /** The first n columns of a block. */
  function Columns(b: Blit, n: int): Blit
  {
    Blit(Run(b.X.Target, b.X.Source, n), b.Y)
  }

  /** Row iy of a block inside both surfaces, and its first iy + 1 rows, are too. */
  lemma RowsInside(b: Blit, iy: int, tw: int, th: int, sw: int, sh: int)
    requires BlitInside(b, tw, th, sw, sh) && 0 <= iy < b.Y.Length
    ensures BlitInside(RowOf(b, iy), tw, th, sw, sh) && BlitInside(Rows(b, iy + 1), tw, th, sw, sh)
    ensures RowOf(b, iy).Y.Length == 1 && RowOf(b, iy).X == b.X
    ensures RowOf(b, iy).Y.Target == b.Y.Target + iy && RowOf(b, iy).Y.Source == b.Y.Source + iy
  {
  }

  /** Copying one more pixel of a one-row block: the pixel at column ix is
      still untouched after the first ix, and writing op of it and its
      source pixel gives the result for ix + 1 columns. */
  lemma BlitColumnStep(old_: seq<bv16>, tw: int, th: int, src: seq<bv16>, sw: int, sh: int, b: Blit,
                       op: (bv16, bv16) -> bv16, ix: int)
    requires |old_| == tw * th && |src| == sw * sh && BlitInside(b, tw, th, sw, sh)
    requires b.Y.Length == 1 && 0 <= ix < b.X.Length
    ensures var k := Index(tw, b.X.Target + ix, b.Y.Target);
            var j := Index(sw, b.X.Source + ix, b.Y.Source);
            0 <= k < |old_| && 0 <= j < |src| &&
            BlitResult(old_, tw, src, sw, sh, Columns(b, ix), op)[k] == old_[k] &&
            BlitResult(old_, tw, src, sw, sh, Columns(b, ix + 1), op) ==
              BlitResult(old_, tw, src, sw, sh, Columns(b, ix), op)[k := op(src[j], old_[k])]
  {
    var k := Index(tw, b.X.Target + ix, b.Y.Target);
    IndexInRange(tw, th, b.X.Target + ix, b.Y.Target);
    IndexCoordinates(tw, b.X.Target + ix, b.Y.Target);
    IndexInRange(sw, sh, b.X.Source + ix, b.Y.Source);
    var before := BlitResult(old_, tw, src, sw, sh, Columns(b, ix), op);
    var after := BlitResult(old_, tw, src, sw, sh, Columns(b, ix + 1), op);
    assert before[k] == BlitPixel(old_, tw, src, sw, sh, Columns(b, ix), op, k);
    forall i | 0 <= i < |old_|
      ensures after[i] == before[k := op(src[Index(sw, b.X.Source + ix, b.Y.Source)], old_[k])][i]
    {
      assert after[i] == BlitPixel(old_, tw, src, sw, sh, Columns(b, ix + 1), op, i);
      assert before[i] == BlitPixel(old_, tw, src, sw, sh, Columns(b, ix), op, i);
      if i != k {
        IndexOfCoordinates(tw, i);
        assert InSpan(tw, i, TargetArea(Columns(b, ix + 1))) == InSpan(tw, i, TargetArea(Columns(b, ix)));
      }
    }
  }

  /** A block with no columns or no rows changes nothing. */
  lemma BlitEmpty(old_: seq<bv16>, tw: int, src: seq<bv16>, sw: int, sh: int, b: Blit, op: (bv16, bv16) -> bv16)
    requires SourceInside(b, src, sw, sh) && (b.X.Length == 0 || b.Y.Length == 0)
    ensures BlitResult(old_, tw, src, sw, sh, b, op) == old_
  {
    var r := BlitResult(old_, tw, src, sw, sh, b, op);
    forall i | 0 <= i < |old_|
      ensures r[i] == old_[i]
    {
      assert r[i] == BlitPixel(old_, tw, src, sw, sh, b, op, i);
    }
  }

  /** Copying row iy on top of the first iy rows gives the first iy + 1 rows. */
  lemma BlitRowStep(old_: seq<bv16>, tw: int, th: int, src: seq<bv16>, sw: int, sh: int, b: Blit,
                    op: (bv16, bv16) -> bv16, iy: int)
    requires |old_| == tw * th && |src| == sw * sh && BlitInside(b, tw, th, sw, sh)
    requires 0 <= iy < b.Y.Length
    ensures BlitResult(BlitResult(old_, tw, src, sw, sh, Rows(b, iy), op), tw, src, sw, sh, RowOf(b, iy), op) ==
            BlitResult(old_, tw, src, sw, sh, Rows(b, iy + 1), op)
  {
    var mid := BlitResult(old_, tw, src, sw, sh, Rows(b, iy), op);
    var left := BlitResult(mid, tw, src, sw, sh, RowOf(b, iy), op);
    var right := BlitResult(old_, tw, src, sw, sh, Rows(b, iy + 1), op);
    forall i | 0 <= i < |old_|
      ensures left[i] == right[i]
    {
      assert left[i] == BlitPixel(mid, tw, src, sw, sh, RowOf(b, iy), op, i);
      assert mid[i] == BlitPixel(old_, tw, src, sw, sh, Rows(b, iy), op, i);
      assert right[i] == BlitPixel(old_, tw, src, sw, sh, Rows(b, iy + 1), op, i);
    }
  }

  /** copyTo: the source pixel replaces the target pixel. */
  function CopyPixel(s: bv16, t: bv16): bv16
  {
    s
  }

  /** copyToWithAlpha: a source pixel with the alpha bit set replaces the
      target pixel; a transparent one leaves it. */
  function AlphaPixel(s: bv16, t: bv16): bv16
  {
    if s & AlphaMask != 0 then s else t
  }

  /** One channel of the tinted copy: (source channel · colour channel) >> 2. */
  function TintChannel(src: int, col: int): (v: bv32)
    requires 0 <= src < 32 && 0 <= col < 32
  {
    assert 0 <= src * col < 1024 by {
      MulBelow(src, col, 31);
    }
    (src * col / 4) as bv32
  }

  /** copyToWithAlpha with a colour: an opaque source pixel is written
      tinted by the colour (channel by channel) and without its alpha bit. */
  function TintPixel(color: bv16, s: bv16, t: bv16): bv16
  {
    if s & AlphaMask != 0 then
      Color.RGB16(TintChannel(Color.Red16(s) as int, Color.Red16(color) as int),
                  TintChannel(Color.Green16(s) as int, Color.Green16(color) as int),
                  TintChannel(Color.Blue16(s) as int, Color.Blue16(color) as int))
    else t
  }

  // ---------------------------------------------------------------------
  // drawLine: Bresenham's walk.  Along the main axis (the one with the
  // larger distance; y on a tie) the line advances one pixel per step; the
  // error term D starts at half the main distance, loses the minor distance
  // every step, and when it drops below zero the minor coordinate climbs
  // one pixel and D gains the main distance back.

  /** position2d<s32>. */
  datatype Point = Point(X: int, Y: int)

  /** Minor-axis climbs made and error term, after some steps. */
  datatype Walk = Walk(Climbs: int, D: int)

  function WalkAfter(i: nat, half: int, dMain: int, dMinor: int): Walk
  {
    if i == 0 then Walk(0, half)
    else
      var w := WalkAfter(i - 1, half, dMain, dMinor);
      var d := w.D - dMinor;
      if d < 0 then Walk(w.Climbs + 1, d + dMain) else Walk(w.Climbs, d)
  }

  /** The error term stays in [0, dMain) and balances the climbs against
      the distance covered: D + i · dMinor == half + Climbs · dMain. */
  lemma {:induction false} WalkInvariant(i: nat, half: int, dMain: int, dMinor: int)
    requires 0 <= dMinor <= dMain && 0 <= half < dMain
    ensures var w := WalkAfter(i, half, dMain, dMinor);
            0 <= w.D < dMain && w.D + i * dMinor == half + w.Climbs * dMain
  {
    if i > 0 {
      WalkInvariant(i - 1, half, dMain, dMinor);
      var w := WalkAfter(i - 1, half, dMain, dMinor);
      assert i * dMinor == (i - 1) * dMinor + dMinor;
      assert (w.Climbs + 1) * dMain == w.Climbs * dMain + dMain;
    }
  }

  /** Closed form: after i steps the walk has climbed
      ⌈(i · dMinor − half) / dMain⌉ times, which for half = dMain / 2 is
      i · dMinor / dMain rounded to the nearest integer. */
  lemma WalkClosedForm(i: nat, half: int, dMain: int, dMinor: int)
    requires 0 <= dMinor <= dMain && 0 <= half < dMain
    ensures WalkAfter(i, half, dMain, dMinor).Climbs == (i * dMinor + dMain - 1 - half) / dMain
  {
    var w := WalkAfter(i, half, dMain, dMinor);
    WalkInvariant(i, half, dMain, dMinor);
    RemainderOf(i * dMinor + dMain - 1 - half, dMain, w.Climbs, dMain - 1 - w.D);
  }

  /** After dMain steps the walk has climbed exactly dMinor times. */
  lemma WalkReachesEnd(half: int, dMain: int, dMinor: int)
    requires 0 <= dMinor <= dMain && 0 <= half < dMain
    ensures WalkAfter(dMain, half, dMain, dMinor).Climbs == dMinor
  {
    WalkClosedForm(dMain, half, dMain, dMinor);
    RemainderOf(dMain * dMinor + dMain - 1 - half, dMain, dMinor, dMain - 1 - half);
  }

  /** Distance and direction along one axis. */
  function Distance(from: int, to: int): nat
  {
    if to - from < 0 then from - to else to - from
  }

  function Direction(from: int, to: int): int
  {
    if to - from < 0 then -1 else 1
  }

  /** n pixels from base in the direction of step. */
  function Toward(base: int, step: int, n: int): int
  {
    if step < 0 then base - n else base + n
  }

  /** The line walks along x when it is strictly longer in x. */
  predicate XMajor(from: Point, to: Point)
  {
    Distance(from.X, to.X) > Distance(from.Y, to.Y)
  }

  /** The number of points drawLine visits. */
  function LineLength(from: Point, to: Point): nat
  {
    if XMajor(from, to) then Distance(from.X, to.X) else Distance(from.Y, to.Y)
  }

  /** The i-th point drawLine visits. */
  function LinePoint(from: Point, to: Point, i: nat): Point
  {
    var dx, dy := Distance(from.X, to.X), Distance(from.Y, to.Y);
    var sx, sy := Direction(from.X, to.X), Direction(from.Y, to.Y);
    if XMajor(from, to) then Point(Toward(from.X, sx, i), Toward(from.Y, sy, WalkAfter(i, dx / 2, dx, dy).Climbs))
    else Point(Toward(from.X, sx, WalkAfter(i, dy / 2, dy, dx).Climbs), Toward(from.Y, sy, i))
  }

  /** The line starts at `from`, visits max(|dx|, |dy|) points, and the point
      after the last one would be `to`: the end point itself is not drawn. */
  lemma LineEnds(from: Point, to: Point)
    ensures LineLength(from, to) == Max(Distance(from.X, to.X), Distance(from.Y, to.Y))
    ensures LinePoint(from, to, 0) == from
    ensures LinePoint(from, to, LineLength(from, to)) == to
  {
    var dx, dy := Distance(from.X, to.X), Distance(from.Y, to.Y);
    if XMajor(from, to) {
      WalkReachesEnd(dx / 2, dx, dy);
    } else if dy > 0 {
      WalkReachesEnd(dy / 2, dy, dx);
    }
  }

  /** Consecutive points are neighbours: one step along the main axis and
      at most one, towards `to`, along the other. */
  lemma LineIsConnected(from: Point, to: Point, i: nat)
    ensures var p, q := LinePoint(from, to, i), LinePoint(from, to, i + 1);
            var sx, sy := Direction(from.X, to.X), Direction(from.Y, to.Y);
            if XMajor(from, to) then q.X == p.X + sx && (q.Y == p.Y || q.Y == p.Y + sy)
            else q.Y == p.Y + sy && (q.X == p.X || q.X == p.X + sx)
  {
  }

  /** The buffer after the first n points are plotted: setPixelFast for
      every point inside the surface, nothing for the others. */
  function PlotLine(old_: seq<bv16>, width: int, height: int, from: Point, to: Point, color: bv16, n: nat): (r: seq<bv16>)
    requires |old_| == width * height
    ensures |r| == |old_|
  {
    if n == 0 then old_
    else
      var prev := PlotLine(old_, width, height, from, to, color, n - 1);
      var p := LinePoint(from, to, n - 1);
      if 0 <= p.X < width && 0 <= p.Y < height then
        IndexInRange(width, height, p.X, p.Y);
        prev[Index(width, p.X, p.Y) := color]
      else prev
  }

  /** Plotting point n on top of the first n points. */
  lemma PlotLineNext(old_: seq<bv16>, width: int, height: int, from: Point, to: Point, color: bv16, n: nat)
    requires |old_| == width * height
    ensures var p := LinePoint(from, to, n);
            0 <= p.X < width && 0 <= p.Y < height ==> 0 <= Index(width, p.X, p.Y) < |old_|
    ensures var prev := PlotLine(old_, width, height, from, to, color, n);
            var p := LinePoint(from, to, n);
            PlotLine(old_, width, height, from, to, color, n + 1) ==
              if 0 <= p.X < width && 0 <= p.Y < height then prev[Index(width, p.X, p.Y) := color] else prev
  {
    var p := LinePoint(from, to, n);
    if 0 <= p.X < width && 0 <= p.Y < height {
      IndexInRange(width, height, p.X, p.Y);
    }
  }

  /** Pixel (px, py) ends up with the colour exactly when one of the first n
      points is (px, py); otherwise it keeps its value. */
  lemma {:induction false} PlotLineAt(old_: seq<bv16>, width: int, height: int, from: Point, to: Point, color: bv16,
                                      n: nat, px: int, py: int)
    requires |old_| == width * height && 0 <= px < width && 0 <= py < height
    ensures 0 <= Index(width, px, py) < |old_|
    ensures PlotLine(old_, width, height, from, to, color, n)[Index(width, px, py)] ==
      if exists i :: 0 <= i < n && LinePoint(from, to, i) == Point(px, py) then color else old_[Index(width, px, py)]
  {
    IndexInRange(width, height, px, py);
    if n > 0 {
      PlotLineAt(old_, width, height, from, to, color, n - 1, px, py);
      var p := LinePoint(from, to, n - 1);
      if 0 <= p.X < width && 0 <= p.Y < height && p != Point(px, py) {
        IndexCoordinates(width, p.X, p.Y);
        IndexCoordinates(width, px, py);
      }
    }
  }

  class Surface {
    const Width: int
    const Height: int
    const Data: array<bv16>

    ghost predicate Valid()
      reads this
    {
      0 <= Width && 0 <= Height && Data.Length == Width * Height
    }

    /** The constructor: a Width × Height buffer with unspecified contents. */
    constructor (width: int, height: int)
      requires 0 <= width && 0 <= height
      ensures Valid() && Width == width && Height == height && fresh(Data)
    {
      Width := width;
      Height := height;
      Data := new bv16[width * height];
    }

    /** getPixel, as written or with the corrected bounds check.  None is a
        read past the end of the buffer, which only the as-written check
        lets through. */
    function GetPixel(v: Variant, x: int, y: int): (c: Option<bv16>)
      requires Valid()
      reads this, Data
      ensures GetPixelIndex(Width, Height, x, y).Some? ==> c == Some(Data[GetPixelIndex(Width, Height, x, y).value])
      ensures v == Corrected && GetPixelIndex(Width, Height, x, y).None? ==> c == Some(0)
      ensures v == AsWritten && GetPixelIndexAsWritten(Width, Height, x, y).None? ==> c == Some(0)
      ensures v == AsWritten ==>
        (c == None <==> GetPixelIndexAsWritten(Width, Height, x, y).Some? &&
                        GetPixelIndexAsWritten(Width, Height, x, y).value >= Data.Length)
      ensures v == AsWritten && GetPixelIndexAsWritten(Width, Height, x, y).Some? &&
              GetPixelIndexAsWritten(Width, Height, x, y).value < Data.Length ==>
        c == Some(Data[GetPixelIndexAsWritten(Width, Height, x, y).value])
    {
      var i := if v == Corrected then GetPixelIndex(Width, Height, x, y) else GetPixelIndexAsWritten(Width, Height, x, y);
      if i.None? then Some(0)
      else if i.value >= Data.Length then None
      else Some(Data[i.value])
    }

    /** setPixel, as written or with the corrected clamp.  `fault` is a
        write past the end of the buffer, which only the as-written clamp
        lets through; the corrected clamp has nothing to write on an empty
        surface. */
    method SetPixel(v: Variant, x: int, y: int, color: bv16) returns (fault: bool)
      requires Valid()
      modifies Data
      ensures v == AsWritten ==>
        (fault <==> SetPixelIndexAsWritten(Width, Height, x, y) >= Data.Length)
      ensures v == AsWritten && !fault ==>
        Data[..] == old(Data[..])[SetPixelIndexAsWritten(Width, Height, x, y) := color]
      ensures v == Corrected ==> !fault
      ensures v == Corrected && Width > 0 && Height > 0 ==>
        Data[..] == old(Data[..])[SetPixelIndex(Width, Height, x, y) := color]
      ensures fault || (v == Corrected && (Width == 0 || Height == 0)) ==> Data[..] == old(Data[..])
    {
      if v == AsWritten {
        var i := SetPixelIndexAsWritten(Width, Height, x, y);
        fault := i >= Data.Length;
        if !fault {
          Data[i] := color;
        }
      } else {
        fault := false;
        if Width > 0 && Height > 0 {
          Data[SetPixelIndex(Width, Height, x, y)] := color;
        }
      }
    }

    /** drawRectangle(x, y, x2, y2, color): every pixel of the clamped span
        gets RectanglePixel of its old value. */
    method DrawRectangle(x: int, y: int, x2: int, y2: int, color: bv32)
      requires Valid()
      modifies Data
      ensures Data[..] == SpanResult(old(Data[..]), Width, ClampedSpan(Width, Height, x, y, x2, y2), p => RectanglePixel(color, p))
    {
      var s := ClampedSpan(Width, Height, x, y, x2, y2);
      RedrawSpan(s, p => RectanglePixel(color, p));
    }

    /** The row-by-row loop of drawRectangle over a span inside the surface. */
    method RedrawSpan(s: Rect, pixel: bv16 -> bv16)
      requires Valid() && 0 <= s.Left <= s.Right <= Width && 0 <= s.Top <= s.Bottom <= Height
      modifies Data
      ensures Data[..] == SpanResult(old(Data[..]), Width, s, pixel)
    {
      var l := s.Top * Width;
      var iy := s.Top;
      while iy < s.Bottom
        invariant s.Top <= iy <= s.Bottom && l == iy * Width
        invariant forall k :: 0 <= k < Data.Length ==>
          Data[k] == if InSpan(Width, k, Rect(s.Left, s.Top, s.Right, iy)) then pixel(old(Data[k])) else old(Data[k])
      {
        RedrawRow(s.Left, s.Right, iy, l, pixel);
        l := l + Width;
        iy := iy + 1;
      }
    }

    /** The inner loop: pixels left .. right - 1 of row y, whose first pixel
        is at index l. */
    method RedrawRow(left: int, right: int, y: int, l: int, pixel: bv16 -> bv16)
      requires Valid() && 0 <= left <= right <= Width && 0 <= y < Height && l == y * Width
      modifies Data
      ensures forall k :: 0 <= k < Data.Length ==>
        Data[k] == if InSpan(Width, k, Rect(left, y, right, y + 1)) then pixel(old(Data[k])) else old(Data[k])
    {
      var ix := left;
      while ix < right
        invariant left <= ix <= right
        invariant forall k :: 0 <= k < Data.Length ==>
          Data[k] == if InSpan(Width, k, Rect(left, y, ix, y + 1)) then pixel(old(Data[k])) else old(Data[k])
      {
        IndexInRange(Width, Height, ix, y);
        IndexCoordinates(Width, ix, y);
        forall k | 0 <= k < Data.Length && Width > 0 && Row(Width, k) == y && Col(Width, k) == ix
          ensures k == l + ix
        {
          IndexOfCoordinates(Width, k);
        }
        Data[l + ix] := pixel(Data[l + ix]);
        ix := ix + 1;
      }
    }

    /** The row-by-row copy loop the copyTo variants share, over a block
        that lies inside both surfaces. */
    method CopyBlock(target: Surface, b: Blit, op: (bv16, bv16) -> bv16)
      requires Valid() && target.Valid() && target.Data != Data
      requires BlitInside(b, target.Width, target.Height, Width, Height)
      modifies target.Data
      ensures target.Data[..] == BlitResult(old(target.Data[..]), target.Width, Data[..], Width, Height, b, op)
    {
      var tw := target.Width;
      var ltarget := b.Y.Target * tw + b.X.Target;
      var lsource := b.Y.Source * Width + b.X.Source;
      var iy := 0;
      BlitEmpty(old(target.Data[..]), tw, Data[..], Width, Height, Rows(b, 0), op);
      while iy < b.Y.Length
        invariant 0 <= iy <= b.Y.Length
        invariant ltarget == Index(tw, b.X.Target, b.Y.Target + iy) && lsource == Index(Width, b.X.Source, b.Y.Source + iy)
        invariant target.Data[..] == BlitResult(old(target.Data[..]), tw, Data[..], Width, Height, Rows(b, iy), op)
      {
        RowsInside(b, iy, tw, target.Height, Width, Height);
        CopyRow(target, RowOf(b, iy), ltarget, lsource, op);
        BlitRowStep(old(target.Data[..]), tw, target.Height, Data[..], Width, Height, b, op, iy);
        IndexNextRow(tw, b.X.Target, b.Y.Target + iy);
        IndexNextRow(Width, b.X.Source, b.Y.Source + iy);
        lsource := lsource + Width;
        ltarget := ltarget + tw;
        iy := iy + 1;
      }
    }

    /** One row of the copy: memcpy, or the per-pixel loop of the alpha variants. */
    method CopyRow(target: Surface, b: Blit, ltarget: int, lsource: int, op: (bv16, bv16) -> bv16)
      requires Valid() && target.Valid() && target.Data != Data
      requires BlitInside(b, target.Width, target.Height, Width, Height) && b.Y.Length == 1
      requires ltarget == Index(target.Width, b.X.Target, b.Y.Target) && lsource == Index(Width, b.X.Source, b.Y.Source)
      modifies target.Data
      ensures target.Data[..] == BlitResult(old(target.Data[..]), target.Width, Data[..], Width, Height, b, op)
    {
      var ix := 0;
      BlitEmpty(old(target.Data[..]), target.Width, Data[..], Width, Height, Columns(b, 0), op);
      while ix < b.X.Length
        invariant 0 <= ix <= b.X.Length
        invariant target.Data[..] == BlitResult(old(target.Data[..]), target.Width, Data[..], Width, Height, Columns(b, ix), op)
      {
        BlitColumnStep(old(target.Data[..]), target.Width, target.Height, Data[..], Width, Height, b, op, ix);
        target.Data[ltarget + ix] := op(Data[lsource + ix], target.Data[ltarget + ix]);
        ix := ix + 1;
      }
    }

    /** copyTo(target, x, y): the whole surface placed at (x, y), clipped
        against the target. */
    method CopyTo(target: Surface, x: int, y: int)
      requires Valid() && target.Valid() && target.Data != Data
      modifies target.Data
      ensures var p := ClipTo(Blit(Run(x, 0, Width), Run(y, 0, Height)), 0, 0, target.Width, target.Height);
        target.Data[..] ==
          if p.None? then old(target.Data[..])
          else BlitResult(old(target.Data[..]), target.Width, Data[..], Width, Height, p.value, CopyPixel)
    {
      var b := Blit(Run(x, 0, Width), Run(y, 0, Height));
      ClipRunInside(b.X, 0, 0, target.Width, Width);
      ClipRunInside(b.Y, 0, 0, target.Height, Height);
      var p := ClipTo(b, 0, 0, target.Width, target.Height);
      if p.None? {
        return;
      }
      CopyBlock(target, p.value, CopyPixel);
    }

    /** copyTo(target, pos, sourceRect, clipRect): the source rectangle placed
        at (x, y), clipped against the clip rectangle when there is one and
        then against the target. */
    method CopyToRect(target: Surface, x: int, y: int, sourceRect: Rect, clipRect: Option<Rect>)
      requires Valid() && target.Valid() && target.Data != Data
      requires 0 <= sourceRect.Left && sourceRect.Right <= Width && 0 <= sourceRect.Top && sourceRect.Bottom <= Height
      modifies target.Data
      ensures var p := BlitPlan(x, y, sourceRect, clipRect, target.Width, target.Height);
        target.Data[..] ==
          if p.None? then old(target.Data[..])
          else BlitResult(old(target.Data[..]), target.Width, Data[..], Width, Height, p.value, CopyPixel)
    {
      BlitPlanInside(x, y, sourceRect, clipRect, target.Width, target.Height, Width, Height);
      var p := BlitPlan(x, y, sourceRect, clipRect, target.Width, target.Height);
      if p.None? {
        return;
      }
      CopyBlock(target, p.value, CopyPixel);
    }

    /** copyToWithAlpha(target, pos, sourceRect): like copyTo with a source
        rectangle and no clip rectangle, skipping transparent source pixels. */
    method CopyToWithAlpha(target: Surface, x: int, y: int, sourceRect: Rect)
      requires Valid() && target.Valid() && target.Data != Data
      requires 0 <= sourceRect.Left && sourceRect.Right <= Width && 0 <= sourceRect.Top && sourceRect.Bottom <= Height
      modifies target.Data
      ensures var p := BlitPlan(x, y, sourceRect, None, target.Width, target.Height);
        target.Data[..] ==
          if p.None? then old(target.Data[..])
          else BlitResult(old(target.Data[..]), target.Width, Data[..], Width, Height, p.value, AlphaPixel)
    {
      BlitPlanInside(x, y, sourceRect, None, target.Width, target.Height, Width, Height);
      var p := BlitPlan(x, y, sourceRect, None, target.Width, target.Height);
      if p.None? {
        return;
      }
      CopyBlock(target, p.value, AlphaPixel);
    }

    /** copyToWithAlpha(target, pos, sourceRect, color, clipRect): the opaque
        source pixels of the visible part, tinted by the colour. */
    method CopyToWithAlphaColor(target: Surface, x: int, y: int, sourceRect: Rect, color: bv16, clipRect: Option<Rect>)
      requires Valid() && target.Valid() && target.Data != Data
      requires 0 <= sourceRect.Left && sourceRect.Right <= Width && 0 <= sourceRect.Top && sourceRect.Bottom <= Height
      modifies target.Data
      ensures var p := BlitPlan(x, y, sourceRect, clipRect, target.Width, target.Height);
        target.Data[..] ==
          if p.None? then old(target.Data[..])
          else BlitResult(old(target.Data[..]), target.Width, Data[..], Width, Height, p.value, (s, t) => TintPixel(color, s, t))
    {
      BlitPlanInside(x, y, sourceRect, clipRect, target.Width, target.Height, Width, Height);
      var p := BlitPlan(x, y, sourceRect, clipRect, target.Width, target.Height);
      if p.None? {
        return;
      }
      CopyBlock(target, p.value, (s, t) => TintPixel(color, s, t));
    }

    /** drawLine(from, to, color): plots the line's points that lie inside. */
    method DrawLine(from: Point, to: Point, color: bv16)
      requires Valid()
      modifies Data
      ensures Data[..] == PlotLine(old(Data[..]), Width, Height, from, to, color, LineLength(from, to))
    {
      var deltax, deltay := to.X - from.X, to.Y - from.Y;
      var stepx := if deltax < 0 then -1 else 1;
      var stepy := if deltay < 0 then -1 else 1;
      deltax, deltay := deltax * stepx, deltay * stepy;
      if deltax > deltay {
        DrawAlongX(from, to, color, stepx, stepy, deltax, deltay);
      } else {
        DrawAlongY(from, to, color, stepx, stepy, deltax, deltay);
      }
    }

    /** The loop of drawLine when x is the main axis. */
    method DrawAlongX(from: Point, to: Point, color: bv16, stepx: int, stepy: int, deltax: int, deltay: int)
      requires Valid() && XMajor(from, to)
      requires stepx == Direction(from.X, to.X) && stepy == Direction(from.Y, to.Y)
      requires deltax == Distance(from.X, to.X) && deltay == Distance(from.Y, to.Y)
      modifies Data
      ensures Data[..] == PlotLine(old(Data[..]), Width, Height, from, to, color, LineLength(from, to))
    {
      var x, y := from.X, from.Y;
      var d := deltax / 2;
      ghost var i: nat := 0;
      ghost var climbs := 0;
      while x != to.X
        invariant 0 <= i <= deltax && x == Toward(from.X, stepx, i) && y == Toward(from.Y, stepy, climbs)
        invariant Walk(climbs, d) == WalkAfter(i, deltax / 2, deltax, deltay)
        invariant Data[..] == PlotLine(old(Data[..]), Width, Height, from, to, color, i)
        decreases deltax - i
      {
        assert LinePoint(from, to, i) == Point(x, y);
        PlotLineNext(old(Data[..]), Width, Height, from, to, color, i);
        if x >= 0 && y >= 0 && x < Width && y < Height {
          IndexInRange(Width, Height, x, y);
          Data[y * Width + x] := color;
        }
        d := d - deltay;
        if d < 0 {
          y := y + stepy;
          d := d + deltax;
          climbs := climbs + 1;
        }
        x := x + stepx;
        i := i + 1;
      }
    }

    /** The loop of drawLine when y is the main axis (also on a tie). */
    method DrawAlongY(from: Point, to: Point, color: bv16, stepx: int, stepy: int, deltax: int, deltay: int)
      requires Valid() && !XMajor(from, to)
      requires stepx == Direction(from.X, to.X) && stepy == Direction(from.Y, to.Y)
      requires deltax == Distance(from.X, to.X) && deltay == Distance(from.Y, to.Y)
      modifies Data
      ensures Data[..] == PlotLine(old(Data[..]), Width, Height, from, to, color, LineLength(from, to))
    {
      var x, y := from.X, from.Y;
      var d := deltay / 2;
      ghost var i: nat := 0;
      ghost var climbs := 0;
      while y != to.Y
        invariant 0 <= i <= deltay && y == Toward(from.Y, stepy, i) && x == Toward(from.X, stepx, climbs)
        invariant Walk(climbs, d) == WalkAfter(i, deltay / 2, deltay, deltax)
        invariant Data[..] == PlotLine(old(Data[..]), Width, Height, from, to, color, i)
        decreases deltay - i
      {
        assert LinePoint(from, to, i) == Point(x, y);
        PlotLineNext(old(Data[..]), Width, Height, from, to, color, i);
        if x >= 0 && y >= 0 && x < Width && y < Height {
          IndexInRange(Width, Height, x, y);
          Data[y * Width + x] := color;
        }
        d := d - deltax;
        if d < 0 {
          x := x + stepx;
          d := d + deltay;
          climbs := climbs + 1;
        }
        y := y + stepy;
        i := i + 1;
      }
    }

    /** fill: the first 2 * (DataSize / 2) pixels become the colour. */
    method Fill(color: bv16)
      requires Valid()
      modifies Data
      ensures Data[..] == FillResult(old(Data[..]), color)
    {
      var words := Data.Length / 2;
      var p := 0;
      while p != words
        invariant 0 <= p <= words
        invariant forall k :: 0 <= k < Data.Length ==> Data[k] == if k < 2 * p then color else old(Data[k])
      {
        Data[2 * p] := color;
        Data[2 * p + 1] := color;
        p := p + 1;
      }
    }
  }

  /** On every non-empty surface, getPixel as written reads one past the
      buffer at (Width, Height - 1), where the corrected check returns 0;
      and setPixel as written clamps (Width, Height - 1) onto that same
      index. */
  lemma PixelPastEnd(s: Surface)
    requires s.Valid() && s.Width > 0 && s.Height > 0
    ensures s.GetPixel(AsWritten, s.Width, s.Height - 1) == None
    ensures s.GetPixel(Corrected, s.Width, s.Height - 1) == Some(0)
    ensures SetPixelIndexAsWritten(s.Width, s.Height, s.Width + 1, s.Height - 1) == s.Data.Length
  {
    assert Index(s.Width, s.Width, s.Height - 1) == s.Width * s.Height;
  }
}
