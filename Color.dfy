// Colour packing of the engine: the 16-bit A1R5G5B5 format used by the
// software surfaces and the 32-bit A8R8G8B8 `Color` class.
//
// The source stores both formats in signed C integers (s16, s32).  Every
// operation here is a shift followed by a mask, so the bit pattern is what
// matters; the model uses bv16 / bv32 for those patterns.  After masking,
// arithmetic and logical right shifts agree, so `>>` on bit-vectors is exact.
module Color {

  /** Alpha bit, and red / green / blue fields of an A1R5G5B5 value. */
  function Red16(c: bv16): (r: bv16)
    ensures r < 32
  {
    (c >> 10) & 0x1F
  }

  function Green16(c: bv16): (g: bv16)
    ensures g < 32
  {
    (c >> 5) & 0x1F
  }

  function Blue16(c: bv16): (b: bv16)
    ensures b < 32
  {
    c & 0x1F
  }

  function Alpha16(c: bv16): (a: bv16)
    ensures a < 2
  {
    (c >> 15) & 1
  }

  /** The five most significant of the low eight bits of an s32 channel. */
  function Top5(x: bv32): bv16
  {
    ((x >> 3) & 0x1F) as bv16
  }

  /** RGB16: a 16-bit colour from three 8-bit channels; the alpha bit is never set. */
  function RGB16(r: bv32, g: bv32, b: bv32): (c: bv16)
    ensures Alpha16(c) == 0
    ensures Red16(c) == Top5(r) && Green16(c) == Top5(g) && Blue16(c) == Top5(b)
  {
    (Top5(r) << 10) | (Top5(g) << 5) | Top5(b)
  }

  /** For channels in 0..255 the packed fields are the channels divided by 8. */
  lemma RGB16OfBytes(r: bv32, g: bv32, b: bv32)
    requires r < 256 && g < 256 && b < 256
    ensures Red16(RGB16(r, g, b)) == (r >> 3) as bv16
    ensures Green16(RGB16(r, g, b)) == (g >> 3) as bv16
    ensures Blue16(RGB16(r, g, b)) == (b >> 3) as bv16
  {
  }

  /** A8R8G8B8 channel accessors of a packed 32-bit value. */
  function AlphaOf(c: bv32): (a: bv32) ensures a < 256 { (c >> 24) & 0xFF }
  function RedOf(c: bv32): (r: bv32) ensures r < 256 { (c >> 16) & 0xFF }
  function GreenOf(c: bv32): (g: bv32) ensures g < 256 { (c >> 8) & 0xFF }
  function BlueOf(c: bv32): (b: bv32) ensures b < 256 { c & 0xFF }

  /** X8R8G8B8toA1R5G5B5: keeps the top five bits of red, green and blue. */
  function X8R8G8B8toA1R5G5B5(c: bv32): (s: bv16)
    ensures Alpha16(s) == 0
    ensures Red16(s) == Top5(RedOf(c)) && Green16(s) == Top5(GreenOf(c)) && Blue16(s) == Top5(BlueOf(c))
  {
    RGB16(c >> 16, c >> 8, c)
  }

  /** A1R5G5B5toA8R8G8B8: widens each 5-bit field into the top of its byte. */
  function A1R5G5B5toA8R8G8B8(s: bv16): (c: bv32)
    ensures RedOf(c) == (Red16(s) as bv32) << 3
    ensures GreenOf(c) == (Green16(s) as bv32) << 3
    ensures BlueOf(c) == (Blue16(s) as bv32) << 3
    ensures (c >> 31) == Alpha16(s) as bv32
  {
    ((Alpha16(s) as bv32) << 31) | ((Red16(s) as bv32) << 19)
      | ((Green16(s) as bv32) << 11) | ((Blue16(s) as bv32) << 3)
  }

  /** Widening then narrowing gives back the colour with its alpha bit cleared. */
  lemma RoundTrip16(s: bv16)
    ensures X8R8G8B8toA1R5G5B5(A1R5G5B5toA8R8G8B8(s)) == s & 0x7FFF
  {
    var c := A1R5G5B5toA8R8G8B8(s);
    assert RedOf(c) == (Red16(s) as bv32) << 3;
    assert GreenOf(c) == (Green16(s) as bv32) << 3;
    assert BlueOf(c) == (Blue16(s) as bv32) << 3;
  }

  /** The packed value the four-channel constructor and `set` produce. */
  function Pack(a: bv32, r: bv32, g: bv32, b: bv32): (c: bv32)
    ensures AlphaOf(c) == a & 0xFF && RedOf(c) == r & 0xFF
    ensures GreenOf(c) == g & 0xFF && BlueOf(c) == b & 0xFF
  {
    ((a & 0xFF) << 24) | ((r & 0xFF) << 16) | ((g & 0xFF) << 8) | (b & 0xFF)
  }

  /** A packed value is determined by its four channels. */
  lemma ChannelsDetermine(c: bv32, d: bv32)
    requires AlphaOf(c) == AlphaOf(d) && RedOf(c) == RedOf(d)
    requires GreenOf(c) == GreenOf(d) && BlueOf(c) == BlueOf(d)
    ensures c == d
  {
  }

  /** toOpenGLColor: exchanges the red and blue bytes. */
  function ToOpenGL(c: bv32): (o: bv32)
    ensures AlphaOf(o) == AlphaOf(c) && GreenOf(o) == GreenOf(c)
    ensures RedOf(o) == BlueOf(c) && BlueOf(o) == RedOf(c)
  {
    Pack(AlphaOf(c), BlueOf(c), GreenOf(c), RedOf(c))
  }

  lemma ToOpenGLInvolution(c: bv32)
    ensures ToOpenGL(ToOpenGL(c)) == c
  {
    ChannelsDetermine(ToOpenGL(ToOpenGL(c)), c);
  }

  /** The 32-bit ARGB colour class; the channel setters update its one field. */
  class Color {
    var color: bv32

    constructor (a: bv32, r: bv32, g: bv32, b: bv32)
      ensures color == Pack(a, r, g, b)
    {
      color := Pack(a, r, g, b);
    }

    constructor FromValue(clr: bv32)
      ensures color == clr
    {
      color := clr;
    }

    function GetAlpha(): (a: bv32) reads this ensures a == AlphaOf(color) { (color >> 24) & 0xFF }
    function GetRed(): (r: bv32) reads this ensures r == RedOf(color) { (color >> 16) & 0xFF }
    function GetGreen(): (g: bv32) reads this ensures g == GreenOf(color) { (color >> 8) & 0xFF }
    function GetBlue(): (b: bv32) reads this ensures b == BlueOf(color) { color & 0xFF }

    method SetAlpha(a: bv32)
      modifies this
      ensures GetAlpha() == a & 0xFF
      ensures GetRed() == old(GetRed()) && GetGreen() == old(GetGreen()) && GetBlue() == old(GetBlue())
    {
      color := Pack(a, RedOf(color), GreenOf(color), BlueOf(color));
    }

    method SetRed(r: bv32)
      modifies this
      ensures GetRed() == r & 0xFF
      ensures GetAlpha() == old(GetAlpha()) && GetGreen() == old(GetGreen()) && GetBlue() == old(GetBlue())
    {
      color := Pack(AlphaOf(color), r, GreenOf(color), BlueOf(color));
    }

    method SetGreen(g: bv32)
      modifies this
      ensures GetGreen() == g & 0xFF
      ensures GetAlpha() == old(GetAlpha()) && GetRed() == old(GetRed()) && GetBlue() == old(GetBlue())
    {
      color := Pack(AlphaOf(color), RedOf(color), g, BlueOf(color));
    }

    method SetBlue(b: bv32)
      modifies this
      ensures GetBlue() == b & 0xFF
      ensures GetAlpha() == old(GetAlpha()) && GetRed() == old(GetRed()) && GetGreen() == old(GetGreen())
    {
      color := Pack(AlphaOf(color), RedOf(color), GreenOf(color), b);
    }

    /** `set` gives the same value as the four-channel constructor. */
    method Set(a: bv32, r: bv32, g: bv32, b: bv32)
      modifies this
      ensures color == Pack(a, r, g, b)
      ensures GetAlpha() == a & 0xFF && GetRed() == r & 0xFF && GetGreen() == g & 0xFF && GetBlue() == b & 0xFF
    {
      color := Pack(a, r, g, b);
    }

    /** toA1R5G5B5: RGB16 of the three colour channels, dropping alpha. */
    function ToA1R5G5B5(): (s: bv16)
      reads this
      ensures Alpha16(s) == 0
      ensures Red16(s) == Top5(GetRed()) && Green16(s) == Top5(GetGreen()) && Blue16(s) == Top5(GetBlue())
    {
      X8R8G8B8toA1R5G5B5(color)
    }

    function ToOpenGLColor(): (o: bv32)
      reads this
      ensures RedOf(o) == GetBlue() && BlueOf(o) == GetRed()
      ensures AlphaOf(o) == GetAlpha() && GreenOf(o) == GetGreen()
    {
      ToOpenGL(color)
    }

    /** `==` and `!=` compare the packed value and are exact complements. */
    predicate Equals(other: Color)
      reads this, other
    {
      other.color == color
    }

    predicate NotEquals(other: Color)
      reads this, other
      ensures NotEquals(other) <==> !Equals(other)
    {
      other.color != color
    }
  }
}
