// Shared helpers: an optional value, and the engine's fixed-width integer
// conversions (u32 = unsigned 32-bit, s32 = signed 32-bit two's complement)
// written out over unbounded integers.
module Common {

  datatype Option<T> = None | Some(value: T)

  /** Where the source has a slip, an operation is modelled twice: as the
      code is written, and as it is evidently meant. */
  datatype Variant = AsWritten | Corrected

  /** An unsigned byte (u8). */
  type Byte = x: int | 0 <= x < 256

  const Word: int := 0x1_0000_0000
  const S32Min: int := -0x8000_0000
  const S32Max: int := 0x7fff_ffff

  predicate IsU32(x: int) { 0 <= x < Word }
  predicate IsS32(x: int) { S32Min <= x <= S32Max }

  /** The u32 value of an integer: arithmetic modulo 2^32. */
  function U32(x: int): (r: int)
    ensures IsU32(r) && (r - x) % Word == 0
    ensures IsU32(x) ==> r == x
  {
    x % Word
  }

  /** The s32 value of an integer: the two's complement reading of its low 32 bits. */
  function S32(x: int): (r: int)
    ensures IsS32(r) && (r - x) % Word == 0
    ensures IsS32(x) ==> r == x
  {
    var u := U32(x);
    if u > S32Max then u - Word else u
  }

  /** rectEx<s32>: UpperLeftCorner is (Left, Top), LowerRightCorner is
      (Right, Bottom); the area is the half-open [Left, Right) × [Top, Bottom). */
  datatype Rect = Rect(Left: int, Top: int, Right: int, Bottom: int)

  /** Pixel (x, y) lies in the rectangle. */
  predicate InRect(r: Rect, x: int, y: int)
  {
    r.Left <= x < r.Right && r.Top <= y < r.Bottom
  }

  /** No pixel lies in the rectangle: it is empty or inverted. */
  predicate IsEmpty(r: Rect)
  {
    r.Left >= r.Right || r.Top >= r.Bottom
  }

  /** The rectangle cut to another one: each corner coordinate clamped by
      the other rectangle's (rect::clipAgainst). */
  function Intersect(r: Rect, q: Rect): Rect
  {
    Rect(Max(r.Left, q.Left), Max(r.Top, q.Top), Min(r.Right, q.Right), Min(r.Bottom, q.Bottom))
  }

  /** A pixel lies in the intersection exactly when it lies in both rectangles. */
  lemma IntersectContains(r: Rect, q: Rect, x: int, y: int)
    ensures InRect(Intersect(r, q), x, y) <==> InRect(r, x, y) && InRect(q, x, y)
  {
  }

  /** An empty intersection holds no pixel of either rectangle in common. */
  lemma IntersectEmpty(r: Rect, q: Rect)
    ensures IsEmpty(Intersect(r, q)) <==> forall x, y :: !(InRect(r, x, y) && InRect(q, x, y))
  {
    var i := Intersect(r, q);
    if !IsEmpty(i) {
      assert InRect(r, i.Left, i.Top) && InRect(q, i.Left, i.Top);
    }
  }

  function Max(a: int, b: int): (m: int)
    ensures m >= a && m >= b && (m == a || m == b)
  {
    if a >= b then a else b
  }

  function Min(a: int, b: int): (m: int)
    ensures m <= a && m <= b && (m == a || m == b)
  {
    if a <= b then a else b
  }

  /** C's `%` on signed integers: the remainder of division truncated
      toward zero, so it takes the sign of the dividend. */
  function CRem(a: int, b: int): (r: int)
    requires b != 0
    ensures a >= 0 ==> 0 <= r < (if b > 0 then b else -b)
    ensures a < 0 ==> -(if b > 0 then b else -b) < r <= 0
  {
    if a >= 0 then a % b else -((-a) % b)
  }

  /** Division by n has one quotient and one remainder in [0, n). */
  lemma RemainderOf(c: int, n: int, q: int, r: int)
    requires n > 0 && 0 <= r < n && c == q * n + r
    ensures c % n == r && c / n == q
  {
    var q', r' := c / n, c % n;
    assert (q - q') * n == r' - r;
    if q - q' >= 1 {
      Grows(q - q', n);
    } else if q' - q >= 1 {
      Grows(q' - q, n);
    }
    assert q == q';
  }

  lemma Grows(k: int, n: int)
    requires k >= 1 && n > 0
    ensures k * n >= n
  {
  }

  /** make_lower on one character: ASCII capitals become small letters. */
  function LowerChar(c: char): (r: char)
    ensures !('A' <= r <= 'Z')
    ensures 'A' <= c <= 'Z' ==> r as int == c as int + 32
    ensures !('A' <= c <= 'Z') ==> r == c
  {
    if 'A' <= c <= 'Z' then (c as int + 32) as char else c
  }

  /** make_lower: every character lower-cased on its own. */
  function Lower(s: string): (r: string)
    ensures |r| == |s| && forall i | 0 <= i < |s| :: r[i] == LowerChar(s[i])
  {
    seq(|s|, i requires 0 <= i < |s| => LowerChar(s[i]))
  }

  /** Lower-casing a lower-cased name changes nothing, so a name stored
      lower-cased is found again by the lower-cased name. */
  lemma LowerIdempotent(s: string)
    ensures Lower(Lower(s)) == Lower(s)
  {
  }
}
