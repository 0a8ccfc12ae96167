// The Windows BMP loader (CSurfaceLoaderBmp): the header checks and row
// stride of loadImage, and the BI_RLE8 and BI_RLE4 run-length
// decompressors, which walk a read cursor over the compressed data and a
// write cursor over a new buffer of (row length × height) bytes.
//
// The decompressors never check their cursors against the buffers inside a
// command: a command that reads past the compressed data or writes past the
// new buffer is undefined behaviour in the source, and the model stops with
// Fault there.  The new buffer is not cleared by the source; its initial
// contents are a parameter.
//
// Two slips in the source are modelled both as written and corrected (the
// Variant parameter): the loop guard compares BmpData - p, which is never
// positive, with the size, so it never stops at the end of the data; and
// BI_RLE4's absolute mode increments the byte under the read cursor where
// it means to advance the cursor.
module BmpLoader {
  import opened Common

  /** The end of a decompression: the new buffer, or a read or write
      outside the two buffers. */
  datatype Outcome = Decoded(Out: seq<Byte>) | Fault

  /** One command: the decoder goes on from a new state, or stops. */
  datatype Step<S> = Next(s: S) | Stop(o: Outcome)

  /** The loop guard's test on the read cursor p (an offset into the data). */
  predicate MoreInput(v: Variant, size: int, p: int)
  {
    if v == AsWritten then 0 - p < size else p < size
  }

  /** The output with count bytes from d on set to b. */
  function Fill(out: seq<Byte>, d: nat, count: nat, b: Byte): (r: seq<Byte>)
    requires d + count <= |out|
    ensures |r| == |out|
    ensures forall i :: 0 <= i < |r| ==> r[i] == if d <= i < d + count then b else out[i]
  {
    seq(|out|, i requires 0 <= i < |out| => if d <= i < d + count then b else out[i])
  }

  /** The output with src copied in from d on. */
  function CopyIn(out: seq<Byte>, d: nat, src: seq<Byte>): (r: seq<Byte>)
    requires d + |src| <= |out|
    ensures |r| == |out|
    ensures forall i :: 0 <= i < |r| ==> r[i] == if d <= i < d + |src| then src[i - d] else out[i]
  {
    seq(|out|, i requires 0 <= i < |out| => if d <= i < d + |src| then src[i - d] else out[i])
  }

  /** The pad byte skipped after an absolute run of odd length: 1 for an
      odd count, 0 for an even one, counted down so that proofs about the
      decoders do not meet a modulus. */
  function AbsolutePad(count: nat): (pad: nat)
    ensures pad <= 1
  {
    if count == 0 then 0 else 1 - AbsolutePad(count - 1)
  }

  /** AbsolutePad is the source's (2 - count % 2) % 2. */
  lemma {:induction false} AbsolutePadIsParity(count: nat)
    ensures AbsolutePad(count) == (2 - count % 2) % 2
    ensures AbsolutePad(count) == 1 <==> count % 2 == 1
  {
    if count > 0 {
      AbsolutePadIsParity(count - 1);
    }
  }

  /** 2 · n, written as a sum: the streams here hold two bytes per run. */
  function Twice(n: nat): nat
  {
    n + n
  }

  // ---------------------------------------------------------------------
  // BI_RLE8

  /** The state of decompress8BitRLE: read cursor, write cursor, the row
      the last end-of-line escape moved to, and the new buffer. */
  datatype Rle8 = Rle8(P: nat, D: nat, Line: nat, Out: seq<Byte>)

  /** One command of decompress8BitRLE, rows being rowLen bytes apart.
      Every command reads two bytes first. */
  function Step8(input: seq<Byte>, rowLen: nat, s: Rle8): (r: Step<Rle8>)
    ensures r.Next? ==> s.P < r.s.P <= |input| + 1 && |r.s.Out| == |s.Out|
    ensures r.Stop? && r.o.Decoded? ==> r.o.Out == s.Out
  {
    if s.P + 1 >= |input| then Stop(Fault)
    else if input[s.P] != 0 then Run8(input, s)
    else Escape8(input, rowLen, s)
  }

  /** An encoded run: (count, value) writes value count times. */
  function Run8(input: seq<Byte>, s: Rle8): (r: Step<Rle8>)
    requires s.P + 1 < |input|
    ensures r.Next? ==> r.s.P == s.P + 2 && |r.s.Out| == |s.Out|
    ensures r.Stop? ==> r.o == Fault
  {
    var count := input[s.P];
    if s.D + count > |s.Out| then Stop(Fault)
    else Next(Rle8(s.P + 2, s.D + count, s.Line, Fill(s.Out, s.D, count, input[s.P + 1])))
  }

  /** A command starting with 0: end of line, end of bitmap, delta, or an
      absolute run. */
  function Escape8(input: seq<Byte>, rowLen: nat, s: Rle8): (r: Step<Rle8>)
    requires s.P + 1 < |input|
    ensures r.Next? ==> s.P < r.s.P <= |input| + 1 && |r.s.Out| == |s.Out|
    ensures r.Stop? && r.o.Decoded? ==> r.o.Out == s.Out
  {
    var code := input[s.P + 1];
    if code == 0 then
      Next(Rle8(s.P + 2, Times(s.Line + 1, rowLen), s.Line + 1, s.Out))
    else if code == 1 then
      Stop(Decoded(s.Out))
    else if code == 2 then
      if s.P + 3 >= |input| then Stop(Fault)
      else Next(Rle8(s.P + 4, s.D + input[s.P + 2] + Times(input[s.P + 3], rowLen), s.Line, s.Out))
    else Absolute8(input, s)
  }

  /** An absolute run: count literal bytes, then a pad byte when count is odd. */
  function Absolute8(input: seq<Byte>, s: Rle8): (r: Step<Rle8>)
    requires s.P + 1 < |input|
    ensures r.Next? ==> s.P < r.s.P <= |input| + 1 && |r.s.Out| == |s.Out|
    ensures r.Stop? ==> r.o == Fault
  {
    var count := input[s.P + 1];
    if s.P + 2 + count > |input| || s.D + count > |s.Out| then Stop(Fault)
    else Next(Rle8(s.P + 2 + count + AbsolutePad(count), s.D + count, s.Line,
                   CopyIn(s.Out, s.D, input[s.P + 2..s.P + 2 + count])))
  }

  /** decompress8BitRLE from a state: commands run while the guard lets
      more input through and the write cursor is inside the new buffer. */
  function Decode8(input: seq<Byte>, size: int, rowLen: nat, v: Variant, s: Rle8): (r: Outcome)
    requires s.P <= |input| + 1
    ensures r.Decoded? ==> |r.Out| == |s.Out|
    decreases |input| + 1 - s.P, 1
  {
    if !(MoreInput(v, size, s.P) && s.D < |s.Out|) then Decoded(s.Out)
    else Continue8(input, size, rowLen, v, s)
  }

  /** The loop body of decompress8BitRLE: one command, then the loop again. */
  function Continue8(input: seq<Byte>, size: int, rowLen: nat, v: Variant, s: Rle8): (r: Outcome)
    requires s.P <= |input| + 1
    ensures r.Decoded? ==> |r.Out| == |s.Out|
    decreases |input| + 1 - s.P, 0
  {
    match Step8(input, rowLen, s)
    case Next(t) => Decode8(input, size, rowLen, v, t)
    case Stop(o) => o
  }

  /** decompress8BitRLE: the new buffer replaces the compressed data. */
  method Decompress8BitRle(bmp: array<Byte>, size: int, width: int, height: int, pitch: int,
                           v: Variant, garbage: seq<Byte>)
    returns (newBmp: array<Byte>, outcome: Outcome)
    requires 0 <= width + pitch && 0 <= height && |garbage| == (width + pitch) * height
    ensures fresh(newBmp)
    ensures outcome == Decode8(bmp[..], size, width + pitch, v, Rle8(0, 0, 0, garbage))
    ensures outcome.Decoded? ==> newBmp[..] == outcome.Out
  {
    var rowLen: nat := width + pitch;
    newBmp := new Byte[|garbage|](i requires 0 <= i < |garbage| => garbage[i]);
    assert newBmp[..] == garbage;
    outcome := Decode8Loop(bmp, size, rowLen, v, newBmp);
  }

  /** The loop of decompress8BitRLE over a new buffer. */
  method Decode8Loop(bmp: array<Byte>, size: int, rowLen: nat, v: Variant, out: array<Byte>)
    returns (outcome: Outcome)
    requires out != bmp
    modifies out
    ensures outcome == Decode8(bmp[..], size, rowLen, v, Rle8(0, 0, 0, old(out[..])))
    ensures outcome.Decoded? ==> out[..] == outcome.Out
  {
    ghost var result := Decode8(bmp[..], size, rowLen, v, Rle8(0, 0, 0, out[..]));
    var p: nat, d: nat, line: nat := 0, 0, 0;
    while MoreInput(v, size, p) && d < out.Length
      invariant p <= bmp.Length + 1
      invariant Decode8(bmp[..], size, rowLen, v, Rle8(p, d, line, out[..])) == result
      decreases bmp.Length + 1 - p
    {
      Decode8Unfold(bmp[..], size, rowLen, v, Rle8(p, d, line, out[..]));
      var stop;
      p, d, line, stop := Command8(bmp, rowLen, out, p, d, line);
      if stop.Some? {
        return stop.value;
      }
    }
    outcome := Decoded(out[..]);
  }

  /** One command of Decode8, when the guard lets it run. */
  lemma Decode8Unfold(input: seq<Byte>, size: int, rowLen: nat, v: Variant, s: Rle8)
    requires s.P <= |input| + 1 && MoreInput(v, size, s.P) && s.D < |s.Out|
    ensures var st := Step8(input, rowLen, s);
      (st.Next? ==> Decode8(input, size, rowLen, v, s) == Decode8(input, size, rowLen, v, st.s)) &&
      (st.Stop? ==> Decode8(input, size, rowLen, v, s) == st.o)
  {
  }

  /** One pass of decompress8BitRLE's loop body. */
  method Command8(bmp: array<Byte>, rowLen: nat, out: array<Byte>, p0: nat, d0: nat, line0: nat)
    returns (p: nat, d: nat, line: nat, stop: Option<Outcome>)
    requires out != bmp
    modifies out
    ensures var st := Step8(bmp[..], rowLen, Rle8(p0, d0, line0, old(out[..])));
      (st.Next? ==> stop.None? && p == st.s.P && d == st.s.D && line == st.s.Line && out[..] == st.s.Out) &&
      (st.Stop? ==> stop == Some(st.o) && out[..] == old(out[..]))
  {
    if p0 + 1 >= bmp.Length {
      return p0, d0, line0, Some(Fault);
    }
    if bmp[p0] != 0 {
      p, d, line, stop := RunCommand8(bmp, out, p0, d0, line0);
    } else {
      p, d, line, stop := EscapeCommand8(bmp, rowLen, out, p0, d0, line0);
    }
  }

  method RunCommand8(bmp: array<Byte>, out: array<Byte>, p0: nat, d0: nat, line0: nat)
    returns (p: nat, d: nat, line: nat, stop: Option<Outcome>)
    requires out != bmp && p0 + 1 < bmp.Length
    modifies out
    ensures var st := Run8(bmp[..], Rle8(p0, d0, line0, old(out[..])));
      (st.Next? ==> stop.None? && p == st.s.P && d == st.s.D && line == st.s.Line && out[..] == st.s.Out) &&
      (st.Stop? ==> stop == Some(st.o) && out[..] == old(out[..]))
  {
    var count := bmp[p0];
    if d0 + count > out.Length {
      return p0, d0, line0, Some(Fault);
    }
    FillRun(out, d0, count, bmp[p0 + 1]);
    return p0 + 2, d0 + count, line0, None;
  }

  method EscapeCommand8(bmp: array<Byte>, rowLen: nat, out: array<Byte>, p0: nat, d0: nat, line0: nat)
    returns (p: nat, d: nat, line: nat, stop: Option<Outcome>)
    requires out != bmp && p0 + 1 < bmp.Length
    modifies out
    ensures var st := Escape8(bmp[..], rowLen, Rle8(p0, d0, line0, old(out[..])));
      (st.Next? ==> stop.None? && p == st.s.P && d == st.s.D && line == st.s.Line && out[..] == st.s.Out) &&
      (st.Stop? ==> stop == Some(st.o) && out[..] == old(out[..]))
  {
    p, d, line, stop := p0, d0, line0, None;
    var code := bmp[p0 + 1];
    if code == 0 {
      p, line := p0 + 2, line0 + 1;
      d := line * rowLen;
      TimesIsProduct(line, rowLen);
    } else if code == 1 {
      stop := Some(Decoded(out[..]));
    } else if code == 2 {
      if p0 + 3 >= bmp.Length {
        return p0, d0, line0, Some(Fault);
      }
      d := d0 + bmp[p0 + 2] + bmp[p0 + 3] * rowLen;
      TimesIsProduct(bmp[p0 + 3], rowLen);
      p := p0 + 4;
    } else {
      p, d, line, stop := AbsoluteCommand8(bmp, out, p0, d0, line0);
    }
  }

  method AbsoluteCommand8(bmp: array<Byte>, out: array<Byte>, p0: nat, d0: nat, line0: nat)
    returns (p: nat, d: nat, line: nat, stop: Option<Outcome>)
    requires out != bmp && p0 + 1 < bmp.Length
    modifies out
    ensures var st := Absolute8(bmp[..], Rle8(p0, d0, line0, old(out[..])));
      (st.Next? ==> stop.None? && p == st.s.P && d == st.s.D && line == st.s.Line && out[..] == st.s.Out) &&
      (st.Stop? ==> stop == Some(st.o) && out[..] == old(out[..]))
  {
    var count := bmp[p0 + 1];
    if p0 + 2 + count > bmp.Length || d0 + count > out.Length {
      return p0, d0, line0, Some(Fault);
    }
    CopyLiteral(out, d0, bmp, p0 + 2, count);
    AbsolutePadIsParity(count);
    return p0 + 2 + count + (2 - count % 2) % 2, d0 + count, line0, None;
  }

  /** The write loop of an encoded run. */
  method FillRun(out: array<Byte>, d: nat, count: nat, b: Byte)
    requires d + count <= out.Length
    modifies out
    ensures out[..] == Fill(old(out[..]), d, count, b)
  {
    var i := 0;
    while i < count
      invariant 0 <= i <= count
      invariant out[..] == Fill(old(out[..]), d, i, b)
    {
      out[d + i] := b;
      i := i + 1;
    }
  }

  /** The copy loop of an absolute run. */
  method CopyLiteral(out: array<Byte>, d: nat, src: array<Byte>, from: nat, count: nat)
    requires d + count <= out.Length && from + count <= src.Length && out != src
    modifies out
    ensures out[..] == CopyIn(old(out[..]), d, src[..][from..from + count])
  {
    var i := 0;
    while i < count
      invariant 0 <= i <= count
      invariant out[..] == CopyIn(old(out[..]), d, src[from..from + i])
    {
      out[d + i] := src[from + i];
      i := i + 1;
    }
  }
  // ---------------------------------------------------------------------
  // BI_RLE8: what the commands mean

  /** decompress8BitRLE on a stream that ends at end-of-bitmap, read with
      the guard as written: after the escape 0,1 nothing further is read. */
  lemma Rle8EndOfBitmap(input: seq<Byte>, size: int, rowLen: nat, v: Variant, s: Rle8)
    requires s.P + 1 < |input| && input[s.P] == 0 && input[s.P + 1] == 1
    requires MoreInput(v, size, s.P) && s.D < |s.Out|
    ensures Decode8(input, size, rowLen, v, s) == Decoded(s.Out)
  {
  }

  /** An encoded run writes its value count times from the write cursor,
      and nothing else; the cursor moves past the run. */
  lemma Rle8Run(input: seq<Byte>, rowLen: nat, s: Rle8)
    requires s.P + 1 < |input| && input[s.P] != 0 && s.D + input[s.P] <= |s.Out|
    ensures var r := Step8(input, rowLen, s);
      r.Next? && r.s.P == s.P + 2 && r.s.D == s.D + input[s.P] && r.s.Line == s.Line &&
      (forall i :: s.D <= i < s.D + input[s.P] ==> r.s.Out[i] == input[s.P + 1]) &&
      (forall i :: 0 <= i < |s.Out| && !(s.D <= i < s.D + input[s.P]) ==> r.s.Out[i] == s.Out[i])
  {
  }

  /** The simplest RLE8 stream for one row: every byte as a run of one. */
  function EncodeRow(row: seq<Byte>): (e: seq<Byte>)
    ensures |e| == Twice(|row|)
  {
    if |row| == 0 then [] else [1, row[0]] + EncodeRow(row[1..])
  }

  /** An RLE8 stream for the rows of an image: each row's runs followed by
      the end-of-line escape, and the end-of-bitmap escape at the end. */
  function Encode8(rows: seq<seq<Byte>>): seq<Byte>
  {
    if |rows| == 0 then [0, 1] else EncodeRow(rows[0]) + [0, 0] + Encode8(rows[1..])
  }

  /** n · w by repeated addition: the start of row n when rows are w bytes
      apart.  Proofs about rows use it instead of multiplication. */
  function Times(n: nat, w: nat): nat
  {
    if n == 0 then 0 else Times(n - 1, w) + w
  }

  lemma {:induction false} TimesIsProduct(n: nat, w: nat)
    ensures Times(n, w) == n * w
  {
    if n > 0 {
      TimesIsProduct(n - 1, w);
    }
  }

  /** Row line + n starts at least n rows after row line. */
  lemma {:induction false} TimesGrows(line: nat, w: nat, n: nat)
    ensures Times(line, w) + Times(n, w) <= Times(line + n, w)
  {
    if n > 0 {
      TimesGrows(line, w, n - 1);
    }
  }

  lemma NextRow(line: nat, rowLen: nat, n: nat)
    requires n >= 1
    ensures Times(line, rowLen) + rowLen <= Times(line + n, rowLen)
  {
    TimesGrows(line + 1, rowLen, n - 1);
  }

  /** The rows written into a buffer, row i from offset (line + i) · rowLen. */
  function Paint(out: seq<Byte>, rowLen: nat, line: nat, rows: seq<seq<Byte>>): (r: seq<Byte>)
    requires forall i :: 0 <= i < |rows| ==> |rows[i]| <= rowLen
    requires Times(line + |rows|, rowLen) <= |out|
    ensures |r| == |out|
    decreases |rows|
  {
    if |rows| == 0 then out
    else
      NextRow(line, rowLen, |rows|);
      Paint(CopyIn(out, Times(line, rowLen), rows[0]), rowLen, line + 1, rows[1..])
  }

  /** Painting rows that are all empty changes nothing. */
  lemma {:induction false} PaintEmptyRows(out: seq<Byte>, rowLen: nat, line: nat, rows: seq<seq<Byte>>)
    requires forall i :: 0 <= i < |rows| ==> |rows[i]| == 0 <= rowLen
    requires Times(line + |rows|, rowLen) <= |out|
    ensures Paint(out, rowLen, line, rows) == out
    decreases |rows|
  {
    if |rows| > 0 {
      NextRow(line, rowLen, |rows|);
      assert CopyIn(out, Times(line, rowLen), rows[0]) == out;
      PaintEmptyRows(out, rowLen, line + 1, rows[1..]);
    }
  }

  /** The runs of one row at p: a run of one for each byte. */
  predicate RowAt(input: seq<Byte>, p: nat, row: seq<Byte>)
    decreases |row|
  {
    if |row| == 0 then p <= |input|
    else p + 1 < |input| && input[p] == 1 && input[p + 1] == row[0] && RowAt(input, p + 2, row[1..])
  }

  /** The stream of some rows at p: each row's runs and an end-of-line
      escape, then the end-of-bitmap escape as the last two bytes. */
  predicate Encodes(input: seq<Byte>, p: nat, rows: seq<seq<Byte>>)
    decreases |rows|
  {
    if |rows| == 0 then p + 2 == |input| && input[p] == 0 && input[p + 1] == 1
    else
      var q := p + Twice(|rows[0]|);
      RowAt(input, p, rows[0]) && q + 1 < |input| && input[q] == 0 && input[q + 1] == 0 &&
      Encodes(input, q + 2, rows[1..])
  }

  /** EncodeRow produces the runs that RowAt describes, wherever they start. */
  lemma {:induction false} EncodeRowAt(pre: seq<Byte>, row: seq<Byte>, post: seq<Byte>)
    ensures RowAt(pre + EncodeRow(row) + post, |pre|, row)
    decreases |row|
  {
    if |row| > 0 {
      var pre1 := pre + [1, row[0]];
      assert pre + EncodeRow(row) + post == pre1 + EncodeRow(row[1..]) + post;
      EncodeRowAt(pre1, row[1..], post);
    }
  }

  /** Encode8 produces a stream that Encodes describes, wherever it starts. */
  lemma {:induction false} EncodesEncode8(pre: seq<Byte>, rows: seq<seq<Byte>>)
    ensures Encodes(pre + Encode8(rows), |pre|, rows)
    decreases |rows|
  {
    if |rows| > 0 {
      var row := rows[0];
      var post := [0, 0] + Encode8(rows[1..]);
      var pre1 := pre + EncodeRow(row) + [0, 0];
      assert pre + Encode8(rows) == pre + EncodeRow(row) + post == pre1 + Encode8(rows[1..]);
      EncodeRowAt(pre, row, post);
      EncodesEncode8(pre1, rows[1..]);
    }
  }

  /** Decoding one row's runs copies the row in at the write cursor. */
  lemma {:induction false} DecodeRow(input: seq<Byte>, size: int, rowLen: nat, v: Variant, s: Rle8, row: seq<Byte>)
    requires RowAt(input, s.P, row) && s.P + Twice(|row|) < |input| <= size
    requires s.D + |row| <= |s.Out|
    ensures Decode8(input, size, rowLen, v, s) ==
            Decode8(input, size, rowLen, v, Rle8(s.P + Twice(|row|), s.D + |row|, s.Line, CopyIn(s.Out, s.D, row)))
    decreases |row|
  {
    if |row| == 0 {
      assert CopyIn(s.Out, s.D, row) == s.Out;
      assert Rle8(s.P + Twice(|row|), s.D + |row|, s.Line, CopyIn(s.Out, s.D, row)) == s;
    } else {
      var t := DecodeRowHead(input, size, rowLen, v, s, row);
      DecodeRow(input, size, rowLen, v, t, row[1..]);
    }
  }

  /** The first run of a row: the decoder moves on to a state from which
      the rest of the row leads where the whole row would. */
  lemma DecodeRowHead(input: seq<Byte>, size: int, rowLen: nat, v: Variant, s: Rle8, row: seq<Byte>)
    returns (t: Rle8)
    requires |row| > 0 && RowAt(input, s.P, row) && s.P + Twice(|row|) < |input| <= size
    requires s.D + |row| <= |s.Out|
    ensures RowAt(input, t.P, row[1..]) && t.P + Twice(|row[1..]|) < |input|
    ensures t.D + |row[1..]| <= |t.Out|
    ensures Decode8(input, size, rowLen, v, s) == Decode8(input, size, rowLen, v, t)
    ensures Rle8(t.P + Twice(|row[1..]|), t.D + |row[1..]|, t.Line, CopyIn(t.Out, t.D, row[1..])) ==
            Rle8(s.P + Twice(|row|), s.D + |row|, s.Line, CopyIn(s.Out, s.D, row))
  {
    t := Rle8(s.P + 2, s.D + 1, s.Line, Fill(s.Out, s.D, 1, row[0]));
    DecodeRunOfOne(input, size, rowLen, v, s);
    CopyInAfterFill(s.Out, s.D, row);
  }

  /** A run of one byte writes it and moves both cursors on. */
  lemma DecodeRunOfOne(input: seq<Byte>, size: int, rowLen: nat, v: Variant, s: Rle8)
    requires s.P + 1 < |input| <= size && input[s.P] == 1 && s.D < |s.Out|
    ensures Decode8(input, size, rowLen, v, s) ==
            Decode8(input, size, rowLen, v, Rle8(s.P + 2, s.D + 1, s.Line, Fill(s.Out, s.D, 1, input[s.P + 1])))
  {
    assert Step8(input, rowLen, s) == Next(Rle8(s.P + 2, s.D + 1, s.Line, Fill(s.Out, s.D, 1, input[s.P + 1])));
    Decode8Unfold(input, size, rowLen, v, s);
  }

  /** Writing a row's first byte and then the rest is writing the row. */
  lemma CopyInAfterFill(out: seq<Byte>, d: nat, row: seq<Byte>)
    requires |row| > 0 && d + |row| <= |out|
    ensures CopyIn(Fill(out, d, 1, row[0]), d + 1, row[1..]) == CopyIn(out, d, row)
  {
    var a, b := CopyIn(Fill(out, d, 1, row[0]), d + 1, row[1..]), CopyIn(out, d, row);
    assert forall i | 0 <= i < |out| :: a[i] == b[i];
  }

  /** The end-of-line escape moves the write cursor to the next row. */
  lemma DecodeEndOfLine(input: seq<Byte>, size: int, rowLen: nat, v: Variant, s: Rle8)
    requires s.P + 1 < |input| && input[s.P] == 0 && input[s.P + 1] == 0
    requires MoreInput(v, size, s.P) && s.D < |s.Out|
    ensures Decode8(input, size, rowLen, v, s) ==
            Decode8(input, size, rowLen, v, Rle8(s.P + 2, Times(s.Line + 1, rowLen), s.Line + 1, s.Out))
  {
    Decode8Unfold(input, size, rowLen, v, s);
  }

  /** The state of DecodeRows: the stream of rows at the read cursor, the
      write cursor at the start of row Line, and room for every row. */
  predicate RowsAhead(input: seq<Byte>, size: int, rowLen: nat, s: Rle8, rows: seq<seq<Byte>>)
  {
    Encodes(input, s.P, rows) && |input| <= size &&
    s.D == Times(s.Line, rowLen) &&
    (forall i :: 0 <= i < |rows| ==> |rows[i]| <= rowLen) &&
    Times(s.Line + |rows|, rowLen) <= |s.Out|
  }

  /** Decoding the stream of some rows from the start of a row paints them. */
  lemma {:induction false} DecodeRows(input: seq<Byte>, size: int, rowLen: nat, v: Variant, s: Rle8, rows: seq<seq<Byte>>)
    requires RowsAhead(input, size, rowLen, s, rows)
    ensures Decode8(input, size, rowLen, v, s) == Decoded(Paint(s.Out, rowLen, s.Line, rows))
    decreases |rows|
  {
    if |rows| == 0 {
      DecodeNoRows(input, size, rowLen, v, s);
    } else {
      var s2 := DecodeFirstOfRows(input, size, rowLen, v, s, rows);
      if s.D + |rows[0]| < |s.Out| {
        DecodeRows(input, size, rowLen, v, s2, rows[1..]);
      }
    }
  }

  /** The first row of a stream of rows: either the decoder goes on at the
      start of the next row with the other rows ahead, or the row filled
      the buffer, the other rows are empty, and decoding is done. */
  lemma DecodeFirstOfRows(input: seq<Byte>, size: int, rowLen: nat, v: Variant, s: Rle8, rows: seq<seq<Byte>>)
    returns (s2: Rle8)
    requires |rows| > 0 && RowsAhead(input, size, rowLen, s, rows)
    ensures Times(s.Line, rowLen) + |rows[0]| <= |s.Out|
    ensures s.D + |rows[0]| < |s.Out| ==>
              RowsAhead(input, size, rowLen, s2, rows[1..]) && s2.Line == s.Line + 1 &&
              Decode8(input, size, rowLen, v, s) == Decode8(input, size, rowLen, v, s2) &&
              Paint(s.Out, rowLen, s.Line, rows) == Paint(s2.Out, rowLen, s2.Line, rows[1..])
    ensures s.D + |rows[0]| == |s.Out| ==>
              Decode8(input, size, rowLen, v, s) == Decoded(Paint(s.Out, rowLen, s.Line, rows))
  {
    var row := rows[0];
    PaintFirst(s.Out, rowLen, s.Line, rows);
    var out1 := CopyIn(s.Out, s.D, row);
    DecodeFirstRow(input, size, rowLen, v, s, row);
    s2 := Rle8(s.P + Twice(|row|) + 2, Times(s.Line + 1, rowLen), s.Line + 1, out1);
    if s.D + |row| < |s.Out| {
      RowsAheadNext(input, size, rowLen, s, rows);
    } else {
      EmptyAfterFullBuffer(s.Line, rowLen, |s.Out|, |row|, rows[1..]);
      PaintEmptyRows(out1, rowLen, s.Line + 1, rows[1..]);
    }
  }

  /** After the first row and its end-of-line escape, the other rows are
      ahead of the decoder. */
  lemma RowsAheadNext(input: seq<Byte>, size: int, rowLen: nat, s: Rle8, rows: seq<seq<Byte>>)
    requires |rows| > 0 && RowsAhead(input, size, rowLen, s, rows)
    ensures s.D + |rows[0]| <= |s.Out|
    ensures RowsAhead(input, size, rowLen,
                      Rle8(s.P + Twice(|rows[0]|) + 2, Times(s.Line + 1, rowLen), s.Line + 1, CopyIn(s.Out, s.D, rows[0])),
                      rows[1..])
  {
    NextRow(s.Line, rowLen, |rows|);
    assert s.Line + 1 + |rows[1..]| == s.Line + |rows|;
  }

  /** Painting rows is painting the first row and then the others. */
  lemma PaintFirst(out: seq<Byte>, rowLen: nat, line: nat, rows: seq<seq<Byte>>)
    requires |rows| > 0 && forall i :: 0 <= i < |rows| ==> |rows[i]| <= rowLen
    requires Times(line + |rows|, rowLen) <= |out|
    ensures Times(line, rowLen) + |rows[0]| <= |out| && Times(line + 1 + |rows[1..]|, rowLen) <= |out|
    ensures Paint(out, rowLen, line, rows) == Paint(CopyIn(out, Times(line, rowLen), rows[0]), rowLen, line + 1, rows[1..])
  {
    NextRow(line, rowLen, |rows|);
    assert line + 1 + |rows[1..]| == line + |rows|;
  }

  /** The stream of no rows ends the decoding with the buffer as it is. */
  lemma DecodeNoRows(input: seq<Byte>, size: int, rowLen: nat, v: Variant, s: Rle8)
    requires s.P + 2 == |input| <= size && input[s.P] == 0 && input[s.P + 1] == 1
    ensures Decode8(input, size, rowLen, v, s) == Decoded(s.Out)
  {
    if s.D < |s.Out| {
      Rle8EndOfBitmap(input, size, rowLen, v, s);
    }
  }

  /** A row's runs and the end-of-line escape copy the row in and move the
      write cursor to the next row, unless the row filled the buffer. */
  lemma DecodeFirstRow(input: seq<Byte>, size: int, rowLen: nat, v: Variant, s: Rle8, row: seq<Byte>)
    requires RowAt(input, s.P, row) && s.P + Twice(|row|) + 1 < |input| <= size
    requires input[s.P + Twice(|row|)] == 0 && input[s.P + Twice(|row|) + 1] == 0
    requires s.D + |row| <= |s.Out|
    ensures s.D + |row| < |s.Out| ==>
              Decode8(input, size, rowLen, v, s) ==
              Decode8(input, size, rowLen, v, Rle8(s.P + Twice(|row|) + 2, Times(s.Line + 1, rowLen), s.Line + 1, CopyIn(s.Out, s.D, row)))
    ensures s.D + |row| == |s.Out| ==> Decode8(input, size, rowLen, v, s) == Decoded(CopyIn(s.Out, s.D, row))
  {
    DecodeRow(input, size, rowLen, v, s, row);
    var s1 := Rle8(s.P + Twice(|row|), s.D + |row|, s.Line, CopyIn(s.Out, s.D, row));
    if s1.D < |s.Out| {
      DecodeEndOfLine(input, size, rowLen, v, s1);
    } else {
      Decode8Full(input, size, rowLen, v, s1);
    }
  }

  /** A decoder whose write cursor is at the end of the buffer is done. */
  lemma Decode8Full(input: seq<Byte>, size: int, rowLen: nat, v: Variant, s: Rle8)
    requires s.P <= |input| + 1 && s.D >= |s.Out|
    ensures Decode8(input, size, rowLen, v, s) == Decoded(s.Out)
  {
  }

  /** When a row ends at the end of the buffer, any rows after it are empty. */
  lemma EmptyAfterFullBuffer(line: nat, rowLen: nat, size: nat, len: nat, rest: seq<seq<Byte>>)
    requires forall i :: 0 <= i < |rest| ==> |rest[i]| <= rowLen
    requires len <= rowLen && Times(line, rowLen) + len == size && Times(line + 1 + |rest|, rowLen) <= size
    ensures forall i :: 0 <= i < |rest| ==> |rest[i]| == 0
  {
    if |rest| > 0 && rowLen > 0 {
      NextRow(line + 1, rowLen, |rest|);
    }
  }

  /** Round trip: decompress8BitRLE turns the encoding of an image's rows
      back into the rows, laid out rowLen bytes apart in a new buffer of
      Times(|rows|, rowLen) = |rows| · rowLen bytes; the pitch bytes after
      each row keep their initial contents. */
  lemma Rle8RoundTrip(rows: seq<seq<Byte>>, rowLen: nat, v: Variant, garbage: seq<Byte>)
    requires forall i :: 0 <= i < |rows| ==> |rows[i]| <= rowLen
    requires |garbage| == Times(|rows|, rowLen)
    ensures Decode8(Encode8(rows), |Encode8(rows)|, rowLen, v, Rle8(0, 0, 0, garbage)) ==
            Decoded(Paint(garbage, rowLen, 0, rows))
  {
    var e := Encode8(rows);
    EncodesEncode8([], rows);
    assert [] + e == e;
    DecodeRows(e, |e|, rowLen, v, Rle8(0, 0, 0, garbage), rows);
  }

  /** What Paint leaves in the buffer: byte c of buffer row R, for R one
      of the painted rows, is byte c of rows[R - line], and the bytes of a
      row past its length are untouched. */
  lemma {:induction false} PaintAt(out: seq<Byte>, rowLen: nat, line: nat, rows: seq<seq<Byte>>, R: nat, c: nat)
    requires forall i :: 0 <= i < |rows| ==> |rows[i]| <= rowLen
    requires Times(line + |rows|, rowLen) <= |out|
    requires line <= R < line + |rows| && c < rowLen
    ensures Times(R, rowLen) + c < |out|
    ensures Paint(out, rowLen, line, rows)[Times(R, rowLen) + c] ==
            if c < |rows[R - line]| then rows[R - line][c] else out[Times(R, rowLen) + c]
    decreases |rows|
  {
    var k := Times(R, rowLen) + c;
    assert R + (line + |rows| - R) == line + |rows|;
    NextRow(R, rowLen, line + |rows| - R);
    PaintFirst(out, rowLen, line, rows);
    var out1 := CopyIn(out, Times(line, rowLen), rows[0]);
    if R == line {
      PaintKeeps(out1, rowLen, line + 1, rows[1..], k);
    } else {
      PaintAt(out1, rowLen, line + 1, rows[1..], R, c);
      assert rows[1..][R - (line + 1)] == rows[R - line];
      assert line + 1 + (R - line - 1) == R;
      TimesGrows(line + 1, rowLen, R - line - 1);
    }
  }

  /** Painting from row line on leaves the bytes before that row alone. */
  lemma {:induction false} PaintKeeps(out: seq<Byte>, rowLen: nat, line: nat, rows: seq<seq<Byte>>, k: nat)
    requires forall i :: 0 <= i < |rows| ==> |rows[i]| <= rowLen
    requires Times(line + |rows|, rowLen) <= |out|
    requires k < Times(line, rowLen) && k < |out|
    ensures Paint(out, rowLen, line, rows)[k] == out[k]
    decreases |rows|
  {
    if |rows| > 0 {
      NextRow(line, rowLen, |rows|);
      PaintKeeps(CopyIn(out, Times(line, rowLen), rows[0]), rowLen, line + 1, rows[1..], k);
    }
  }

  // ---------------------------------------------------------------------
  // The loop guard

  /** As written, the guard lets the decoder read on whatever the cursor:
      for any data at all it holds at every position. */
  lemma Rle8GuardAsWritten(size: int, p: nat)
    ensures size > 0 ==> MoreInput(AsWritten, size, p)
  {
  }

  /** A one-pixel run without an end-of-bitmap escape: the source reads the
      bytes after the data for another command, and what follows the data
      decides the result; with the corrected guard the decoder stops at the
      end of the data. */
  lemma Rle8ReadsPastData()
    ensures Decode8([1, 7], 2, 4, AsWritten, Rle8(0, 0, 0, [0, 0, 0, 0])) == Fault
    ensures Decode8([1, 7, 0, 1], 2, 4, AsWritten, Rle8(0, 0, 0, [0, 0, 0, 0])) == Decoded([7, 0, 0, 0])
    ensures Decode8([1, 7], 2, 4, Corrected, Rle8(0, 0, 0, [0, 0, 0, 0])) == Decoded([7, 0, 0, 0])
  {
    var s1 := Rle8(2, 1, 0, [7, 0, 0, 0]);
    assert Fill([0, 0, 0, 0], 0, 1, 7) == [7, 0, 0, 0];
    assert Step8([1, 7], 4, Rle8(0, 0, 0, [0, 0, 0, 0])) == Next(s1);
    assert Step8([1, 7, 0, 1], 4, Rle8(0, 0, 0, [0, 0, 0, 0])) == Next(s1);
    assert Step8([1, 7, 0, 1], 4, s1) == Stop(Decoded([7, 0, 0, 0]));
  }

  /** One command reads nothing past the data unless it faults. */
  lemma Step8Frame(input: seq<Byte>, junk: seq<Byte>, rowLen: nat, s: Rle8)
    requires Step8(input, rowLen, s) != Stop(Fault)
    ensures Step8(input + junk, rowLen, s) == Step8(input, rowLen, s)
  {
    if s.P + 1 < |input| && input[s.P] == 0 && input[s.P + 1] > 2 {
      var count := input[s.P + 1];
      if s.P + 2 + count <= |input| {
        assert (input + junk)[s.P + 2..s.P + 2 + count] == input[s.P + 2..s.P + 2 + count];
      }
    }
  }

  /** With the corrected guard the decoder never looks past the data: bytes
      that follow it do not change a result that is not a fault. */
  lemma {:induction false} Rle8IgnoresTrailingBytes(input: seq<Byte>, junk: seq<Byte>, rowLen: nat, s: Rle8)
    requires s.P <= |input| + 1
    requires Decode8(input, |input|, rowLen, Corrected, s) != Fault
    ensures Decode8(input + junk, |input|, rowLen, Corrected, s) == Decode8(input, |input|, rowLen, Corrected, s)
    decreases |input| + 1 - s.P
  {
    if s.P < |input| && s.D < |s.Out| {
      Step8Frame(input, junk, rowLen, s);
      match Step8(input, rowLen, s)
      case Next(t) => Rle8IgnoresTrailingBytes(input, junk, rowLen, t);
      case Stop(o) =>
    }
  }

  // ---------------------------------------------------------------------
  // BI_RLE4

  /** The high and the low four bits of a byte: the first and the second
      pixel it holds. */
  function Hi(b: Byte): (n: nat)
    ensures n < 16 && b == n * 16 + b % 16
  {
    b / 16
  }

  function Lo(b: Byte): (n: nat)
    ensures n < 16 && b == b / 16 * 16 + n
  {
    b % 16
  }

  /** A byte is its two nibbles. */
  lemma NibblesDetermine(a: Byte, b: Byte)
    requires Hi(a) == Hi(b) && Lo(a) == Lo(b)
    ensures a == b
  {
  }

  /** The byte with one nibble replaced by c: the high one (the source's
      shift 4) or the low one (shift 0). */
  function SetNibble(b: Byte, high: bool, c: nat): (r: Byte)
    requires c < 16
    ensures Hi(r) == (if high then c else Hi(b))
    ensures Lo(r) == (if high then Lo(b) else c)
  {
    if high then c * 16 + Lo(b) else Hi(b) * 16 + c
  }

  /** The write cursor of decompress4BitRLE: the byte d, and whether the
      next nibble goes to its high half (shift 4) or its low half (shift 0). */
  datatype Pen = Pen(D: nat, High: bool, Out: seq<Byte>)

  /** Writes one nibble and moves on: from the high half to the low half of
      the same byte, from the low half to the high half of the next. */
  function Put(pen: Pen, c: nat): (r: Option<Pen>)
    requires c < 16
    ensures r.Some? <==> pen.D < |pen.Out|
    ensures r.Some? ==> |r.value.Out| == |pen.Out|
  {
    if pen.D >= |pen.Out| then None
    else Some(Pen(if pen.High then pen.D else pen.D + 1, !pen.High,
                  pen.Out[pen.D := SetNibble(pen.Out[pen.D], pen.High, c)]))
  }

  /** An encoded run of count nibbles: c2 into every high half and c1 into
      every low half it reaches. */
  function RunNibbles(pen: Pen, count: nat, c1: nat, c2: nat): (r: Option<Pen>)
    requires c1 < 16 && c2 < 16
    ensures r.Some? ==> |r.value.Out| == |pen.Out|
    decreases count
  {
    if count == 0 then Some(pen)
    else match Put(pen, if pen.High then c2 else c1)
      case None => None
      case Some(q) => RunNibbles(q, count - 1, c1, c2)
  }

  /** The read cursor of an absolute run: the byte p, whether the next
      nibble is its high half (readShift 4), and the data, which the run as
      written changes. */
  datatype Reader = Reader(P: nat, High: bool, In: seq<Byte>)

  /** The byte after b in a c8 that wraps: ++ on the byte under the cursor. */
  function Increment(b: Byte): (r: Byte)
    ensures r == (b + 1) % 256
  {
    if b == 255 then 0 else b + 1
  }

  /** One nibble of an absolute run, read high half first.  After a low
      half the source increments the byte under the read cursor (AsWritten);
      the corrected run moves the cursor to the next byte instead. */
  function LiteralNibble(v: Variant, rd: Reader, pen: Pen): (r: Option<(Reader, Pen)>)
    ensures r.Some? ==> |r.value.0.In| == |rd.In| && |r.value.1.Out| == |pen.Out| && r.value.0.P >= rd.P
  {
    if rd.P >= |rd.In| then None
    else
      var b := rd.In[rd.P];
      var next :=
        if rd.High then Reader(rd.P, false, rd.In)
        else if v == AsWritten then Reader(rd.P, true, rd.In[rd.P := Increment(b)])
        else Reader(rd.P + 1, true, rd.In);
      match Put(pen, if rd.High then Hi(b) else Lo(b))
      case None => None
      case Some(q) => Some((next, q))
  }

  /** An absolute run of count nibbles. */
  function Literal(v: Variant, rd: Reader, pen: Pen, count: nat): (r: Option<(Reader, Pen)>)
    ensures r.Some? ==> |r.value.0.In| == |rd.In| && |r.value.1.Out| == |pen.Out| && r.value.0.P >= rd.P
    decreases count
  {
    if count == 0 then Some((rd, pen))
    else match LiteralNibble(v, rd, pen)
      case None => None
      case Some(x) => Literal(v, x.0, x.1, count - 1)
  }

  /** The bytes an absolute run of count nibbles takes in the corrected
      decoder: the nibbles' bytes, padded to a whole number of 16-bit words. */
  function LiteralBytes(count: nat): (n: nat)
    ensures n >= count / 2 && (count > 0 ==> n >= 1)
  {
    if count == 0 then 0 else if count <= 4 then 2 else 2 + LiteralBytes(count - 4)
  }

  /** LiteralBytes is the whole words that hold count nibbles, four to a word. */
  lemma {:induction false} LiteralBytesIsWords(count: nat)
    ensures LiteralBytes(count) == (count + 3) / 4 * 2
  {
    if count > 4 {
      LiteralBytesIsWords(count - 4);
    }
  }

  /** The state of decompress4BitRLE: read cursor, write cursor and nibble,
      the row the last end-of-line escape moved to, the data, and the new
      buffer. */
  datatype Rle4 = Rle4(P: nat, D: nat, Line: nat, High: bool, In: seq<Byte>, Out: seq<Byte>)

  /** One command of decompress4BitRLE, rows being lineWidth bytes apart. */
  function Step4(lineWidth: nat, v: Variant, s: Rle4): (r: Step<Rle4>)
    ensures r.Next? ==> s.P + 1 < |s.In| && s.P < r.s.P && |r.s.In| == |s.In| && |r.s.Out| == |s.Out|
    ensures r.Stop? && r.o.Decoded? ==> r.o.Out == s.Out
  {
    if s.P + 1 >= |s.In| then Stop(Fault)
    else if s.In[s.P] != 0 then Run4(s)
    else Escape4(lineWidth, v, s)
  }

  /** An encoded run: (count, value) writes count nibbles, the value's high
      nibble into high halves and its low nibble into low halves. */
  function Run4(s: Rle4): (r: Step<Rle4>)
    requires s.P + 1 < |s.In|
    ensures r.Next? ==> r.s.P == s.P + 2 && r.s.In == s.In && |r.s.Out| == |s.Out|
    ensures r.Stop? ==> r.o == Fault
  {
    var b := s.In[s.P + 1];
    match RunNibbles(Pen(s.D, s.High, s.Out), s.In[s.P], Lo(b), Hi(b))
    case None => Stop(Fault)
    case Some(q) => Next(Rle4(s.P + 2, q.D, s.Line, q.High, s.In, q.Out))
  }

  /** A command starting with 0: end of line, end of bitmap, delta, or an
      absolute run.  End of line and delta also choose the nibble. */
  function Escape4(lineWidth: nat, v: Variant, s: Rle4): (r: Step<Rle4>)
    requires s.P + 1 < |s.In|
    ensures r.Next? ==> s.P < r.s.P && |r.s.In| == |s.In| && |r.s.Out| == |s.Out|
    ensures r.Stop? && r.o.Decoded? ==> r.o.Out == s.Out
  {
    var code := s.In[s.P + 1];
    if code == 0 then
      Next(Rle4(s.P + 2, Times(s.Line + 1, lineWidth), s.Line + 1, true, s.In, s.Out))
    else if code == 1 then
      Stop(Decoded(s.Out))
    else if code == 2 then
      if s.P + 3 >= |s.In| then Stop(Fault)
      else
        var x := s.In[s.P + 2];
        Next(Rle4(s.P + 4, s.D + x / 2 + Times(s.In[s.P + 3], lineWidth), s.Line, x % 2 == 0, s.In, s.Out))
    else Absolute4(v, s)
  }

  /** An absolute run of count nibbles.  As written the read cursor ends
      where the run started, plus the pad of the BI_RLE8 rule; corrected, it
      moves past the run's words. */
  function Absolute4(v: Variant, s: Rle4): (r: Step<Rle4>)
    requires s.P + 1 < |s.In|
    ensures r.Next? ==> s.P < r.s.P && |r.s.In| == |s.In| && |r.s.Out| == |s.Out|
    ensures r.Stop? ==> r.o == Fault
  {
    var count := s.In[s.P + 1];
    match Literal(v, Reader(s.P + 2, true, s.In), Pen(s.D, s.High, s.Out), count)
    case None => Stop(Fault)
    case Some(res) =>
      var p := if v == AsWritten then res.0.P + AbsolutePad(count) else s.P + 2 + LiteralBytes(count);
      Next(Rle4(p, res.1.D, s.Line, res.1.High, res.0.In, res.1.Out))
  }

  /** What is left for the read cursor: the measure decompress4BitRLE's
      loop decreases (a cursor past the data faults on the next command). */
  function Unread(s: Rle4): nat
  {
    if s.P <= |s.In| + 1 then |s.In| + 2 - s.P else 0
  }

  /** decompress4BitRLE from a state: commands run while the guard lets
      more input through and the write cursor is inside the new buffer. */
  function Decode4(lineWidth: nat, size: int, v: Variant, s: Rle4): (r: Outcome)
    ensures r.Decoded? ==> |r.Out| == |s.Out|
    decreases Unread(s), 1
  {
    if !(MoreInput(v, size, s.P) && s.D < |s.Out|) then Decoded(s.Out)
    else Continue4(lineWidth, size, v, s)
  }

  /** The loop body of decompress4BitRLE: one command, then the loop again. */
  function Continue4(lineWidth: nat, size: int, v: Variant, s: Rle4): (r: Outcome)
    ensures r.Decoded? ==> |r.Out| == |s.Out|
    decreases Unread(s), 0
  {
    match Step4(lineWidth, v, s)
    case Next(t) => Decode4(lineWidth, size, v, t)
    case Stop(o) => o
  }

  /** The row length of decompress4BitRLE: two pixels to a byte, plus the pitch. */
  function LineWidth(width: nat, pitch: int): int
  {
    (width + 1) / 2 + pitch
  }

  /** decompress4BitRLE: the new buffer replaces the compressed data, which
      the run as written changes on the way. */
  method Decompress4BitRle(bmp: array<Byte>, size: int, width: nat, height: nat, pitch: int,
                           v: Variant, garbage: seq<Byte>)
    returns (newBmp: array<Byte>, outcome: Outcome)
    requires 0 <= LineWidth(width, pitch) && |garbage| == LineWidth(width, pitch) * height
    modifies bmp
    ensures fresh(newBmp)
    ensures outcome == Decode4(LineWidth(width, pitch), size, v, Rle4(0, 0, 0, true, old(bmp[..]), garbage))
    ensures outcome.Decoded? ==> newBmp[..] == outcome.Out
  {
    var lineWidth: nat := (width + 1) / 2 + pitch;
    newBmp := new Byte[|garbage|](i requires 0 <= i < |garbage| => garbage[i]);
    assert newBmp[..] == garbage;
    outcome := Decode4Loop(bmp, size, lineWidth, v, newBmp);
  }

  /** The loop of decompress4BitRLE over a new buffer. */
  method Decode4Loop(bmp: array<Byte>, size: int, lineWidth: nat, v: Variant, out: array<Byte>)
    returns (outcome: Outcome)
    requires out != bmp
    modifies bmp, out
    ensures outcome == Decode4(lineWidth, size, v, Rle4(0, 0, 0, true, old(bmp[..]), old(out[..])))
    ensures outcome.Decoded? ==> out[..] == outcome.Out
  {
    ghost var result := Decode4(lineWidth, size, v, Rle4(0, 0, 0, true, bmp[..], out[..]));
    var p: nat, d: nat, line: nat, high := 0, 0, 0, true;
    while MoreInput(v, size, p) && d < out.Length
      invariant Decode4(lineWidth, size, v, Rle4(p, d, line, high, bmp[..], out[..])) == result
      decreases Unread(Rle4(p, d, line, high, bmp[..], out[..]))
    {
      ghost var s := Rle4(p, d, line, high, bmp[..], out[..]);
      Decode4Unfold(lineWidth, size, v, s);
      var stop;
      p, d, line, high, stop := Command4(bmp, lineWidth, v, out, p, d, line, high);
      if stop.Some? {
        return stop.value;
      }
    }
    outcome := Decoded(out[..]);
  }

  /** One command of Decode4, when the guard lets it run. */
  lemma Decode4Unfold(lineWidth: nat, size: int, v: Variant, s: Rle4)
    requires MoreInput(v, size, s.P) && s.D < |s.Out|
    ensures var st := Step4(lineWidth, v, s);
      (st.Next? ==> Decode4(lineWidth, size, v, s) == Decode4(lineWidth, size, v, st.s) &&
                    Unread(st.s) < Unread(s)) &&
      (st.Stop? ==> Decode4(lineWidth, size, v, s) == st.o)
  {
  }

  /** One pass of decompress4BitRLE's loop body. */
  method Command4(bmp: array<Byte>, lineWidth: nat, v: Variant, out: array<Byte>,
                  p0: nat, d0: nat, line0: nat, high0: bool)
    returns (p: nat, d: nat, line: nat, high: bool, stop: Option<Outcome>)
    requires out != bmp
    modifies bmp, out
    ensures var st := Step4(lineWidth, v, Rle4(p0, d0, line0, high0, old(bmp[..]), old(out[..])));
      (st.Next? ==> stop.None? && Rle4(p, d, line, high, bmp[..], out[..]) == st.s) &&
      (st.Stop? ==> stop == Some(st.o) && (st.o.Decoded? ==> out[..] == old(out[..])))
  {
    if p0 + 1 >= bmp.Length {
      return p0, d0, line0, high0, Some(Fault);
    }
    if bmp[p0] != 0 {
      p, d, line, high, stop := RunCommand4(bmp, out, p0, d0, line0, high0);
    } else {
      p, d, line, high, stop := EscapeCommand4(bmp, lineWidth, v, out, p0, d0, line0, high0);
    }
  }

  method RunCommand4(bmp: array<Byte>, out: array<Byte>, p0: nat, d0: nat, line0: nat, high0: bool)
    returns (p: nat, d: nat, line: nat, high: bool, stop: Option<Outcome>)
    requires out != bmp && p0 + 1 < bmp.Length
    modifies out
    ensures var st := Run4(Rle4(p0, d0, line0, high0, bmp[..], old(out[..])));
      (st.Next? ==> stop.None? && Rle4(p, d, line, high, bmp[..], out[..]) == st.s) &&
      (st.Stop? ==> stop == Some(st.o))
  {
    var count := bmp[p0];
    var color1 := bmp[p0 + 1] % 16;
    var color2 := bmp[p0 + 1] / 16;
    var ok;
    d, high, ok := WriteRun(out, d0, high0, count, color1, color2);
    if !ok {
      return p0, d0, line0, high0, Some(Fault);
    }
    return p0 + 2, d, line0, high, None;
  }

  /** The write loop of an encoded run. */
  method WriteRun(out: array<Byte>, d0: nat, high0: bool, count: nat, c1: nat, c2: nat)
    returns (d: nat, high: bool, ok: bool)
    requires c1 < 16 && c2 < 16
    modifies out
    ensures var r := RunNibbles(Pen(d0, high0, old(out[..])), count, c1, c2);
      (ok <==> r.Some?) && (ok ==> Pen(d, high, out[..]) == r.value)
  {
    ghost var target := RunNibbles(Pen(d0, high0, out[..]), count, c1, c2);
    d, high := d0, high0;
    var i := 0;
    while i < count
      invariant i <= count
      invariant RunNibbles(Pen(d, high, out[..]), count - i, c1, c2) == target
    {
      if d >= out.Length {
        return d, high, false;
      }
      out[d] := SetNibble(out[d], high, if high then c2 else c1);
      if high {
        high := false;
      } else {
        high, d := true, d + 1;
      }
      i := i + 1;
    }
    ok := true;
  }

  method EscapeCommand4(bmp: array<Byte>, lineWidth: nat, v: Variant, out: array<Byte>,
                        p0: nat, d0: nat, line0: nat, high0: bool)
    returns (p: nat, d: nat, line: nat, high: bool, stop: Option<Outcome>)
    requires out != bmp && p0 + 1 < bmp.Length
    modifies bmp, out
    ensures var st := Escape4(lineWidth, v, Rle4(p0, d0, line0, high0, old(bmp[..]), old(out[..])));
      (st.Next? ==> stop.None? && Rle4(p, d, line, high, bmp[..], out[..]) == st.s) &&
      (st.Stop? ==> stop == Some(st.o) && (st.o.Decoded? ==> out[..] == old(out[..])))
  {
    p, d, line, high, stop := p0, d0, line0, high0, None;
    var code := bmp[p0 + 1];
    if code == 0 {
      p, line, high := p0 + 2, line0 + 1, true;
      d := line * lineWidth;
      TimesIsProduct(line, lineWidth);
    } else if code == 1 {
      stop := Some(Decoded(out[..]));
    } else if code == 2 {
      if p0 + 3 >= bmp.Length {
        return p0, d0, line0, high0, Some(Fault);
      }
      var x := bmp[p0 + 2];
      var y := bmp[p0 + 3];
      d := d0 + x / 2 + y * lineWidth;
      TimesIsProduct(y, lineWidth);
      high := x % 2 == 0;
      p := p0 + 4;
    } else {
      p, d, line, high, stop := AbsoluteCommand4(bmp, v, out, p0, d0, line0, high0);
    }
  }

  method AbsoluteCommand4(bmp: array<Byte>, v: Variant, out: array<Byte>,
                          p0: nat, d0: nat, line0: nat, high0: bool)
    returns (p: nat, d: nat, line: nat, high: bool, stop: Option<Outcome>)
    requires out != bmp && p0 + 1 < bmp.Length
    modifies bmp, out
    ensures var st := Absolute4(v, Rle4(p0, d0, line0, high0, old(bmp[..]), old(out[..])));
      (st.Next? ==> stop.None? && Rle4(p, d, line, high, bmp[..], out[..]) == st.s) &&
      (st.Stop? ==> stop == Some(st.o))
  {
    Absolute4Outcome(v, Rle4(p0, d0, line0, high0, bmp[..], out[..]));
    var count: nat := bmp[p0 + 1];
    var ok;
    p, d, high, ok := ReadLiteral(bmp, v, out, p0 + 2, d0, high0, count);
    if !ok {
      return p0, d0, line0, high0, Some(Fault);
    }
    p := SkipLiteral(v, p0, p, count);
    line, stop := line0, None;
  }

  /** Absolute4 in terms of the run's nibbles. */
  lemma Absolute4Outcome(v: Variant, s: Rle4)
    requires s.P + 1 < |s.In|
    ensures var count := s.In[s.P + 1];
      var r := Literal(v, Reader(s.P + 2, true, s.In), Pen(s.D, s.High, s.Out), count);
      (r.None? ==> Absolute4(v, s) == Stop(Fault)) &&
      (r.Some? ==>
         Absolute4(v, s) ==
         Next(Rle4(if v == AsWritten then r.value.0.P + AbsolutePad(count) else s.P + 2 + LiteralBytes(count),
                   r.value.1.D, s.Line, r.value.1.High, r.value.0.In, r.value.1.Out)))
  {
  }

  /** Where the read cursor goes after an absolute run's nibbles: the
      source's pad of one byte after an odd count, or, corrected, past the
      run's 16-bit words. */
  method SkipLiteral(v: Variant, p0: nat, p: nat, count: nat) returns (q: nat)
    ensures q == if v == AsWritten then p + AbsolutePad(count) else p0 + 2 + LiteralBytes(count)
  {
    if v == AsWritten {
      AbsolutePadIsParity(count);
      q := p + (2 - count % 2) % 2;
    } else {
      LiteralBytesIsWords(count);
      q := p0 + 2 + (count + 3) / 4 * 2;
    }
  }

  /** The loop of an absolute run: count nibbles read from the data, high
      half first, and written at the write cursor. */
  method ReadLiteral(bmp: array<Byte>, v: Variant, out: array<Byte>, p0: nat, d0: nat, high0: bool, count: nat)
    returns (p: nat, d: nat, high: bool, ok: bool)
    requires out != bmp
    modifies bmp, out
    ensures var r := Literal(v, Reader(p0, true, old(bmp[..])), Pen(d0, high0, old(out[..])), count);
      (ok <==> r.Some?) && (ok ==> p == r.value.0.P && bmp[..] == r.value.0.In && Pen(d, high, out[..]) == r.value.1)
  {
    ghost var target := Literal(v, Reader(p0, true, bmp[..]), Pen(d0, high0, out[..]), count);
    p, d, high := p0, d0, high0;
    var readHigh := true;
    var i := 0;
    while i < count
      invariant i <= count
      invariant Literal(v, Reader(p, readHigh, bmp[..]), Pen(d, high, out[..]), count - i) == target
    {
      p, readHigh, d, high, ok := CopyNibble(bmp, v, out, p, readHigh, d, high);
      if !ok {
        return;
      }
      i := i + 1;
    }
    ok := true;
  }

  /** One pass of the absolute run's loop. */
  method CopyNibble(bmp: array<Byte>, v: Variant, out: array<Byte>, p0: nat, readHigh0: bool, d0: nat, high0: bool)
    returns (p: nat, readHigh: bool, d: nat, high: bool, ok: bool)
    requires out != bmp
    modifies bmp, out
    ensures var r := LiteralNibble(v, Reader(p0, readHigh0, old(bmp[..])), Pen(d0, high0, old(out[..])));
      (ok <==> r.Some?) && (ok ==> Reader(p, readHigh, bmp[..]) == r.value.0 && Pen(d, high, out[..]) == r.value.1)
  {
    p, readHigh, d, high := p0, readHigh0, d0, high0;
    if p >= bmp.Length {
      return p, readHigh, d, high, false;
    }
    var b: int := bmp[p];
    var color := if readHigh then b / 16 else b % 16;
    if readHigh {
      readHigh := false;
    } else if v == AsWritten {
      bmp[p] := (b + 1) % 256;
      readHigh := true;
    } else {
      p, readHigh := p + 1, true;
    }
    if d >= out.Length {
      return p, readHigh, d, high, false;
    }
    out[d] := SetNibble(out[d], high, color);
    if high {
      high := false;
    } else {
      high, d := true, d + 1;
    }
    ok := true;
  }
  // ---------------------------------------------------------------------
  // BI_RLE4: what the commands mean

  /** Writing a byte's high nibble and then its low nibble writes the byte. */
  lemma PutByte(d: nat, out: seq<Byte>, b: Byte)
    requires d < |out|
    ensures Put(Pen(d, true, out), Hi(b)).Some?
    ensures Put(Put(Pen(d, true, out), Hi(b)).value, Lo(b)) == Some(Pen(d + 1, true, out[d := b]))
  {
    var x := SetNibble(out[d], true, Hi(b));
    var y := SetNibble(x, false, Lo(b));
    NibblesDetermine(y, b);
    assert out[d := x][d := y] == out[d := b];
  }

  /** An encoded run that starts on a high half writes the value's high
      nibble, then its low nibble, and so on: a run of 2k nibbles writes the
      value into k whole bytes, and an odd run also sets the high half of
      the byte after them. */
  lemma {:induction false} RunNibblesFill(out: seq<Byte>, d: nat, k: nat, odd: bool, b: Byte)
    requires d + k + (if odd then 1 else 0) <= |out|
    ensures RunNibbles(Pen(d, true, out), Twice(k) + (if odd then 1 else 0), Lo(b), Hi(b)) ==
            var filled := Fill(out, d, k, b);
            if odd then Some(Pen(d + k, false, filled[d + k := SetNibble(filled[d + k], true, Hi(b))]))
            else Some(Pen(d + k, true, filled))
    decreases k
  {
    var n := Twice(k) + (if odd then 1 else 0);
    if k == 0 {
      assert Fill(out, d, 0, b) == out;
    } else {
      PutByte(d, out, b);
      var q := Put(Pen(d, true, out), Hi(b)).value;
      assert RunNibbles(Pen(d, true, out), n, Lo(b), Hi(b)) == RunNibbles(q, n - 1, Lo(b), Hi(b));
      assert RunNibbles(q, n - 1, Lo(b), Hi(b)) ==
             RunNibbles(Pen(d + 1, true, out[d := b]), n - 2, Lo(b), Hi(b));
      assert n - 2 == Twice(k - 1) + (if odd then 1 else 0);
      RunNibblesFill(out[d := b], d + 1, k - 1, odd, b);
      assert Fill(out[d := b], d + 1, k - 1, b) == Fill(out, d, k, b);
    }
  }

  /** The corrected absolute run that starts on a high half copies the
      data's nibbles in order: 2k nibbles copy k bytes, and the read cursor
      ends just past them. */
  lemma {:induction false} LiteralCopies(input: seq<Byte>, p: nat, out: seq<Byte>, d: nat, k: nat)
    requires p + k <= |input| && d + k <= |out|
    ensures Literal(Corrected, Reader(p, true, input), Pen(d, true, out), Twice(k)) ==
            Some((Reader(p + k, true, input), Pen(d + k, true, CopyIn(out, d, input[p..p + k]))))
    decreases k
  {
    if k == 0 {
      assert CopyIn(out, d, input[p..p]) == out;
    } else {
      LiteralByte(input, p, out, d, Twice(k));
      LiteralCopies(input, p + 1, out[d := input[p]], d + 1, k - 1);
      CopyInStep(out, d, input[p..p + k]);
      assert input[p..p + k][1..] == input[p + 1..p + k];
    }
  }

  /** The first byte of a corrected absolute run that starts on a high half. */
  lemma LiteralByte(input: seq<Byte>, p: nat, out: seq<Byte>, d: nat, n: nat)
    requires p < |input| && d < |out| && n >= 2
    ensures Literal(Corrected, Reader(p, true, input), Pen(d, true, out), n) ==
            Literal(Corrected, Reader(p + 1, true, input), Pen(d + 1, true, out[d := input[p]]), n - 2)
  {
    var b := input[p];
    PutByte(d, out, b);
    var q := Put(Pen(d, true, out), Hi(b)).value;
    assert Literal(Corrected, Reader(p, true, input), Pen(d, true, out), n) ==
           Literal(Corrected, Reader(p, false, input), q, n - 1);
  }

  /** Copying a run in is copying its first byte, then the rest one further on. */
  lemma CopyInStep(out: seq<Byte>, d: nat, src: seq<Byte>)
    requires d + |src| <= |out| && |src| > 0
    ensures CopyIn(out[d := src[0]], d + 1, src[1..]) == CopyIn(out, d, src)
  {
  }

  /** As written, each pair of nibbles of an absolute run that starts on a
      high half is the byte under the read cursor, which then goes up by
      one while the cursor stays where it is. */
  lemma LiteralAsWrittenByte(input: seq<Byte>, p: nat, out: seq<Byte>, d: nat, n: nat)
    requires p < |input| && d < |out| && n >= 2
    ensures Literal(AsWritten, Reader(p, true, input), Pen(d, true, out), n) ==
            Literal(AsWritten, Reader(p, true, input[p := Increment(input[p])]), Pen(d + 1, true, out[d := input[p]]), n - 2)
  {
    var b := input[p];
    PutByte(d, out, b);
    var q := Put(Pen(d, true, out), Hi(b)).value;
    assert Literal(AsWritten, Reader(p, true, input), Pen(d, true, out), n) ==
           Literal(AsWritten, Reader(p, false, input), q, n - 1);
  }

  /** k bytes counting up from b, wrapping like a c8: what an absolute run
      of 2k nibbles as written reads. */
  function Climb(b: Byte, k: nat): (r: seq<Byte>)
    ensures |r| == k && (k > 0 ==> r[0] == b)
    decreases k
  {
    if k == 0 then [] else [b] + Climb(Increment(b), k - 1)
  }

  /** b incremented k times, wrapping. */
  function Bump(b: Byte, k: nat): Byte
    decreases k
  {
    if k == 0 then b else Bump(Increment(b), k - 1)
  }

  /** Bump is addition modulo 256. */
  lemma {:induction false} BumpIsSum(b: Byte, k: nat)
    ensures Bump(b, k) == (b + k) % 256
    decreases k
  {
    if k > 0 {
      BumpIsSum(Increment(b), k - 1);
    }
  }

  /** As written, an absolute run of 2k nibbles that starts on a high half
      writes k bytes counting up from the byte under the read cursor, adds k
      to that byte, and leaves the cursor where it was. */
  lemma {:induction false} LiteralAsWrittenRun(input: seq<Byte>, p: nat, out: seq<Byte>, d: nat, k: nat)
    requires p < |input| && d + k <= |out|
    ensures Literal(AsWritten, Reader(p, true, input), Pen(d, true, out), Twice(k)) ==
            Some((Reader(p, true, input[p := Bump(input[p], k)]), Pen(d + k, true, CopyIn(out, d, Climb(input[p], k)))))
    decreases k
  {
    var b := input[p];
    if k == 0 {
      assert input[p := b] == input;
      assert CopyIn(out, d, []) == out;
    } else {
      var input1 := input[p := Increment(b)];
      LiteralAsWrittenByte(input, p, out, d, Twice(k));
      assert Twice(k) - 2 == Twice(k - 1);
      LiteralAsWrittenRun(input1, p, out[d := b], d + 1, k - 1);
      assert Climb(b, k)[1..] == Climb(Increment(b), k - 1);
      assert input1[p := Bump(Increment(b), k - 1)] == input[p := Bump(b, k)];
      CopyInStep(out, d, Climb(b, k));
    }
  }

  /** The absolute run of 2k nibbles (k of at least 2, so that the count
      is not an escape code) as written: the decoder writes k bytes counting
      up from the run's first data byte and reads its next command from that
      byte, now k higher. */
  lemma Rle4AbsoluteAsWritten(lineWidth: nat, s: Rle4, k: nat)
    requires s.P + 2 < |s.In| && s.In[s.P] == 0 && s.In[s.P + 1] == Twice(k) && k >= 2
    requires s.High && s.D + k <= |s.Out|
    ensures Step4(lineWidth, AsWritten, s) ==
            Next(Rle4(s.P + 2, s.D + k, s.Line, true, s.In[s.P + 2 := Bump(s.In[s.P + 2], k)],
                      CopyIn(s.Out, s.D, Climb(s.In[s.P + 2], k))))
  {
    Step4Absolute(lineWidth, AsWritten, s);
    Absolute4Outcome(AsWritten, s);
    LiteralAsWrittenRun(s.In, s.P + 2, s.Out, s.D, k);
    AbsolutePadIsParity(Twice(k));
  }

  /** The same run corrected: the k data bytes, and the read cursor past
      the run's words. */
  lemma Rle4AbsoluteCorrected(lineWidth: nat, s: Rle4, k: nat)
    requires s.P + 2 + k <= |s.In| && s.In[s.P] == 0 && s.In[s.P + 1] == Twice(k) && k >= 2
    requires s.High && s.D + k <= |s.Out|
    ensures Step4(lineWidth, Corrected, s) ==
            Next(Rle4(s.P + 2 + LiteralBytes(Twice(k)), s.D + k, s.Line, true, s.In,
                      CopyIn(s.Out, s.D, s.In[s.P + 2..s.P + 2 + k])))
  {
    Absolute4Copies(s, k);
    Step4Absolute(lineWidth, Corrected, s);
  }

  /** The corrected absolute run of 2k nibbles that starts on a high half. */
  lemma Absolute4Copies(s: Rle4, k: nat)
    requires s.P + 2 + k <= |s.In| && s.In[s.P] == 0 && s.In[s.P + 1] == Twice(k) && k >= 2
    requires s.High && s.D + k <= |s.Out|
    ensures Absolute4(Corrected, s) ==
            Next(Rle4(s.P + 2 + LiteralBytes(Twice(k)), s.D + k, s.Line, true, s.In,
                      CopyIn(s.Out, s.D, s.In[s.P + 2..s.P + 2 + k])))
  {
    var rd, pen := Reader(s.P + 2, true, s.In), Pen(s.D, true, s.Out);
    assert Pen(s.D, s.High, s.Out) == pen;
    LiteralCopies(s.In, s.P + 2, s.Out, s.D, k);
    var res := (Reader(s.P + 2 + k, true, s.In), Pen(s.D + k, true, CopyIn(s.Out, s.D, s.In[s.P + 2..s.P + 2 + k])));
    assert Literal(Corrected, rd, pen, s.In[s.P + 1]) == Some(res);
  }

  /** The pad after an absolute run, as written, is the BI_RLE8 rule on
      the nibble count.  Even with the cursor advanced once per data byte
      (count / 2 bytes), the run then takes as many bytes as its whole
      16-bit words only when count % 4 is 0 or 3. */
  lemma PadAsWrittenMatchesWords(count: nat)
    ensures count / 2 + AbsolutePad(count) == LiteralBytes(count) <==> count % 4 == 0 || count % 4 == 3
  {
    AbsolutePadIsParity(count);
    LiteralBytesIsWords(count);
  }

  /** A run of two nibbles: with the cursor advanced past its one data
      byte, the source's pad of (2 - 2 % 2) % 2 = 0 bytes leaves the next
      command at an odd offset, one byte before the end of the run's word. */
  lemma Rle4PadAsWritten(input: seq<Byte>, p: nat, out: seq<Byte>, d: nat)
    requires p + 1 <= |input| && d + 1 <= |out|
    ensures var r := Literal(Corrected, Reader(p, true, input), Pen(d, true, out), 2);
      r.Some? && r.value.0.P + AbsolutePad(2) == p + 1 && p + LiteralBytes(2) == p + 2
  {
    assert Twice(1) == 2;
    LiteralCopies(input, p, out, d, 1);
  }

  /** A command 0, count with count above 2 is an absolute run. */
  lemma Step4Absolute(lineWidth: nat, v: Variant, s: Rle4)
    requires s.P + 1 < |s.In| && s.In[s.P] == 0 && s.In[s.P + 1] > 2
    ensures Step4(lineWidth, v, s) == Absolute4(v, s)
  {
  }

  // ---------------------------------------------------------------------
  // loadImage

  /** The fields of the file header that loadImage reads (SBMPHeader, whose
      byte layout is not part of this model); Id, BPP are u16, the sizes
      and Compression u32, Width and Height s32. */
  datatype Header = Header(Id: int, BitmapDataOffset: int, BitmapDataSize: int,
                           Width: int, Height: int, BPP: int, Compression: int)

  /** The image data loadImage hands to the colour converter: the
      decompressed rows, their padding, and the number of palette entries. */
  datatype Image = Image(Width: nat, Height: nat, Pitch: nat, PaletteSize: int, Data: seq<Byte>)

  /** loadImage's result: no surface, a surface made from an image, or a
      decompressor that read or wrote outside its buffers. */
  datatype Loaded = NoSurface | Made(image: Image) | Undefined

  /** The two-character constants 'MB' and 'BM' as a 16-bit id: the
      file's first two bytes "BM" read little-endian are 'MB'. */
  const IdMB: int := 0x4D42
  const IdBM: int := 0x424D

  /** The header checks: a BMP id, and no compression or RLE. */
  predicate Accepts(h: Header)
  {
    (h.Id == IdMB || h.Id == IdBM) && h.Compression <= 2
  }

  /** The data size rounded up to a multiple of four, in u32. */
  function RoundedDataSize(size: int): (r: int)
    requires IsU32(size)
    ensures IsU32(r) && r % 4 == 0
    ensures size <= Word - 4 ==> size <= r < size + 4
  {
    U32(size + (4 - size % 4) % 4)
  }

  /** The number of bytes loadImage reads: the rounded size from the header,
      or, when that is zero, the rest of the file from the data offset. */
  function DataSize(h: Header, fileSize: int): (r: int)
    requires IsU32(h.BitmapDataSize)
    ensures RoundedDataSize(h.BitmapDataSize) != 0 ==> r == RoundedDataSize(h.BitmapDataSize)
  {
    var size := RoundedDataSize(h.BitmapDataSize);
    if size == 0 then U32(fileSize - h.BitmapDataOffset) else size
  }

  /** The bytes of one row of pixels, a part byte counting as a whole one
      (the source computes Width · BPP / 8 in floating point and rounds up). */
  function WidthInBytes(width: nat, bpp: nat): (w: nat)
    ensures w * 8 >= width * bpp && (w == 0 || (w - 1) * 8 < width * bpp)
  {
    (width * bpp + 7) / 8
  }

  /** The padding that brings a row to a multiple of four bytes. */
  function RowPitch(widthInBytes: nat): (pitch: nat)
    ensures pitch < 4 && (widthInBytes + pitch) % 4 == 0
  {
    (4 - widthInBytes % 4) % 4
  }

  /** The palette entries between the header and the data.  The offset is
      a u32, so the difference with the position is taken modulo 2^32
      before the division; the quotient is below 2^30 and fits the s32. */
  function PaletteSize(dataOffset: int, pos: int): (n: int)
    ensures 0 <= n < Word / 4
  {
    U32(dataOffset - pos) / 4
  }

  /** A data offset at or after the position gives the palette entries in
      between; one before it (a header whose offset points back into the
      header) gives a palette of at least 2^29 entries. */
  lemma PaletteSizeMeaning(dataOffset: int, pos: int)
    requires IsU32(dataOffset) && IsS32(pos) && 0 <= pos
    ensures pos <= dataOffset ==> PaletteSize(dataOffset, pos) == (dataOffset - pos) / 4
    ensures dataOffset < pos ==> PaletteSize(dataOffset, pos) >= Word / 8
  {
    if dataOffset < pos {
      assert U32(dataOffset - pos) == dataOffset - pos + Word;
    }
  }

  /** The size of the buffer a decompressor makes for the header. */
  function DecodedSize(h: Header): int
    requires h.BPP >= 0
  {
    if h.Width < 0 || h.Height < 0 then 0
    else
      var pitch := RowPitch(WidthInBytes(h.Width, h.BPP));
      if h.Compression == 1 then (h.Width + pitch) * h.Height
      else if h.Compression == 2 then LineWidth(h.Width, pitch) * h.Height
      else 0
  }

  /** The data after the decompressor the header's compression selects. */
  function Decompressed(compression: int, size: int, width: nat, height: nat, pitch: nat,
                        data: seq<Byte>, garbage: seq<Byte>, v: Variant): Outcome
  {
    if compression == 1 then Decode8(data, size, width + pitch, v, Rle8(0, 0, 0, garbage))
    else if compression == 2 then Decode4(LineWidth(width, pitch), size, v, Rle4(0, 0, 0, true, data, garbage))
    else Decoded(data)
  }

  /** What loadImage gives for a header, the bytes it reads and the new
      buffer's initial contents.  A negative width or height passes the
      header checks but then sizes the new buffers by a negative product,
      which the model does not follow (Undefined). */
  function Load(h: Header, pos: int, fileSize: int, data: seq<Byte>, garbage: seq<Byte>, v: Variant): Loaded
    requires IsU32(h.BitmapDataSize) && h.BPP >= 0
  {
    if !Accepts(h) then NoSurface
    else if h.Width < 0 || h.Height < 0 then Undefined
    else
      var pitch := RowPitch(WidthInBytes(h.Width, h.BPP));
      match Decompressed(h.Compression, S32(DataSize(h, fileSize)), h.Width, h.Height, pitch, data, garbage, v)
      case Fault => Undefined
      case Decoded(out) => Made(Image(h.Width, h.Height, pitch, PaletteSize(h.BitmapDataOffset, pos), out))
  }

  /** The switch on the compression in loadImage. */
  method Decompress(compression: int, size: int, width: nat, height: nat, pitch: nat,
                    data: seq<Byte>, garbage: seq<Byte>, v: Variant) returns (decoded: Outcome)
    requires compression == 1 ==> |garbage| == (width + pitch) * height
    requires compression == 2 ==> |garbage| == LineWidth(width, pitch) * height
    ensures decoded == Decompressed(compression, size, width, height, pitch, data, garbage, v)
  {
    var bmp := new Byte[|data|](i requires 0 <= i < |data| => data[i]);
    assert bmp[..] == data;
    decoded := Decoded(data);
    if compression == 1 {
      var newBmp;
      newBmp, decoded := Decompress8BitRle(bmp, size, width, height, pitch, v, garbage);
    } else if compression == 2 {
      var newBmp;
      newBmp, decoded := Decompress4BitRle(bmp, size, width, height, pitch, v, garbage);
    }
  }

  /** CSurfaceLoaderBmp: the compressed data and the palette of the image
      being loaded, both released when loadImage ends. */
  class SurfaceLoaderBmp {
    var BmpData: seq<Byte>
    var PaletteData: seq<int>

    constructor ()
      ensures BmpData == [] && PaletteData == []
    {
      BmpData, PaletteData := [], [];
    }

    /** loadImage, from the header onward: the header checks, the sizes,
        the data read from the file (data), and the decompression.  pos is
        the file position after the header, palette the entries read. */
    method LoadImage(h: Header, pos: int, fileSize: int, palette: seq<int>, data: seq<Byte>,
                     garbage: seq<Byte>, v: Variant) returns (r: Loaded)
      requires IsU32(h.BitmapDataSize) && h.BPP >= 0
      requires Accepts(h) ==> |data| == DataSize(h, fileSize) && |garbage| == DecodedSize(h)
      modifies this
      ensures r == Load(h, pos, fileSize, data, garbage, v)
      ensures r == NoSurface <==> !Accepts(h)
      ensures Accepts(h) ==> BmpData == [] && PaletteData == []
      ensures !Accepts(h) ==> BmpData == old(BmpData) && PaletteData == old(PaletteData)
    {
      if (h.Id != IdMB && h.Id != IdBM) || h.Compression > 2 {
        return NoSurface;
      }
      var dataSize := U32(h.BitmapDataSize + (4 - h.BitmapDataSize % 4) % 4);
      var paletteSize := PaletteSize(h.BitmapDataOffset, pos);
      if paletteSize != 0 {
        PaletteData := palette;
      }
      if dataSize == 0 {
        dataSize := U32(fileSize - h.BitmapDataOffset);
      }
      if h.Width < 0 || h.Height < 0 {
        PaletteData, BmpData := [], [];
        return Undefined;
      }
      var widthInBytes := WidthInBytes(h.Width, h.BPP);
      var lineData := widthInBytes + (4 - widthInBytes % 4) % 4;
      var pitch := lineData - widthInBytes;
      BmpData := data;
      var decoded := Decompress(h.Compression, S32(dataSize), h.Width, h.Height, pitch, data, garbage, v);
      match decoded {
        case Fault => r := Undefined;
        case Decoded(out) => r := Made(Image(h.Width, h.Height, pitch, paletteSize, out));
      }
      PaletteData, BmpData := [], [];
    }
  }
}
