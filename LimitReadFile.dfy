// The windowed reader (CLimitReadFile): a view of AreaSize bytes of an
// already opened file, starting at that file's position when the view is
// made.  The wrapped file is modelled by the memory file; the fields
// AreaSize, AreaStart and AreaEnd are size_t (u32) in the source, and the
// model writes out the unsigned wrap of the sums it forms.
module LimitReadFile {
  import opened Common
  import MemoryReadFile

  /** The size `read` passes on: clamped to AreaEnd - pos once pos + size
      reaches AreaEnd. */
  function ReadRequest(pos: int, areaEnd: int, size: int): (req: int)
    requires IsU32(pos) && IsU32(areaEnd) && IsU32(size)
    ensures IsU32(req)
    ensures pos < areaEnd && pos + size < Word ==> req <= size && pos + req <= areaEnd
  {
    if U32(pos + size) >= areaEnd then U32(areaEnd - pos) else size
  }

  /** Inside the window, the request is what is asked for, cut at AreaEnd. */
  lemma ReadRequestIsMin(pos: int, areaEnd: int, size: int)
    requires IsU32(areaEnd) && IsU32(size) && 0 <= pos < areaEnd && pos + size < Word
    ensures ReadRequest(pos, areaEnd, size) == Min(size, areaEnd - pos)
  {
  }

  /** The offset `seek` passes on to the wrapped file, or None when the
      absolute target is past AreaEnd.  A relative move past AreaEnd is cut
      to AreaEnd - pos; an absolute offset is moved by AreaStart. */
  function SeekArgument(pos: int, areaStart: int, areaEnd: int, finalPos: int, relative: bool): (r: Option<int>)
    requires IsU32(pos) && IsU32(areaStart) && IsU32(areaEnd) && IsS32(finalPos)
    ensures r.Some? ==> IsS32(r.value)
    ensures relative ==> r.Some?
  {
    if relative then
      if U32(pos + U32(finalPos)) > areaEnd then Some(S32(areaEnd - pos)) else Some(finalPos)
    else
      var moved := S32(finalPos + areaStart);
      if U32(moved) > areaEnd then None else Some(moved)
  }

  /** Without wrap-around: an absolute seek to p targets AreaStart + p and is
      refused exactly when that is past AreaEnd; a relative seek that would
      pass AreaEnd is clamped so that it lands on AreaEnd. */
  lemma SeekArgumentMeaning(pos: int, areaStart: int, areaEnd: int, finalPos: int, relative: bool)
    requires 0 <= pos <= areaEnd <= S32Max && 0 <= areaStart <= areaEnd && IsS32(finalPos)
    requires !relative ==> 0 <= finalPos && areaStart + finalPos <= S32Max
    requires relative ==> 0 <= pos + finalPos
    ensures !relative ==>
      SeekArgument(pos, areaStart, areaEnd, finalPos, relative) ==
        if areaStart + finalPos <= areaEnd then Some(areaStart + finalPos) else None
    ensures relative ==>
      SeekArgument(pos, areaStart, areaEnd, finalPos, relative) ==
        if pos + finalPos > areaEnd then Some(areaEnd - pos) else Some(finalPos)
  {
    if relative && finalPos < 0 {
      assert U32(finalPos) == finalPos + Word;
      assert U32(pos + U32(finalPos)) == pos + finalPos;
    }
  }

  class LimitFile {
    const File: MemoryReadFile.File
    const AreaSize: int
    const AreaStart: int
    const AreaEnd: int

    ghost predicate Valid()
      reads this, File
    {
      File.Valid() && IsU32(AreaSize) && IsU32(AreaStart) && IsU32(AreaEnd)
    }

    /** The constructor with `init`: the window starts where the file is now. */
    constructor (alreadyOpenedFile: MemoryReadFile.File, areaSize: int)
      requires alreadyOpenedFile.Valid() && IsU32(areaSize)
      ensures Valid() && File == alreadyOpenedFile && AreaSize == areaSize
      ensures AreaStart == alreadyOpenedFile.Pos
      ensures AreaEnd == U32(AreaStart + AreaSize)
    {
      File := alreadyOpenedFile;
      AreaSize := areaSize;
      AreaStart := alreadyOpenedFile.Pos;
      AreaEnd := U32(alreadyOpenedFile.Pos + areaSize);
    }

    /** read: nothing at or past AreaEnd; otherwise the wrapped file's read
        of ReadRequest bytes, as written or as evidently intended. */
    method Read(v: Variant, sizeToRead: int) returns (fault: bool, amount: int, bytes: seq<bv8>)
      requires Valid() && IsU32(sizeToRead)
      modifies File
      ensures Valid()
      ensures old(File.Pos) >= AreaEnd ==> !fault && amount == 0 && bytes == [] && File.Pos == old(File.Pos)
      ensures old(File.Pos) < AreaEnd ==>
        var req := ReadRequest(old(File.Pos), AreaEnd, sizeToRead);
        (fault <==> v == AsWritten &&
                    old(File.Pos) + MemoryReadFile.ReadAmountAsWritten(old(File.Pos), File.Len, req) > File.Len) &&
        (fault ==> File.Pos == old(File.Pos) && bytes == []) &&
        (!fault ==>
          amount == MemoryReadFile.ReadAmount(old(File.Pos), File.Len, req) &&
          bytes == File.Buffer[old(File.Pos)..old(File.Pos) + amount] &&
          File.Pos == old(File.Pos) + amount)
    {
      var pos := File.GetPos();
      if pos >= AreaEnd {
        return false, 0, [];
      }
      var size := sizeToRead;
      if U32(pos + size) >= AreaEnd {
        size := U32(AreaEnd - pos);
      }
      fault, amount, bytes := File.Read(v, size);
    }

    /** seek: the wrapped file's seek with SeekArgument, or false when that
        is None. */
    method Seek(finalPos: int, relativeMovement: bool) returns (ok: bool)
      requires Valid() && IsS32(finalPos)
      modifies File
      ensures Valid()
      ensures var arg := SeekArgument(old(File.Pos), AreaStart, AreaEnd, finalPos, relativeMovement);
        if arg.None? then !ok && File.Pos == old(File.Pos)
        else
          var target := MemoryReadFile.SeekTarget(old(File.Pos), File.Len, arg.value, relativeMovement);
          ok == target.Some? && File.Pos == (if ok then target.value else old(File.Pos))
    {
      var pos := File.GetPos();
      ghost var expected := SeekArgument(pos, AreaStart, AreaEnd, finalPos, relativeMovement);
      var arg := finalPos;
      if relativeMovement {
        if U32(pos + U32(arg)) > AreaEnd {
          arg := S32(AreaEnd - pos);
        }
      } else {
        arg := S32(arg + AreaStart);
        if U32(arg) > AreaEnd {
          assert expected.None?;
          return false;
        }
      }
      assert expected == Some(arg);
      ok := File.Seek(arg, relativeMovement);
    }

    /** getSize: the window's size, whatever the wrapped file's length. */
    function GetSize(): (n: int)
      reads this
      ensures n == AreaSize
    {
      AreaSize
    }

    /** getPos: the wrapped file's position relative to AreaStart. */
    function GetPos(): (p: int)
      requires Valid()
      reads this, File
      ensures IsS32(p)
      ensures AreaStart <= File.Pos ==> p == File.Pos - AreaStart
    {
      S32(File.GetPos() - AreaStart)
    }
  }
}
