// The read-only file over a block of memory (CMemoryReadFile).  `Len` and
// `Pos` are u32 fields of the source; `read` takes a size_t (32 bits on the
// platform the engine targets) and `seek` an s32 offset, and the sums the
// source forms are unsigned, so the model writes their wrap-around out.
module MemoryReadFile {
  import opened Common

  /** The amount `read` computes, with the source's u32 arithmetic:
      amount -= Pos + amount - Len when Pos + amount > Len. */
  function ReadAmountAsWritten(pos: int, len: int, size: int): (amount: int)
    requires 0 <= pos <= len && IsU32(len) && IsU32(size)
    ensures IsU32(amount)
  {
    var sum := U32(pos + size);
    if sum > len then U32(size - U32(sum - len)) else size
  }

  /** The amount `read` is meant to deliver: what is asked for, but no more
      than what is left after Pos. */
  function ReadAmount(pos: int, len: int, size: int): (amount: int)
    requires 0 <= pos <= len && 0 <= size
    ensures 0 <= amount <= size && pos + amount <= len
    ensures amount == size || pos + amount == len
  {
    if pos + size > len then len - pos else size
  }

  /** As long as Pos + size does not wrap, the source computes exactly that amount. */
  lemma ReadAmountWithoutWrap(pos: int, len: int, size: int)
    requires 0 <= pos <= len && IsU32(len) && IsU32(size) && pos + size < Word
    ensures ReadAmountAsWritten(pos, len, size) == ReadAmount(pos, len, size)
  {
  }

  /** The amount as written runs past the end of the buffer exactly when
      Pos + size wraps past 2^32 to a sum that is not above Len; in every
      other case it is the intended amount. */
  lemma ReadAmountAsWrittenOverruns(pos: int, len: int, size: int)
    requires 0 <= pos <= len && IsU32(len) && IsU32(size)
    ensures pos + ReadAmountAsWritten(pos, len, size) > len <==> pos + size >= Word && pos + size - Word <= len
    ensures pos + ReadAmountAsWritten(pos, len, size) <= len ==>
      ReadAmountAsWritten(pos, len, size) == ReadAmount(pos, len, size)
  {
    if pos + size >= Word {
      assert U32(pos + size) == pos + size - Word;
    }
  }

  /** When Pos + size wraps past 2^32 the unsigned sum looks small, no
      clamping happens, and the copy runs past the end of the buffer. */
  lemma ReadAmountOverrun()
    ensures ReadAmountAsWritten(1, 1, Word - 1) == Word - 1
    ensures ReadAmount(1, 1, Word - 1) == 0
  {
  }

  /** The new position `seek` installs, or None when it fails.  A relative
      move adds the offset as an unsigned value, so a backward move that
      stays inside the file wraps to the right position and one that would
      go before the start wraps to a huge value and fails. */
  function SeekTarget(pos: int, len: int, finalPos: int, relative: bool): (r: Option<int>)
    requires 0 <= pos <= len && IsU32(len) && IsS32(finalPos)
    ensures r.Some? ==> 0 <= r.value <= len
  {
    if relative then
      var sum := U32(pos + U32(finalPos));
      if sum > len then None else Some(sum)
    else
      if U32(finalPos) > len then None else Some(U32(finalPos))
  }

  /** For a file shorter than 2^31 bytes (the constructor's length is an
      s32), seek succeeds exactly when the target lies in [0, Len], and the
      target is the mathematical one. */
  lemma SeekTargetMeaning(pos: int, len: int, finalPos: int, relative: bool)
    requires 0 <= pos <= len <= S32Max && IsS32(finalPos)
    ensures var target := if relative then pos + finalPos else finalPos;
            SeekTarget(pos, len, finalPos, relative) ==
              if 0 <= target <= len then Some(target) else None
  {
    if relative {
      if finalPos < 0 {
        assert U32(finalPos) == finalPos + Word;
        if pos + finalPos >= 0 {
          assert U32(pos + U32(finalPos)) == pos + finalPos;
        } else {
          assert U32(pos + U32(finalPos)) == pos + finalPos + Word;
        }
      }
    } else if finalPos < 0 {
      assert U32(finalPos) == finalPos + Word;
    }
  }

  class File {
    const Buffer: seq<bv8>
    const Len: int
    var Pos: int

    ghost predicate Valid()
      reads this
    {
      Len == |Buffer| <= S32Max && 0 <= Pos <= Len
    }

    /** The file over `memory`, whose length the caller passes as `len`. */
    constructor (memory: seq<bv8>, len: int)
      requires 0 <= len <= S32Max && |memory| == len
      ensures Valid() && Buffer == memory && Pos == 0
    {
      Buffer := memory;
      Len := len;
      Pos := 0;
    }

    /** read, as written or as evidently intended: delivers
        Buffer[Pos, Pos + amount) and advances Pos by amount.  As written,
        an amount that runs past the end of the buffer is a `fault`, where
        the model stops and nothing changes. */
    method Read(v: Variant, sizeToRead: int) returns (fault: bool, amount: int, bytes: seq<bv8>)
      requires Valid() && IsU32(sizeToRead)
      modifies this
      ensures Valid()
      ensures v == Corrected ==> !fault
      ensures v == AsWritten ==>
        (fault <==> old(Pos) + ReadAmountAsWritten(old(Pos), Len, sizeToRead) > Len)
      ensures fault ==> Pos == old(Pos) && bytes == []
      ensures !fault ==>
        amount == ReadAmount(old(Pos), Len, sizeToRead) &&
        bytes == Buffer[old(Pos)..old(Pos) + amount] &&
        Pos == old(Pos) + amount
    {
      if v == AsWritten {
        amount := sizeToRead;
        if U32(Pos + amount) > Len {
          amount := U32(amount - U32(Pos + amount - Len));
        }
        ReadAmountAsWrittenOverruns(Pos, Len, sizeToRead);
        if Pos + amount > Len {
          return true, amount, [];
        }
      } else {
        amount := sizeToRead;
        if Pos + amount > Len {
          amount := amount - (Pos + amount - Len);
        }
      }
      fault := false;
      bytes := Buffer[Pos..Pos + amount];
      Pos := Pos + amount;
    }

    /** seek: moves to SeekTarget, or fails and stays put. */
    method Seek(finalPos: int, relativeMovement: bool) returns (ok: bool)
      requires Valid() && IsS32(finalPos)
      modifies this
      ensures Valid()
      ensures ok == SeekTarget(old(Pos), Len, finalPos, relativeMovement).Some?
      ensures ok ==> Pos == SeekTarget(old(Pos), Len, finalPos, relativeMovement).value
      ensures !ok ==> Pos == old(Pos)
    {
      if relativeMovement {
        if U32(Pos + U32(finalPos)) > Len {
          return false;
        }
        Pos := U32(Pos + U32(finalPos));
      } else {
        if U32(finalPos) > Len {
          return false;
        }
        Pos := U32(finalPos);
      }
      return true;
    }

    /** getSize: the length given at construction, which is the buffer's. */
    function GetSize(): (n: int)
      requires Valid()
      reads this
      ensures n == |Buffer|
    {
      Len
    }

    /** getPos: never past the end of the file. */
    function GetPos(): (p: int)
      requires Valid()
      reads this
      ensures 0 <= p <= GetSize() && IsS32(p)
    {
      Pos
    }
  }
}
