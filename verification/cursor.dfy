/**
 * A seekable byte buffer with a position and a byte order, read and written the
 * way the archive codec uses its binary reader/writer: reads fail past the end,
 * writes overwrite in place and grow the buffer when they reach past its end.
 */
module BinaryCursor {
  import opened Wrappers
  import opened Bytes

  /** The `n` bytes at position `p` of `data`, or why they cannot be read. */
  function ReadAt(data: Bytes, p: nat, n: int): (r: Result<Bytes>)
    ensures r.Success? <==> 0 <= n && p + n <= |data|
    ensures r.Success? ==> |r.value| == n && r.value == data[p..p + n]
    ensures r.Failure? ==> r.error == if n < 0 then NegativeLength else ReadPastEnd
  {
    if n < 0 then Failure(NegativeLength)
    else if p + n > |data| then Failure(ReadPastEnd)
    else Success(data[p..p + n])
  }

  class Cursor {
    var buf: Bytes
    var pos: nat
    var endian: Endian

    /** A cursor at position 0 over `init`, little-endian until told otherwise. */
    constructor (init: Bytes)
      ensures buf == init && pos == 0 && endian == Little
    {
      buf := init;
      pos := 0;
      endian := Little;
    }

    method SetEndian(e: Endian)
      modifies this`endian
      ensures endian == e
    {
      endian := e;
    }

    /** Moves the position; a position past the end only matters to the next read or write. */
    method Seek(p: nat)
      modifies this`pos
      ensures pos == p
    {
      pos := p;
    }

    method ReadBytes(n: int) returns (r: Result<Bytes>)
      modifies this`pos
      ensures r == ReadAt(buf, old(pos), n)
      ensures pos == if r.Success? then old(pos) + n else old(pos)
    {
      r := ReadAt(buf, pos, n);
      if r.Success? {
        pos := pos + n;
      }
    }

    /** Reads an `n`-byte string field and drops its null padding. */
    method ReadStr(n: int) returns (r: Result<Bytes>)
      modifies this`pos
      ensures r.Success? <==> ReadAt(buf, old(pos), n).Success?
      ensures r.Success? ==> r.value == CutAtNull(buf[old(pos)..old(pos) + n])
      ensures r.Failure? ==> r == ReadAt(buf, old(pos), n).PropagateFailure()
      ensures pos == if r.Success? then old(pos) + n else old(pos)
    {
      var b :- ReadBytes(n);
      r := Success(CutAtNull(b));
    }

    method ReadU32() returns (r: Result<nat>)
      modifies this`pos
      ensures r.Success? <==> old(pos) + 4 <= |buf|
      ensures r.Success? ==> r.value == U32Value(buf[old(pos)..old(pos) + 4], endian)
      ensures r.Failure? ==> r.error == ReadPastEnd
      ensures pos == if r.Success? then old(pos) + 4 else old(pos)
    {
      var b :- ReadBytes(4);
      r := Success(U32Value(b, endian));
    }

    method ReadI32() returns (r: Result<int>)
      modifies this`pos
      ensures r.Success? <==> old(pos) + 4 <= |buf|
      ensures r.Success? ==> r.value == I32Value(buf[old(pos)..old(pos) + 4], endian)
      ensures r.Failure? ==> r.error == ReadPastEnd
      ensures pos == if r.Success? then old(pos) + 4 else old(pos)
    {
      var b :- ReadBytes(4);
      r := Success(I32Value(b, endian));
    }

    /** Writes `w` at the position; at the end of the buffer this appends. */
    method WriteBytes(w: Bytes)
      modifies this`buf, this`pos
      ensures buf == Overwrite(old(buf), old(pos), w)
      ensures old(pos) == |old(buf)| ==> buf == old(buf) + w
      ensures pos == old(pos) + |w|
    {
      if pos == |buf| {
        OverwriteAtEnd(buf, w);
      }
      buf := Overwrite(buf, pos, w);
      pos := pos + |w|;
    }

    /** Writes an unsigned 32-bit word; a value outside 0 .. 2^32 - 1 is refused and nothing is written. */
    method WriteU32(v: int) returns (r: Outcome)
      modifies this`buf, this`pos
      ensures r.Pass? <==> 0 <= v < TWO_32
      ensures r.Fail? ==> r.error == ValueOutOfRange && buf == old(buf) && pos == old(pos)
      ensures r.Pass? ==> buf == Overwrite(old(buf), old(pos), U32Bytes(v, endian))
      ensures r.Pass? && old(pos) == |old(buf)| ==> buf == old(buf) + U32Bytes(v, endian)
      ensures r.Pass? ==> pos == old(pos) + 4
    {
      if v < 0 || v >= TWO_32 {
        return Fail(ValueOutOfRange);
      }
      WriteBytes(U32Bytes(v, endian));
      r := Pass;
    }

    /** Writes a signed 32-bit word; a value outside -2^31 .. 2^31 - 1 is refused and nothing is written. */
    method WriteI32(v: int) returns (r: Outcome)
      modifies this`buf, this`pos
      ensures r.Pass? <==> -TWO_31 <= v < TWO_31
      ensures r.Fail? ==> r.error == ValueOutOfRange && buf == old(buf) && pos == old(pos)
      ensures r.Pass? ==> buf == Overwrite(old(buf), old(pos), I32Bytes(v, endian))
      ensures r.Pass? ==> pos == old(pos) + 4
    {
      if v < -TWO_31 || v >= TWO_31 {
        return Fail(ValueOutOfRange);
      }
      WriteBytes(I32Bytes(v, endian));
      r := Pass;
    }

    /** Writes `s` and zero bytes up to `width`; a longer `s` is refused and nothing is written. */
    method WriteStrFixed(s: Bytes, width: nat) returns (r: Outcome)
      modifies this`buf, this`pos
      ensures r.Pass? <==> |s| <= width
      ensures r.Fail? ==> r.error == FieldTooLong && buf == old(buf) && pos == old(pos)
      ensures r.Pass? ==> buf == Overwrite(old(buf), old(pos), Fixed(s, width))
      ensures r.Pass? && old(pos) == |old(buf)| ==> buf == old(buf) + Fixed(s, width)
      ensures r.Pass? ==> pos == old(pos) + width
    {
      if |s| > width {
        return Fail(FieldTooLong);
      }
      WriteBytes(Fixed(s, width));
      r := Pass;
    }

    /** `align(0x10)`: zero-fills up to the next multiple of 16. */
    method Align16()
      modifies this`buf, this`pos
      ensures buf == Overwrite(old(buf), old(pos), Zeros(AlignUp16(old(pos)) - old(pos)))
      ensures old(pos) == |old(buf)| ==> buf == old(buf) + Zeros(AlignUp16(old(pos)) - old(pos))
      ensures pos == AlignUp16(old(pos))
    {
      WriteBytes(Zeros(AlignUp16(pos) - pos));
    }
  }
}
