/**
 * The buffered file stream (buf_stream_t).
 *
 * The stream sits on an underlying file, modelled as the byte sequence
 * `disk`. It keeps a read buffer holding a copy of the file's bytes from
 * `readOffset` on, a write buffer holding bytes to be written to the file at
 * `writeOffset`, and the current read/write position `offset`. What a caller
 * observes is `Contents()`: the file as it will be once the write buffer has
 * been written back.
 */
module BufStream {
  import opened Codec

  datatype StreamError = ShortRead | InvalidSeek

  datatype Result<T> = Ok(value: T) | Err(error: StreamError)

  /** The `whence` values of a seek, as in lseek. */
  const SEEK_SET: int := 0
  const SEEK_CUR: int := 1
  const SEEK_END: int := 2

  function Min(a: int, b: int): int { if a <= b then a else b }
  function Max(a: int, b: int): int { if a <= b then b else a }

  /**
   * The file `d` after writing `data` at position `off`: bytes past the old
   * end are appended, and a gap between the old end and `off` reads as zeros.
   * Writing nothing changes nothing.
   */
  function Overlay(d: seq<uint8>, off: nat, data: seq<uint8>): (r: seq<uint8>)
    ensures |r| == if data == [] then |d| else Max(|d|, off + |data|)
  {
    if data == [] then d
    else
      seq(Max(|d|, off + |data|), i requires 0 <= i < Max(|d|, off + |data|) =>
        if off <= i < off + |data| then data[i - off]
        else if i < |d| then d[i]
        else 0)
  }

  /** The written bytes are found at the position they were written to. */
  lemma OverlayReadsBack(d: seq<uint8>, off: nat, data: seq<uint8>)
    requires data != [] || off <= |d|
    ensures off + |data| <= |Overlay(d, off, data)|
    ensures Overlay(d, off, data)[off..off + |data|] == data
  {
  }

  /** Outside the written range the file keeps its bytes, and a gap past its end is zero. */
  lemma OverlayElsewhere(d: seq<uint8>, off: nat, data: seq<uint8>, i: nat)
    requires i < |Overlay(d, off, data)| && !(off <= i < off + |data|)
    ensures i < |d| ==> Overlay(d, off, data)[i] == d[i]
    ensures i >= |d| ==> Overlay(d, off, data)[i] == 0
  {
  }

  /** Writing `a` and then `b` right after it is writing `a + b`. */
  lemma OverlayExtend(d: seq<uint8>, off: nat, a: seq<uint8>, b: uint8)
    ensures Overlay(Overlay(d, off, a), off + |a|, [b]) == Overlay(d, off, a + [b])
  {
    if a != [] {
      var lhs, rhs := Overlay(Overlay(d, off, a), off + |a|, [b]), Overlay(d, off, a + [b]);
      assert |lhs| == |rhs|;
      forall i | 0 <= i < |lhs| ensures lhs[i] == rhs[i] {
        if i < off + |a| {
          assert lhs[i] == Overlay(d, off, a)[i];
        }
      }
    }
  }

  /** How many bytes a read of `size` at `off` copies from a file of `len` bytes. */
  function ReadCount(len: nat, off: nat, size: nat): (n: nat)
    ensures n <= size
    ensures off + n <= len || n == 0
    ensures n < size ==> off + n >= len
  {
    if off >= len then 0 else Min(size, len - off)
  }

  /** The position a seek moves to, or InvalidSeek for a negative position or an unknown `whence`. */
  function SeekTarget(cur: nat, len: nat, off: int, whence: int): (r: Result<nat>)
    ensures r.Ok? <==> (whence == SEEK_SET || whence == SEEK_CUR || whence == SEEK_END)
                       && 0 <= off + (if whence == SEEK_CUR then cur else if whence == SEEK_END then len else 0)
    ensures r.Ok? && whence == SEEK_SET ==> r.value == off
    ensures r.Ok? && whence == SEEK_CUR ==> r.value == cur + off
    ensures r.Ok? && whence == SEEK_END ==> r.value == len + off
  {
    var base := if whence == SEEK_SET then 0 else if whence == SEEK_CUR then cur else len;
    if whence != SEEK_SET && whence != SEEK_CUR && whence != SEEK_END then Err(InvalidSeek)
    else if base + off < 0 then Err(InvalidSeek)
    else Ok(base + off)
  }

  class BufferedStream {
    /** The underlying file. */
    var disk: seq<uint8>

    /** read_buf_s: the buffer, its count of valid bytes, and the file offset of its first byte. */
    const readBuf: array<uint8>
    var readSize: nat
    var readOffset: nat

    /** write_buf_s: the buffer, its count of pending bytes, and the file offset they go to. */
    const writeBuf: array<uint8>
    var writeSize: nat
    var writeOffset: nat

    /** The current read/write position in the file. */
    var offset: nat

    ghost predicate Valid()
      reads this, readBuf, writeBuf
    {
      && readBuf != writeBuf
      && readBuf.Length > 0 && writeBuf.Length > 0
      && readSize <= readBuf.Length
      && readOffset + readSize <= |disk|
      && readBuf[..readSize] == disk[readOffset..readOffset + readSize]
      && writeSize <= writeBuf.Length
    }

    /** The file as the stream's user sees it: the underlying file with the pending writes applied. */
    ghost function Contents(): seq<uint8>
      reads this, writeBuf
      requires writeSize <= writeBuf.Length
    {
      Overlay(disk, writeOffset, writeBuf[..writeSize])
    }

    /** The length of Contents(), the base of a seek from the end. */
    function Size(): (n: nat)
      reads this, writeBuf
      requires writeSize <= writeBuf.Length
      ensures n == |Contents()|
    {
      if writeSize == 0 then |disk| else Max(|disk|, writeOffset + writeSize)
    }

    /**
     * A stream over an open file, with buffers of the given capacities
     * (the header fixes both at 10 MiB), both empty and at offset 0.
     */
    constructor (file: seq<uint8>, readCapacity: nat, writeCapacity: nat)
      requires readCapacity > 0 && writeCapacity > 0
      ensures Valid() && fresh(readBuf) && fresh(writeBuf)
      ensures readBuf.Length == readCapacity && writeBuf.Length == writeCapacity
      ensures disk == file && Contents() == file && offset == 0
      ensures readSize == 0 && readOffset == 0 && writeSize == 0 && writeOffset == 0
    {
      disk := file;
      readBuf := new uint8[readCapacity];
      writeBuf := new uint8[writeCapacity];
      readSize, readOffset := 0, 0;
      writeSize, writeOffset := 0, 0;
      offset := 0;
    }

    /**
     * Writes the pending bytes back to the file in one write at writeOffset
     * and empties the write buffer; a read buffer that may now be stale is
     * dropped.
     */
    method Flush()
      requires Valid()
      modifies this`disk, this`writeSize, this`readSize
      ensures Valid() && Contents() == old(Contents())
      ensures disk == old(Contents()) && writeSize == 0
      ensures readSize == if old(writeSize) == 0 then old(readSize) else 0
      ensures offset == old(offset) && readOffset == old(readOffset) && writeOffset == old(writeOffset)
    {
      if writeSize > 0 {
        disk := Overlay(disk, writeOffset, writeBuf[..writeSize]);
        writeSize := 0;
        readSize := 0;
      }
    }

    /** Fills the read buffer from the file, starting at the current position. */
    method Refill()
      requires Valid() && offset < |disk|
      modifies this`readSize, this`readOffset, readBuf
      ensures Valid()
      ensures readOffset == offset && readSize == Min(readBuf.Length, |disk| - offset)
    {
      var n := Min(readBuf.Length, |disk| - offset);
      var k := 0;
      while k < n
        invariant 0 <= k <= n
        invariant forall j :: 0 <= j < k ==> readBuf[j] == disk[offset + j]
      {
        readBuf[k] := disk[offset + k];
        k := k + 1;
      }
      readOffset, readSize := offset, n;
      assert readBuf[..readSize] == disk[readOffset..readOffset + readSize];
    }

    /** Takes the byte at the current position from the read buffer, refilling it when the position is outside it. */
    method NextByte() returns (b: uint8)
      requires Valid() && offset < |disk|
      modifies this`readSize, this`readOffset, this`offset, readBuf
      ensures Valid() && b == disk[old(offset)] && offset == old(offset) + 1
    {
      if !(readOffset <= offset < readOffset + readSize) {
        Refill();
      }
      assert readBuf[offset - readOffset] == disk[offset] by {
        assert readBuf[..readSize][offset - readOffset] == disk[readOffset..readOffset + readSize][offset - readOffset];
      }
      b := readBuf[offset - readOffset];
      offset := offset + 1;
    }

    /**
     * buf_file_read: copies up to `size` bytes from the current position into
     * `dst`, fewer only at the end of the file, and moves past them.
     */
    method Read(dst: array<uint8>, size: int) returns (n: int)
      requires Valid() && dst != readBuf && dst != writeBuf && 0 <= size <= dst.Length
      modifies this, readBuf, dst
      ensures Valid() && Contents() == old(Contents())
      ensures n == ReadCount(|old(Contents())|, old(offset), size)
      ensures offset == old(offset) + n
      ensures n > 0 ==> dst[..n] == old(Contents())[old(offset)..old(offset) + n]
      ensures dst[n..] == old(dst[n..])
    {
      ghost var c, start := Contents(), offset;
      Flush();
      n := 0;
      while n < size && offset < |disk|
        invariant Valid() && writeSize == 0 && disk == c
        invariant 0 <= n <= size && offset == start + n
        invariant n > 0 ==> offset <= |disk|
        invariant forall j :: 0 <= j < n ==> dst[j] == c[start + j]
        invariant forall j :: n <= j < dst.Length ==> dst[j] == old(dst[j])
        decreases size - n
      {
        var b := NextByte();
        dst[n] := b;
        n := n + 1;
      }
      if n > 0 {
        assert dst[..n] == c[start..start + n];
      }
    }

    /** buf_file_peek: the bytes buf_file_read would copy, leaving the position where it was. */
    method Peek(dst: array<uint8>, size: int) returns (n: int)
      requires Valid() && dst != readBuf && dst != writeBuf && 0 <= size <= dst.Length
      modifies this, readBuf, dst
      ensures Valid() && Contents() == old(Contents())
      ensures n == ReadCount(|old(Contents())|, old(offset), size)
      ensures offset == old(offset)
      ensures n > 0 ==> dst[..n] == old(Contents())[old(offset)..old(offset) + n]
      ensures dst[n..] == old(dst[n..])
    {
      var saved := offset;
      n := Read(dst, size);
      offset := saved;
    }

    /**
     * buf_file_write: accepts all `size` bytes of `src` at the current
     * position and moves past them. Bytes go to the write buffer, which is
     * written back first when it is full or when the position is not where
     * its pending bytes end.
     */
    method Write(src: array<uint8>, size: int) returns (n: int)
      requires Valid() && src != readBuf && src != writeBuf && 0 <= size <= src.Length
      modifies this, writeBuf
      ensures Valid()
      ensures n == size && offset == old(offset) + size
      ensures Contents() == Overlay(old(Contents()), old(offset), src[..size])
    {
      if writeSize > 0 && writeOffset + writeSize != offset {
        Flush();
      }
      ghost var c, start := Contents(), offset;
      var i := 0;
      while i < size
        invariant Valid() && 0 <= i <= size && offset == start + i
        invariant Contents() == Overlay(c, start, src[..i])
        invariant writeSize > 0 ==> writeOffset + writeSize == offset
      {
        Append(src[i]);
        OverlayExtend(c, start, src[..i], src[i]);
        assert src[..i] + [src[i]] == src[..i + 1];
        i := i + 1;
      }
      n := size;
    }

    /** Adds one byte at the current position to the write buffer, writing the buffer back first when it is full. */
    method Append(b: uint8)
      requires Valid() && (writeSize > 0 ==> writeOffset + writeSize == offset)
      modifies this, writeBuf
      ensures Valid() && offset == old(offset) + 1
      ensures writeSize > 0 && writeOffset + writeSize == offset
      ensures Contents() == Overlay(old(Contents()), old(offset), [b])
    {
      if writeSize == writeBuf.Length {
        Flush();
      }
      if writeSize == 0 {
        writeOffset := offset;
      }
      ghost var pending := writeBuf[..writeSize];
      writeBuf[writeSize] := b;
      writeSize := writeSize + 1;
      offset := offset + 1;
      assert writeBuf[..writeSize] == pending + [b];
      OverlayExtend(disk, writeOffset, pending, b);
    }

    /**
     * buf_file_seek: moves the position to `off` from the start, the
     * current position or the end, and returns it. The buffers are left as
     * they are; a read from outside the read buffer refills it.
     */
    method Seek(off: int, whence: int) returns (r: Result<nat>)
      requires Valid() && -0x8000_0000_0000_0000 <= off < 0x8000_0000_0000_0000
      modifies this`offset
      ensures Valid()
      ensures r == SeekTarget(old(offset), |Contents()|, off, whence)
      ensures offset == if r.Ok? then r.value else old(offset)
    {
      r := SeekTarget(offset, Size(), off, whence);
      if r.Ok? {
        offset := r.value;
      }
    }

    /** buf_file_close, as far as the file is concerned: the pending bytes are written back. */
    method Close()
      requires Valid()
      modifies this
      ensures Valid() && disk == old(Contents()) && writeSize == 0
    {
      Flush();
    }
  }

  /**
   * Writing, seeking back to where the write began and reading returns the
   * bytes written, whatever the buffer capacities.
   */
  method WriteSeekRead(s: BufferedStream, src: array<uint8>, dst: array<uint8>, size: int) returns (n: int)
    requires s.Valid() && 0 <= size <= src.Length && size <= dst.Length
    requires src != s.readBuf && src != s.writeBuf && dst != s.readBuf && dst != s.writeBuf && dst != src
    requires s.offset < 0x8000_0000_0000_0000
    modifies s, s.readBuf, s.writeBuf, dst
    ensures s.Valid()
    ensures n == size && dst[..size] == src[..size]
  {
    var start := s.offset;
    var written := s.Write(src, size);
    var r := s.Seek(start, SEEK_SET);
    n := s.Read(dst, size);
    if size > 0 {
      OverlayReadsBack(old(s.Contents()), start, src[..size]);
    }
  }
}
