/**
 * read_{le,be}{16,32,64} and write_{le,be}{16,32,64} over a buffered stream.
 *
 * One method per direction, parameterised by the declared order and the
 * width: ReadUInt(s, p, Little, W16) is read_le16, WriteUInt(s, p, Big, W64, v)
 * is write_be64, and so on. The build's BYTEORDER value and the machine's
 * memory order come in as the platform `p`.
 */
module ScalarIO {
  import opened ByteOrder
  import opened Codec
  import opened BufStream

  /**
   * Reads the width's bytes at the current position into a native integer
   * and applies the selected swap macro. Fewer bytes before the end of the
   * file is a ShortRead; the position then still moves past the bytes there were.
   */
  method ReadUInt(s: BufferedStream, p: Platform, order: Endian, w: Width) returns (r: Result<nat>)
    requires s.Valid()
    modifies s, s.readBuf
    ensures s.Valid() && s.Contents() == old(s.Contents())
    ensures var c, off, n := old(s.Contents()), old(s.offset), w.Bytes();
      if off + n <= |c| then r == Ok(Load(p, order, w, c[off..off + n])) && s.offset == off + n
      else r == Err(ShortRead) && s.offset == off + ReadCount(|c|, off, n)
    ensures r.Ok? && p.Consistent() ==>
      r.value == Decode(order, old(s.Contents())[old(s.offset)..old(s.offset) + w.Bytes()])
  {
    var n := w.Bytes();
    var tmp := new uint8[n];
    var got := s.Read(tmp, n);
    if got < n {
      r := Err(ShortRead);
    } else {
      r := Ok(Load(p, order, w, tmp[..]));
      assert tmp[..] == tmp[..got];
    }
  }

  /**
   * Applies the selected swap macro and writes the native bytes of the
   * result at the current position; returns the count written.
   */
  method WriteUInt(s: BufferedStream, p: Platform, order: Endian, w: Width, value: nat) returns (written: int)
    requires s.Valid() && Fits(w, value)
    modifies s, s.writeBuf
    ensures s.Valid()
    ensures written == w.Bytes() && s.offset == old(s.offset) + w.Bytes()
    ensures s.Contents() == Overlay(old(s.Contents()), old(s.offset), Store(p, order, w, value))
    ensures p.Consistent() ==>
      s.Contents() == Overlay(old(s.Contents()), old(s.offset), Encode(order, value, w.Bytes()))
  {
    var bytes := Store(p, order, w, value);
    var tmp := new uint8[w.Bytes()](i requires 0 <= i < w.Bytes() => bytes[i]);
    assert tmp[..] == bytes;
    written := s.Write(tmp, w.Bytes());
  }

  /**
   * Writing a value, seeking back and reading it with the same function
   * gives the value back, for every width, order and platform.
   */
  method WriteSeekReadUInt(s: BufferedStream, p: Platform, order: Endian, w: Width, value: nat) returns (r: Result<nat>)
    requires s.Valid() && Fits(w, value) && s.offset < 0x8000_0000_0000_0000
    modifies s, s.readBuf, s.writeBuf
    ensures s.Valid()
    ensures r == Ok(value)
  {
    var start := s.offset;
    var written := WriteUInt(s, p, order, w, value);
    var moved := s.Seek(start, SEEK_SET);
    r := ReadUInt(s, p, order, w);
    OverlayReadsBack(old(s.Contents()), start, Store(p, order, w, value));
    LoadStore(p, order, w, value);
  }
}
