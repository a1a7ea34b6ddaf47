# Buffered stream and byte-order codec of stream.h

A Dafny model of the two parts of `stream.h` that have behaviour of their own.

1. The byte-order layer:
   - how `BYTEORDER` is chosen;
   - `Swap16/32/64` and the `SwapLE*`/`SwapBE*` macros built on them;
   - the twelve scalar functions `read_{le,be}{16,32,64}` and `write_{le,be}{16,32,64}`.
2. The buffered file stream `buf_stream_t` and its operations `buf_file_read`, `buf_file_write`, `buf_file_peek`, `buf_file_seek` and `buf_file_close`. The stream has a read buffer, a write buffer and a current position.

Modules:

- `ByteOrder` (byteorder.dfy) holds LIL_ENDIAN (1234), BIG_ENDIAN (4321) and the detection of `BYTEORDER`.
  - The predefined architecture macros are a set of macro names.
  - A build is a `Platform`: the value `BYTEORDER` got, paired with the order in which the machine really stores integers. The swap macros only test `BYTEORDER == LIL_ENDIAN`, so any other value acts as big endian. `Platform.Consistent()` says that the macro describes the machine.
- `Codec` (codec.dfy) is pure.
  - Values are naturals below 256^n. Bytes are `uint8`, the integers 0..255.
  - Little- and big-endian layouts are sequences of bytes.
  - `Swap` is byte reversal.
  - `SwapLE`/`SwapBE` are the macro selections.
  - `Load`/`Store` are the scalar functions on their bytes. A read takes the bytes as a `uintN_t` in the machine's own order and then applies the selected macro. A write applies the macro first and then stores the `uintN_t` in the machine's own order. The width (`W16`, `W32`, `W64`) and the declared order are parameters, so `Load(p, Little, W16, …)` is `read_le16`.
- `Modes` (modes.dfy) holds the `MODE_*` flags.
- `BufStream` (bufstream.dfy) holds the class `BufferedStream`.
  - The underlying file is the sequence `disk`.
  - `readBuf`/`readSize`/`readOffset` and `writeBuf`/`writeSize`/`writeOffset` are `read_buf_s` and `write_buf_s`. `offset` is the current position.
  - `Contents()` is the file as a user of the stream sees it: `disk` with the pending write buffer applied (`Overlay`).
  - Every operation is specified against `Contents()` and `offset`.
  - The constructor takes the buffer capacities as parameters, in place of the fixed `READ_BUFFER_SIZE` and `WRITE_BUFFER_SIZE` (10485760).
- `ScalarIO` (scalario.dfy) holds `ReadUInt`/`WriteUInt`, the twelve scalar functions over a `BufferedStream`, parameterised by order and width.

The header has no function bodies, so three things are assumptions of this model rather than facts of the source.
- The bodies of `read_*`/`write_*` are assumed to be a native read or store of a `uintN_t` combined with `SwapLE*`/`SwapBE*`, which is what the header's macros exist for. The finding below about `read_le16` on a misdetected build rests on this assumption.
- The refill and write-back policy is this model's own. The stream contracts rest only on what the field comments fix: each buffer, its size and its file offset.
- The header's comment on each `bufsize` field (stream.h:68, 74) says only "buffer size". The model reads it as the count of valid or pending bytes (`readSize`/`writeSize`) and takes the capacity from the array's `Length`. This is an interpretation.

The model's stream bodies do the following:
- a read or peek first writes back pending bytes, is then served from the read buffer, and refills that buffer from the file at the current position when the position lies outside it;
- a write goes to the write buffer. The buffer is written back first when it is full, or when the position is not where its pending bytes end. Large writes therefore go out one full buffer after another;
- a write-back drops the read buffer;
- a seek only moves the position.

Other choices:
- The C scalar reads return a bare `uintN_t`. The model reports a short read as `Err(ShortRead)` rather than inventing a value.
- The host order given to these operations never comes from hidden global state. The `Platform` argument carries it.

## Model

| member | source | states |
|---|---|---|
| ByteOrder.Detect | stream.h:94-108 | an explicit BYTEORDER wins; otherwise the result is BIG_ENDIAN exactly on a listed big-endian target and LIL_ENDIAN on every other (with the intended `__MIPSEB__`, see Findings) |
| ByteOrder.DetectAsWritten | stream.h:98-108 | the same detection with the test as written: an explicit value wins, otherwise BIG_ENDIAN exactly when the written test holds and LIL_ENDIAN exactly when it fails |
| ByteOrder.BigEndianTarget | stream.h:99-103 | the architecture test with the intended `__MIPSEB__`: true exactly when one of the listed big-endian macros is defined, or `__MIPS__` together with `__MIPSEB__` |
| ByteOrder.BigEndianTargetAsWritten | stream.h:99-103 | the architecture test as written, with `__MISPEB__` |
| ByteOrder.Platform.Consistent | stream.h:114-128 | BYTEORDER describes the machine: the machine is little endian exactly when BYTEORDER is 1234, the only value the swap macros test for |
| ByteOrder.MisdetectsBigEndianMips | stream.h:101 | a target defining `__MIPS__` and `__MIPSEB__` is detected as LIL_ENDIAN, which misdescribes its memory |
| ByteOrder.DetectsBigEndianMips | stream.h:101 | with the intended macro that target gets BIG_ENDIAN, which describes its memory |
| ByteOrder.DetectionsAgreeOffMips | stream.h:99-103 | off MIPS the written and intended tests give the same value |
| ByteOrder.DetectedIsConsistent | stream.h:98-108 | a detected value always describes the machine where the architecture test describes it |
| Modes.ModeFlags | stream.h:18-22 | READWRITEFILTER is READ or WRITE; READ, WRITE, EXISTING and CREATE are single bits; EXISTING and CREATE are distinct and outside the read/write bits |
| Codec.EncodeLE | stream.h:130-142 | the little-endian layout of a value below 256^n has exactly n bytes; its bytes are given by `EncodeLEAt` and it is inverted by `DecodeLE` |
| Codec.DecodeLE | stream.h:130-142 | the value of n bytes read low byte first is below 256^n |
| Codec.EncodeBE | stream.h:130-142 | the big-endian layout of a value below 256^n has exactly n bytes; its bytes are given by `EncodeBEAt` |
| Codec.DecodeBE | stream.h:130-142 | the value of n bytes read high byte first is below 256^n |
| Codec.DecodeEncodeLE | stream.h:130-142 | decoding the little-endian bytes of a value gives the value |
| Codec.EncodeDecodeLE | stream.h:130-142 | encoding the value of n bytes in n bytes gives the bytes back |
| Codec.DecodeEncode | stream.h:130-142 | the round trip holds in both orders |
| Codec.EncodeDecode | stream.h:130-142 | the inverse round trip (bytes to value to bytes) holds in both orders |
| Codec.LayoutsMirror | stream.h:137-142 | the big-endian layout is the little-endian layout reversed, and the other way round; the first half is how `EncodeBE` is defined, so the evidence that the two layouts really mirror each other is `EncodeLEAt` and `EncodeBEAt`, which fix each one's bytes as base-256 digits on their own |
| Codec.EncodeLEAt | stream.h:137-142 | byte i of the little-endian layout is base-256 digit i of the value (low byte first) |
| Codec.EncodeBEAt | stream.h:137-142 | byte i of the big-endian layout is digit n-1-i (high byte first) |
| Codec.Layout16 | stream.h:137-138 | the little-endian layout of a 16-bit value is [low, high] and the big-endian one [high, low], which `write_le16`/`write_be16` emit on a consistent build (`Store`) |
| Codec.Layout16Example | stream.h:137-138 | 0x1234 is laid out [0x34, 0x12] little endian and [0x12, 0x34] big endian, which `write_le16`/`write_be16` emit on a consistent build (`Store`) |
| Codec.Swap | stream.h:110-112 | Swap16/32/64: the result has the argument's bytes in reverse order and fits the same width |
| Codec.SwapSwap | stream.h:110-112 | swapping twice gives the original value |
| Codec.Swap16Example | stream.h:110 | Swap16(0x1234) is 0x3412 |
| Codec.SwapLE | stream.h:114-128 | SwapLE16/32/64: the result fits the width, and stored in the memory order the build assumes (little endian exactly when BYTEORDER is 1234) it is the little-endian layout of the argument |
| Codec.SwapBE | stream.h:114-128 | SwapBE16/32/64: the result fits the width, and stored in the memory order the build assumes it is the big-endian layout of the argument |
| Codec.SwapFor | stream.h:114-128 | the macro a declared order selects: stored in the assumed memory order, the result is the argument's layout in the declared order |
| Codec.SwapSelection | stream.h:114-128 | on a 1234 build SwapLE is the identity and SwapBE is Swap; on a 4321 build the reverse; on every build one of them is the identity and the other Swap |
| Codec.SwapForTwice | stream.h:114-128 | a selected macro applied twice is the identity |
| Codec.SwapIsOtherOrder | stream.h:110-128 | swapping the value of bytes read in one order gives their value in the other |
| Codec.LoadStore | stream.h:130-142 | `read_xxN` of the bytes `write_xxN` emitted gives the value, on every platform, consistent or not |
| Codec.Load | stream.h:130-135 | `read_{le,be}N` on N/8 bytes: the result fits the width and is the bytes' value in the declared order when BYTEORDER describes the machine, and in the opposite order when it does not |
| Codec.Store | stream.h:137-142 | `write_{le,be}N`: exactly N/8 bytes, the declared layout of the value when BYTEORDER describes the machine and the opposite layout when it does not |
| Codec.MisdescribedMachineSwaps | stream.h:94-135 | on a big-endian machine built with BYTEORDER 1234, `read_le16` of [1, 0] gives 256, not 1 |
| BufStream.Overlay | stream.h:84 | a file after a write at a position: as long as the old file or the end of the write, whichever is further, and unchanged by writing nothing; its bytes are given by `OverlayReadsBack` and `OverlayElsewhere` |
| BufStream.OverlayReadsBack | stream.h:84 | written bytes are found at the position they were written to |
| BufStream.OverlayElsewhere | stream.h:84 | outside the written range a write keeps the file's bytes; a gap past the old end reads as zero |
| BufStream.OverlayExtend | stream.h:72-76 | appending a byte right after buffered bytes is the same as buffering them together |
| BufStream.ReadCount | stream.h:83 | a read copies at most the bytes asked for, stays within the file, and is short only at its end |
| BufStream.SeekTarget | stream.h:86 | from start, current position or end plus the offset; an unknown whence or a negative position is an error |
| BufStream.BufferedStream.Valid | stream.h:66-78 | the buffer windows: each buffer's count of valid bytes is within its capacity; the read buffer holds exactly the file's bytes from its file offset on; the two buffers are distinct |
| BufStream.BufferedStream.constructor | stream.h:60-80 | both buffers are empty at file offset 0, with the given capacities; the position is 0; the stream shows the file as it is |
| BufStream.BufferedStream.Size | stream.h:86 | the length of the file as the stream shows it |
| BufStream.BufferedStream.Flush | stream.h:72-76 | the underlying file becomes what the stream showed, the write buffer empties, nothing the user sees changes |
| BufStream.BufferedStream.Refill | stream.h:66-70 | the read buffer then holds the file's bytes from the current position, as many as fit or remain |
| BufStream.BufferedStream.NextByte | stream.h:66-78 | returns the file's byte at the position and moves one on, keeping the read buffer a copy of the file |
| BufStream.BufferedStream.Read | stream.h:83 | returns the count of bytes copied (short only at the end of the file); they are the file's bytes at the old position; the position moves by that count; the file, as the user sees it, and the rest of the caller's buffer are unchanged |
| BufStream.BufferedStream.Peek | stream.h:85 | the same count and bytes as a read, with the position unchanged |
| BufStream.BufferedStream.Write | stream.h:84 | accepts all bytes; the file shows them at the old position; the position moves past them |
| BufStream.BufferedStream.Append | stream.h:72-76 | one byte joins the buffered run that ends at the position, after a write-back if the buffer was full |
| BufStream.BufferedStream.Seek | stream.h:86 | returns the target position and moves there; on error the position stays |
| BufStream.BufferedStream.Close | stream.h:87 | bytes written but not yet written back are in the underlying file afterwards |
| BufStream.WriteSeekRead | stream.h:83-86 | writing, seeking back and reading returns exactly the bytes written, whatever the buffer capacities |
| ScalarIO.ReadUInt | stream.h:130-135 | reads the width's bytes and moves past them; the value is `Load` of those bytes (the declared order's value when BYTEORDER describes the machine); fewer bytes before the end is ShortRead |
| ScalarIO.WriteUInt | stream.h:137-142 | writes exactly N/8 bytes at the position and returns that count; the bytes are `Store` of the value (the declared layout when BYTEORDER describes the machine) |
| ScalarIO.WriteSeekReadUInt | stream.h:130-142 | writing a value, seeking back and reading it with the matching function gives the value |

## Left out

- The unbuffered `file_*` backend and `create_file_stream`/`destory_file_stream` (stream.h:46-56). They pass straight through to operating-system file calls, and those are not part of this model.
- `open` with a filename and mode translation, the allocation and release of buffers in `create_buf_file_stream`/`destory_buf_file_stream`, and the releasing half of `buf_file_close`. This is I/O and memory management. A stream is built over a given file's contents.
- The function-pointer table `stream_t` and the `stream_*` macros (stream.h:25-43). The indirection has no behaviour of its own. The model calls the buffered operations directly.
- `tell`. No buffered `tell` is declared. `Seek(0, SEEK_CUR)` returns the position.
- The typedef fallback for fixed-width integers (stream.h:5-15). Widths are the `Width` datatype.
- Failures of the underlying file. The model's file never fails, so no write is short. Reads are short only at the end of the file.
- BufStream.BufferedStream.Seek: the position is unbounded. The `uint64_t` result and lseek's (uint64_t)-1 error value are not modelled. An invalid seek is `Err(InvalidSeek)`.
- BufStream.BufferedStream.Read: the size is required to be non-negative and to fit the caller's buffer. The header's `int size` says nothing about negative sizes.
- BufStream.BufferedStream.Write: the same requirement on the size as Read. The result is always the full count, because the model's file cannot fail.
- ScalarIO.ReadUInt: the C function returns a bare `uintN_t`. The model returns `Err(ShortRead)` where the C result for a short read is not determined by the header.

## Findings

| source | as written | input that shows it | evidently intended | confidence | as-written member | corrected member |
|---|---|---|---|---|---|---|
| stream.h:101 | `(defined(__MIPS__) && defined(__MISPEB__))` | a big-endian MIPS target defining `__MIPS__` and `__MIPSEB__`: BYTEORDER becomes 1234, so `read_le16` of [1, 0] yields 256 | `__MIPSEB__`, the big-endian MIPS macro | medium, not executed | ByteOrder.MisdetectsBigEndianMips | ByteOrder.DetectsBigEndianMips |
