# Run-length and pass-through compression schemes, modelled in Dafny

The repository benchmarks lossless compression schemes on a fixed message:
each scheme's compressor reads the message from one string stream and
writes a second, its decompressor reads the second and writes a third, and
the benchmark insists that the third equals the message.

This project models the two schemes and that round trip:

- **runlength** (`schemes/RunLength.hh`). The compressor reads the input in
  blocks of at most `MAX_RUN_LENGTH` = 32768 bytes. For each block it
  computes 2-byte `(count, value)` units, one per maximal run of equal
  bytes, into a working buffer of the same size, and writes either a run
  frame (header `isRun = 1`, `length` = payload size, then the units) or a
  literal frame (header `isRun = 0`, `length` = block size, then the
  bytes). It picks the run frame only when that frame is strictly smaller.
  The decompressor reads frames until a whole 2-byte header cannot be read.
  It expands each unit of a run frame, and copies a literal frame's
  payload.
- **none** (`schemes/None.hh`). Both directions copy the input stream to
  the output stream byte by byte.

Layout of the Dafny files:

| file | module | contents |
|---|---|---|
| `bytes.dfy` | `Bytes` | `uint8`, `MAX_RUN_LENGTH`, `Option` |
| `streams.dfy` | `Streams` | `ByteStream`: written bytes plus a read position, with `get`, `read`, `put` and `write` |
| `frame_header.dfy` | `FrameHeader` | the 2-byte `Frame` header: the 1-bit `isRun` and 15-bit `length` fields |
| `runs.dfy` | `MaximalRuns` | maximal runs of a byte sequence, as a function, proved to split the sequence into non-empty runs whose neighbours differ |
| `units.dfy` | `Units` | the 2-byte `Unit` with its 8-bit count, and the decoding of a unit payload |
| `runlength_format.dfy` | `RunLengthFormat` | the format as functions: blocks, the frame chosen for a block, the frame reader, and the round-trip theorems |
| `runlength.dfy` | `RunLength` | `RunLengthCompressor` and `RunLengthDecompressor` as classes over arrays and streams, proved against those functions |
| `none.dfy` | `NoneCodec` | `NoneCompressor` and `NoneDecompressor` |
| `schemes.dfy` | `Schemes` | the closed set of schemes, their names, and the benchmark's round trip |

Representation choices:

- **Header layout.** The source leaves the bit-field layout of `Frame` to
  the compiler. The model fixes the GCC little-endian layout: the 16-bit
  word is `isRun | length << 1`, and its low byte is written first.
  `length` is truncated to 15 bits, as the bit-field does.
- **Unit counts.** A unit's count is a `uint8_t`. The model stores the run
  length modulo 256, as the source does.
- **`outLen`.** In `compress` the source never initialises `outLen` or resets
  it between blocks. The model starts it at 0 for every block, which is the
  evident intent.
- **Overflow check.** `compressRun` writes a unit and only then checks whether
  it overflowed the buffer. The model checks first. The result is the same,
  and the model never writes out of bounds.
- **Streams.** The `std::stringstream` objects are one `ByteStream` class: a
  sequence of written bytes and a read position. Compressors and
  decompressors hold their two streams as fields, as the source's objects
  hold references.

## The two defects, as modelled

The round trip does not hold for every input. The model keeps the source's
behaviour and states the exact condition. `RunLengthFormat.BlockDecodable`
says when a block survives:

- A run-encoded block must have no maximal run longer than 255 bytes, since
  a count is stored modulo 256. `RunLengthFormat.LongRunLost` shows that
  256 equal bytes decompress to nothing.
- A literally encoded block must be shorter than 32768 bytes, since the
  15-bit length field stores 32768 as 0. `RunLengthFormat.FullBlockLost`
  and `RunLengthFormat.AlternatingBlockLost` show such a block. It is read
  back as an empty frame, and its bytes are then taken for further frames.

`RunLengthFormat.FrameRoundTrip` proves that this condition is both
necessary and sufficient for one frame. `RunLengthFormat.StreamRoundTrip`
proves the whole stream round trips when every block meets it.

## Model

| member | source | states |
|---|---|---|
| FrameHeader.EncodeHeader | schemes/RunLength.hh:17-21 | the header is exactly 2 bytes, and bit 0 of the first byte is `isRun` |
| FrameHeader.DecodeHeader | schemes/RunLength.hh:132 | the length read back is below 32768, and `isRun` is bit 0 of the first byte |
| FrameHeader.HeaderRoundTrip | schemes/RunLength.hh:17-21 | reading back a written header yields the same `isRun` and the length modulo 32768 |
| FrameHeader.HeaderRoundTripExact | schemes/RunLength.hh:109 | every length below 32768 survives the header unchanged |
| FrameHeader.FullBlockLengthLost | schemes/RunLength.hh:116 | a length of MAX_RUN_LENGTH (32768) is read back as 0 |
| FrameHeader.HeaderBytesRoundTrip | schemes/RunLength.hh:132 | any 2 bytes, read as a header and written again, are unchanged: the layout uses all 16 bits |
| MaximalRuns.RunEnd | schemes/RunLength.hh:52-54 | the inner scan stops after `i`, at the end of the block or at a byte different from `b[i]` |
| MaximalRuns.RunEndSpan | schemes/RunLength.hh:53 | every byte from `i` up to the stopping point equals `b[i]` |
| MaximalRuns.RunEndUnique | schemes/RunLength.hh:52-54 | any `j` with `b[i..j)` equal to `b[i]`, and `j` at the end or `b[j]` different, is that stopping point |
| MaximalRuns.RunsDecompose | schemes/RunLength.hh:50-71 | the runs cover the block in order, none is empty, and neighbouring runs have different values |
| MaximalRuns.ExpandLength | schemes/RunLength.hh:50-71 | the bytes a run list stands for number the sum of its counts |
| Units.UnitBytes | schemes/RunLength.hh:11-15 | each run takes exactly 2 bytes of payload |
| Units.ExpandUnitBytes | schemes/RunLength.hh:137-142 | decoding the written units gives the runs with their counts reduced modulo 256 |
| Units.UnitsRoundTrip | schemes/RunLength.hh:56 | decoding the units gives back the runs if and only if every run is shorter than 256 |
| Units.TruncateLongRun | schemes/RunLength.hh:13 | a run of 256 or more makes the decoded bytes strictly fewer than the block |
| RunLengthFormat.RunPayloadCovers | schemes/RunLength.hh:137 | a run frame's payload is a whole number of units, and stepping by 2 below `length` stays inside it and ends at its end |
| RunLengthFormat.DecodeFrame | schemes/RunLength.hh:132-149 | a frame that decodes takes at least its 2-byte header and no more than the input holds |
| RunLengthFormat.BlocksPartition | schemes/RunLength.hh:28-41 | the blocks concatenate to the input, none is empty, each has at most 32768 bytes, and all but the last are full |
| RunLengthFormat.EncodeBlockSize | schemes/RunLength.hh:106-118 | a run frame is 2 + outLen bytes and strictly smaller than the block; a literal frame is 2 + block size bytes |
| RunLengthFormat.UniformBlock | schemes/RunLength.hh:79-82 | a block of one repeated byte is one run, and is run-encoded exactly when longer than 4 bytes |
| RunLengthFormat.DistinctNeighboursLiteral | schemes/RunLength.hh:79-82 | a block with no two equal neighbours has one run per byte and is written literally |
| RunLengthFormat.FrameRoundTrip | schemes/RunLength.hh:106-149 | one frame decodes back to its block, and consumes exactly the frame, if and only if the block is decodable |
| RunLengthFormat.FullBlockLost | schemes/RunLength.hh:116 | a full block written literally decodes as an empty frame of 2 bytes |
| RunLengthFormat.AlternatingBlockLost | schemes/RunLength.hh:9 | 32768 bytes alternating 0 and 1 form such a block |
| RunLengthFormat.LongRunLost | schemes/RunLength.hh:56 | 256 equal bytes are run-encoded and decompress to nothing |
| RunLengthFormat.DecodableBlocks | schemes/RunLength.hh:97-101 | an input is decodable exactly when every block the compressor cuts from it is decodable (both directions) |
| RunLengthFormat.DecodeFramesFirst | schemes/RunLength.hh:132-149 | a well-formed stream of at least 2 bytes starts with a whole frame, the rest is well-formed, and its decoding is that frame's bytes followed by the rest's |
| RunLengthFormat.StreamRoundTrip | schemes/RunLength.hh:85-151 | decompressing the compressed stream gives back the input when every block is decodable |
| RunLengthFormat.ShortInputDecodable | schemes/RunLength.hh:28-41 | an input shorter than one block with no run over 255 always round trips |
| RunLength.RunLengthCompressor.GetBlock | schemes/RunLength.hh:28-41 | takes min(remaining, 32768) bytes from the input into the buffer, in order, and returns how many |
| RunLength.RunLengthCompressor.ScanRun | schemes/RunLength.hh:52-54 | the inner scan returns RunEnd of the block at `i`, so the runs from `i` start with `(j - i, buffer[i])` |
| RunLength.RunLengthCompressor.PutUnit | schemes/RunLength.hh:56-60 | the unit's count modulo 256 and its value land at `outLen` and `outLen + 1`; no other byte of the buffer changes |
| RunLength.RunLengthCompressor.CompressRun | schemes/RunLength.hh:43-73 | `outLen` is 2 × the number of maximal runs, or 0 when that exceeds 32768; when non-zero, the buffer holds one (count mod 256, value) unit per run |
| RunLength.RunLengthCompressor.IsCompressable | schemes/RunLength.hh:75-83 | true exactly when `outLen` is non-zero and `outLen + 2` is below the block size |
| RunLength.RunLengthCompressor.Compress | schemes/RunLength.hh:85-121 | appends one frame per block to the output, as `EncodeStream` of the whole input, and consumes the input |
| RunLength.RunLengthDecompressor.ExpandRunFrame | schemes/RunLength.hh:134-143 | reads the run frame's units and appends each value `count` times |
| RunLength.RunLengthDecompressor.DecompressFrame | schemes/RunLength.hh:132-149 | one pass of the loop: either no whole header is left and the input is used up, or one frame is consumed and its decoding appended, so the output plus the decoding of the rest is unchanged |
| RunLength.RunLengthDecompressor.Decompress | schemes/RunLength.hh:129-151 | appends the decoding of the whole well-formed input and consumes it |
| NoneCodec.CopyAll | schemes/None.hh:15-19 | after the loop the output is the old output followed by every remaining input byte, and the input is consumed |
| NoneCodec.NoneCompressor.Compress | schemes/None.hh:13-20 | the output gains exactly the input bytes, in order |
| NoneCodec.NoneDecompressor.Decompress | schemes/None.hh:28-35 | the output gains exactly the input bytes, in order |
| Schemes.NamesDistinct | schemes/None.hh:41 | the pass-through scheme ("none") and the run-length scheme ("runlength", schemes/RunLength.hh:157) are reported under different names, so a name identifies its scheme |
| Schemes.SchemeRoundTrip | main.cc:110-121 | each scheme's decompression of its compression is the original, for "runlength" when every block is decodable |
| Schemes.RoundTrip | main.cc:97-121 | compressing and then decompressing with the scheme's own classes gives back the data, so the mismatch error cannot be raised |

## Left out

- Stream error states: the streams are in-memory byte sequences. A failed `get` or `read` only reports failure; there are no `fail`/`bad` bits and no I/O errors.
- RunLength.RunLengthDecompressor.Decompress: requires a well-formed frame sequence. On a truncated payload the source ignores the short read and writes whatever the buffer holds. That behaviour is not modelled, and the source reports no error for it.
- The diagnostic line printed when a run frame is chosen (schemes/RunLength.hh:105) does not affect the output and is not modelled.
- `schemes/Base.hh`: the abstract `Compressor`, `Decompressor` and `Algorithm` interfaces and their `rdbuf` rebinding. The model uses the datatype `Schemes.Scheme` and constructs the scheme's classes directly, as `getCompressor`/`getDecompressor` do.
- `main.cc` apart from the round trip: the hex dump, entropy and ratio statistics (floating point), and the summary table.
- The compiler-defined bit-field layout of `Frame` is fixed to one layout (GCC, little-endian).
- RunLength.RunLengthCompressor.CompressRun: models `outLen` starting at 0 for each block, not the uninitialised variable of the source. It also checks for overflow before writing the unit, so it never writes past the buffer as the source can.
