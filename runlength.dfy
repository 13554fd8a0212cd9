/**
 * The run-length compressor and decompressor as the source writes them:
 * objects bound to an input and an output stream, working block by block
 * through two MAX_RUN_LENGTH-byte buffers (schemes/RunLength.hh:23-152).
 */
module RunLength {
  import opened Bytes
  import opened FrameHeader
  import opened MaximalRuns
  import opened Units
  import opened RunLengthFormat
  import opened Streams

  /** The scheme's name as the benchmark reports it. */
  const NAME: string := "runlength"

  class RunLengthCompressor {
    const input: ByteStream
    const output: ByteStream

    constructor (input: ByteStream, output: ByteStream)
      ensures this.input == input && this.output == output
    {
      this.input := input;
      this.output := output;
    }

    /** Copies the next min(remaining, MAX_RUN_LENGTH) input bytes into `buffer`. */
    method GetBlock(buffer: array<uint8>) returns (n: nat)
      requires input.Valid() && buffer.Length == MAX_RUN_LENGTH
      modifies input`pos, buffer
      ensures input.Valid()
      ensures n == BlockLength(old(input.Remaining()))
      ensures buffer[..n] == old(input.Remaining())[..n]
      ensures input.Remaining() == old(input.Remaining())[n..]
    {
      ghost var r := input.Remaining();
      var i := 0;
      while i < MAX_RUN_LENGTH
        invariant i <= MAX_RUN_LENGTH && i <= |r|
        invariant input.Valid()
        invariant input.Remaining() == r[i..]
        invariant buffer[..i] == r[..i]
      {
        var ok, c := input.Get();
        if !ok {
          return i;
        }
        buffer[i] := c;
        i := i + 1;
      }
      return MAX_RUN_LENGTH;
    }

    /** The inner scan of `compressRun`: the end of the maximal run that starts at `i`. */
    static method ScanRun(buffer: array<uint8>, i: nat, inLen: nat) returns (j: nat)
      requires i < inLen <= buffer.Length
      ensures j == RunEnd(buffer[..inLen], i)
      ensures RunsFrom(buffer[..inLen], i) == [Run(j - i, buffer[i])] + RunsFrom(buffer[..inLen], j)
    {
      ghost var b := buffer[..inLen];
      j := i + 1;
      while j < inLen && buffer[i] == buffer[j]
        invariant i < j <= inLen
        invariant forall k :: i <= k < j ==> b[k] == b[i]
      {
        j := j + 1;
      }
      RunEndUnique(b, i, j);
    }

    /** Stores one unit, its count truncated to 8 bits, at `outBuf[at..at + 2]`. */
    static method PutUnit(outBuf: array<uint8>, at: nat, unit: Run)
      requires at + UNIT_SIZE <= outBuf.Length
      modifies outBuf
      ensures outBuf[..at + UNIT_SIZE] == old(outBuf[..at]) + [(unit.count % 256) as uint8, unit.value]
      ensures forall k :: 0 <= k < outBuf.Length && !(at <= k < at + UNIT_SIZE) ==> outBuf[k] == old(outBuf[k])
    {
      outBuf[at] := (unit.count % 256) as uint8;
      outBuf[at + 1] := unit.value;
    }

    /**
     * Writes one `(count mod 256, value)` unit per maximal run of
     * `buffer[..inLen]` into `outBuf`, and returns the payload size, or 0
     * when the units do not fit in `outBuf`. `outLen` starts at 0.
     */
    method CompressRun(buffer: array<uint8>, inLen: nat, outBuf: array<uint8>) returns (outLen: nat)
      requires buffer.Length == MAX_RUN_LENGTH && outBuf.Length == MAX_RUN_LENGTH
      requires inLen <= MAX_RUN_LENGTH && buffer != outBuf
      modifies outBuf
      ensures outLen == EncodedRunSize(buffer[..inLen])
      ensures outLen != 0 ==> outBuf[..outLen] == UnitBytes(Runs(buffer[..inLen]))
    {
      ghost var b := buffer[..inLen];
      ghost var done: seq<Run> := [];
      outLen := 0;
      var i := 0;
      while i < inLen
        invariant i <= inLen
        invariant b == buffer[..inLen]
        invariant Runs(b) == done + RunsFrom(b, i)
        invariant outLen == UNIT_SIZE * |done| <= MAX_RUN_LENGTH
        invariant outBuf[..outLen] == UnitBytes(done)
      {
        var j := ScanRun(buffer, i, inLen);
        var unit := Run(j - i, buffer[i]);
        ConcatAssoc(done, [unit], RunsFrom(b, j));
        if outLen + UNIT_SIZE > MAX_RUN_LENGTH {
          assert |Runs(b)| >= |done| + 1;
          outLen := 0;
          return;
        }
        PutUnit(outBuf, outLen, unit);
        UnitBytesSnoc(done, unit);
        done := done + [unit];
        outLen := outLen + UNIT_SIZE;
        i := j;
      }
      assert RunsFrom(b, i) == [];
      assert Runs(b) == done;
    }

    /** Runs CompressRun and reports whether the run frame is worth writing. */
    method IsCompressable(buffer: array<uint8>, compBuf: array<uint8>, inLen: nat) returns (compressable: bool, outLen: nat)
      requires buffer.Length == MAX_RUN_LENGTH && compBuf.Length == MAX_RUN_LENGTH
      requires inLen <= MAX_RUN_LENGTH && buffer != compBuf
      modifies compBuf
      ensures compressable == ChoosesRun(buffer[..inLen])
      ensures outLen == EncodedRunSize(buffer[..inLen])
      ensures compressable ==> compBuf[..outLen] == UnitBytes(Runs(buffer[..inLen]))
    {
      outLen := CompressRun(buffer, inLen, compBuf);
      if outLen == 0 {
        compressable := false;
      } else {
        compressable := outLen + HEADER_SIZE < inLen;
      }
    }

    /** Writes one frame per block until the input is exhausted. */
    method Compress()
      requires input.Valid() && output.Valid() && input != output
      modifies input`pos, output`data
      ensures input.Valid() && output.Valid()
      ensures output.data == old(output.data) + EncodeStream(old(input.Remaining()))
      ensures input.Remaining() == []
    {
      var runBuffer := new uint8[MAX_RUN_LENGTH];
      var compBuffer := new uint8[MAX_RUN_LENGTH];
      while true
        invariant input.Valid() && output.Valid()
        invariant output.data + EncodeStream(input.Remaining()) == old(output.data) + EncodeStream(old(input.Remaining()))
        decreases |input.Remaining()|
      {
        ghost var r := input.Remaining();
        ghost var out0 := output.data;
        var bytesRead := GetBlock(runBuffer);
        if bytesRead == 0 {
          break;
        }
        ghost var block := r[..bytesRead];
        ghost var later := r[bytesRead..];
        var compressable, outLen := IsCompressable(runBuffer, compBuffer, bytesRead);
        var header, payload;
        if compressable {
          header, payload := EncodeHeader(true, outLen), compBuffer[..outLen];
        } else {
          header, payload := EncodeHeader(false, bytesRead), runBuffer[..bytesRead];
        }
        assert header + payload == EncodeBlock(block);
        output.Write(header);
        output.Write(payload);
        ConcatAssoc(out0, header, payload);
        assert input.Remaining() == later;
        assert EncodeStream(r) == (header + payload) + EncodeStream(later);
        ConcatAssoc(out0, header + payload, EncodeStream(later));
      }
    }
  }

  class RunLengthDecompressor {
    const input: ByteStream
    const output: ByteStream

    constructor (input: ByteStream, output: ByteStream)
      ensures this.input == input && this.output == output
    {
      this.input := input;
      this.output := output;
    }

    /**
     * The body of a run frame: reads ⌈length/2⌉ units from the input and
     * writes each unit's value as many times as its count says.
     */
    method ExpandRunFrame(length: nat, ghost payload: seq<uint8>)
      requires input.Valid() && output.Valid() && input != output
      requires |payload| == PayloadSize(Frame(true, length)) && |payload| % 2 == 0
      requires |payload| <= |input.Remaining()| && input.Remaining()[..|payload|] == payload
      modifies input`pos, output`data
      ensures input.Valid() && output.Valid()
      ensures output.data == old(output.data) + ExpandUnits(payload)
      ensures input.Remaining() == old(input.Remaining())[|payload|..]
    {
      ghost var r := input.Remaining();
      ghost var out0 := output.data;
      var i := 0;
      while i < length
        invariant i % 2 == 0 && i <= |payload|
        invariant input.Valid() && output.Valid()
        invariant input.Remaining() == r[i..]
        invariant output.data + ExpandUnits(payload[i..]) == out0 + ExpandUnits(payload)
      {
        RunPayloadCovers(length, i);
        var _, unit := input.Read(UNIT_SIZE);
        assert unit == payload[i..i + 2];
        ExpandUnitsStep(payload, i);
        ghost var before := output.data;
        var j := 0;
        while j < unit[0] as int
          invariant j <= unit[0] as int
          invariant output.Valid()
          invariant output.data == before + Repeat(unit[1], j)
          modifies output`data
        {
          output.Put(unit[1]);
          RepeatAppend(unit[1], j);
          ConcatAssoc(before, Repeat(unit[1], j), [unit[1]]);
          j := j + 1;
        }
        ConcatAssoc(before, Repeat(unit[1], unit[0] as nat), ExpandUnits(payload[i + 2..]));
        i := i + UNIT_SIZE;
      }
      RunPayloadCovers(length, i);
      assert payload[i..] == [];
    }

    /**
     * One pass of the decompressor's loop: reads a header, then the frame's
     * body, and writes the frame's bytes. `more` is false when no whole
     * header was left.
     */
    method DecompressFrame() returns (more: bool)
      requires input.Valid() && output.Valid() && input != output
      requires DecodeFrames(input.Remaining()).Some?
      modifies input`pos, output`data
      ensures input.Valid() && output.Valid()
      ensures DecodeFrames(input.Remaining()).Some?
      ensures output.data + DecodeFrames(input.Remaining()).value == old(output.data) + DecodeFrames(old(input.Remaining())).value
      ensures more ==> |input.Remaining()| < |old(input.Remaining())|
      ensures !more ==> input.Remaining() == []
    {
      ghost var r := input.Remaining();
      ghost var out0 := output.data;
      var ok, header := input.Read(HEADER_SIZE);
      if !ok {
        assert out0 + [] == out0;
        return false;
      }
      var frame := DecodeHeader(header);
      DecodeFramesFirst(r);
      ghost var used := DecodeFrame(r).value.1;
      ghost var payload := r[HEADER_SIZE..used];
      ghost var later := r[used..];
      assert header == r[..HEADER_SIZE];
      assert |payload| == PayloadSize(frame);
      if frame.isRun {
        RunPayloadCovers(frame.length, 0);
        ExpandRunFrame(frame.length, payload);
        assert DecodeFrame(r).value.0 == ExpandUnits(payload);
      } else {
        var _, buffer := input.Read(frame.length);
        output.Write(buffer);
        assert buffer == payload == DecodeFrame(r).value.0;
      }
      assert input.Remaining() == later;
      ConcatAssoc(out0, DecodeFrame(r).value.0, DecodeFrames(later).value);
      return true;
    }

    /**
     * Decompresses frames until a whole header cannot be read. The input
     * must be a complete frame sequence.
     */
    method Decompress()
      requires input.Valid() && output.Valid() && input != output
      requires DecodeFrames(input.Remaining()).Some?
      modifies input`pos, output`data
      ensures input.Valid() && output.Valid()
      ensures output.data == old(output.data) + DecodeFrames(old(input.Remaining())).value
      ensures input.Remaining() == []
    {
      ghost var target := output.data + DecodeFrames(input.Remaining()).value;
      while true
        invariant input.Valid() && output.Valid()
        invariant DecodeFrames(input.Remaining()).Some?
        invariant output.data + DecodeFrames(input.Remaining()).value == target
        decreases |input.Remaining()|
      {
        var more := DecompressFrame();
        if !more {
          break;
        }
      }
      assert output.data + [] == output.data;
    }
  }
}
