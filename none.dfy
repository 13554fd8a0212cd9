/**
 * The pass-through scheme: both directions copy the input stream to the
 * output stream byte by byte (schemes/None.hh).
 */
module NoneCodec {
  import opened Bytes
  import opened Streams

  /** The scheme's name as the benchmark reports it. */
  const NAME: string := "none"

  class NoneCompressor {
    const input: ByteStream
    const output: ByteStream

    constructor (input: ByteStream, output: ByteStream)
      ensures this.input == input && this.output == output
    {
      this.input := input;
      this.output := output;
    }

    /** Copies every remaining input byte to the output, in order. */
    method Compress()
      requires input.Valid() && output.Valid() && input != output
      modifies input`pos, output`data
      ensures input.Valid() && output.Valid()
      ensures output.data == old(output.data) + old(input.Remaining())
      ensures input.Remaining() == []
    {
      CopyAll(input, output);
    }
  }

  class NoneDecompressor {
    const input: ByteStream
    const output: ByteStream

    constructor (input: ByteStream, output: ByteStream)
      ensures this.input == input && this.output == output
    {
      this.input := input;
      this.output := output;
    }

    /** Copies every remaining input byte to the output, in order. */
    method Decompress()
      requires input.Valid() && output.Valid() && input != output
      modifies input`pos, output`data
      ensures input.Valid() && output.Valid()
      ensures output.data == old(output.data) + old(input.Remaining())
      ensures input.Remaining() == []
    {
      CopyAll(input, output);
    }
  }

  /** `while (input.get(c)) output.put(c);` */
  method CopyAll(input: ByteStream, output: ByteStream)
    requires input.Valid() && output.Valid() && input != output
    modifies input`pos, output`data
    ensures input.Valid() && output.Valid()
    ensures output.data == old(output.data) + old(input.Remaining())
    ensures input.Remaining() == []
  {
    ghost var r := input.Remaining();
    ghost var out0 := output.data;
    ghost var k := 0;
    while true
      invariant input.Valid() && output.Valid()
      invariant k <= |r|
      invariant input.Remaining() == r[k..]
      invariant output.data == out0 + r[..k]
      decreases |r| - k
    {
      var ok, c := input.Get();
      if !ok {
        break;
      }
      output.Put(c);
      assert r[..k + 1] == r[..k] + [c];
      k := k + 1;
    }
    assert r[..k] == r;
  }
}
