/**
 * The two compression schemes side by side, and the benchmark's check that
 * decompressing what a scheme compressed gives back the original data
 * (main.cc:97-127).
 */
module Schemes {
  import opened Bytes
  import opened RunLengthFormat
  import opened Streams
  import NoneCodec
  import RunLength

  datatype Scheme = NoneScheme | RunLengthScheme {
    /** The name under which the scheme's statistics are reported. */
    function Name(): string
    {
      match this
      case NoneScheme => NoneCodec.NAME
      case RunLengthScheme => RunLength.NAME
    }

    /** What the scheme's compressor writes for `data`. */
    function Compressed(data: seq<uint8>): seq<uint8>
    {
      match this
      case NoneScheme => data
      case RunLengthScheme => EncodeStream(data)
    }

    /** What the scheme's decompressor writes for `comp`, or None for a truncated run-length frame. */
    function Decompressed(comp: seq<uint8>): Option<seq<uint8>>
    {
      match this
      case NoneScheme => Some(comp)
      case RunLengthScheme => DecodeFrames(comp)
    }

    /** The input the scheme gives back unchanged: anything for "none", decodable blocks for "runlength". */
    predicate Supports(data: seq<uint8>)
    {
      RunLengthScheme? ==> Decodable(data)
    }
  }

  /** The two schemes are reported under different names. */
  lemma NamesDistinct(a: Scheme, b: Scheme)
    ensures a.Name() == b.Name() <==> a == b
  {
    assert NoneCodec.NAME[0] != RunLength.NAME[0];
  }

  /** Every scheme decompresses what it compressed, on the inputs it supports. */
  lemma SchemeRoundTrip(scheme: Scheme, data: seq<uint8>)
    requires scheme.Supports(data)
    ensures scheme.Decompressed(scheme.Compressed(data)) == Some(data)
  {
    if scheme.RunLengthScheme? {
      StreamRoundTrip(data);
    }
  }

  /**
   * Compresses `data` from one string stream into a second, then
   * decompresses the second into a third, with the scheme's own compressor
   * and decompressor; the comparison that follows can never fail.
   */
  method RoundTrip(scheme: Scheme, data: seq<uint8>) returns (compressed: seq<uint8>, decompressed: seq<uint8>)
    requires scheme.Supports(data)
    ensures compressed == scheme.Compressed(data)
    ensures decompressed == data
  {
    var input := new ByteStream(data);
    var comp := new ByteStream([]);
    var decomp := new ByteStream([]);
    match scheme {
      case NoneScheme =>
        var c := new NoneCodec.NoneCompressor(input, comp);
        c.Compress();
        var d := new NoneCodec.NoneDecompressor(comp, decomp);
        d.Decompress();
      case RunLengthScheme =>
        var c := new RunLength.RunLengthCompressor(input, comp);
        c.Compress();
        StreamRoundTrip(data);
        var d := new RunLength.RunLengthDecompressor(comp, decomp);
        d.Decompress();
    }
    compressed := comp.data;
    decompressed := decomp.data;
  }
}
