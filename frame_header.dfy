/**
 * The 2-byte header in front of every frame: a one-bit run flag and a 15-bit
 * length. The source declares it as a packed C++ bit-field whose layout is up
 * to the compiler; this model fixes the little-endian GCC layout: the 16-bit
 * word is `isRun | length << 1`, stored low byte first.
 */
module FrameHeader {
  import opened Bytes

  const HEADER_SIZE: nat := 2

  /** One more than the largest value the 15-bit length field holds. */
  const LENGTH_LIMIT: nat := 0x8000

  datatype Frame = Frame(isRun: bool, length: nat)

  /**
   * Serialises a header. Assigning `length` to the 15-bit field keeps only
   * its low 15 bits, as an unsigned bit-field assignment does in C++.
   */
  function EncodeHeader(isRun: bool, length: nat): (h: seq<uint8>)
    ensures |h| == HEADER_SIZE
    ensures h[0] as int % 2 == (if isRun then 1 else 0)
  {
    var field := length % LENGTH_LIMIT;
    var low := field % 128 * 2 + (if isRun then 1 else 0);
    var high := field / 128;
    [low as uint8, high as uint8]
  }

  /** Reads a header back from its two bytes. */
  function DecodeHeader(h: seq<uint8>): (f: Frame)
    requires |h| == HEADER_SIZE
    ensures f.length < LENGTH_LIMIT
    ensures f.isRun <==> h[0] as int % 2 == 1
  {
    var word := h[0] as int + 256 * h[1] as int;
    Frame(word % 2 == 1, word / 2)
  }

  /** Decoding an encoded header gives back the flag and the length reduced to 15 bits. */
  lemma HeaderRoundTrip(isRun: bool, length: nat)
    ensures DecodeHeader(EncodeHeader(isRun, length)) == Frame(isRun, length % LENGTH_LIMIT)
  {
    var field := length % LENGTH_LIMIT;
    var h := EncodeHeader(isRun, length);
    assert h[0] as int + 256 * h[1] as int == field * 2 + (if isRun then 1 else 0);
  }

  /** Every length the field can hold survives the round trip unchanged. */
  lemma HeaderRoundTripExact(isRun: bool, length: nat)
    requires length < LENGTH_LIMIT
    ensures DecodeHeader(EncodeHeader(isRun, length)) == Frame(isRun, length)
  {
    HeaderRoundTrip(isRun, length);
  }

  /** A full block of MAX_RUN_LENGTH bytes does not fit the field: it is read back as length 0. */
  lemma FullBlockLengthLost(isRun: bool)
    ensures DecodeHeader(EncodeHeader(isRun, MAX_RUN_LENGTH)) == Frame(isRun, 0)
  {
    HeaderRoundTrip(isRun, MAX_RUN_LENGTH);
  }

  /** Every 2-byte sequence is the encoding of the header it decodes to. */
  lemma HeaderBytesRoundTrip(h: seq<uint8>)
    requires |h| == HEADER_SIZE
    ensures EncodeHeader(DecodeHeader(h).isRun, DecodeHeader(h).length) == h
  {
    var f := DecodeHeader(h);
    var e := EncodeHeader(f.isRun, f.length);
    var lo, hi := h[0] as int, h[1] as int;
    assert f.length == lo / 2 + 128 * hi;
    assert f.length % LENGTH_LIMIT == f.length;
    assert f.length % 128 == lo / 2;
    assert f.length / 128 == hi;
    assert lo / 2 * 2 + (if f.isRun then 1 else 0) == lo;
    assert e[0] == h[0];
    assert e[1] == h[1];
  }
}
