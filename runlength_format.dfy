/**
 * The run-length stream format as functions: how a block is encoded into one
 * frame, how the input is cut into blocks, and how a frame sequence is read
 * back (schemes/RunLength.hh:28-151).
 */
module RunLengthFormat {
  import opened Bytes
  import opened FrameHeader
  import opened MaximalRuns
  import opened Units

  /**
   * The payload size `compressRun` reports for a block when `outLen` starts
   * at 0: two bytes per maximal run, or 0 when the units would not fit in
   * the MAX_RUN_LENGTH-byte working buffer.
   */
  function EncodedRunSize(b: seq<uint8>): nat
  {
    if UNIT_SIZE * |Runs(b)| <= MAX_RUN_LENGTH then UNIT_SIZE * |Runs(b)| else 0
  }

  /** The decision of `isCompressable`: run-encode only if the payload plus the header is shorter than the block. */
  predicate ChoosesRun(b: seq<uint8>)
  {
    EncodedRunSize(b) != 0 && EncodedRunSize(b) + HEADER_SIZE < |b|
  }

  /** The frame written for one block: a header and the units, or a header and the bytes. */
  function EncodeBlock(b: seq<uint8>): (f: seq<uint8>)
    requires 0 < |b| <= MAX_RUN_LENGTH
  {
    if ChoosesRun(b) then EncodeHeader(true, EncodedRunSize(b)) + UnitBytes(Runs(b))
    else EncodeHeader(false, |b|) + b
  }

  /** How many bytes `getBlock` takes from what is left of the input. */
  function BlockLength(s: seq<uint8>): nat
  {
    if |s| < MAX_RUN_LENGTH then |s| else MAX_RUN_LENGTH
  }

  /** The blocks the compressor reads, in order. */
  function Blocks(s: seq<uint8>): seq<seq<uint8>>
    decreases |s|
  {
    if s == [] then [] else [s[..BlockLength(s)]] + Blocks(s[BlockLength(s)..])
  }

  function Flatten(bs: seq<seq<uint8>>): seq<uint8>
  {
    if bs == [] then [] else bs[0] + Flatten(bs[1..])
  }

  /** The whole compressed stream: one frame per block, none for empty input. */
  function EncodeStream(s: seq<uint8>): seq<uint8>
    decreases |s|
  {
    if s == [] then [] else EncodeBlock(s[..BlockLength(s)]) + EncodeStream(s[BlockLength(s)..])
  }

  /** Payload bytes after a header: a run frame reads whole units, ⌈length/2⌉ of them. */
  function PayloadSize(f: Frame): nat
  {
    if f.isRun then 2 * ((f.length + 1) / 2) else f.length
  }

  /** Whole units cover a run frame's length: an even offset below it leaves room for one more unit. */
  lemma RunPayloadCovers(len: nat, i: nat)
    requires i % 2 == 0
    ensures PayloadSize(Frame(true, len)) % 2 == 0
    ensures i < len ==> i + 2 <= PayloadSize(Frame(true, len))
    ensures len <= i <= PayloadSize(Frame(true, len)) ==> i == PayloadSize(Frame(true, len))
  {
  }

  /**
   * Decodes the frame at the front of `s`: the bytes it stands for and how
   * many bytes of `s` it takes, or None if the payload is cut short.
   */
  function DecodeFrame(s: seq<uint8>): (r: Option<(seq<uint8>, nat)>)
    requires |s| >= HEADER_SIZE
    ensures r.Some? ==> HEADER_SIZE <= r.value.1 <= |s|
  {
    var f := DecodeHeader(s[..HEADER_SIZE]);
    var n := PayloadSize(f);
    if |s| - HEADER_SIZE < n then None
    else if f.isRun then Some((ExpandUnits(s[HEADER_SIZE..HEADER_SIZE + n]), HEADER_SIZE + n))
    else Some((s[HEADER_SIZE..HEADER_SIZE + n], HEADER_SIZE + n))
  }

  /**
   * Decodes frames until fewer than two bytes remain (a header cannot be
   * read), or None if some frame's payload is cut short.
   */
  function DecodeFrames(s: seq<uint8>): Option<seq<uint8>>
    decreases |s|
  {
    if |s| < HEADER_SIZE then Some([])
    else
      match DecodeFrame(s)
      case None => None
      case Some((out, used)) =>
        match DecodeFrames(s[used..])
        case None => None
        case Some(rest) => Some(out + rest)
  }

  /** A block whose frame decodes back to it: no run over 255 in a run frame, no 32768-byte literal frame. */
  predicate BlockDecodable(b: seq<uint8>)
  {
    if ChoosesRun(b) then CountsFit(Runs(b))
    else |b| < LENGTH_LIMIT
  }

  /** Every block of the input, read as the compressor reads them, is decodable. */
  predicate Decodable(s: seq<uint8>)
    decreases |s|
  {
    s == [] || (BlockDecodable(s[..BlockLength(s)]) && Decodable(s[BlockLength(s)..]))
  }

  /**
   * The input is cut into blocks of min(remaining, MAX_RUN_LENGTH) bytes, in
   * order: they concatenate to the input, none is empty, and all but the
   * last are full.
   */
  lemma {:induction false} BlocksPartition(s: seq<uint8>)
    ensures Flatten(Blocks(s)) == s
    ensures forall k :: 0 <= k < |Blocks(s)| ==> 0 < |Blocks(s)[k]| <= MAX_RUN_LENGTH
    ensures forall k :: 0 <= k < |Blocks(s)| - 1 ==> |Blocks(s)[k]| == MAX_RUN_LENGTH
    decreases |s|
  {
    if s != [] {
      var n := BlockLength(s);
      var bs := Blocks(s);
      BlocksPartition(s[n..]);
      assert bs[1..] == Blocks(s[n..]);
      assert s[..n] + s[n..] == s;
      if n < MAX_RUN_LENGTH {
        assert s[n..] == [];
      }
      forall k | 0 < k < |bs|
        ensures bs[k] == Blocks(s[n..])[k - 1]
      {
      }
    }
  }

  /**
   * A run frame is two header bytes plus the units, a literal frame two
   * header bytes plus the block; run-encoding is only chosen when its frame
   * is smaller than the block itself.
   */
  lemma EncodeBlockSize(b: seq<uint8>)
    requires 0 < |b| <= MAX_RUN_LENGTH
    ensures ChoosesRun(b) ==> |EncodeBlock(b)| == HEADER_SIZE + EncodedRunSize(b) < |b|
    ensures !ChoosesRun(b) ==> |EncodeBlock(b)| == HEADER_SIZE + |b|
  {
  }

  /** A block of one repeated byte is a single run, and is run-encoded exactly when it is longer than 4 bytes. */
  lemma UniformBlock(v: uint8, n: nat)
    requires 0 < n <= MAX_RUN_LENGTH
    ensures Runs(Repeat(v, n)) == [Run(n, v)]
    ensures ChoosesRun(Repeat(v, n)) <==> n > 4
  {
    var b := Repeat(v, n);
    RunEndUnique(b, 0, n);
    assert RunsFrom(b, n) == [];
  }

  lemma {:induction false} DistinctNeighboursRuns(b: seq<uint8>, i: nat)
    requires i <= |b|
    requires forall k, l :: 0 <= k && l == k + 1 && l < |b| ==> b[k] != b[l]
    ensures |RunsFrom(b, i)| == |b| - i
    decreases |b| - i
  {
    if i < |b| {
      RunEndUnique(b, i, i + 1);
      DistinctNeighboursRuns(b, i + 1);
    }
  }

  /** A block without two equal neighbouring bytes has one run per byte and is written literally. */
  lemma DistinctNeighboursLiteral(b: seq<uint8>)
    requires forall k, l :: 0 <= k && l == k + 1 && l < |b| ==> b[k] != b[l]
    ensures |Runs(b)| == |b|
    ensures !ChoosesRun(b)
  {
    DistinctNeighboursRuns(b, 0);
  }

  /**
   * One frame decodes back to its block, consuming exactly the frame,
   * if and only if the block is decodable: a run frame with a run of 256 or
   * more decodes short, and a full literal block has its length stored as 0.
   */
  lemma FrameRoundTrip(b: seq<uint8>, rest: seq<uint8>)
    requires 0 < |b| <= MAX_RUN_LENGTH
    ensures DecodeFrame(EncodeBlock(b) + rest) == Some((b, |EncodeBlock(b)|)) <==> BlockDecodable(b)
  {
    var e := EncodeBlock(b);
    var s := e + rest;
    RunsDecompose(b);
    if ChoosesRun(b) {
      var n := EncodedRunSize(b);
      var u := UnitBytes(Runs(b));
      assert e == EncodeHeader(true, n) + u;
      assert s[..HEADER_SIZE] == EncodeHeader(true, n);
      HeaderRoundTripExact(true, n);
      assert PayloadSize(Frame(true, n)) == n;
      assert s[HEADER_SIZE..HEADER_SIZE + n] == u;
      assert DecodeFrame(s) == Some((ExpandUnits(u), |e|));
      UnitsRoundTrip(Runs(b));
    } else if |b| < LENGTH_LIMIT {
      assert e == EncodeHeader(false, |b|) + b;
      assert s[..HEADER_SIZE] == EncodeHeader(false, |b|);
      HeaderRoundTripExact(false, |b|);
      assert s[HEADER_SIZE..HEADER_SIZE + |b|] == b;
    } else {
      FullBlockLost(b, rest);
    }
  }

  /**
   * A full block written literally is read back as an empty frame: its
   * bytes are then taken for further frames.
   */
  lemma FullBlockLost(b: seq<uint8>, rest: seq<uint8>)
    requires |b| == MAX_RUN_LENGTH && !ChoosesRun(b)
    ensures DecodeFrame(EncodeBlock(b) + rest) == Some(([], HEADER_SIZE))
  {
    var h := EncodeHeader(false, MAX_RUN_LENGTH);
    var s := EncodeBlock(b) + rest;
    assert EncodeBlock(b) == h + b;
    assert s[..HEADER_SIZE] == h;
    FullBlockLengthLost(false);
    assert DecodeHeader(s[..HEADER_SIZE]) == Frame(false, 0);
    assert s[HEADER_SIZE..HEADER_SIZE] == [];
  }

  /** Such a block exists: bytes alternating between 0 and 1. */
  lemma AlternatingBlockLost(rest: seq<uint8>)
    ensures var b := seq(MAX_RUN_LENGTH, k => (k % 2) as uint8);
      && !BlockDecodable(b)
      && DecodeFrame(EncodeBlock(b) + rest) == Some(([], HEADER_SIZE))
  {
    var b := seq(MAX_RUN_LENGTH, k => (k % 2) as uint8);
    forall k, l | 0 <= k && l == k + 1 && l < |b|
      ensures b[k] != b[l]
    {
      assert b[k] as int == k % 2 && b[l] as int == l % 2;
    }
    DistinctNeighboursLiteral(b);
    FullBlockLost(b, rest);
  }

  /** A run of 256 equal bytes is run-encoded with count 0 and decompresses to nothing. */
  lemma LongRunLost(v: uint8)
    ensures var b := Repeat(v, 256);
      && ChoosesRun(b)
      && !BlockDecodable(b)
      && DecodeFrames(EncodeStream(b)) == Some([])
  {
    var b := Repeat(v, 256);
    UniformBlock(v, 256);
    assert Runs(b)[0].count == 256;
    assert b[..BlockLength(b)] == b;
    assert b[BlockLength(b)..] == [];
    var e := EncodeBlock(b);
    assert EncodeStream(b) == e;
    assert e == EncodeHeader(true, 2) + [0, v];
    HeaderRoundTripExact(true, 2);
    assert e[..HEADER_SIZE] == EncodeHeader(true, 2);
    assert e[HEADER_SIZE..HEADER_SIZE + 2] == [0, v];
    assert ExpandUnits([0, v]) == [];
    assert DecodeFrame(e) == Some(([], 4));
    assert e[4..] == [];
  }

  /** Decodable says of the stream what BlockDecodable says of each of its blocks. */
  lemma {:induction false} DecodableBlocks(s: seq<uint8>)
    ensures Decodable(s) <==> forall k :: 0 <= k < |Blocks(s)| ==> BlockDecodable(Blocks(s)[k])
    decreases |s|
  {
    if s != [] {
      var n := BlockLength(s);
      var bs := Blocks(s);
      var rest := Blocks(s[n..]);
      DecodableBlocks(s[n..]);
      assert Decodable(s[n..]) ==> forall j :: 0 <= j < |Blocks(s[n..])| ==> BlockDecodable(Blocks(s[n..])[j]);
      assert bs == [s[..n]] + rest;
      if Decodable(s) {
        assert BlockDecodable(s[..n]) && Decodable(s[n..]);
        forall k | 0 <= k < |bs|
          ensures BlockDecodable(bs[k])
        {
          if k == 0 {
            assert bs[0] == s[..n];
          } else {
            assert bs[k] == rest[k - 1];
          }
        }
      }
      if forall k :: 0 <= k < |bs| ==> BlockDecodable(bs[k]) {
        assert BlockDecodable(bs[0]);
        forall k | 0 <= k < |rest|
          ensures BlockDecodable(rest[k])
        {
          assert rest[k] == bs[k + 1];
        }
      }
    }
  }

  /** A decodable stream of at least two bytes starts with a whole frame, and the rest after it decodes too. */
  lemma DecodeFramesFirst(s: seq<uint8>)
    requires |s| >= HEADER_SIZE && DecodeFrames(s).Some?
    ensures DecodeFrame(s).Some?
    ensures DecodeFrame(s).value.1 == HEADER_SIZE + PayloadSize(DecodeHeader(s[..HEADER_SIZE]))
    ensures DecodeFrames(s[DecodeFrame(s).value.1..]).Some?
    ensures DecodeFrames(s).value == DecodeFrame(s).value.0 + DecodeFrames(s[DecodeFrame(s).value.1..]).value
  {
  }

  /** Peeling the first unit off a run payload. */
  lemma ExpandUnitsStep(p: seq<uint8>, i: nat)
    requires |p| % 2 == 0 && i % 2 == 0 && i + 2 <= |p|
    ensures (i + 2) % 2 == 0 && |p[i + 2..]| % 2 == 0
    ensures ExpandUnits(p[i..]) == Repeat(p[i + 1], p[i] as nat) + ExpandUnits(p[i + 2..])
  {
    assert p[i..][2..] == p[i + 2..];
  }

  /** One decoded frame followed by the decoding of the rest. */
  lemma DecodeFramesStep(s: seq<uint8>, out: seq<uint8>, used: nat, rest: seq<uint8>)
    requires |s| >= HEADER_SIZE
    requires DecodeFrame(s) == Some((out, used))
    requires DecodeFrames(s[used..]) == Some(rest)
    ensures DecodeFrames(s) == Some(out + rest)
  {
  }

  /** A decodable block's frame, followed by a decodable stream, decodes to the block followed by that stream's bytes. */
  lemma DecodeAfterFrame(b: seq<uint8>, tail: seq<uint8>, rest: seq<uint8>)
    requires 0 < |b| <= MAX_RUN_LENGTH && BlockDecodable(b)
    requires DecodeFrames(tail) == Some(rest)
    ensures DecodeFrames(EncodeBlock(b) + tail) == Some(b + rest)
  {
    var e := EncodeBlock(b);
    EncodeBlockSize(b);
    FrameRoundTrip(b, tail);
    assert (e + tail)[|e|..] == tail;
    DecodeFramesStep(e + tail, b, |e|, rest);
  }

  /** Decompressing the compressed stream reproduces the input when every block is decodable. */
  lemma {:induction false} StreamRoundTrip(s: seq<uint8>)
    requires Decodable(s)
    ensures DecodeFrames(EncodeStream(s)) == Some(s)
    decreases |s|
  {
    if s != [] {
      var n := BlockLength(s);
      var b, later := s[..n], s[n..];
      assert s == b + later;
      StreamRoundTrip(later);
      DecodeAfterFrame(b, EncodeStream(later), later);
    }
  }

  /** An input shorter than one full block with no run over 255 always round trips. */
  lemma ShortInputDecodable(s: seq<uint8>)
    requires |s| < MAX_RUN_LENGTH
    requires CountsFit(Runs(s))
    ensures Decodable(s)
  {
    if s != [] {
      assert s[..BlockLength(s)] == s;
      assert s[BlockLength(s)..] == [];
      assert Blocks(s) == [s];
    }
  }
}
