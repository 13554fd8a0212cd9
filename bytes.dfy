/** Bytes, the block size of the run-length scheme, and an optional value. */
module Bytes {

  /** An unsigned 8-bit value, as `uint8_t` and as a stream `char`. */
  newtype uint8 = x: int | 0 <= x < 256

  /** The size of one input block, and of the compressor's two working buffers (schemes/RunLength.hh:9). */
  const MAX_RUN_LENGTH: nat := 32768

  datatype Option<+T> = None | Some(value: T)

  /** Concatenation is associative; stated once so that proofs can cite it. */
  lemma ConcatAssoc<T>(a: seq<T>, b: seq<T>, c: seq<T>)
    ensures (a + b) + c == a + (b + c)
  {
  }
}
