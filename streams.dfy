/**
 * An in-memory byte stream, read from the front and appended to at the end,
 * as the `std::stringstream` objects the codecs are handed.
 */
module Streams {
  import opened Bytes

  class ByteStream {
    /** Everything written to the stream so far. */
    var data: seq<uint8>
    /** The read position. */
    var pos: nat

    ghost predicate Valid()
      reads this
    {
      pos <= |data|
    }

    /** The bytes not yet read. */
    function Remaining(): seq<uint8>
      reads this
      requires Valid()
    {
      data[pos..]
    }

    constructor (contents: seq<uint8>)
      ensures Valid() && data == contents && pos == 0
    {
      data := contents;
      pos := 0;
    }

    /** `get(c)`: takes one byte, or fails at the end of the stream. */
    method Get() returns (ok: bool, c: uint8)
      requires Valid()
      modifies this`pos
      ensures Valid()
      ensures ok == (old(Remaining()) != [])
      ensures ok ==> c == old(Remaining())[0] && Remaining() == old(Remaining())[1..]
      ensures !ok ==> pos == old(pos)
    {
      ok := pos < |data|;
      if ok {
        c := data[pos];
        pos := pos + 1;
      } else {
        c := 0;
      }
    }

    /**
     * `read(buf, n)`: takes `n` bytes; when fewer remain it takes all of
     * them and fails.
     */
    method Read(n: nat) returns (ok: bool, bytes: seq<uint8>)
      requires Valid()
      modifies this`pos
      ensures Valid()
      ensures ok == (n <= |old(Remaining())|)
      ensures ok ==> bytes == old(Remaining())[..n] && Remaining() == old(Remaining())[n..]
      ensures !ok ==> bytes == old(Remaining()) && Remaining() == []
    {
      ok := n <= |data| - pos;
      if ok {
        bytes := data[pos..pos + n];
        pos := pos + n;
      } else {
        bytes := data[pos..];
        pos := |data|;
      }
    }

    /** `put(c)`. */
    method Put(c: uint8)
      requires Valid()
      modifies this`data
      ensures Valid() && data == old(data) + [c]
    {
      data := data + [c];
    }

    /** `write(buf, n)`. */
    method Write(bytes: seq<uint8>)
      requires Valid()
      modifies this`data
      ensures Valid() && data == old(data) + bytes
    {
      data := data + bytes;
    }
  }
}
