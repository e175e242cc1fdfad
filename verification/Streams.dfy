/** Byte streams as they arrive from a socket or a terminal. */
module Streams {

  type Byte = b: int | 0 <= b < 256 witness 0

  type Bytes = seq<Byte>

  /** A stream, whatever pieces it came in. */
  function Flat(chunks: seq<Bytes>): Bytes {
    if chunks == [] then [] else chunks[0] + Flat(chunks[1..])
  }
}
