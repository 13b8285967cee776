/**
  Byte strings, and the pieces a transport hands them over in.
 */
module Bytes {
  type byte = b: int | 0 <= b < 256

  function Flatten(chunks: seq<seq<byte>>): seq<byte> {
    if chunks == [] then [] else chunks[0] + Flatten(chunks[1..])
  }
}
