/** Bytes: little-endian numbers, and the byte streams of an extendable-output function. */
module Streams {

  type Byte = x: int | 0 <= x < 256

  /** A little-endian load. */
  function Load(bytes: seq<Byte>): nat {
    if bytes == [] then 0 else bytes[0] + 256 * Load(bytes[1..])
  }

  type Stream = nat -> Byte

  /** `n` bytes of the stream, from byte `from` on. */
  function Bytes(s: Stream, from: nat, n: nat): (r: seq<Byte>)
    ensures |r| == n && forall i :: 0 <= i < n ==> r[i] == s(from + i)
  {
    seq(n, i requires 0 <= i < n => s(from + i))
  }
}
