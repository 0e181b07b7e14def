/** Bytes and the two-byte big-endian encoding shared by the models. */
module Bytes {

  newtype byte = x: int | 0 <= x < 256

  type bytes = seq<byte>

  /** Big-endian 16-bit field. */
  function Store16(n: nat): (r: bytes)
    requires n < 0x10000
    ensures |r| == 2
  {
    [(n / 256) as byte, (n % 256) as byte]
  }

  function Load16(b: bytes): (n: nat)
    requires |b| == 2
    ensures n < 0x10000
  {
    b[0] as int * 256 + b[1] as int
  }

  lemma {:induction false} Field16RoundTrip(n: nat)
    requires n < 0x10000
    ensures Load16(Store16(n)) == n
  {
  }
}
