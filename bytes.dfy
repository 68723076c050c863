/** Octets, as held by a `Uint8Array`. */
module Bytes {

  newtype byte = b: int | 0 <= b < 0x100

  /** Every octet is a 7-bit US-ASCII code. */
  predicate IsAscii(bs: seq<byte>)
  {
    forall i :: 0 <= i < |bs| ==> bs[i] < 0x80
  }
}
