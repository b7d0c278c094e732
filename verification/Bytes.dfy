/**
 Bytes and runs of bytes.
 */
module Bytes {
  newtype Byte = b: int | 0 <= b < 256

  /** r with the bytes v at offset off. */
  function Write(r: seq<Byte>, off: nat, v: seq<Byte>): (w: seq<Byte>)
    requires off + |v| <= |r|
  {
    r[..off] + v + r[off + |v|..]
  }

  function Zeroes(n: nat): (r: seq<Byte>)
    ensures |r| == n && forall j :: 0 <= j < n ==> r[j] == 0
  {
    seq(n, _ => 0)
  }
}
