module Bytes {
  type Byte = b: nat | b < 256

  /** `count` zero bytes. */
  function Zeros(count: nat): (r: seq<Byte>)
    ensures |r| == count
  {
    seq(count, _ => 0)
  }
}
