/** Bytes, and words made of two. */
module Octets {
  type Octet = n: nat | n < 256

  function Pair(high: nat, low: nat): nat {
    256 * high + low
  }
}
