/** Octets, as Go's `byte` and Solidity's `bytes` hold them. */
module Octets {

  type Byte = b: int | 0 <= b < 256
}
