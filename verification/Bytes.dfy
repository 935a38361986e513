/** Octets. */
module Bytes {

  type Byte = b: nat | b < 0x100
}
