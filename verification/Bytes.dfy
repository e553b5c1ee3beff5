/** Octets, as carried by byte arrays in the modelled system. */
module Bytes {

  /** An unsigned 8-bit value. */
  type byte = x: int | 0 <= x < 256
}
