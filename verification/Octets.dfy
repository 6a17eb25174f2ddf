/** Bytes, shared by the modules that work below the level of characters. */
module Octets {
  type Byte = b: int | 0 <= b < 256
}
