/** Unsigned 8-bit values, the `unsigned char` of both source files. */
module Bytes {
  type Byte = x: int | 0 <= x < 256
}
