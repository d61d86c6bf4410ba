/** An unsigned byte, as a number. */
module Bytes {
  type byte = x: int | 0 <= x < 256
}
