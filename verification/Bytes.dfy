/** Characters as C sees them. */
module Bytes {
  type Byte = x: int | 0 <= x < 256
}
