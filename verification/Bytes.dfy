/** Bytes, for the string hashes and the Base64 codec. */
module Bytes {
  type Byte = x: int | 0 <= x < 256
}
