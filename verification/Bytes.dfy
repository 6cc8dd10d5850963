/** Bytes. A Go string is a sequence of them, whatever they encode. */
module Bytes {
  type Byte = b: int | 0 <= b < 256
}
