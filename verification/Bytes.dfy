/** A byte of a message, a file or a text, as a number. */
module Bytes {
  type Byte = b: int | 0 <= b < 256 witness 0
}
