/** The unit of storage shared by the models. */
module Bytes {
  /** An unsigned 8-bit value (`uint8_t`, `unsigned char`). */
  type byte = b: int | 0 <= b < 256
}
