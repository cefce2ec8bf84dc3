/** The element type held by the FIFO. */
module Bytes {

  /** An 8-bit unsigned value, as the Arduino `byte` type. */
  newtype uint8 = x: int | 0 <= x < 256
}
