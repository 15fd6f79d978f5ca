/** Binary data as the services pass it around. */
module Bytes {
  /** One element of a Python `bytes` value. */
  newtype byte = x: int | 0 <= x < 256
}
