/** Bytes, as numbers. */
module Bytes {
  predicate IsByte(c: int) {
    0 <= c < 256
  }
}
