/** Bytes. */
module Bytes {
  type byte = x: nat | x < 0x100
}
