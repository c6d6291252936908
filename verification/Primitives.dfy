/** Number ranges that several components share. */
module Primitives {
  type Octet = n: int | 0 <= n < 256

  /** The largest integer that RFC 8785 section 3.2.2.3 writes exactly: 2^53 - 1. */
  const MAX_SAFE_INTEGER: int := 0x1F_FFFF_FFFF_FFFF
}
