/** Bytes, hashes and coins. */
module Primitives {
  type Byte = x: int | 0 <= x < 256

  /** A 256-bit hash; zero stands for none. */
  type Hash = nat

  /** One coin in the smallest unit. */
  const COIN: nat := 100_000_000
}
