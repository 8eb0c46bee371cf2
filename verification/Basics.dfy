/** Small definitions that several parts share. */
module Basics {
  datatype Option<T> = None | Some(value: T)

  function Min(a: int, b: int): int
  {
    if a < b then a else b
  }

  function Max(a: int, b: int): int
  {
    if a < b then b else a
  }

  type Byte = x: int | 0 <= x < 256

  const HALF := 0x8000_0000_0000_0000

  /** Two's complement, 64 bits. */
  function Wrap(n: int): (w: int)
    ensures -HALF <= w < HALF
    ensures -HALF <= n < HALF ==> w == n
    ensures HALF <= n < 3 * HALF ==> w == n - 2 * HALF
    ensures -3 * HALF <= n < -HALF ==> w == n + 2 * HALF
  {
    (n + HALF) % (2 * HALF) - HALF
  }

  ghost function Pow2(k: nat): (p: nat)
    ensures p > 0
  {
    if k == 0 then 1 else 2 * Pow2(k - 1)
  }

  ghost function Pow256(k: nat): (p: nat)
    ensures p > 0
  {
    if k == 0 then 1 else 256 * Pow256(k - 1)
  }
}
