/** Fixed-width machine integers of the image pipeline, as subsets of `int`, with explicit wrap-around. */
module Ints {

  const TWO_31: int := 0x8000_0000
  const TWO_32: int := 0x1_0000_0000

  /** Rust `u8`: one channel value of an RGBA8 pixel. */
  type Byte = b: int | 0 <= b < 0x100

  /** Rust `u32`: image width and height. */
  type U32 = n: int | 0 <= n < 0x1_0000_0000

  /** Rust `i32`: the fingerprint accumulator. */
  type I32 = x: int | -0x8000_0000 <= x < 0x8000_0000

  /** Two's-complement reduction into `i32`, what Rust's `wrapping_*` operations and `<<` on `i32` do. */
  function WrapI32(x: int): (r: I32)
    ensures (x - r) % TWO_32 == 0
    ensures -TWO_31 <= x < TWO_31 ==> r == x
  {
    (x + TWO_31) % TWO_32 - TWO_31
  }

  /** An `i32` is determined by its residue modulo 2^32. */
  lemma WrapI32Unique(x: int, r: I32)
    requires (x - r) % TWO_32 == 0
    ensures WrapI32(x) == r
  {
    var w := WrapI32(x);
    assert (w - r) % TWO_32 == 0 by {
      assert w - r == (x - r) - (x - w);
    }
  }

  /** Congruent integers wrap to the same `i32`. */
  lemma WrapI32Congruent(x: int, y: int)
    requires (x - y) % TWO_32 == 0
    ensures WrapI32(x) == WrapI32(y)
  {
    var w := WrapI32(y);
    assert (x - w) % TWO_32 == 0 by {
      assert x - w == (x - y) + (y - w);
    }
    WrapI32Unique(x, w);
  }

  /** Adding a multiple of 2^32 does not change the wrapped value. */
  lemma WrapI32Shift(x: int, k: int)
    ensures WrapI32(x + TWO_32 * k) == WrapI32(x)
  {
    WrapI32Congruent(x + TWO_32 * k, x);
  }

  /** Arithmetic in `u32` that silently wraps, as a release build of the source does. */
  function WrapU32(x: nat): (r: U32)
    ensures (x - r) % TWO_32 == 0
    ensures x < TWO_32 ==> r == x
  {
    x % TWO_32
  }
}
