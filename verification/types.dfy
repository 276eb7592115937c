/** Types shared by the four containers. */
module Types {
  /** An unsigned 8-bit value (C's uint8_t / the bytes of a key). */
  type Byte = x: int | 0 <= x < 256

  /** One more than the largest value of C's size_t on a 64-bit target. */
  const SizeModulus: nat := 0x1_0000_0000_0000_0000

  /** The width in bytes of a data pointer on the same 64-bit target. */
  const PointerSize: nat := 8

  /** A pointer-or-NULL result: None stands for NULL. */
  datatype Option<T> = None | Some(value: T)

  /**
    `x % n` for an index `x` that has run past the end of `n` cells at most
    once: the wrap-around of a ring index or of a linear probe.
  */
  function Wrap(x: nat, n: nat): (r: nat)
    requires x < 2 * n
    ensures r < n && r == x % n
  {
    if x < n then x else
      assert x == 1 * n + (x - n);
      x - n
  }
}
