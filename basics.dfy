/** Value types shared by both pool variants: `std::size_t` on a 64-bit
    target, and an optional address standing for a pointer that may be null. */
module Basics {

  /** 2^64: `std::size_t` arithmetic is modulo this value. */
  const SIZE_T_MODULUS: nat := 0x1_0000_0000_0000_0000

  /** A value of type `std::size_t`. */
  type SizeT = x: nat | x < 0x1_0000_0000_0000_0000

  /** An address that may be null: `None` is `nullptr`. */
  datatype Option<+T> = None | Some(value: T)

  /** `alignof(std::max_align_t)` on a 64-bit target: the alignment
      `allocate` and `deallocate` take when none is given. */
  const MAX_ALIGN: SizeT := 16

  /** `a * b` evaluated in `std::size_t`: the product wraps modulo 2^64, so
      it is exact exactly when it does not overflow. */
  function MulSizeT(a: SizeT, b: SizeT): (r: SizeT)
    ensures r == (a * b) % SIZE_T_MODULUS
    ensures r == a * b <==> a * b < SIZE_T_MODULUS
  {
    var p := a * b;
    if p < SIZE_T_MODULUS then p else p % SIZE_T_MODULUS
  }
}
