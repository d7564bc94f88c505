/** Bytes and unsigned arithmetic of the C types. */
module Bytes {

  const U32 := 0x1_0000_0000
  const U64 := 0x1_0000_0000_0000_0000

  type Byte = b: int | 0 <= b < 0x100

  /** What an unsigned 32-bit variable keeps of `x`. */
  function W(x: int): (r: int)
    ensures 0 <= r < U32
    ensures 0 <= x < U32 ==> r == x
  {
    x % U32
  }

  function Min(a: int, b: int): int { if a < b then a else b }
}

/** A value or none: a pointer that may be NULL, a lookup that may find nothing. */
module Options {
  datatype Option<T> = None | Some(value: T)
}
