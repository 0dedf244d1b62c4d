/** Vocabulary shared by every part of the model: optional values, failure-compatible
    results and the fixed-width machine integers of the original program. */
module Prelude {

  datatype Option<+T> = None | Some(value: T)

  datatype Result<+T, +E> = Ok(value: T) | Err(error: E) {
    predicate IsFailure() {
      Err?
    }

    function PropagateFailure<U>(): Result<U, E>
      requires Err?
    {
      Err(error)
    }

    function Extract(): T
      requires Ok?
    {
      value
    }
  }

  const U32_MAX: int := 0xFFFF_FFFF
  const U64_MAX: int := 0xFFFF_FFFF_FFFF_FFFF
  const I64_MAX: int := 0x7FFF_FFFF_FFFF_FFFF
  const I64_MIN: int := -0x8000_0000_0000_0000

  type byte = x: int | 0 <= x < 256
  type u32 = x: int | 0 <= x <= 0xFFFF_FFFF
  type u64 = x: int | 0 <= x <= 0xFFFF_FFFF_FFFF_FFFF
  type i64 = x: int | -0x8000_0000_0000_0000 <= x <= 0x7FFF_FFFF_FFFF_FFFF

  /** A 32-byte array (endpoint identifier, group identifier or BLAKE3 digest), held as the
      number its bytes spell in big-endian order.  Comparing two such arrays byte by byte and
      comparing the numbers is the same thing (`Bytes.BigEndianOrder`). */
  type Bytes32 = x: int |
      0 <= x < 0x1_0000_0000_0000_0000_0000_0000_0000_0000_0000_0000_0000_0000_0000_0000_0000_0000

  /** A 64-byte array (a signature), held the same way. */
  type Bytes64 = x: int |
      0 <= x < 0x1_0000_0000_0000_0000_0000_0000_0000_0000_0000_0000_0000_0000_0000_0000_0000_0000
             * 0x1_0000_0000_0000_0000_0000_0000_0000_0000_0000_0000_0000_0000_0000_0000_0000_0000

  /** Rust's `i64::saturating_add` and `i64::saturating_mul` clamp to the representable range. */
  function Saturate(x: int): (r: i64)
    ensures I64_MIN <= x <= I64_MAX ==> r == x
  {
    if x > I64_MAX then I64_MAX else if x < I64_MIN then I64_MIN else x
  }
}
