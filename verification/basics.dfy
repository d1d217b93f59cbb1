/** Small shared vocabulary: optional values, fallible results, and the
    fixed-width unsigned integers the compiler passes use. */
module Basics {

  /** `Option<T>` of the host language. */
  datatype Option<+T> = None | Some(value: T)

  /** A computation that either yields a value or aborts compilation with a
      diagnostic (a panic, `span_bug!` or `span_fatal`). */
  datatype Result<+T, +E> = Ok(value: T) | Err(error: E)

  const U32_LIMIT: int := 0x1_0000_0000
  const U64_LIMIT: int := 0x1_0000_0000_0000_0000

  type u32 = x: int | 0 <= x < U32_LIMIT
  type u64 = x: int | 0 <= x < U64_LIMIT
}
