/** Machine integers and the optional-value wrapper shared by the other modules. */
module Base {

  /** Largest value of Rust's `u64`. */
  const U64_MAX: int := 0xFFFF_FFFF_FFFF_FFFF

  /** Rust's `u64`: clock readings in nanoseconds and the enter counter. */
  newtype u64 = x: int | 0 <= x <= U64_MAX

  /** Rust's `Option<T>`. */
  datatype Option<+T> = None | Some(value: T)
}
