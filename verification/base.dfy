/** Fixed-width integer types of the C++ source, and the Option wrapper used for
    nullable pointers and `npos`-style "not found" results. */
module Base {

  /** `pid_t` and `int` on the target platforms. */
  newtype i32 = x: int | -0x8000_0000 <= x < 0x8000_0000

  /** `uint32_t`. */
  newtype u32 = x: int | 0 <= x < 0x1_0000_0000

  /** `uint64_t`. */
  newtype u64 = x: int | 0 <= x < 0x1_0000_0000_0000_0000

  datatype Option<+T> = None | Some(value: T)
}
