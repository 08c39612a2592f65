/** The range of `std::int64_t`, which is also that of `long long`. */
module Int64 {
  const MIN: int := -0x8000_0000_0000_0000
  const MAX: int := 0x7FFF_FFFF_FFFF_FFFF

  predicate Fits(n: int) {
    MIN <= n <= MAX
  }
}
