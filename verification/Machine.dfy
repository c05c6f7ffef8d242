/** The integer width the counters live in. */
module Machine {
  /** `usize::MAX` of a 64-bit target. */
  const USIZE_MAX: nat := 0xFFFF_FFFF_FFFF_FFFF
}
