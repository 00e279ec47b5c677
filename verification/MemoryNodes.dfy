/** The DDR nodes of the system, each with its own memory and its own bank of the last-level cache. */
module MemoryNodes {
  const DDR_NODES := 2

  type ddr = d: int | 0 <= d < 2
}
