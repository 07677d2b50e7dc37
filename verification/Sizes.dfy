/**
  Sizes of physical memory, shared by the page allocator, the page tables and the heap.
 */
module Sizes {
  const PAGE_SIZE: nat := 4096

  /** Physical addresses have at most 52 bits, so page frames are numbered below this. */
  const FRAME_LIMIT: nat := 0x100_0000_0000
}
