/** The value types of memory/memory_structs.h: fixed-width integers, the
    CLOCK_MONOTONIC timestamp, the two table-entry records and the policy enum. */
module Types {

  /** NUM_OF_PROCESSES: the number of processes whose history windows are kept. */
  const NumOfProcesses: nat := 2

  /** Size in bytes of a page; an address is split at bit 12. */
  const PageSize: nat := 4096

  type uint8 = x: int | 0 <= x < 0x100
  type uint16 = x: int | 0 <= x < 0x1_0000
  type uint32 = x: int | 0 <= x < 0x1_0000_0000

  /** struct timespec: seconds and nanoseconds. */
  datatype Timespec = Timespec(sec: int, nsec: int)

  /** The strict lexicographic order on timestamps that lru applies. */
  predicate Before(a: Timespec, b: Timespec)
  {
    a.sec < b.sec || (a.sec == b.sec && a.nsec < b.nsec)
  }

  /** enum algorithm: the page replacement algorithm. */
  datatype Algorithm = LRU | WS

  /** struct vmem_entry: one inverse-page-table slot. It is also the item type
      of the queues (the history windows and the working set). */
  datatype VmemEntry = VmemEntry(isSet: bool, pid: uint8, addr: uint32)

  /** struct mmem_entry: the main-memory side of a frame. */
  datatype MmemEntry = MmemEntry(isSet: bool, modified: bool, offset: uint16, latency: Timespec)

  /** The all-zero entries that calloc produces. */
  const EmptyVmem: VmemEntry := VmemEntry(false, 0, 0)
  const EmptyMmem: MmemEntry := MmemEntry(false, false, 0, Timespec(0, 0))
}
