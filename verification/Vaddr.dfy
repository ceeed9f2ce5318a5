/** The layout of virtual addresses. */
module Vaddr {
  const PGSIZE := 4096
  /** The kernel's part of the address space starts here. */
  const PHYS_BASE := 0xc000_0000
}
