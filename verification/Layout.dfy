/** Where the linker script and the boot stub put the kernel image. */
module Layouts {

  const PAGE_SIZE: nat := 4096
  /** Bytes one page table maps, and the size of one huge page. */
  const PAGE_TABLE_SPAN: nat := 0x40_0000
  const KERNEL_VIRTUAL_BASE: nat := 0xC000_0000
  const STACK_BYTES: nat := 0x1_0000

  /** The linker symbols and the stack guard's address. */
  datatype Layout = Layout(physStart: nat, physEnd: nat, virtStart: nat, dataStart: nat, virtEnd: nat, guard: nat) {

    /** Page-aligned and ordered as the linker script places them, with the
        guard page and the stack above it in the writable part, and the image
        inside the first 4 MiB of physical memory. */
    predicate Valid() {
      && physStart % PAGE_SIZE == 0 && virtStart % PAGE_SIZE == 0 && dataStart % PAGE_SIZE == 0
      && virtEnd % PAGE_SIZE == 0 && guard % PAGE_SIZE == 0
      && 0 < physStart && physStart + KERNEL_VIRTUAL_BASE <= virtStart
      && virtStart <= dataStart <= guard && guard + PAGE_SIZE + STACK_BYTES <= virtEnd
      && physEnd + KERNEL_VIRTUAL_BASE == virtEnd
      && physEnd <= PAGE_TABLE_SPAN
    }

    /** Frame `f` is part of the loaded image. */
    predicate InImage(f: nat) {
      physStart <= f * PAGE_SIZE < physEnd
    }

    /** Frame `f` holds `.text` or `.rodata`. */
    predicate InReadOnly(f: nat) {
      virtStart <= f * PAGE_SIZE + KERNEL_VIRTUAL_BASE < dataStart
    }

    predicate IsGuard(f: nat) {
      f * PAGE_SIZE + KERNEL_VIRTUAL_BASE == guard
    }
  }
}
