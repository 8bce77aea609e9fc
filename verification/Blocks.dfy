/** The records of the kernel heap: page blocks, and the memory blocks they are divided into. */
module Blocks {
  datatype Color = Red | Black

  // header sizes on a 32-bit x86 target, rounded up to 8
  const PAGE_HEADER: nat := 32
  const BLOCK_HEADER: nat := 48

  ghost function Only(b: MemBlock?): set<MemBlock> { if b == null then {} else {b} }

  class PageBlock {
    const index: nat
    const base: nat
    const size: nat
    const fixed: bool
    var ref: nat
    ghost var first: MemBlock?  // some block of the page
    var prev: PageBlock?
    var next: PageBlock?

    constructor (base: nat, size: nat, fixed: bool)
      ensures this.index == 0 && this.base == base && this.size == size && this.fixed == fixed
      ensures ref == 0 && prev == null && next == null
    {
      this.index, this.base, this.size, this.fixed := 0, base, size, fixed;
      ref, prev, next, first := 0, null, null, null;
    }
  }

  class MemBlock {
    const page: PageBlock
    const addr: nat
    var size: nat
    var isAllocated: bool
    var prev: MemBlock?
    var next: MemBlock?
    var parent: MemBlock?
    var left: MemBlock?
    var right: MemBlock?
    var color: Color

    constructor (page: PageBlock, addr: nat, size: nat)
      ensures this.page == page && this.addr == addr && this.size == size && !isAllocated && prev == null
          && next == null
      ensures parent == null && left == null && right == null && color == Black
    {
      this.page, this.addr, this.size := page, addr, size;
      isAllocated, prev, next := false, null, null;
      parent, left, right, color := null, null, null, Black;
    }
  }
}
