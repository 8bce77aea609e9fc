/** The best-fit kernel heap: block lists that tile the pages, and two trees over the same blocks. */
module KernelHeap {
  import opened Blocks
  import opened BlockTrees
  import opened HeapLayout
  import opened TreeLinks
  import opened Wrappers

  function RoundUp8(size: nat): (r: nat)
    ensures r % 8 == 0 && size <= r < size + 8
  { if size % 8 != 0 then (size / 8 + 1) * 8 else size }

  const TWO_32: nat := 0x1_0000_0000

  // a page block has room for both headers, and its size leaves 32-bit sums with three headers exact
  predicate ScaleOk(scale: nat) { PAGE_HEADER + BLOCK_HEADER <= scale && scale + 2 * BLOCK_HEADER < TWO_32 }

  // sizes for which the 32-bit sum in the guard does not wrap around
  predicate NoWrap(size: nat) { RoundUp8(size) + BLOCK_HEADER < TWO_32 }

  // the size with its header, and the guard, as they are computed on 32-bit numbers
  function Want32(size: nat): nat { (RoundUp8(size) % TWO_32 + BLOCK_HEADER) % TWO_32 }

  predicate Guard32(size: nat, scale: nat) { Want32(size) > scale }

  /** The guard of core_mm_heap_alloc turns away every size too large for a page block just when its sum does not wrap.
      */
  lemma GuardExact(size: nat, scale: nat)
    requires size < TWO_32 && ScaleOk(scale)
    ensures (Guard32(size, scale) <==> RoundUp8(size) + BLOCK_HEADER > scale) <==> NoWrap(size)
  {
    assert RoundUp8(size) <= TWO_32;
  }

  /** Every size whose sum wraps passes the guard and then asks for a block without room for a single byte. */
  lemma GuardWraps(size: nat, scale: nat)
    requires size < TWO_32 && ScaleOk(scale) && !NoWrap(size)
    ensures !Guard32(size, scale) && Want32(size) <= BLOCK_HEADER
    ensures !NoWrap(0xFFFF_FFF0) && Want32(0xFFFF_FFF0) == 32
  {}

  /** The guard counts one header, a fresh page block holds two: at this size it passes and the payload is short. */
  lemma GuardShort()
    ensures var size, scale := 4040, 4096;
            ScaleOk(scale) && NoWrap(size) && !Guard32(size, scale) && scale - PAGE_HEADER - BLOCK_HEADER < size
  {}

  class Heap {
    const scale: nat
    const prealloc: bool
    const used: BlockTree
    const empty: BlockTree
    var pageList: PageBlock?
    ghost var pages: seq<PageBlock>
    ghost var cells: Cells
    ghost var log: seq<Outcome>  // what came of each call

    constructor (scale: nat, prealloc: bool)
      requires ScaleOk(scale)
      ensures Valid() && this.scale == scale && this.prealloc == prealloc && pages == [] && cells == map[]
      ensures used.links == map[] && empty.links == map[] && fresh(used) && fresh(empty) && log == []
    {
      this.scale, this.prealloc, pageList, pages, cells, log := scale, prealloc, null, [], map[], [];
      used := new BlockTree();
      empty := new BlockTree();
    }

    // a heap on a buffer of the caller's, which is never given back
    constructor OnBuffer(scale: nat, prealloc: bool, base: nat, size: nat)
      requires ScaleOk(scale) && size >= PAGE_HEADER + BLOCK_HEADER && base % 8 == 0
      ensures Valid() && this.scale == scale && this.prealloc == prealloc && used.links == map[] && log == []
      ensures |pages| == 1 && pages[0].fixed && pages[0].base == base && pages[0].size == size
      ensures fresh(used) && fresh(empty) && fresh(pages[0]) && fresh(cells.Keys)
    {
      this.scale, this.prealloc, pageList, pages, cells, log := scale, prealloc, null, [], map[], [];
      used := new BlockTree();
      empty := new BlockTree();
      new;
      TakeBuffer(base, size);
    }

    method TakeBuffer(base: nat, size: nat)
      requires Valid() && pages == [] && cells == map[] && used.links == map[] == empty.links
      requires size >= PAGE_HEADER + BLOCK_HEADER && base % 8 == 0
      modifies this`pageList, this`pages, this`cells, empty
      ensures Valid() && used.links == old(used.links)
      ensures |pages| == 1 && pages[0].fixed && pages[0].base == base && pages[0].size == size
      ensures fresh(pages[0]) && fresh(cells.Keys)
    {
      var p := new PageBlock(base, size, true);
      var b := new MemBlock(p, base + PAGE_HEADER, size - PAGE_HEADER);
      p.first := b;
      Enter(p, b);
      PutEmpty(b, {b}, {});
      assert {b} - {b} == {};
    }

    // ---- the invariant; limbo holds the blocks an operation has taken out of the trees

    static ghost predicate CellHolds(b: MemBlock, k: Cell)
      reads b`size, b`prev, b`next
    { b.size == k.size && b.prev == k.prev && b.next == k.next }

    ghost predicate CellsHold()
      reads this`cells, cells.Keys`size, cells.Keys`prev, cells.Keys`next
    { forall b {:trigger CellHolds(b, cells[b])} :: b in cells ==> CellHolds(b, cells[b]) }

    ghost predicate TreesOk(limbo: set<MemBlock>)
      reads this`cells, used, empty, used.links.Keys, empty.links.Keys
    {
      && used != empty && used.Valid() && empty.Valid()
      && used.links.Keys !! empty.links.Keys && limbo !! used.links.Keys && limbo !! empty.links.Keys
      && cells.Keys == used.links.Keys + empty.links.Keys + limbo
    }

    static ghost predicate Flagged(b: MemBlock, live: set<MemBlock>)
      reads b`isAllocated
    { b.isAllocated <==> b in live }

    ghost predicate FlagsOk(live: set<MemBlock>)
      reads this`cells, cells.Keys`isAllocated
    { forall b {:trigger Flagged(b, live)} :: b in cells ==> Flagged(b, live) }

    static ghost function LiveOn(p: PageBlock, live: set<MemBlock>): set<MemBlock> { set b | b in live && b.page == p }

    static ghost predicate RefOk(p: PageBlock, live: set<MemBlock>)
      reads p`ref
    { p.ref == |LiveOn(p, live)| }

    ghost predicate RefsOk(live: set<MemBlock>)
      reads this`pages, pages`ref
    { forall p {:trigger RefOk(p, live)} :: p in pages ==> RefOk(p, live) }

    // the page list
    static ghost predicate LinkOk(q: seq<PageBlock>, i: nat)
      requires i < |q|
      reads q`prev, q`next
    {
      && q[i].prev == (if i == 0 then null else q[i - 1]) && q[i].next == (if i + 1 == |q| then null else q[i + 1])
    }

    ghost predicate PagesOk()
      reads this`pages, this`pageList, pages`prev, pages`next
    {
      && pageList == (if pages == [] then null else pages[0])
      && (forall i: nat {:trigger LinkOk(pages, i)} :: i < |pages| ==> LinkOk(pages, i))
      && Separate(pages)
    }

    static ghost predicate Away(p: PageBlock, q: PageBlock) { p.base + p.size <= q.base || q.base + q.size <= p.base }

    static ghost predicate Separate(q: seq<PageBlock>) {
      forall i: nat, j: nat {:trigger Apart2(q, i, j)} :: i < |q| && j < |q| ==> Apart2(q, i, j)
    }

    static ghost predicate Apart2(q: seq<PageBlock>, i: nat, j: nat)
      requires i < |q| && j < |q|
    { i != j ==> q[i] != q[j] && Away(q[i], q[j]) }

    static ghost predicate Homed(b: MemBlock, q: seq<PageBlock>) { b.page in q }

    ghost predicate HomesOk()
      reads this`pages, this`cells, pages`first
    {
      && (forall b {:trigger Homed(b, pages)} :: b in cells ==> Homed(b, pages))
      && (forall p {:trigger Begins(p, cells)} :: p in pages ==> Begins(p, cells))
    }

    static ghost predicate Begins(p: PageBlock, m: Cells)
      reads p`first
    { p.first != null && p.first in m && p.first.page == p && p.base % 8 == 0 }

    // lists, trees and pages fit together
    ghost predicate Core(limbo: set<MemBlock>)
      reads this`pageList, this`pages, this`cells, pages, cells.Keys, used, empty, used.links.Keys, empty.links.Keys
    {
      && TreesOk(limbo) && CellsHold() && PagesOk() && HomesOk()
      && Laid(cells) && Spaced(cells, empty.links.Keys)
      && ScaleOk(scale)
    }

    // flags and reference counts say that exactly these blocks are allocated
    ghost predicate Books(live: set<MemBlock>)
      reads this`cells, this`pages, cells.Keys`isAllocated, pages`ref
    { FlagsOk(live) && RefsOk(live) }

    ghost predicate Valid()
      reads this`pageList, this`pages, this`cells, pages, cells.Keys, used, empty, used.links.Keys, empty.links.Keys
    { Core({}) && Books(used.links.Keys) }

    twostate predicate SameSizes(s: set<MemBlock>)
      reads s
    { forall c <- s :: c.size == old(c.size) }

    // ---- what validity means

    // the bytes handed out with b
    static ghost predicate InPayload(b: MemBlock, a: nat)
      reads b`size
    { b.addr + BLOCK_HEADER <= a < b.addr + b.size }

    /** No byte belongs to two allocated blocks, and every payload starts on an 8-byte boundary inside its page. */
    lemma PayloadsApart(b: MemBlock, c: MemBlock, a: nat)
      requires Valid() && b in used.links && c in used.links
      ensures (b.addr + BLOCK_HEADER) % 8 == 0
      ensures InPayload(b, a) ==> b.page.base + PAGE_HEADER <= a < b.page.base + b.page.size
      ensures InPayload(b, a) && InPayload(c, a) ==> b == c
    {
      Look(b, {});
      Look(c, {});
      assert CellOk(cells, b) && CellOk(cells, c) && Clear(cells, b, c);
      var i: nat, j: nat :| i < |pages| && pages[i] == b.page && j < |pages| && pages[j] == c.page;
      assert Apart2(pages, i, j);
    }

    /** Every address of a page behind its header lies in exactly one block of it. */
    lemma PagesTiled(p: PageBlock, a: nat) returns (b: MemBlock)
      requires Valid() && p in pages && p.base + PAGE_HEADER <= a < p.base + p.size
      ensures b in cells && b.page == p && b.addr <= a < b.addr + b.size
      ensures forall c :: c in cells && c.page == p && c.addr <= a < c.addr + c.size ==> c == b
      ensures b.isAllocated <==> b in used.links
      ensures !b.isAllocated <==> b in empty.links
    {
      assert Begins(p, cells);
      b := Tiles(cells, p.first, a);
      Look(b, {});
      assert Flagged(b, used.links.Keys);
      forall c | c in cells && c.page == p && c.addr <= a < c.addr + c.size ensures c == b {
        Look(c, {});
        assert Covers(cells, c, a);
      }
    }

    // ---- allocation

    // a tree's sizes are the blocks' own
    lemma SizesOf(t: BlockTree, c: MemBlock)
      requires t.Matches() && c in t.links
      ensures t.links[c].size == c.size
    { assert t.Holds(c, t.links[c]); }

    // ---- blocks enter and leave the trees

    method PutEmpty(n: MemBlock, ghost limbo: set<MemBlock>, ghost live: set<MemBlock>)
      requires Core(limbo) && Books(live) && n in limbo && Lone(n)
      modifies empty`root, empty`links, n`parent, n`left, n`right, n`color
      modifies empty.links.Keys`parent, empty.links.Keys`left, empty.links.Keys`right, empty.links.Keys`color
      ensures Core(limbo - {n}) && Books(live) && empty.links.Keys == old(empty.links.Keys) + {n}
    {
      FreeSpaced(cells, empty.links.Keys, n);
      empty.Insert(n);
    }

    method TakeEmpty(n: MemBlock, ghost limbo: set<MemBlock>, ghost live: set<MemBlock>)
      requires Core(limbo) && Books(live) && n in empty.links
      modifies empty`root, empty`links
      modifies empty.links.Keys`parent, empty.links.Keys`left, empty.links.Keys`right, empty.links.Keys`color
      ensures Core(limbo + {n}) && Books(live) && empty.links.Keys == old(empty.links.Keys) - {n}
    {
      FewerSpaced(cells, empty.links.Keys, empty.links.Keys - {n});
      empty.Remove(n);
    }

    method PutUsed(n: MemBlock, ghost limbo: set<MemBlock>, ghost live: set<MemBlock>)
      requires Core(limbo) && Books(live) && n in limbo
      modifies used`root, used`links, n`parent, n`left, n`right, n`color
      modifies used.links.Keys`parent, used.links.Keys`left, used.links.Keys`right, used.links.Keys`color
      ensures Core(limbo - {n}) && Books(live) && used.links.Keys == old(used.links.Keys) + {n}
    {
      used.Insert(n);
    }

    method TakeUsed(n: MemBlock, ghost limbo: set<MemBlock>, ghost live: set<MemBlock>)
      requires Core(limbo) && Books(live) && n in used.links
      modifies used`root, used`links
      modifies used.links.Keys`parent, used.links.Keys`left, used.links.Keys`right, used.links.Keys`color
      ensures Core(limbo + {n}) && Books(live) && used.links.Keys == old(used.links.Keys) - {n}
    {
      used.Remove(n);
    }

    // ---- the books

    static lemma LiveMore(p: PageBlock, live: set<MemBlock>, b: MemBlock)
      requires b !in live
      ensures |LiveOn(p, live + {b})| == |LiveOn(p, live)| + if p == b.page then 1 else 0
    {
      assert LiveOn(p, live + {b}) == if p == b.page then LiveOn(p, live) + {b} else LiveOn(p, live);
    }

    method MarkUsed(b: MemBlock, ghost limbo: set<MemBlock>, ghost live: set<MemBlock>)
      requires Core(limbo) && Books(live) && b in cells && b !in live
      modifies b`isAllocated, b.page`ref
      ensures Core(limbo) && Books(live + {b})
    {
      b.isAllocated := true;
      b.page.ref := b.page.ref + 1;
      assert TreesOk(limbo) by { used.Untouched(); empty.Untouched(); }
      assert FlagsOk(live + {b}) by {
        forall c | c in cells ensures Flagged(c, live + {b}) { assert old(Flagged(c, live)); }
      }
      assert RefsOk(live + {b}) by {
        forall o | o in pages ensures RefOk(o, live + {b}) {
          assert old(RefOk(o, live));
          LiveMore(o, live, b);
        }
      }
    }

    method MarkFree(b: MemBlock, ghost limbo: set<MemBlock>, ghost live: set<MemBlock>)
      requires Core(limbo) && Books(live) && b in cells && b in live
      modifies b`isAllocated, b.page`ref
      ensures Core(limbo) && Books(live - {b})
    {
      assert Homed(b, pages) && RefOk(b.page, live) && b in LiveOn(b.page, live);
      b.isAllocated := false;
      b.page.ref := b.page.ref - 1;
      assert TreesOk(limbo) by { used.Untouched(); empty.Untouched(); }
      assert FlagsOk(live - {b}) by {
        forall c | c in cells ensures Flagged(c, live - {b}) { assert old(Flagged(c, live)); }
      }
      assert RefsOk(live - {b}) by {
        forall o | o in pages ensures RefOk(o, live - {b}) {
          assert old(RefOk(o, live));
          LiveMore(o, live - {b}, b);
          assert live - {b} + {b} == live;
        }
      }
    }

    // no free block lies beside b
    ghost predicate Lone(b: MemBlock)
      reads this`cells, empty`links
    {
      && b in cells && (cells[b].next != null ==> cells[b].next !in empty.links)
      && (cells[b].prev != null ==> cells[b].prev !in empty.links)
    }

    // ---- the lists

    // n goes into the list behind b, of which s bytes remain
    method LinkAfter(b: MemBlock, n: MemBlock, s: nat)
      requires b != n && b.next != b && b.next != n
      modifies b`size, b`next, n`prev, n`next, (if b.next == null then {} else {b.next})`prev
      ensures b.size == s && b.next == n && n.prev == b && n.next == old(b.next)
      ensures old(b.next) != null ==> old(b.next).prev == n
    {
      b.size := s;
      n.next := b.next;
      n.prev := b;
      b.next := n;
      if n.next != null {
        n.next.prev := n;
      }
    }

    method SplitCells(b: MemBlock, n: MemBlock, s: nat)
      requires CellsHold() && Splittable(cells, b, n, s) && n.size == b.size - s
      modifies this`cells, b`size, b`next, n`prev, n`next, (if b.next == null then {} else {b.next})`prev
      ensures CellsHold() && cells == Split(old(cells), b, n, s) && b.size == s
    {
      ghost var m := cells;
      assert CellHolds(b, m[b]) && CellOk(m, b);
      LinkAfter(b, n, s);
      cells := Split(m, b, n, s);
      forall c | c in cells ensures CellHolds(c, cells[c]) {
        if c != n { assert old(CellHolds(c, m[c])); }
      }
    }

    method LinkRest(b: MemBlock, n: MemBlock, s: nat, ghost limbo: set<MemBlock>)
      requires Core(limbo) && b in limbo && n !in cells && Lone(b) && s % 8 == 0 && BLOCK_HEADER <= s
          && s + BLOCK_HEADER <= b.size
      requires n.page == b.page && n.addr == b.addr + s && n.size == b.size - s
      modifies this`cells, b`size, b`next, n`prev, n`next, (if b.next == null then {} else {b.next})`prev
      ensures Core(limbo + {n}) && b.size == s && cells.Keys == old(cells.Keys) + {n} && Lone(n)
    {
      ghost var m := cells;
      assert CellHolds(b, m[b]) && CellOk(m, b);
      SplitCells(b, n, s);
      assert TreesOk(limbo + {n}) by { used.Untouched(); empty.Untouched(); }
      SplitKeeps(m, b, n, s);
    }

    method SplitOff(b: MemBlock, n: MemBlock, s: nat, ghost live: set<MemBlock>)
      requires Core({b}) && Books(live) && n !in cells && Lone(b) && s % 8 == 0 && BLOCK_HEADER <= s
          && s + BLOCK_HEADER <= b.size
      requires n.page == b.page && n.addr == b.addr + s && n.size == b.size - s && !n.isAllocated && n !in live
      modifies this`cells, b`size, b`next, n`prev, n`next, (if b.next == null then {} else {b.next})`prev
      ensures Core({b, n}) && Books(live) && b.size == s && cells.Keys == old(cells.Keys) + {n} && Lone(n)
    {
      LinkRest(b, n, s, {b});
      assert {b, n} == {b} + {n};
      forall c | c in cells ensures Flagged(c, live) { if c != n { assert old(Flagged(c, live)); } }
    }

    lemma Keys(limbo: set<MemBlock>)
      requires Core(limbo)
      ensures used != empty && cells.Keys == used.links.Keys + empty.links.Keys + limbo
      ensures limbo !! used.links.Keys && limbo !! empty.links.Keys && used.links.Keys !! empty.links.Keys
    {}

    lemma Fields(b: MemBlock, limbo: set<MemBlock>)
      requires Core(limbo) && b in cells
      ensures CellHolds(b, cells[b])
    {}

    lemma Look(b: MemBlock, limbo: set<MemBlock>)
      requires Core(limbo) && b in cells
      ensures CellHolds(b, cells[b]) && b.page in pages
      ensures (b.next != null ==> b.next in cells) && (b.prev != null ==> b.prev in cells)
    {
      assert CellHolds(b, cells[b]) && CellOk(cells, b) && Homed(b, pages);
    }

    // n lies behind b on the same page and has this size
    static ghost predicate Behind(n: MemBlock, b: MemBlock, size: nat)
      reads n`size, b`size
    { n.page == b.page && n.addr == b.addr + b.size && n.size == size }

    // b keeps its first bytes, and n, which is new, becomes a free block of the others
    method SplitRest(b: MemBlock, n: MemBlock, want: nat)
      requires Core({b}) && Books(used.links.Keys) && Lone(b) && want % 8 == 0 && want >= BLOCK_HEADER
          && b.size > want + BLOCK_HEADER + 8
      requires n !in cells && n.page == b.page && n.addr == b.addr + want && n.size == b.size - want && !n.isAllocated
      modifies this`cells, b`size, b`next, n`prev, n`next, (if b.next == null then {} else {b.next})`prev
      modifies empty`root, empty`links, n`parent, n`left, n`right, n`color
      modifies empty.links.Keys`parent, empty.links.Keys`left, empty.links.Keys`right, empty.links.Keys`color
      ensures Core({b}) && Books(used.links.Keys) && b.size == want
      ensures empty.links.Keys == old(empty.links.Keys) + {n} && cells.Keys == old(cells.Keys) + {n}
    {
      hide Core, Books;
      Keys({b});
      SplitOff(b, n, want, used.links.Keys);
      PutEmpty(n, {b, n}, used.links.Keys);
      assert {b, n} - {n} == {b};
    }

    // the facts about cells and homes after a split
    lemma SplitKeeps(m: Cells, b: MemBlock, n: MemBlock, s: nat)
      requires Splittable(m, b, n, s) && cells == Split(m, b, n, s) && Spaced(m, empty.links.Keys)
          && b !in empty.links && n !in empty.links
      requires m[b].next != null ==> m[b].next !in empty.links
      requires forall c {:trigger Homed(c, pages)} :: c in m ==> Homed(c, pages)
      requires forall p {:trigger Begins(p, m)} :: p in pages ==> Begins(p, m)
      ensures Laid(cells) && Spaced(cells, empty.links.Keys) && HomesOk()
    {
      SplitLaid(m, b, n, s);
      SplitSpaced(m, empty.links.Keys, b, n, s);
      FewerSpaced(cells, empty.links.Keys + {n}, empty.links.Keys);
      forall c | c in cells ensures Homed(c, pages) { assert Homed(if c == n then b else c, pages); }
      forall o | o in pages ensures Begins(o, cells) { assert Begins(o, m); }
    }

    // the pages core_mm_pg_alloc hands out lie apart from every page in use, on an 8-byte boundary
    ghost predicate FreshPages(base: nat)
      reads this`pages
    {
      base % 8 == 0 && forall p <- pages :: base + scale <= p.base || p.base + p.size <= base
    }

    method AppendPage(p: PageBlock)
      requires PagesOk() && p !in pages && p.prev == null && p.next == null
      requires forall q <- pages :: Away(p, q)
      modifies this`pageList, this`pages, p`prev, p`next, pages`next
      ensures PagesOk() && pages == old(pages) + [p]
    {
      if pageList == null {
        pageList := p;
      } else {
        var node: PageBlock := pageList;
        ghost var i := 0;
        assert LinkOk(pages, 0);
        while node.next != null
          invariant i < |pages| && node == pages[i] && LinkOk(pages, i)
          decreases |pages| - i
        {
          assert LinkOk(pages, i + 1);
          node := node.next;
          i := i + 1;
        }
        node.next := p;
        p.prev := node;
      }
      ghost var q := pages;
      pages := pages + [p];
      forall i: nat | i < |pages| ensures LinkOk(pages, i) {
        if i < |q| { assert old(LinkOk(pages, i)); }
      }
      forall i: nat, j: nat | i < |pages| && j < |pages| ensures Apart2(pages, i, j) {
        if i < |q| && j < |q| { assert Apart2(q, i, j); }
        else if i < |q| { assert pages[i] in q; }
        else if j < |q| { assert pages[j] in q; }
      }
    }

    method AddPage(base: nat) returns (b: MemBlock)
      requires Valid() && FreshPages(base)
      modifies this`pageList, this`pages, this`cells, pages`next
      ensures Core({b}) && Books(used.links.Keys) && fresh(b) && b.size == scale - PAGE_HEADER
          && b.page.base == base && pages == old(pages) + [b.page] && fresh(b.page)
      ensures b.addr == base + PAGE_HEADER && b.page.size == scale && !b.page.fixed && b.prev == null && b.next == null
      ensures cells.Keys == old(cells.Keys) + {b} && Lone(b)
    {
      var p := new PageBlock(base, scale, false);
      b := new MemBlock(p, base + PAGE_HEADER, scale - PAGE_HEADER);
      hide Core, Books;
      p.first := b;
      Enter(p, b);
      Fields(b, {b});
    }

    method Enter(p: PageBlock, b: MemBlock)
      requires Valid() && p !in pages && b !in cells && b.page == p && (forall q <- pages :: Away(p, q))
      requires b.addr == p.base + PAGE_HEADER && b.size == p.size - PAGE_HEADER && p.size >= PAGE_HEADER + BLOCK_HEADER
      requires p.base % 8 == 0 && p.ref == 0 && p.prev == null && p.next == null && p.first == b
      requires b.prev == null && b.next == null && !b.isAllocated
      modifies this`pageList, this`pages, this`cells, p`prev, p`next, pages`next
      ensures Core({b}) && Books(used.links.Keys) && pages == old(pages) + [p] && cells.Keys == old(cells.Keys) + {b}
    {
      EnlistPage(p);
      ghost var m, q := cells, old(pages);
      cells := m[b := Cell(b.size, null, null)];
      Registered(b, q, m);
    }

    // the page joins the list of pages; nothing else has changed for the others
    method EnlistPage(p: PageBlock)
      requires Valid() && p !in pages && (forall q <- pages :: Away(p, q)) && p.prev == null && p.next == null
      modifies this`pageList, this`pages, p`prev, p`next, pages`next
      ensures AllBut(p, old(pages), cells) && PagesOk() && pages == old(pages) + [p]
    {
      AppendPage(p);
      ghost var m, q := cells, old(pages);
      assert forall o {:trigger RefOk(o, used.links.Keys)} :: o in q ==> RefOk(o, used.links.Keys) by {
        forall o | o in q ensures RefOk(o, used.links.Keys) { assert old(RefOk(o, used.links.Keys)); }
      }
      assert forall o {:trigger Begins(o, m)} :: o in q ==> Begins(o, m) by {
        forall o | o in q ensures Begins(o, m) { assert old(Begins(o, m)); }
      }
    }

    // everything holds of the blocks in m, which are all but the only block of the new page
    ghost predicate AllBut(p: PageBlock, q: seq<PageBlock>, m: Cells)
      reads q, m.Keys, used, empty, used.links.Keys, empty.links.Keys
    {
      && used != empty && used.Valid() && empty.Valid() && used.links.Keys !! empty.links.Keys
      && m.Keys == used.links.Keys + empty.links.Keys
      && (forall c {:trigger CellHolds(c, m[c])} :: c in m ==> CellHolds(c, m[c]))
      && (forall c {:trigger Flagged(c, used.links.Keys)} :: c in m ==> Flagged(c, used.links.Keys))
      && (forall o {:trigger RefOk(o, used.links.Keys)} :: o in q ==> RefOk(o, used.links.Keys))
      && (forall b {:trigger Homed(b, q)} :: b in m ==> Homed(b, q))
      && (forall o {:trigger Begins(o, m)} :: o in q ==> Begins(o, m))
      && Laid(m) && Spaced(m, empty.links.Keys) && p !in q && ScaleOk(scale)
    }

    lemma Registered(b: MemBlock, q: seq<PageBlock>, m: Cells)
      requires AllBut(b.page, q, m) && PagesOk() && pages == q + [b.page]
      requires b !in m && cells == m[b := Cell(b.size, null, null)]
      requires b.addr == b.page.base + PAGE_HEADER && b.size == b.page.size - PAGE_HEADER
      requires b.page.size >= PAGE_HEADER + BLOCK_HEADER && b.page.base % 8 == 0
      requires b.page.first == b && b.page.ref == 0 && b.prev == null && b.next == null && !b.isAllocated
      ensures Core({b}) && Books(used.links.Keys)
    {
      assert TreesOk({b});
      RegisterBlocks(b, q, m);
      RegisterPages(b, q, m);
      assert Laid(cells) && Spaced(cells, empty.links.Keys) by { FirstCell(m, b, q, empty.links.Keys); }
    }

    lemma RegisterBlocks(b: MemBlock, q: seq<PageBlock>, m: Cells)
      requires b !in m && cells == m[b := Cell(b.size, null, null)] && pages == q + [b.page]
      requires b !in used.links && b.prev == null && b.next == null && !b.isAllocated
      requires forall c {:trigger CellHolds(c, m[c])} :: c in m ==> CellHolds(c, m[c])
      requires forall c {:trigger Flagged(c, used.links.Keys)} :: c in m ==> Flagged(c, used.links.Keys)
      requires forall c {:trigger Homed(c, q)} :: c in m ==> Homed(c, q)
      ensures CellsHold() && FlagsOk(used.links.Keys)
      ensures forall c {:trigger Homed(c, pages)} :: c in cells ==> Homed(c, pages)
    {
      forall c | c in cells ensures CellHolds(c, cells[c]) { if c != b { assert CellHolds(c, m[c]); } }
      forall c | c in cells ensures Flagged(c, used.links.Keys) {}
      forall c | c in cells ensures Homed(c, pages) { if c != b { assert Homed(c, q); } }
    }

    lemma RegisterPages(b: MemBlock, q: seq<PageBlock>, m: Cells)
      requires b !in m && cells == m[b := Cell(b.size, null, null)] && pages == q + [b.page] && b.page !in q
          && used.links.Keys <= m.Keys
      requires b.page.first == b && b.page.base % 8 == 0 && b.page.ref == 0
      requires forall c {:trigger Homed(c, q)} :: c in m ==> Homed(c, q)
      requires forall o {:trigger RefOk(o, used.links.Keys)} :: o in q ==> RefOk(o, used.links.Keys)
      requires forall o {:trigger Begins(o, m)} :: o in q ==> Begins(o, m)
      ensures RefsOk(used.links.Keys)
      ensures forall o {:trigger Begins(o, cells)} :: o in pages ==> Begins(o, cells)
    {
      forall o | o in pages ensures Begins(o, cells) { if o != b.page { assert Begins(o, m); } }
      forall c | c in used.links.Keys ensures c.page != b.page { assert Homed(c, q); }
      assert LiveOn(b.page, used.links.Keys) == {};
      forall o | o in pages ensures RefOk(o, used.links.Keys) {}
    }

    static lemma FirstCell(m: Cells, b: MemBlock, q: seq<PageBlock>, free: set<MemBlock>)
      requires Laid(m) && b !in m && b.page !in q && (forall c {:trigger Homed(c, q)} :: c in m ==> Homed(c, q))
      requires b.addr == b.page.base + PAGE_HEADER && b.page.size >= PAGE_HEADER + BLOCK_HEADER && b.page.base % 8 == 0
      requires Spaced(m, free)
      ensures Laid(m[b := Cell(b.page.size - PAGE_HEADER, null, null)])
      ensures Spaced(m[b := Cell(b.page.size - PAGE_HEADER, null, null)], free)
    {
      var m' := m[b := Cell(b.page.size - PAGE_HEADER, null, null)];
      forall c | c in m' ensures CellOk(m', c) { if c != b { assert CellOk(m, c); } }
      forall c, d | c in m' && d in m' ensures Clear(m', c, d) {
        if c != b { assert Homed(c, q); }
        if d != b { assert Homed(d, q); }
        if c != b && d != b { assert Clear(m, c, d); }
      }
      forall c | c in m' ensures SpacedAt(m', free, c) { if c != b { assert SpacedAt(m, free, c); } }
    }

    // ---- the two entry points

    lemma LoneFree(b: MemBlock)
      requires Core({}) && b in empty.links
      ensures b in cells && (cells[b].next != null ==> cells[b].next !in empty.links)
      ensures (cells[b].prev != null ==> cells[b].prev !in empty.links)
    {
      PrevFree(cells, empty.links.Keys, b);
      NextFree(cells, empty.links.Keys, b);
    }

    // a free block large enough, taken out of its tree
    method TakeFree(want: nat) returns (b: MemBlock?)
      requires Valid()
      modifies empty`root, empty`links
      modifies empty.links.Keys`parent, empty.links.Keys`left, empty.links.Keys`right, empty.links.Keys`color
      ensures b == null ==> Valid() && empty.links == old(empty.links) && NoneFits(empty.links.Keys, want)
      ensures b != null ==>
                && Core({b}) && Books(used.links.Keys) && Lone(b) && old(b in empty.links)
                && BestOf(b, old(empty.links.Keys), want) && empty.links.Keys == old(empty.links.Keys) - {b}
    {
      b := BestFit(want);
      if b != null {
        LoneFree(b);
        hide Core, Books;
        TakeEmpty(b, {}, used.links.Keys);
        assert {} + {b} == {b};
      }
    }

    method BestFit(want: nat) returns (b: MemBlock?)
      requires Valid()
      ensures if b == null then NoneFits(empty.links.Keys, want)
              else b in empty.links && BestOf(b, empty.links.Keys, want)
    {
      b := empty.FindFit(want);
      forall c | c in empty.links ensures empty.links[c].size == c.size { SizesOf(empty, c); }
    }

    // what is too much for a request is cut off, if a block can be made of it
    static ghost predicate Cut(b: MemBlock, had: nat, want: nat, rest: MemBlock?)
      reads b`size, Only(rest)`size
    {
      if had > want + BLOCK_HEADER + 8 then b.size == want && rest != null && Behind(rest, b, had - want)
      else b.size == had && rest == null
    }

    method Trim(b: MemBlock, want: nat) returns (ghost rest: MemBlock?)
      requires Core({b}) && Books(used.links.Keys) && Lone(b) && want % 8 == 0 && want >= BLOCK_HEADER
      modifies this`cells, b`size, b`next, (if b.next == null then {} else {b.next})`prev, empty`root, empty`links
      modifies empty.links.Keys`parent, empty.links.Keys`left, empty.links.Keys`right, empty.links.Keys`color
      ensures SameSizes(old(cells.Keys) - {b})
      ensures Core({b}) && Books(used.links.Keys)
      ensures old(cells.Keys) <= cells.Keys && fresh(cells.Keys - old(cells.Keys))
      ensures empty.links.Keys == old(empty.links.Keys) + Only(rest)
      ensures Cut(b, old(b.size), want, rest) && (rest != null ==> fresh(rest))
    {
      hide Core, Books;
      Keys({b});
      Look(b, {b});
      rest := null;
      if b.size > want + BLOCK_HEADER + 8 {
        var n := new MemBlock(b.page, b.addr + want, b.size - want);
        SplitRest(b, n, want);
        rest := n;
      }
    }

    method Allot(b: MemBlock, want: nat) returns (ghost rest: MemBlock?)
      requires Core({b}) && Books(used.links.Keys) && Lone(b) && want % 8 == 0 && want >= BLOCK_HEADER
      modifies this`cells, used, empty, cells.Keys, b.page`ref
      ensures SameSizes(old(cells.Keys) - {b})
      ensures Valid() && used.links.Keys == old(used.links.Keys) + {b} && b !in old(used.links)
      ensures fresh(cells.Keys - old(cells.Keys)) && empty.links.Keys == old(empty.links.Keys) + Only(rest)
      ensures Cut(b, old(b.size), want, rest) && (rest != null ==> fresh(rest))
    {
      hide Core, Books, Valid;
      Keys({b});
      Look(b, {b});
      rest := Trim(b, want);
      Keys({b});
      HandOut(b);
    }

    method HandOut(b: MemBlock)
      requires Core({b}) && Books(used.links.Keys)
      modifies used`root, used`links, b`parent, b`left, b`right, b`color, b`isAllocated, b.page`ref
      modifies used.links.Keys`parent, used.links.Keys`left, used.links.Keys`right, used.links.Keys`color
      ensures Valid() && used.links.Keys == old(used.links.Keys) + {b} && b !in old(used.links)
      ensures SameSizes(cells.Keys) && empty.links == old(empty.links)
    {
      hide Core, Books;
      ghost var live := used.links.Keys;
      Keys({b});
      PutUsed(b, {b}, live);
      assert {b} - {b} == {};
      Keys({});
      MarkUsed(b, {}, live);
    }

    // the pages are these, but for a new one with b on it
    twostate predicate NewPages(q: seq<PageBlock>, new b: MemBlock?)
      reads this`pages
    {
      forall i :: 0 <= i < |pages| ==>
        pages[i] in q || (fresh(pages[i]) && !pages[i].fixed && b != null && b.page == pages[i])
    }

    // each page but these holds an allocated block
    ghost predicate PagesEarned(q: seq<PageBlock>)
      reads this`pages, used`links
    { forall p <- pages :: p in q || (!p.fixed && exists b <- used.links :: b.page == p) }

    // b is the first block of a page block made of the new pages
    ghost predicate IsNew(b: MemBlock, newPages: Option<nat>) {
      newPages.Some? && b.page.base == newPages.value && b.page.size == scale && b.addr == b.page.base + PAGE_HEADER
    }

    // the smallest free block that is large enough, or else the only block of a new page
    method Obtain(want: nat, newPages: Option<nat>) returns (b: MemBlock?)
      requires Valid() && (newPages.Some? ==> FreshPages(newPages.value))
      modifies this`pageList, this`pages, this`cells, empty, cells.Keys, pages
      ensures SameSizes(old(cells.Keys))
      ensures b == null <==> NoneFits(old(empty.links.Keys), want) && (prealloc || newPages.None?)
      ensures b == null ==> Valid() && pages == old(pages)
      ensures empty.links.Keys == old(empty.links.Keys) - Only(b)
      ensures fresh(cells.Keys - old(cells.Keys)) && NewPages(old(pages), b)
      ensures b != null ==> Core({b}) && Books(used.links.Keys) && Lone(b)
      ensures b != null ==>
                if NoneFits(old(empty.links.Keys), want)
                then IsNew(b, newPages) && fresh(b) && b.size == scale - PAGE_HEADER && fresh(b.page)
                else b in old(empty.links) && BestOf(b, old(empty.links.Keys), want) && pages == old(pages)
    {
      hide Core, Books;
      Keys({});
      b := TakeFree(want);
      if b == null {
        if prealloc || newPages.None? {
          return;
        }
        b := AddPage(newPages.value);
        assert b !in empty.links;
      }
    }

    static ghost predicate NoneFits(free: set<MemBlock>, want: nat)
      reads free`size
    { forall c <- free :: c.size < want }

    static ghost predicate BestOf(b: MemBlock, free: set<MemBlock>, want: nat)
      reads free`size, b`size
    { b.size >= want && forall c <- free :: c.size >= want ==> b.size <= c.size }

    // a block of at least want bytes with its header
    method Serve(want: nat, newPages: Option<nat>) returns (b: MemBlock?, ghost rest: MemBlock?)
      requires Valid() && want % 8 == 0 && BLOCK_HEADER <= want <= scale
      requires newPages.Some? ==> FreshPages(newPages.value)
      modifies this`pageList, this`pages, this`cells, used, empty, cells.Keys, pages
      ensures Valid() && SameSizes(old(used.links.Keys + empty.links.Keys) - Only(b))
      ensures fresh(cells.Keys - old(cells.Keys)) && NewPages(old(pages), b)
      ensures b == null <==> (old(NoneFits(empty.links.Keys, want)) && (prealloc || newPages.None?))
      ensures b == null ==> used.links.Keys == old(used.links.Keys) && pages == old(pages) && rest == null
      ensures empty.links.Keys == old(empty.links.Keys) - Only(b) + Only(rest) && (rest != null ==> fresh(rest))
      ensures b != null ==> b !in old(used.links) && used.links.Keys == old(used.links.Keys) + {b}
      ensures b != null ==>
                if old(NoneFits(empty.links.Keys, want))
                then
                  fresh(b) && fresh(b.page) && IsNew(b, newPages) && Cut(b, scale - PAGE_HEADER, want, rest)
                else
                  old(b in empty.links && BestOf(b, empty.links.Keys, want)) && Cut(b, old(b.size), want, rest)
    {
      hide Core, Books, NoneFits, BestOf, Cut, FreshPages, IsNew;
      rest := null;
      Keys({});
      b := Obtain(want, newPages);
      if b != null {
        Keys({b});
        Look(b, {b});
        rest := Allot(b, want);
      }
    }

    /** core_mm_heap_alloc: the smallest free block that is large enough, or else a new page block; what is too much is
        cut off and stays free. */
    method Alloc(size: nat, newPages: Option<nat>) returns (b: MemBlock?, ghost rest: MemBlock?)
      requires Valid() && NoWrap(size) && (newPages.Some? ==> FreshPages(newPages.value))
      modifies this`pageList, this`pages, this`cells, this`log, used, empty, cells.Keys, pages
      ensures Valid() && SameSizes(old(used.links.Keys + empty.links.Keys) - Only(b))
      ensures fresh(cells.Keys - old(cells.Keys)) && NewPages(old(pages), b)
      ensures log == old(log) + [if b == null then Refused(size) else Handed(size, b)]
      ensures var want := RoundUp8(size) + BLOCK_HEADER;
              b == null <==>
                want > scale || (old(forall c <- empty.links :: c.size < want) && (prealloc || newPages.None?))
      ensures b == null ==> used.links.Keys == old(used.links.Keys) && pages == old(pages)
      ensures b != null ==> b !in old(used.links) && used.links.Keys == old(used.links.Keys) + {b}
      ensures empty.links.Keys == old(empty.links.Keys) - Only(b) + Only(rest) && (b == null ==> rest == null)
      ensures b != null && rest != null ==>
                && fresh(rest) && rest.page == b.page && rest.addr == b.addr + b.size
                && b.size == RoundUp8(size) + BLOCK_HEADER
      ensures b != null && b !in old(empty.links) ==>
                && old(forall c <- empty.links :: c.size < RoundUp8(size) + BLOCK_HEADER)
                && fresh(b) && fresh(b.page) && b.page.base == newPages.value && b.page.size == scale
                && b.addr == b.page.base + PAGE_HEADER
                && (rest == null ==>
                      b.size == scale - PAGE_HEADER <= RoundUp8(size) + BLOCK_HEADER + BLOCK_HEADER + 8)
                && (rest != null ==>
                      b.size + rest.size == scale - PAGE_HEADER > RoundUp8(size) + BLOCK_HEADER + BLOCK_HEADER + 8)
      ensures b != null && b in old(empty.links) ==>
                && old(b.size) >= RoundUp8(size) + BLOCK_HEADER
                && (forall c <- old(empty.links) :: old(c.size) >= RoundUp8(size) + BLOCK_HEADER ==>
                      old(b.size) <= old(c.size))
                && (rest == null ==> b.size == old(b.size) <= RoundUp8(size) + BLOCK_HEADER + BLOCK_HEADER + 8)
                && (rest != null ==>
                      b.size + rest.size == old(b.size) > RoundUp8(size) + BLOCK_HEADER + BLOCK_HEADER + 8)
    {
      hide Core, Books, Valid;
      rest := null;
      var rounded := RoundUp8(size);
      if rounded + BLOCK_HEADER > scale {
        log := log + [Refused(size)];
        return null, rest;
      }
      b, rest := Serve(rounded + BLOCK_HEADER, newPages);
      log := log + [if b == null then Refused(size) else Handed(size, b)];
    }

    /** The payload is as large as asked for, unless it comes from a new page block whose two headers leave too little.
        */
    lemma LargeEnough(size: nat, had: nat, got: nat)
      requires ScaleOk(scale) && RoundUp8(size) + BLOCK_HEADER <= scale
      requires got == had || got == RoundUp8(size) + BLOCK_HEADER <= had
      ensures had >= RoundUp8(size) + BLOCK_HEADER ==> got - BLOCK_HEADER >= size
      ensures had == scale - PAGE_HEADER ==>
                (got - BLOCK_HEADER >= size <==> size + BLOCK_HEADER + PAGE_HEADER <= scale)
    {}

    // ---- joining neighbours

    // a grows over its neighbour b
    method Swallow(a: MemBlock, b: MemBlock)
      requires a != b && b.next != a && b.next != b
      modifies a`size, a`next, (if b.next == null then {} else {b.next})`prev
      ensures a.size == old(a.size) + b.size && a.next == b.next
      ensures b.next != null ==> b.next.prev == a
    {
      a.size := a.size + b.size;
      a.next := b.next;
      if b.next != null {
        b.next.prev := a;
      }
    }

    // a stands for its page from now on
    ghost method StandFor(a: MemBlock, limbo: set<MemBlock>)
      requires Core(limbo) && a in cells
      modifies a.page`first
      ensures Core(limbo) && a.page.first == a
    {
      assert Homed(a, pages) && Begins(a.page, cells);
      a.page.first := a;
      assert TreesOk(limbo);
      assert HomesOk() by {
        forall o | o in pages && o != a.page ensures Begins(o, cells) { assert old(Begins(o, cells)); }
      }
    }

    method JoinCells(a: MemBlock, b: MemBlock)
      requires CellsHold() && Joinable(cells, a, b)
      modifies this`cells, a`size, a`next, (if b.next == null then {} else {b.next})`prev
      ensures CellsHold() && cells == Join(old(cells), a, b) && a.size == old(a.size) + old(b.size)
    {
      ghost var m := cells;
      assert CellHolds(a, m[a]) && CellHolds(b, m[b]) && CellOk(m, a) && CellOk(m, b);
      ghost var e := m[b].next;
      if e != null { assert CellOk(m, e) && CellHolds(e, m[e]); }
      Swallow(a, b);
      cells := Join(m, a, b);
      forall c | c in cells ensures CellHolds(c, cells[c]) {
        assert old(CellHolds(c, m[c])) && cells[c] == JoinCell(m, a, b, c);
      }
    }

    method JoinNext(a: MemBlock, b: MemBlock, ghost limbo: set<MemBlock>)
      requires Core(limbo) && a in limbo && b in limbo && a.next == b && a.page.first != b
      modifies this`cells, a`size, a`next, (if b.next == null then {} else {b.next})`prev
      ensures Core(limbo - {b}) && cells.Keys == old(cells.Keys) - {b}
      ensures a in cells && cells[a].prev == old(cells[a].prev) && cells[a].next == old(cells[b].next)
      ensures a.size == old(a.size) + old(b.size)
    {
      ghost var m := cells;
      assert CellHolds(a, m[a]) && CellOk(m, a) && CellOk(m, b);
      JoinCells(a, b);
      assert TreesOk(limbo - {b}) by { used.Untouched(); empty.Untouched(); }
      JoinKeeps(m, a, b);
    }

    // the facts about cells and homes after a join
    lemma JoinKeeps(m: Cells, a: MemBlock, b: MemBlock)
      requires Joinable(m, a, b) && cells == Join(m, a, b) && Spaced(m, empty.links.Keys) && a !in empty.links
          && b !in empty.links
      requires forall c {:trigger Homed(c, pages)} :: c in m ==> Homed(c, pages)
      requires forall p {:trigger Begins(p, m)} :: p in pages ==> Begins(p, m)
      requires a.page.first != b
      ensures Laid(cells) && Spaced(cells, empty.links.Keys) && HomesOk()
    {
      JoinLaid(m, a, b);
      JoinSpaced(m, empty.links.Keys, a, b);
      forall c | c in cells ensures Homed(c, pages) { assert Homed(c, pages); }
      forall o | o in pages ensures Begins(o, cells) { assert Begins(o, m); }
    }

    // a grows over its free neighbour b, which has left its tree
    method JoinFree(a: MemBlock, b: MemBlock, ghost limbo: set<MemBlock>)
      requires Core(limbo) && Books(used.links.Keys) && a in limbo && b in limbo && a.next == b
      modifies this`cells, a`size, a`next, (if b.next == null then {} else {b.next})`prev, a.page`first
      ensures Core(limbo - {b}) && Books(used.links.Keys) && cells.Keys == old(cells.Keys) - {b}
      ensures a in cells && cells[a].prev == old(cells[a].prev) && cells[a].next == old(cells[b].next)
    {
      assert CellOk(cells, a) && CellHolds(a, cells[a]);
      StandFor(a, limbo);
      JoinNext(a, b, limbo);
      assert FlagsOk(used.links.Keys) by {
        forall c | c in cells ensures Flagged(c, used.links.Keys) { assert old(Flagged(c, used.links.Keys)); }
      }
      assert RefsOk(used.links.Keys);
    }

    // the neighbour of a block in hand is marked free just when it is in the tree of free blocks
    lemma FreeFlag(b: MemBlock, c: MemBlock?)
      requires Core({b}) && Books(used.links.Keys) && (c == b.prev || c == b.next) && b in cells
      ensures CellHolds(b, cells[b]) && b.page in pages
      ensures c != null ==> c in cells && c != b && c.page in pages && (c.isAllocated <==> c !in empty.links)
      ensures c != null && c == b.prev ==> c.next == b && CellHolds(c, cells[c])
      ensures (b.next != null ==> b.next in cells) && (b.prev != null ==> b.prev in cells)
    {
      Look(b, {b});
      assert CellOk(cells, b);
      if c != null {
        assert CellOk(cells, c) && CellHolds(c, cells[c]) && Flagged(c, used.links.Keys) && Homed(c, pages);
      }
    }

    // of two neighbours a and b, the free one leaves its tree and the two become one
    method TakeIn(a: MemBlock, b: MemBlock, free: MemBlock, ghost hand: MemBlock)
      requires Core({hand}) && Books(used.links.Keys) && a in cells && b in cells && a.next == b && free in empty.links
      requires (hand == a && free == b) || (hand == b && free == a)
      modifies this`cells, empty`root, empty`links, a`size, a`next, Only(b.next)`prev, a.page`first
      modifies empty.links.Keys`parent, empty.links.Keys`left, empty.links.Keys`right, empty.links.Keys`color
      ensures Core({a}) && Books(used.links.Keys) && cells.Keys <= old(cells.Keys)
          && empty.links.Keys <= old(empty.links.Keys)
      ensures a in cells && cells[a].prev == old(cells[a].prev) && cells[a].next == old(cells[b].next)
    {
      hide Core, Books;
      TakeEmpty(free, {hand}, used.links.Keys);
      assert {hand} + {free} == {a, b};
      Keys({a, b});
      JoinFree(a, b, {a, b});
      assert {a, b} - {b} == {a};
    }

    // the preceding block takes b in if it is free; m is what b became part of
    method MergePrev(b: MemBlock) returns (m: MemBlock)
      requires Core({b}) && Books(used.links.Keys)
      modifies this`cells, empty`root, empty`links, Only(b.prev)`size, Only(b.prev)`next, Only(b.next)`prev, pages`first
      modifies empty.links.Keys`parent, empty.links.Keys`left, empty.links.Keys`right, empty.links.Keys`color
      ensures Core({m}) && Books(used.links.Keys) && m in cells && cells.Keys <= old(cells.Keys)
      ensures cells[m].prev != null ==> cells[m].prev !in empty.links
      ensures SameSizes(used.links.Keys)
    {
      var prev := b.prev;
      Keys({b});
      FreeFlag(b, prev);
      m := b;
      if prev != null && !prev.isAllocated {
        PrevFree(cells, empty.links.Keys, prev);
        hide Core, Books;
        TakeIn(prev, b, prev, b);
        m := prev;
      }
    }

    // the following block is taken in if it is free
    method MergeNext(m: MemBlock)
      requires Core({m}) && Books(used.links.Keys) && m in cells
      requires (cells[m].prev != null ==> cells[m].prev !in empty.links)
      modifies this`cells, empty`root, empty`links, m`size, m`next, cells.Keys`prev, pages`first
      modifies empty.links.Keys`parent, empty.links.Keys`left, empty.links.Keys`right, empty.links.Keys`color
      ensures Core({m}) && Books(used.links.Keys) && cells.Keys <= old(cells.Keys) && Lone(m)
    {
      var next := m.next;
      Keys({m});
      FreeFlag(m, next);
      if next != null && !next.isAllocated {
        NextFree(cells, empty.links.Keys, next);
        Look(next, {m});
        hide Core, Books;
        TakeIn(m, next, next, m);
      }
    }

    lemma RefZero(b: MemBlock, limbo: set<MemBlock>)
      requires Core(limbo) && Books(used.links.Keys) && b in cells
      ensures b.page.ref == 0 <==> LiveOn(b.page, used.links.Keys) == {}
    {
      assert Homed(b, pages) && RefOk(b.page, used.links.Keys);
    }

    // b and its free neighbours become one block, still in hand
    method MergeBoth(b: MemBlock) returns (m: MemBlock)
      requires Core({b}) && Books(used.links.Keys)
      modifies this`cells, empty, cells.Keys, pages`first
      ensures Core({m}) && Books(used.links.Keys) && Lone(m)
      ensures SameSizes(used.links.Keys) && cells.Keys <= old(cells.Keys)
    {
      hide Core, Books;
      Keys({b});
      Look(b, {b});
      m := MergePrev(b);
      Keys({m});
      assert SameSizes(used.links.Keys) && m !in used.links;
      MergeNext(m);
    }

    method Merge(b: MemBlock)
      requires Core({b}) && Books(used.links.Keys)
      modifies this`cells, empty, cells.Keys, pages`first
      ensures Valid() && SameSizes(used.links.Keys) && cells.Keys <= old(cells.Keys)
    {
      hide Core, Books;
      Keys({b});
      var m := MergeBoth(b);
      Keys({m});
      PutEmpty(m, {m}, used.links.Keys);
      assert {m} - {m} == {};
    }

    // b's page goes if b was the last allocated block on it, and its neighbours take b in otherwise
    method Settle(b: MemBlock)
      requires Core({b}) && Books(used.links.Keys)
      modifies this`pageList, this`pages, this`cells, empty, cells.Keys, pages
      ensures Valid() && SameSizes(used.links.Keys) && cells.Keys <= old(cells.Keys)
      ensures if b.page.fixed || LiveOn(b.page, used.links.Keys) != {} then pages == old(pages)
              else Without(old(pages), pages, b.page) && forall c <- cells :: c.page != b.page
    {
      hide Core, Books;
      Keys({b});
      Look(b, {b});
      RefZero(b, {b});
      if b.page.ref == 0 && !b.page.fixed {
        DropPage(b);
      } else {
        Merge(b);
      }
    }

    // b is no longer allocated, and not yet anything else
    method Retire(b: MemBlock)
      requires Valid() && b in used.links
      modifies used`root, used`links, b`isAllocated, b.page`ref
      modifies used.links.Keys`parent, used.links.Keys`left, used.links.Keys`right, used.links.Keys`color
      ensures Core({b}) && Books(used.links.Keys) && used.links.Keys == old(used.links.Keys) - {b}
    {
      hide Core, Books;
      ghost var live := used.links.Keys;
      Keys({});
      TakeUsed(b, {}, live);
      assert {} + {b} == {b};
      Keys({b});
      Look(b, {b});
      MarkFree(b, {b}, live);
    }

    /** core_mm_heap_free: b leaves the allocated blocks and no other is affected; the page goes with its last one. */
    method Free(b: MemBlock)
      requires Valid() && b in used.links
      modifies this`pageList, this`pages, this`cells, this`log, used, empty, cells.Keys, pages
      ensures Valid() && used.links.Keys == old(used.links.Keys) - {b}
      ensures SameSizes(used.links.Keys) && cells.Keys <= old(cells.Keys) && log == old(log) + [Returned(b)]
      ensures if b.page.fixed || LiveOn(b.page, used.links.Keys) != {} then pages == old(pages)
              else Without(old(pages), pages, b.page) && forall c <- cells :: c.page != b.page
      ensures b.page in pages <==> b.page.fixed || exists c <- used.links :: c.page == b.page
      ensures forall p :: p != b.page ==> (p in pages <==> p in old(pages))
    {
      hide Core, Books;
      Keys({});
      Look(b, {});
      Retire(b);
      Keys({b});
      Look(b, {b});
      Settle(b);
      log := log + [Returned(b)];
    }

    // ---- releasing a page

    static ghost predicate Without(q: seq<PageBlock>, r: seq<PageBlock>, p: PageBlock) {
      p !in r && (forall o <- q :: o == p || o in r) && (forall o <- r :: o in q)
    }

    method UnlinkPage(p: PageBlock)
      requires PagesOk() && p in pages
      modifies this`pageList, this`pages, pages`prev, pages`next
      ensures Without(old(pages), pages, p)
      ensures PagesOk()
    {
      ghost var q := pages;
      ghost var k: nat :| k < |pages| && pages[k] == p;
      assert LinkOk(q, k);
      if p.prev != null {
        assert LinkOk(q, k - 1);
        p.prev.next := p.next;
      }
      if p.next != null {
        assert old(LinkOk(q, k + 1));
        p.next.prev := p.prev;
      }
      if p.prev == null {
        pageList := p.next;
      }
      pages := q[..k] + q[k + 1..];
      Unlisted(q, k);
      forall i: nat | i < |pages| ensures LinkOk(pages, i) {
        var o: nat := if i < k then i else i + 1;
        assert old(LinkOk(q, o)) && Apart2(q, o, k);
        if k > 0 { assert Apart2(q, o, k - 1); }
        if k + 1 < |q| { assert Apart2(q, o, k + 1); }
      }
    }

    // with no live block left on b's page, only b and its neighbours can be there
    lemma PageFree(b: MemBlock)
      requires Core({b}) && Books(used.links.Keys) && b.page.ref == 0
      ensures b.page in pages && CellHolds(b, cells[b])
      ensures b.prev != null ==> b.prev in empty.links
      ensures b.next != null ==> b.next in empty.links && b.next != b.prev
      ensures forall c :: c in cells && c.page == b.page ==> c == b || c == b.prev || c == b.next
      ensures forall c <- Only(b.prev) + Only(b.next) :: c in cells && c.page == b.page
    {
      Look(b, {b});
      assert RefOk(b.page, used.links.Keys);
      assert LiveOn(b.page, used.links.Keys) == {};
      forall c | c in cells && c.page == b.page && c != b ensures c in empty.links {
        assert c !in LiveOn(b.page, used.links.Keys);
      }
      forall c | c in cells && c.page == b.page ensures c == b || c == b.prev || c == b.next {
        if c != b { OnlyNeighbours(cells, empty.links.Keys, b, c); }
      }
      assert CellOk(cells, b);
      if b.prev != null { assert CellOk(cells, b.prev); }
    }

    // the free blocks beside b leave the tree, and with them every node of the page
    method Purge(b: MemBlock) returns (ghost limbo: set<MemBlock>)
      requires Core({b}) && Books(used.links.Keys) && b.page.ref == 0
      modifies empty`root, empty`links
      modifies empty.links.Keys`parent, empty.links.Keys`left, empty.links.Keys`right, empty.links.Keys`color
      ensures Core(limbo) && Books(used.links.Keys) && b.page in pages
      ensures limbo == set c | c in cells && c.page == b.page
    {
      hide Core, Books;
      PageFree(b);
      Keys({b});
      limbo := {b};
      if b.prev != null {
        TakeEmpty(b.prev, limbo, used.links.Keys);
        limbo := limbo + {b.prev};
      }
      if b.next != null {
        TakeEmpty(b.next, limbo, used.links.Keys);
        limbo := limbo + {b.next};
      }
    }

    method DropPage(b: MemBlock)
      requires Core({b}) && Books(used.links.Keys) && b.page.ref == 0
      modifies this`cells, this`pages, this`pageList, pages`prev, pages`next, empty`root, empty`links
      modifies empty.links.Keys`parent, empty.links.Keys`left, empty.links.Keys`right, empty.links.Keys`color
      ensures Valid() && Without(old(pages), pages, b.page)
      ensures cells.Keys == set c | c in old(cells) && c.page != b.page
    {
      ghost var limbo := Purge(b);
      ghost var q := pages;
      Unlist(b.page, limbo);
      Forget(b.page, q, limbo);
    }

    // p is off the page list, but its blocks are still in the books
    ghost predicate Leaving(p: PageBlock, q: seq<PageBlock>, limbo: set<MemBlock>)
      reads this, pages, q, cells.Keys, used, empty, used.links.Keys, empty.links.Keys
    {
      && TreesOk(limbo) && CellsHold() && PagesOk() && Without(q, pages, p)
      && FlagsOk(used.links.Keys) && RefsOk(used.links.Keys)
      && (forall c {:trigger Homed(c, q)} :: c in cells ==> Homed(c, q))
      && (forall o {:trigger Begins(o, cells)} :: o in q ==> Begins(o, cells))
      && Laid(cells) && Spaced(cells, empty.links.Keys) && ScaleOk(scale)
    }

    method Unlist(p: PageBlock, ghost limbo: set<MemBlock>)
      requires Core(limbo) && Books(used.links.Keys) && p in pages
      modifies this`pages, this`pageList, pages`prev, pages`next
      ensures Leaving(p, old(pages), limbo)
    {
      ghost var q := pages;
      UnlinkPage(p);
      assert TreesOk(limbo) && CellsHold() && FlagsOk(used.links.Keys);
      assert RefsOk(used.links.Keys) by {
        forall o | o in pages ensures RefOk(o, used.links.Keys) { assert old(RefOk(o, used.links.Keys)); }
      }
      forall o | o in q ensures Begins(o, cells) { assert old(Begins(o, cells)); }
    }

    ghost method Forget(p: PageBlock, q: seq<PageBlock>, limbo: set<MemBlock>)
      requires Leaving(p, q, limbo) && limbo == set c | c in cells && c.page == p
      modifies this`cells
      ensures Valid() && cells == Off(old(cells), p)
    {
      ghost var m := cells;
      cells := Off(m, p);
      assert TreesOk({});
      OffLaid(m, empty.links.Keys, p);
      OffKeeps(m, q, p);
      assert FlagsOk(used.links.Keys) && RefsOk(used.links.Keys) by {
        forall c | c in cells ensures Flagged(c, used.links.Keys) { assert old(Flagged(c, used.links.Keys)); }
      }
    }

    // what the page's departure leaves as it was
    lemma OffKeeps(m: Cells, q: seq<PageBlock>, p: PageBlock)
      requires cells == Off(m, p) && Without(q, pages, p)
      requires forall c {:trigger CellHolds(c, m[c])} :: c in m ==> CellHolds(c, m[c])
      requires forall c {:trigger Homed(c, q)} :: c in m ==> Homed(c, q)
      requires forall o {:trigger Begins(o, m)} :: o in q ==> Begins(o, m)
      ensures CellsHold() && HomesOk()
    {
      forall c | c in cells ensures CellHolds(c, cells[c]) { assert CellHolds(c, m[c]); }
      forall c | c in cells ensures Homed(c, pages) { assert Homed(c, q); }
      forall o | o in pages ensures Begins(o, cells) { assert Begins(o, m); }
    }

    static lemma Unlisted(q: seq<PageBlock>, k: nat)
      requires k < |q| && Separate(q)
      ensures Without(q, q[..k] + q[k + 1..], q[k]) && Separate(q[..k] + q[k + 1..])
    {
      var r := q[..k] + q[k + 1..];
      forall i: nat, j: nat | i < |r| && j < |r| ensures Apart2(r, i, j) {
        assert Apart2(q, if i < k then i else i + 1, if j < k then j else j + 1);
      }
      forall i: nat | i < |r| ensures r[i] != q[k] { assert Apart2(q, if i < k then i else i + 1, k); }
      forall i: nat | i < |q| && i != k ensures q[i] in r { assert r[if i < k then i else i - 1] == q[i]; }
    }

    // ---- any sequence of requests

    // whether the pages at base are fit to be taken in, found out by walking the page list
    method AreFreshPages(base: nat) returns (ok: bool)
      requires Valid()
      ensures ok <==> FreshPages(base)
    {
      ok := base % 8 == 0;
      var node := pageList;
      ghost var i := 0;
      assert pages != [] ==> LinkOk(pages, 0);
      while node != null
        invariant i <= |pages| && node == (if i < |pages| then pages[i] else null) && (i < |pages| ==> LinkOk(pages, i))
        invariant ok <==>
                  && base % 8 == 0
                  && forall k :: 0 <= k < i ==> base + scale <= pages[k].base || pages[k].base + pages[k].size <= base
        decreases |pages| - i
      {
        if !(base + scale <= node.base || node.base + node.size <= base) {
          ok := false;
        }
        assert i + 1 < |pages| ==> LinkOk(pages, i + 1);
        node := node.next;
        i := i + 1;
      }
    }

    /** Whatever is asked for in whatever order, the heap stays valid, and its allocated blocks are exactly those that
        the calls have handed out and the requests not given back. Sizes whose sum wraps are not asked for, and pages
        that are not fresh count as none. */
    method Requests(requests: seq<Request>) returns (live: seq<MemBlock>)
      requires Valid() && used.links == map[]
      modifies this`pageList, this`pages, this`cells, this`log, used, empty, cells.Keys, pages
      ensures Valid() && AreLive(live) && PagesEarned(old(pages))
      ensures old(log) <= log && Leaves(requests, log[|old(log)|..], old(pages), [], live)
    {
      live := [];
      for n := 0 to |requests|
        invariant Valid() && AreLive(live) && PagesEarned(old(pages))
        invariant old(log) <= log && Leaves(requests[..n], log[|old(log)|..], old(pages), [], live)
        invariant forall c <- cells.Keys :: c in old(cells.Keys) || fresh(c)
        invariant forall i :: 0 <= i < |pages| ==> pages[i] in old(pages) || fresh(pages[i])
      {
        ghost var before, was := log[|old(log)|..], live;
        live := Request(requests[n], live, old(pages));
        forall i | 0 <= i < |pages| ensures pages[i] in old(pages) || fresh(pages[i]) { assert pages[i] in pages; }
        LeavesMore(requests[..n], requests[n], before, log[|old(log)| + |before|..], old(pages), [], was, live);
        assert requests[..n + 1] == requests[..n] + [requests[n]];
        assert log[|old(log)|..] == before + log[|old(log)| + |before|..];
      }
      assert requests[..|requests|] == requests;
    }

    // whether a request leads to a call
    static predicate Calls(request: Request, live: seq<MemBlock>) {
      match request
      case Allocate(size, _) => NoWrap(size)
      case Release(k) => k < |live|
    }

    // pages apart from these and from those of the blocks held
    ghost predicate Fit(base: nat, q: seq<PageBlock>, live: seq<MemBlock>) {
      base % 8 == 0 && (forall p <- q :: AwayFrom(base, p)) && forall b <- live :: AwayFrom(base, b.page)
    }

    ghost predicate AwayFrom(base: nat, p: PageBlock) { base + scale <= p.base || p.base + p.size <= base }

    // what can come of the request: nothing that fits is refused a new page, and the block named is the one returned
    ghost predicate Answers(request: Request, outcome: Outcome, q: seq<PageBlock>, live: seq<MemBlock>)
      requires Calls(request, live)
    {
      match request
      case Allocate(size, newPages) =>
        match outcome {
          case Handed(n, b) => n == size && RoundUp8(size) + BLOCK_HEADER <= scale && b !in live
          case Refused(n) =>
            && n == size
            && (RoundUp8(size) + BLOCK_HEADER > scale || prealloc || newPages.None? || !Fit(newPages.value, q, live))
          case Returned(_) => false
        }
      case Release(k) => outcome == Returned(live[k])
    }

    static function After(request: Request, outcome: Outcome, live: seq<MemBlock>): seq<MemBlock>
      requires Calls(request, live)
    {
      match request
      case Allocate(_, _) => if outcome.Handed? then live + [outcome.block] else live
      case Release(k) => live[..k] + live[k + 1..]
    }

    // the requests with these outcomes turn the blocks held from live into live'
    ghost predicate Leaves(requests: seq<Request>, log: seq<Outcome>, q: seq<PageBlock>, live: seq<MemBlock>,
        live': seq<MemBlock>)
    {
      if requests == [] then log == [] && live' == live
      else if !Calls(requests[0], live) then Leaves(requests[1..], log, q, live, live')
      else
        && log != [] && Answers(requests[0], log[0], q, live)
        && Leaves(requests[1..], log[1..], q, After(requests[0], log[0], live), live')
    }

    lemma {:induction false} LeavesMore(requests: seq<Request>, request: Request, log: seq<Outcome>,
        more: seq<Outcome>, q: seq<PageBlock>, live: seq<MemBlock>, mid: seq<MemBlock>, live': seq<MemBlock>)
      requires Leaves(requests, log, q, live, mid) && Leaves([request], more, q, mid, live')
      ensures Leaves(requests + [request], log + more, q, live, live')
    {
      if requests == [] {
        assert [] + [request] == [request] && [] + more == more;
      } else {
        assert (requests + [request])[1..] == requests[1..] + [request];
        if Calls(requests[0], live) {
          assert (log + more)[1..] == log[1..] + more;
          LeavesMore(requests[1..], request, log[1..], more, q, After(requests[0], log[0], live), mid, live');
        } else {
          LeavesMore(requests[1..], request, log, more, q, live, mid, live');
        }
      }
    }

    // each allocated block once
    ghost predicate AreLive(live: seq<MemBlock>)
      reads used`links
    { Lists(live, used.links.Keys) }

    static ghost predicate Lists(live: seq<MemBlock>, s: set<MemBlock>) {
      && (forall b <- s :: b in live) && (forall b <- live :: b in s)
      && (forall i, j :: 0 <= i < j < |live| ==> live[i] != live[j])
    }

    // an allocation, with the pages on offer if they are fit to be taken in
    method Ask(size: nat, newPages: Option<nat>, ghost live: seq<MemBlock>, ghost q: seq<PageBlock>)
      returns (b: MemBlock?)
      requires Valid() && NoWrap(size) && PagesEarned(q) && AreLive(live)
      modifies this`pageList, this`pages, this`cells, this`log, used, empty, cells.Keys, pages
      ensures Valid() && PagesEarned(q) && fresh(cells.Keys - old(cells.Keys))
      ensures forall i :: 0 <= i < |pages| ==> pages[i] in old(pages) || fresh(pages[i])
      ensures used.links.Keys == old(used.links.Keys) + Only(b) && b !in old(used.links)
      ensures log == old(log) + [if b == null then Refused(size) else Handed(size, b)]
      ensures if b != null then RoundUp8(size) + BLOCK_HEADER <= scale
              else RoundUp8(size) + BLOCK_HEADER > scale || prealloc || newPages.None? || !Fit(newPages.value, q, live)
    {
      hide Valid;
      var ok := newPages.Some?;
      if ok {
        ok := AreFreshPages(newPages.value);
        if !ok { NotFit(newPages.value, live, q); }
      }
      var b', _ := Alloc(size, if ok then newPages else None);
      b := b';
    }

    lemma NotFit(base: nat, live: seq<MemBlock>, q: seq<PageBlock>)
      requires AreLive(live) && PagesEarned(q) && !FreshPages(base)
      ensures !Fit(base, q, live)
    {
      if base % 8 == 0 {
        var p :| p in pages && !AwayFrom(base, p);
        if p !in q {
          var b :| b in used.links && b.page == p;
          assert b in live;
        }
      }
    }

    method Drop(b: MemBlock, ghost q: seq<PageBlock>)
      requires Valid() && b in used.links && PagesEarned(q)
      modifies this`pageList, this`pages, this`cells, this`log, used, empty, cells.Keys, pages
      ensures Valid() && PagesEarned(q) && cells.Keys <= old(cells.Keys) && forall p <- pages :: p in old(pages)
      ensures used.links.Keys == old(used.links.Keys) - {b} && log == old(log) + [Returned(b)]
    {
      hide Valid;
      Free(b);
      forall p | p in pages && p !in q ensures !p.fixed && exists c <- used.links :: c.page == p {
        assert b.page == p ==> LiveOn(p, used.links.Keys) != {};
        assert b.page != p ==> exists c <- old(used.links) :: c.page == p && c != b;
      }
    }

    method Request(request: Request, live: seq<MemBlock>, ghost q: seq<PageBlock>) returns (live': seq<MemBlock>)
      requires Valid() && AreLive(live) && PagesEarned(q)
      modifies this`pageList, this`pages, this`cells, this`log, used, empty, cells.Keys, pages
      ensures Valid() && AreLive(live') && PagesEarned(q) && fresh(cells.Keys - old(cells.Keys))
      ensures forall i :: 0 <= i < |pages| ==> pages[i] in old(pages) || fresh(pages[i])
      ensures old(log) <= log && Leaves([request], log[|old(log)|..], q, live, live')
    {
      hide Valid, Leaves, Fit, PagesEarned, Lists;
      live' := live;
      ghost var s := used.links.Keys;
      match request {
        case Allocate(size, newPages) =>
          if NoWrap(size) {
            var b := Ask(size, newPages, live, q);
            assert s + {} == s;
            if b != null {
              live' := live + [b];
              ListMore(live, s, b);
            }
          }
        case Release(k) =>
          if k < |live| {
            ListLess(live, s, k);
            Drop(live[k], q);
            live' := live[..k] + live[k + 1..];
          }
      }
      LeavesOne(request, log[|old(log)|..], q, live, live');
    }

    lemma LeavesOne(request: Request, log: seq<Outcome>, q: seq<PageBlock>, live: seq<MemBlock>, live': seq<MemBlock>)
      ensures Leaves([request], log, q, live, live') <==>
                if Calls(request, live)
                then |log| == 1 && Answers(request, log[0], q, live) && live' == After(request, log[0], live)
                else log == [] && live' == live
    {}

    /** What a run of requests leaves is what its last request makes of what the others leave. */
    lemma {:induction false} LeavesLast(requests: seq<Request>, request: Request, log: seq<Outcome>, q: seq<PageBlock>,
        live: seq<MemBlock>, live': seq<MemBlock>) returns (k: nat, mid: seq<MemBlock>)
      requires Leaves(requests + [request], log, q, live, live')
      ensures k <= |log| && Leaves(requests, log[..k], q, live, mid) && Leaves([request], log[k..], q, mid, live')
    {
      if requests == [] {
        k, mid := 0, live;
        assert [] + [request] == [request] && log[0..] == log;
      } else {
        assert (requests + [request])[1..] == requests[1..] + [request];
        if Calls(requests[0], live) {
          k, mid := LeavesLast(requests[1..], request, log[1..], q, After(requests[0], log[0], live), live');
          k := k + 1;
          assert log[..k][1..] == log[1..][..k - 1] && log[k..] == log[1..][k - 1..];
        } else {
          k, mid := LeavesLast(requests[1..], request, log, q, live, live');
        }
      }
    }

    static lemma ListMore(live: seq<MemBlock>, s: set<MemBlock>, b: MemBlock)
      requires Lists(live, s) && b !in s
      ensures Lists(live + [b], s + {b}) && b !in live
    {}

    static lemma ListLess(live: seq<MemBlock>, s: set<MemBlock>, k: nat)
      requires Lists(live, s) && k < |live|
      ensures live[k] in s && Lists(live[..k] + live[k + 1..], s - {live[k]})
    {
      var r := live[..k] + live[k + 1..];
      forall i | 0 <= i < |live| && i != k ensures live[i] in r { assert r[if i < k then i else i - 1] == live[i]; }
    }
  }

  datatype Outcome =
    | Handed(size: nat, block: MemBlock) | Refused(size: nat) | Returned(block: MemBlock)
  datatype Request = Allocate(size: nat, newPages: Option<nat>) | Release(which: nat)
}
