/** The address-ordered block lists, as a map from blocks to their list links. */
module HeapLayout {
  import opened Blocks

  datatype Cell = Cell(size: nat, prev: MemBlock?, next: MemBlock?)
  type Cells = map<MemBlock, Cell>

  ghost predicate CellOk(m: Cells, b: MemBlock)
    requires b in m
  {
    var k, p := m[b], b.page;
    && k.size >= BLOCK_HEADER && b.addr % 8 == 0
    && p.base + PAGE_HEADER <= b.addr && b.addr + k.size <= p.base + p.size
    && (if k.prev == null then b.addr == p.base + PAGE_HEADER else k.prev in m && m[k.prev].next == b)
    && (if k.next == null then b.addr + k.size == p.base + p.size
        else k.next in m && m[k.next].prev == b && k.next.page == p && k.next.addr == b.addr + k.size)
  }

  ghost predicate Clear(m: Cells, b: MemBlock, c: MemBlock)
    requires b in m && c in m
  {
    b.page == c.page && b != c ==> b.addr + m[b].size <= c.addr || c.addr + m[c].size <= b.addr
  }

  ghost predicate Laid(m: Cells) {
    && (forall b {:trigger CellOk(m, b)} :: b in m ==> CellOk(m, b))
    && (forall b, c {:trigger Clear(m, b, c)} :: b in m && c in m ==> Clear(m, b, c))
  }

  // no two neighbours are free
  ghost predicate SpacedAt(m: Cells, free: set<MemBlock>, b: MemBlock)
    requires b in m
  { b in free && m[b].next != null ==> m[b].next !in free }

  ghost predicate Spaced(m: Cells, free: set<MemBlock>) {
    forall b {:trigger SpacedAt(m, free, b)} :: b in m ==> SpacedAt(m, free, b)
  }

  // ---- splitting b, of which s bytes remain; n is the rest

  function SplitCell(m: Cells, b: MemBlock, n: MemBlock, s: nat, c: MemBlock): Cell
    requires b in m && s <= m[b].size && (c in m || c == n)
  {
    if c == b then m[b].(size := s, next := n)
    else if c == n then Cell(m[b].size - s, b, m[b].next)
    else if c == m[b].next then m[c].(prev := n)
    else m[c]
  }

  function Split(m: Cells, b: MemBlock, n: MemBlock, s: nat): Cells
    requires b in m && s <= m[b].size
  {
    map c | c in m.Keys + {n} :: SplitCell(m, b, n, s, c)
  }

  ghost predicate Splittable(m: Cells, b: MemBlock, n: MemBlock, s: nat) {
    && Laid(m) && b in m && n !in m && CellOk(m, b)
    && BLOCK_HEADER <= s && s % 8 == 0 && s + BLOCK_HEADER <= m[b].size
    && n.page == b.page && n.addr == b.addr + s
  }

  lemma SplitCellOk(m: Cells, b: MemBlock, n: MemBlock, s: nat, c: MemBlock)
    requires Splittable(m, b, n, s) && (c in m || c == n)
    ensures CellOk(Split(m, b, n, s), c)
  {
    if c != n { assert CellOk(m, c); }
    var e := m[b].next;
    if e != null { assert CellOk(m, e); }
  }

  lemma SplitClear(m: Cells, b: MemBlock, n: MemBlock, s: nat, c: MemBlock, d: MemBlock)
    requires Splittable(m, b, n, s) && (c in m || c == n) && (d in m || d == n)
    ensures Clear(Split(m, b, n, s), c, d)
  {
    assert Clear(m, if c == n then b else c, if d == n then b else d);
  }

  lemma SplitLaid(m: Cells, b: MemBlock, n: MemBlock, s: nat)
    requires Splittable(m, b, n, s)
    ensures Laid(Split(m, b, n, s))
  {
    var m' := Split(m, b, n, s);
    forall c | c in m' ensures CellOk(m', c) { SplitCellOk(m, b, n, s, c); }
    forall c, d | c in m' && d in m' ensures Clear(m', c, d) { SplitClear(m, b, n, s, c, d); }
  }

  lemma SplitSpaced(m: Cells, free: set<MemBlock>, b: MemBlock, n: MemBlock, s: nat)
    requires Splittable(m, b, n, s) && Spaced(m, free) && b !in free
    requires (m[b].next != null ==> m[b].next !in free) && n !in free
    ensures Spaced(Split(m, b, n, s), free + {n})
  {
    var m' := Split(m, b, n, s);
    forall c | c in m' ensures SpacedAt(m', free + {n}, c) {
      if c != n { assert SpacedAt(m, free, c) && CellOk(m, c); }
    }
  }

  // ---- joining a with the block b that follows it

  function JoinCell(m: Cells, a: MemBlock, b: MemBlock, c: MemBlock): Cell
    requires a in m && b in m && c in m
  {
    if c == a then Cell(m[a].size + m[b].size, m[a].prev, m[b].next)
    else if c == m[b].next then m[c].(prev := a)
    else m[c]
  }

  function Join(m: Cells, a: MemBlock, b: MemBlock): Cells
    requires a in m && b in m
  {
    map c | c in m && c != b :: JoinCell(m, a, b, c)
  }

  ghost predicate Joinable(m: Cells, a: MemBlock, b: MemBlock) {
    Laid(m) && a in m && b in m && m[a].next == b && CellOk(m, a) && CellOk(m, b)
  }

  lemma JoinCellOk(m: Cells, a: MemBlock, b: MemBlock, c: MemBlock)
    requires Joinable(m, a, b) && c in m && c != b
    ensures CellOk(Join(m, a, b), c)
  {
    assert CellOk(m, c);
    if m[b].next != null { assert CellOk(m, m[b].next); }
    if m[c].prev != null { assert CellOk(m, m[c].prev); }
  }

  lemma JoinLaid(m: Cells, a: MemBlock, b: MemBlock)
    requires Joinable(m, a, b)
    ensures Laid(Join(m, a, b))
  {
    var m' := Join(m, a, b);
    forall c | c in m' ensures CellOk(m', c) { JoinCellOk(m, a, b, c); }
    forall c, d | c in m' && d in m' ensures Clear(m', c, d) { JoinClear(m, a, b, c, d); }
  }

  lemma JoinClear(m: Cells, a: MemBlock, b: MemBlock, c: MemBlock, d: MemBlock)
    requires Joinable(m, a, b) && c in m && c != b && d in m && d != b
    ensures Clear(Join(m, a, b), c, d)
  {
    assert Clear(m, c, d) && Clear(m, c, b) && Clear(m, b, d) && CellOk(m, c) && CellOk(m, d);
  }

  // the joined block is free to stay out of the free set while its new neighbours are checked
  lemma JoinSpaced(m: Cells, free: set<MemBlock>, a: MemBlock, b: MemBlock)
    requires Joinable(m, a, b) && Spaced(m, free) && a !in free && b !in free
    ensures Spaced(Join(m, a, b), free)
  {
    var m' := Join(m, a, b);
    forall c | c in m' ensures SpacedAt(m', free, c) {
      assert SpacedAt(m, free, c) && CellOk(m, c);
    }
  }

  lemma FreeSpaced(m: Cells, free: set<MemBlock>, b: MemBlock)
    requires Laid(m) && Spaced(m, free) && b in m
    requires (m[b].next != null ==> m[b].next !in free) && (m[b].prev != null ==> m[b].prev !in free)
    ensures Spaced(m, free + {b})
  {
    forall c | c in m ensures SpacedAt(m, free + {b}, c) {
      assert SpacedAt(m, free, c) && CellOk(m, c) && CellOk(m, b);
    }
  }

  lemma FewerSpaced(m: Cells, free: set<MemBlock>, free': set<MemBlock>)
    requires Spaced(m, free) && free' <= free
    ensures Spaced(m, free')
  {
    forall c | c in m ensures SpacedAt(m, free', c) { assert SpacedAt(m, free, c); }
  }

  // ---- a page leaves with all its blocks

  function Off(m: Cells, p: PageBlock): Cells { map c | c in m && c.page != p :: m[c] }

  lemma OffLaid(m: Cells, free: set<MemBlock>, p: PageBlock)
    requires Laid(m) && Spaced(m, free)
    ensures Laid(Off(m, p)) && Spaced(Off(m, p), free)
  {
    var m' := Off(m, p);
    forall c | c in m' ensures CellOk(m', c) && SpacedAt(m', free, c) {
      assert CellOk(m, c) && SpacedAt(m, free, c);
      if m[c].prev != null { assert CellOk(m, m[c].prev); }
    }
    forall c, d | c in m' && d in m' ensures Clear(m', c, d) { assert Clear(m, c, d); }
  }

  // ---- what the layout means

  ghost predicate Covers(m: Cells, b: MemBlock, a: nat)
    requires b in m
  { b.addr <= a < b.addr + m[b].size }

  // walking the list from b to the block that holds address a
  lemma {:induction false} WalkTo(m: Cells, b: MemBlock, a: nat) returns (c: MemBlock)
    requires Laid(m) && b in m && b.addr <= a < b.page.base + b.page.size
    ensures c in m && c.page == b.page && Covers(m, c, a)
    decreases b.page.base + b.page.size - b.addr
  {
    assert CellOk(m, b);
    if a < b.addr + m[b].size { c := b; } else { c := WalkTo(m, m[b].next, a); }
  }

  // walking back to the first block of the page
  lemma {:induction false} WalkBack(m: Cells, b: MemBlock) returns (c: MemBlock)
    requires Laid(m) && b in m
    ensures c in m && c.page == b.page && c.addr == b.page.base + PAGE_HEADER
    decreases b.addr
  {
    assert CellOk(m, b);
    if m[b].prev == null { c := b; } else { assert CellOk(m, m[b].prev); c := WalkBack(m, m[b].prev); }
  }

  /** The blocks of a page tile it from its header to its end: every address there lies in exactly one block. */
  lemma Tiles(m: Cells, some: MemBlock, a: nat) returns (b: MemBlock)
    requires Laid(m) && some in m && some.page.base + PAGE_HEADER <= a < some.page.base + some.page.size
    ensures b in m && b.page == some.page && Covers(m, b, a)
    ensures forall c :: c in m && c.page == some.page && Covers(m, c, a) ==> c == b
  {
    var first := WalkBack(m, some);
    b := WalkTo(m, first, a);
    forall c | c in m && c.page == some.page && Covers(m, c, a) ensures c == b { assert Clear(m, b, c); }
  }

  lemma PrevFree(m: Cells, free: set<MemBlock>, b: MemBlock)
    requires Laid(m) && Spaced(m, free) && b in m && b in free
    ensures m[b].prev != null ==>
              m[b].prev in m && m[b].prev !in free && m[b].prev.page == b.page && m[b].prev.addr < b.addr
  {
    assert CellOk(m, b);
    if m[b].prev != null { assert CellOk(m, m[b].prev) && SpacedAt(m, free, m[b].prev); }
  }

  lemma NextFree(m: Cells, free: set<MemBlock>, b: MemBlock)
    requires Laid(m) && Spaced(m, free) && b in m && b in free
    ensures m[b].next != null ==>
              m[b].next in m && m[b].next !in free && m[b].next.page == b.page && m[b].next.addr > b.addr
  {
    assert CellOk(m, b) && SpacedAt(m, free, b);
  }

  /** A page whose blocks are all free but b has at most one free block on each side of b, and no others. */
  lemma OnlyNeighbours(m: Cells, free: set<MemBlock>, b: MemBlock, c: MemBlock)
    requires Laid(m) && Spaced(m, free) && b in m && c in m && c.page == b.page && c != b
    requires forall d :: d in m && d.page == b.page && d != b ==> d in free
    ensures c == m[b].prev || c == m[b].next
  {
    var p, n := m[b].prev, m[b].next;
    assert CellOk(m, b) && CellOk(m, c) && Clear(m, b, c);
    if p != null {
      assert CellOk(m, p) && Clear(m, p, c);
      PrevFree(m, free, p);
    }
    if n != null {
      assert CellOk(m, n) && Clear(m, n, c);
      NextFree(m, free, n);
    }
  }
}
