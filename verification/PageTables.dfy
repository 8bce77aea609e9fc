/** The address-space allocator: a list of page blocks kept in step with three maps. */
module PageTables {
  import opened PageLayout
  import opened PageSearch

  type SizeMap = map<Extent, Block>
  type AddrMap = map<nat, Block>

  // ---- the maps and the blocks agree, but for the blocks in hand

  ghost predicate Filed(m: Cells, hand: set<Block>, s: SizeMap, a: AddrMap, u: AddrMap, b: Block)
    requires b in m
  {
    var k := m[b];
    b !in hand ==>
      if k.isAllocated then k.begin in u && u[k.begin] == b
      else k.Place() in s && s[k.Place()] == b && k.begin in a && a[k.begin] == b
  }

  ghost predicate SizeKey(m: Cells, hand: set<Block>, s: SizeMap, e: Extent)
    requires e in s
  { s[e] in m && s[e] !in hand && !m[s[e]].isAllocated && m[s[e]].Place() == e }

  ghost predicate AddrKey(m: Cells, hand: set<Block>, a: AddrMap, isAllocated: bool, k: nat)
    requires k in a
  { a[k] in m && a[k] !in hand && m[a[k]].isAllocated == isAllocated && m[a[k]].begin == k }

  ghost predicate Files(m: Cells, hand: set<Block>, s: SizeMap, a: AddrMap, u: AddrMap) {
    && (forall b {:trigger Filed(m, hand, s, a, u, b)} :: b in m ==> Filed(m, hand, s, a, u, b))
    && (forall e {:trigger SizeKey(m, hand, s, e)} :: e in s ==> SizeKey(m, hand, s, e))
    && (forall k {:trigger AddrKey(m, hand, a, false, k)} :: k in a ==> AddrKey(m, hand, a, false, k))
    && (forall k {:trigger AddrKey(m, hand, u, true, k)} :: k in u ==> AddrKey(m, hand, u, true, k))
  }

  lemma FilesOut(m: Cells, r: Range, hand: set<Block>, s: SizeMap, a: AddrMap, u: AddrMap, b: Block)
    requires Laid(m, r) && Files(m, hand, s, a, u) && b in m && b !in hand && !m[b].isAllocated
    ensures Files(m, hand + {b}, s - {m[b].Place()}, a - {m[b].begin}, u)
  {
    var hand', s', a' := hand + {b}, s - {m[b].Place()}, a - {m[b].begin};
    assert Filed(m, hand, s, a, u, b) && CellOk(m, r, b);
    forall c | c in m ensures Filed(m, hand', s', a', u, c) {
      assert Filed(m, hand, s, a, u, c) && Clear(m, b, c) && CellOk(m, r, c);
    }
    forall e | e in s' ensures SizeKey(m, hand', s', e) { assert SizeKey(m, hand, s, e); }
    forall k | k in a' ensures AddrKey(m, hand', a', false, k) { assert AddrKey(m, hand, a, false, k); }
    forall k | k in u ensures AddrKey(m, hand', u, true, k) { assert AddrKey(m, hand, u, true, k); }
  }

  lemma FilesIn(m: Cells, r: Range, hand: set<Block>, s: SizeMap, a: AddrMap, u: AddrMap, b: Block)
    requires Laid(m, r) && Files(m, hand, s, a, u) && b in m && b in hand && !m[b].isAllocated
    ensures Files(m, hand - {b}, s[m[b].Place() := b], a[m[b].begin := b], u)
  {
    var hand', s', a' := hand - {b}, s[m[b].Place() := b], a[m[b].begin := b];
    assert CellOk(m, r, b);
    forall c | c in m ensures Filed(m, hand', s', a', u, c) {
      assert Filed(m, hand, s, a, u, c) && Clear(m, b, c) && CellOk(m, r, c);
    }
    forall e | e in s' ensures SizeKey(m, hand', s', e) { if e != m[b].Place() { assert SizeKey(m, hand, s, e); } }
    forall k | k in a' ensures AddrKey(m, hand', a', false, k) {
      if k != m[b].begin { assert AddrKey(m, hand, a, false, k); }
    }
    forall k | k in u ensures AddrKey(m, hand', u, true, k) { assert AddrKey(m, hand, u, true, k); }
  }

  lemma UsedIn(m: Cells, r: Range, hand: set<Block>, s: SizeMap, a: AddrMap, u: AddrMap, b: Block)
    requires Laid(m, r) && Files(m, hand, s, a, u) && b in m && b in hand && m[b].isAllocated
    ensures Files(m, hand - {b}, s, a, u[m[b].begin := b])
  {
    var hand', u' := hand - {b}, u[m[b].begin := b];
    assert CellOk(m, r, b);
    forall c | c in m ensures Filed(m, hand', s, a, u', c) {
      assert Filed(m, hand, s, a, u, c) && Clear(m, b, c) && CellOk(m, r, c);
    }
    forall e | e in s ensures SizeKey(m, hand', s, e) { assert SizeKey(m, hand, s, e); }
    forall k | k in a ensures AddrKey(m, hand', a, false, k) { assert AddrKey(m, hand, a, false, k); }
    forall k | k in u' ensures AddrKey(m, hand', u', true, k) {
      if k != m[b].begin { assert AddrKey(m, hand, u, true, k); }
    }
  }

  // no block in hand begins where a used one does
  lemma NotUsed(m: Cells, r: Range, hand: set<Block>, s: SizeMap, a: AddrMap, u: AddrMap, b: Block)
    requires Laid(m, r) && Files(m, hand, s, a, u) && b in m && b in hand
    ensures m[b].begin !in u
  {
    assert CellOk(m, r, b);
    forall k | k in u ensures k != m[b].begin {
      assert AddrKey(m, hand, u, true, k) && CellOk(m, r, u[k]) && Clear(m, b, u[k]);
    }
  }

  lemma UsedOut(m: Cells, r: Range, hand: set<Block>, s: SizeMap, a: AddrMap, u: AddrMap, b: Block)
    requires Laid(m, r) && Files(m, hand, s, a, u) && b in m && b !in hand && m[b].isAllocated
    ensures Files(m, hand + {b}, s, a, u - {m[b].begin}) && m[b].begin in u
  {
    var hand', u' := hand + {b}, u - {m[b].begin};
    assert Filed(m, hand, s, a, u, b) && CellOk(m, r, b);
    forall c | c in m ensures Filed(m, hand', s, a, u', c) {
      assert Filed(m, hand, s, a, u, c) && Clear(m, b, c) && CellOk(m, r, c);
    }
    forall e | e in s ensures SizeKey(m, hand', s, e) { assert SizeKey(m, hand, s, e); }
    forall k | k in a ensures AddrKey(m, hand', a, false, k) { assert AddrKey(m, hand, a, false, k); }
    forall k | k in u' ensures AddrKey(m, hand', u', true, k) { assert AddrKey(m, hand, u, true, k); }
  }

  // only blocks in hand differ
  ghost predicate AlikeAt(m: Cells, m': Cells, hand: set<Block>, hand': set<Block>, c: Block) {
    && (c in m && c !in hand <==> c in m' && c !in hand')
    && (c in m && c !in hand && c in m' ==> m'[c].Place() == m[c].Place() && m'[c].isAllocated == m[c].isAllocated)
  }

  lemma FilesAlike(m: Cells, m': Cells, hand: set<Block>, hand': set<Block>, s: SizeMap, a: AddrMap, u: AddrMap)
    requires Files(m, hand, s, a, u)
    requires forall c {:trigger AlikeAt(m, m', hand, hand', c)} :: c in m.Keys + m'.Keys ==>
               AlikeAt(m, m', hand, hand', c)
    ensures Files(m', hand', s, a, u)
  {
    forall c | c in m' ensures Filed(m', hand', s, a, u, c) {
      assert AlikeAt(m, m', hand, hand', c);
      if c in m { assert Filed(m, hand, s, a, u, c); }
    }
    forall e | e in s ensures SizeKey(m', hand', s, e) {
      assert SizeKey(m, hand, s, e) && AlikeAt(m, m', hand, hand', s[e]);
    }
    forall k | k in a ensures AddrKey(m', hand', a, false, k) {
      assert AddrKey(m, hand, a, false, k) && AlikeAt(m, m', hand, hand', a[k]);
    }
    forall k | k in u ensures AddrKey(m', hand', u, true, k) {
      assert AddrKey(m, hand, u, true, k) && AlikeAt(m, m', hand, hand', u[k]);
    }
  }

  ghost function Only(b: Block?): set<Block> { if b == null then {} else {b} }

  class PageTable {
    const range: Range
    var bySize: SizeMap
    var byAddr: AddrMap
    var used: AddrMap
    ghost var cells: Cells
    ghost var log: seq<Outcome>  // what came of each request

    constructor (base: nat, size: nat)
      requires size > 0
      ensures Valid() && range == Range(base, base + size) && used == map[]
      ensures Places(cells, false) == {Extent(base, size)} && Places(cells, true) == {}
      ensures fresh(cells.Keys) && log == []
    {
      var b := new Block(base, size);
      range := Range(base, base + size);
      bySize, byAddr, used, log := map[Extent(base, size) := b], map[base := b], map[], [];
      cells := map[b := Cell(base, size, false, null, null)];
      new;
      assert Clear(cells, b, b) && CellOk(cells, range, b) && LooseAt(cells, 0, 0, b);
      assert Filed(cells, {}, bySize, byAddr, used, b) && CellHolds(b, cells[b]);
    }

    static ghost predicate CellHolds(b: Block, k: Cell)
      reads b
    { b.begin == k.begin && b.size == k.size && b.isAllocated == k.isAllocated && b.prev == k.prev && b.next == k.next }

    ghost predicate CellsHold()
      reads this`cells, cells.Keys
    { forall b {:trigger CellHolds(b, cells[b])} :: b in cells ==> CellHolds(b, cells[b]) }

    ghost predicate Core(hand: set<Block>, lo: nat, hi: nat)
      reads this`bySize, this`byAddr, this`used, this`cells, cells.Keys
    { CellsHold() && Laid(cells, range) && Loose(cells, lo, hi) && Files(cells, hand, bySize, byAddr, used) }

    ghost predicate Valid()
      reads this`bySize, this`byAddr, this`used, this`cells, cells.Keys
    { Core({}, 0, 0) }

    // ---- blocks enter and leave the maps of free blocks

    method TakeOut(b: Block, ghost hand: set<Block>, ghost lo: nat, ghost hi: nat)
      requires Core(hand, lo, hi) && b in cells && b !in hand && !cells[b].isAllocated
      modifies this`bySize, this`byAddr
      ensures Core(hand + {b}, lo, hi)
    {
      assert CellHolds(b, cells[b]);
      FilesOut(cells, range, hand, bySize, byAddr, used, b);
      bySize := bySize - {Extent(b.begin, b.size)};
      byAddr := byAddr - {b.begin};
    }

    method PutIn(b: Block, ghost hand: set<Block>, ghost lo: nat, ghost hi: nat)
      requires CellsHold() && b in cells
      modifies this`bySize, this`byAddr
      ensures CellsHold()
      ensures old(Core(hand, lo, hi)) && b in hand && !cells[b].isAllocated ==> Core(hand - {b}, lo, hi)
    {
      assert CellHolds(b, cells[b]);
      if Core(hand, lo, hi) && b in hand && !cells[b].isAllocated {
        FilesIn(cells, range, hand, bySize, byAddr, used, b);
      }
      bySize := bySize[Extent(b.begin, b.size) := b];
      byAddr := byAddr[b.begin := b];
    }

    // ---- merging

    // a grows over the block behind it
    method Swallow(a: Block, b: Block)
      requires a != b && a.next == b && b.next != a && b.next != b
      modifies a`size, a`next, Only(b.next)`prev
      ensures a.size == old(a.size) + b.size && a.next == b.next
      ensures b.next != null ==> b.next.prev == a
    {
      a.size := a.size + b.size;
      if b.next != null {
        b.next.prev := a;
      }
      a.next := b.next;
    }

    method JoinNext(a: Block, b: Block, ghost lo: nat, ghost hi: nat)
      requires Core({a, b}, a.begin, hi) && Joinable(cells, range, a, b) && AllFree(cells, lo, hi) && a.begin <= lo
      modifies this`cells, a`size, a`next, Only(b.next)`prev
      ensures Core({a}, a.begin, hi) && cells == Join(old(cells), a, b) && AllFree(cells, lo, hi)
      ensures Places(cells, true) == Places(old(cells), true)
    {
      ghost var m := cells;
      JoinReady(a, b);
      Swallow(a, b);
      cells := Join(m, a, b);
      assert CellsHold() by {
        forall c | c in cells ensures CellHolds(c, cells[c]) {
          assert old(CellHolds(c, m[c])) && cells[c] == JoinCell(m, a, b, c);
        }
      }
      JoinLaid(m, range, a, b);
      JoinLoose(m, range, a, b, lo, hi);
      FilesAlike(m, cells, {a, b}, {a}, bySize, byAddr, used);
    }

    lemma JoinReady(a: Block, b: Block)
      requires CellsHold() && Joinable(cells, range, a, b)
      ensures a != b && a.next == b && b.next != a && b.next != b && CellHolds(a, cells[a]) && CellHolds(b, cells[b])
      ensures b.next != null ==> b.next in cells && CellHolds(b.next, cells[b.next])
    {
      assert CellHolds(a, cells[a]) && CellHolds(b, cells[b]) && CellOk(cells, range, a) && CellOk(cells, range, b);
      if b.next != null { assert CellOk(cells, range, b.next) && CellHolds(b.next, cells[b.next]); }
    }

    // back to the first of a run of free blocks
    method RunHead(b: Block, ghost lo: nat, ghost hi: nat) returns (a: Block)
      requires Core({}, lo, hi) && b in cells && AllFree(cells, lo, hi) && range.base <= lo <= cells[b].begin < hi
      ensures a in cells && CellHolds(a, cells[a]) && !a.isAllocated && a.begin <= lo < cells[a].End()
    {
      a := b;
      assert CellHolds(b, cells[b]) && FreeAt(cells, lo, hi, b) && CellOk(cells, range, b);
      while a.prev != null && !a.prev.isAllocated
        invariant a in cells && CellHolds(a, cells[a]) && CellOk(cells, range, a) && !a.isAllocated && a.begin < hi
            && lo < cells[a].End()
        decreases a.begin
      {
        assert CellOk(cells, range, a.prev) && CellHolds(a.prev, cells[a.prev]) && LooseAt(cells, lo, hi, a.prev);
        a := a.prev;
      }
      if a.prev != null { assert CellOk(cells, range, a.prev) && CellHolds(a.prev, cells[a.prev]); }
      RunStart(cells, range, a, lo, hi);
    }

    method JoinOne(a: Block, next: Block, ghost lo: nat, ghost hi: nat)
      requires Core({a}, a.begin, hi) && a in cells && !a.isAllocated && AllFree(cells, lo, hi)
          && a.begin <= lo < cells[a].End()
      requires a.next == next && !next.isAllocated
      modifies this`bySize, this`byAddr, this`cells, a`size, a`next, Only(next.next)`prev
      ensures Core({a}, a.begin, hi) && AllFree(cells, lo, hi) && a in cells && !cells[a].isAllocated
          && lo < cells[a].End()
      ensures Places(cells, true) == Places(old(cells), true) && cells.Keys <= old(cells.Keys) && |cells| < |old(cells)|
    {
      ghost var m := cells;
      Neighbours(a, a.begin, hi);
      TakeOut(next, {a}, a.begin, hi);
      assert {a} + {next} == {a, next};
      JoinNext(a, next, lo, hi);
      assert cells.Keys == m.Keys - {next} && |cells| == |cells.Keys| && |m| == |m.Keys|;
    }

    // the free blocks behind a, which is in hand, join it one by one
    method JoinAll(a: Block, ghost lo: nat, ghost hi: nat)
      requires Core({a}, a.begin, hi) && a in cells && !cells[a].isAllocated && AllFree(cells, lo, hi)
      requires a.begin <= lo < hi <= range.limit && lo < cells[a].End()
      modifies this`bySize, this`byAddr, this`cells, cells.Keys
      ensures Core({a}, 0, 0) && Places(cells, true) == Places(old(cells), true) && cells.Keys <= old(cells.Keys)
      ensures a in cells && !cells[a].isAllocated && used == old(used)
    {
      See(a, {a}, a.begin, hi);
      while a.next != null && !a.next.isAllocated
        invariant Core({a}, a.begin, hi) && a in cells && !cells[a].isAllocated && CellHolds(a, cells[a])
            && AllFree(cells, lo, hi)
        invariant a.begin <= lo < cells[a].End() && Places(cells, true) == Places(old(cells), true) && used == old(used)
        invariant cells.Keys <= old(cells.Keys)
        invariant (a.next != null ==> a.next in cells && CellHolds(a.next, cells[a.next]))
        decreases |cells|
      {
        Neighbours(a, a.begin, hi);
        JoinOne(a, a.next, lo, hi);
        See(a, {a}, a.begin, hi);
      }
      RunEnd(cells, range, a, lo, hi);
    }

    lemma See(a: Block, hand: set<Block>, lo: nat, hi: nat)
      requires Core(hand, lo, hi) && a in cells
      ensures CellHolds(a, cells[a]) && CellOk(cells, range, a)
      ensures a.next != null ==> a.next in cells && CellHolds(a.next, cells[a.next])
      ensures a.prev != null ==> a.prev in cells && CellHolds(a.prev, cells[a.prev])
    {
      assert CellHolds(a, cells[a]) && CellOk(cells, range, a);
      if a.next != null { assert CellHolds(a.next, cells[a.next]); }
      if a.prev != null { assert CellHolds(a.prev, cells[a.prev]); }
    }

    lemma Neighbours(a: Block, lo: nat, hi: nat)
      requires Core({a}, lo, hi) && a in cells && !a.isAllocated && a.next != null && !a.next.isAllocated
      ensures a.next in cells && Joinable(cells, range, a, a.next) && a.next != a && !cells[a.next].isAllocated
      ensures a.next.next != null ==> a.next.next in cells
    {
      See(a, {a}, lo, hi);
      See(a.next, {a}, lo, hi);
    }

    // the free blocks around b become one; any two free neighbours lie within [lo, hi), as does b
    method CollectFragment(b: Block, ghost lo: nat, ghost hi: nat)
      requires Core({}, lo, hi) && b in cells && AllFree(cells, lo, hi)
      requires range.base <= lo <= cells[b].begin < hi <= range.limit
      modifies this`bySize, this`byAddr, this`cells, cells.Keys
      ensures Valid() && Places(cells, true) == Places(old(cells), true) && cells.Keys <= old(cells.Keys)
          && used == old(used)
    {
      var a := RunHead(b, lo, hi);
      TakeOut(a, {}, lo, hi);
      assert {} + {a} == {a};
      LooseMore(cells, lo, hi, a.begin);
      JoinAll(a, lo, hi);
      PutIn(a, {a}, 0, 0);
      assert {a} - {a} == {};
    }

    static lemma LooseMore(m: Cells, lo: nat, hi: nat, lo': nat)
      requires Loose(m, lo, hi) && lo' <= lo
      ensures Loose(m, lo', hi)
    {
      forall c | c in m ensures LooseAt(m, lo', hi, c) { assert LooseAt(m, lo, hi, c); }
    }

    // ---- freeing

    method TakeUsed(b: Block)
      requires Valid() && b in cells && cells[b].isAllocated
      modifies this`used
      ensures Core({b}, 0, 0) && used == old(used) - {b.begin}
    {
      assert CellHolds(b, cells[b]);
      UsedOut(cells, range, {}, bySize, byAddr, used, b);
      used := used - {b.begin};
      assert {} + {b} == {b};
    }

    method MarkFree(b: Block)
      requires Core({b}, 0, 0) && b in cells && cells[b].isAllocated
      modifies this`cells, b`isAllocated
      ensures var m := old(cells); var lo, hi := RunBegin(m, b), RunLimit(m, b);
              && cells == Mark(m, b, false) && Core({b}, lo, hi) && AllFree(cells, lo, hi)
              && range.base <= lo <= cells[b].begin < hi <= range.limit
              && Places(cells, true) == Places(m, true) - {m[b].Place()}
    {
      ghost var m := cells;
      b.isAllocated := false;
      cells := Mark(m, b, false);
      forall c | c in cells ensures CellHolds(c, cells[c]) { assert old(CellHolds(c, m[c])); }
      MarkLaid(m, range, b, false);
      FreeRun(m, range, b);
      FilesAlike(m, cells, {b}, {b}, bySize, byAddr, used);
    }

    /** free_page: exactly the place of b is no longer allocated, and it has melted into the free space around it. */
    method FreePage(b: Block)
      requires Valid() && b in used.Values
      modifies this, cells.Keys
      ensures Valid() && Places(cells, true) == Places(old(cells), true) - {Extent(old(b.begin), old(b.size))}
      ensures used == old(used) - {old(b.begin)} && cells.Keys <= old(cells.Keys)
      ensures log == old(log) + [Freed(Key(Extent(old(b.begin), old(b.size))))]
    {
      Filing(b);
      log := log + [Freed(Key(Extent(b.begin, b.size)))];
      ghost var lo, hi := RunBegin(cells, b), RunLimit(cells, b);
      TakeUsed(b);
      MarkFree(b);
      PutIn(b, {b}, lo, hi);
      assert {b} - {b} == {};
      CollectFragment(b, lo, hi);
    }

    lemma Filing(b: Block)
      requires Valid() && b in used.Values
      ensures b in cells && cells[b].isAllocated && CellHolds(b, cells[b]) && b.begin in used && used[b.begin] == b
    {
      var k :| k in used && used[k] == b;
      assert AddrKey(cells, {}, used, true, k) && CellHolds(b, cells[b]);
    }

    // ---- allocation

    static function Extents(a: AddrMap): set<Extent>
      reads a.Values
    { set k | k in a :: Extent(k, a[k].size) }

    /** The map of used blocks holds exactly the allocated places, under keys that are still the blocks' own. */
    lemma UsedKeys()
      requires Valid()
      ensures Extents(used) == Places(cells, true)
      ensures forall k <- used.Keys :: used[k].begin == k && used[k].isAllocated
    {
      forall k | k in used
        ensures used[k].begin == k && used[k].isAllocated && Extent(k, used[k].size) in Places(cells, true)
      {
        assert AddrKey(cells, {}, used, true, k) && CellHolds(used[k], cells[used[k]]);
      }
      forall b | b in cells && cells[b].isAllocated ensures cells[b].Place() in Extents(used) {
        assert Filed(cells, {}, bySize, byAddr, used, b) && CellHolds(b, cells[b]);
        assert cells[b].begin in used;
      }
    }

    /** Both maps of free blocks hold exactly the free places, under keys that are still the blocks' own. */
    lemma FreeKeys()
      requires Valid()
      ensures bySize.Keys == Places(cells, false) == Extents(byAddr)
    {
      forall b | b in cells && !cells[b].isAllocated
        ensures cells[b].Place() in bySize && cells[b].Place() in Extents(byAddr)
      {
        assert Filed(cells, {}, bySize, byAddr, used, b) && CellHolds(b, cells[b]);
        assert cells[b].begin in byAddr;
      }
      forall e | e in bySize ensures e in Places(cells, false) { assert SizeKey(cells, {}, bySize, e); }
      forall k | k in byAddr ensures Extent(k, byAddr[k].size) in Places(cells, false) {
        assert AddrKey(cells, {}, byAddr, false, k) && CellHolds(byAddr[k], cells[byAddr[k]]);
      }
    }

    lemma Apart(isAllocated: bool)
      requires Valid()
      ensures Disjoint(Places(cells, isAllocated)) && forall e <- Places(cells, isAllocated) :: e.size > 0
    {
      var s := Places(cells, isAllocated);
      forall e | e in s ensures e.size > 0 {
        var b :| b in cells && cells[b].isAllocated == isAllocated && cells[b].Place() == e;
        assert CellOk(cells, range, b);
      }
      forall e, f | e in s && f in s && e != f ensures e.begin + e.size <= f.begin || f.begin + f.size <= e.begin {
        var b :| b in cells && cells[b].isAllocated == isAllocated && cells[b].Place() == e;
        var c :| c in cells && cells[c].isAllocated == isAllocated && cells[c].Place() == f;
        assert Clear(cells, b, c);
      }
    }

    // address 0 stands for no address
    static ghost predicate Fits(e: Extent, at: nat, size: nat) {
      if at == 0 then e.size >= size else Contains(e, at) && at + size <= e.begin + e.size
    }

    // the free place a request is served from
    static ghost predicate Choice(from: Found, free: set<Extent>, at: nat, size: nat) {
      if from.Nothing? then forall e <- free :: !Fits(e, at, size)
      else from.key in free && Fits(from.key, at, size) && (at == 0 ==> LeastFit(from, free, size))
    }

    method Choose(at: nat, size: nat, sizeTree: Tree, addrTree: Tree) returns (b: Block?, ghost from: Found)
      requires Valid()
      requires Ordered(CompareSize, sizeTree) && Keys(sizeTree) == bySize.Keys && Ordered(CompareAddr, addrTree)
          && Keys(addrTree) == Extents(byAddr)
      ensures Choice(from, Places(cells, false), at, size) && (b == null <==> from.Nothing?)
      ensures b != null ==> b in cells && !cells[b].isAllocated && cells[b].Place() == from.key
    {
      FreeKeys();
      Apart(false);
      b := null;
      if at == 0 {
        var f := FindBySize(sizeTree, size);
        from := f;
        if f.Key? {
          assert SizeKey(cells, {}, bySize, f.key);
          b := bySize[f.key];
        }
      } else {
        var f := FindByAddr(addrTree, at);
        from := f;
        if f.Key? {
          assert AddrKey(cells, {}, byAddr, false, f.key.begin);
          assert CellHolds(byAddr[f.key.begin], cells[byAddr[f.key.begin]]);
          b := byAddr[f.key.begin];
          if b.size < size || b.size - size < at - b.begin {
            b := null;
            from := Nothing;
            NoOther(Places(cells, false), f.key, at, size);
          }
        }
      }
    }

    static lemma NoOther(free: set<Extent>, e: Extent, at: nat, size: nat)
      requires Disjoint(free) && e in free && Contains(e, at) && !Fits(e, at, size) && at != 0
      ensures forall f <- free :: !Fits(f, at, size)
    {}

    // ---- splitting

    // q takes the place of b's first s bytes in the list
    method LinkFront(b: Block, q: Block, s: nat)
      requires b != q && b.prev != b && b.prev != q && s <= b.size && q.begin == b.begin && q.size == s
      modifies b`begin, b`size, b`prev, q`prev, q`next, Only(b.prev)`next
      ensures b.begin == old(b.begin) + s && b.size == old(b.size) - s && b.prev == q && q.next == b
          && q.prev == old(b.prev)
      ensures q.prev != null ==> q.prev.next == q
    {
      b.begin := b.begin + q.size;
      b.size := b.size - q.size;
      q.prev := b.prev;
      if b.prev != null {
        b.prev.next := q;
      }
      b.prev := q;
      q.next := b;
    }

    // q takes what is behind b's first s bytes
    method LinkBack(b: Block, q: Block, s: nat)
      requires b != q && b.next != b && b.next != q && s <= b.size && q.begin == b.begin + s && q.size == b.size - s
      modifies b`size, b`next, q`prev, q`next, Only(b.next)`prev
      ensures b.size == s && b.next == q && q.prev == b && q.next == old(b.next)
      ensures q.next != null ==> q.next.prev == q
    {
      b.size := s;
      q.next := b.next;
      if b.next != null {
        b.next.prev := q;
      }
      q.prev := b;
      b.next := q;
    }

    // q is new, and b is in hand with the extent [lo, hi) it was found with, or a part of it
    ghost predicate Cuttable(b: Block, q: Block, lo: nat, hi: nat)
      reads this`bySize, this`byAddr, this`used, this`cells, cells.Keys, q
    {
      && Core({b}, lo, hi) && AllFree(cells, lo, hi) && b in cells && q !in cells && CellOk(cells, range, b)
      && CellHolds(b, cells[b])
      && !cells[b].isAllocated && lo <= cells[b].begin && cells[b].End() <= hi && !q.isAllocated && q !in bySize.Values
    }

    method CutFront(b: Block, q: Block, s: nat, ghost lo: nat, ghost hi: nat)
      requires Cuttable(b, q, lo, hi) && 0 < s < b.size && q.begin == b.begin && q.size == s
      modifies this`cells, b`begin, b`size, b`prev, q`prev, q`next, Only(b.prev)`next
      ensures Core({b, q}, lo, hi) && AllFree(cells, lo, hi) && cells == SplitFront(old(cells), b, q, s) && CellsHold()
    {
      ghost var m := cells;
      See(b, {b}, lo, hi);
      LinkFront(b, q, s);
      cells := SplitFront(m, b, q, s);
      forall c | c in cells ensures CellHolds(c, cells[c]) { if c != q { assert old(CellHolds(c, m[c])); } }
      SplitFrontLaid(m, range, b, q, s);
      SplitLoose(m, range, b, q, s, lo, hi);
      FilesAlike(m, cells, {b}, {b, q}, bySize, byAddr, used);
    }

    // cut down to nothing, b is not part of a layout any more
    ghost predicate Emptied(b: Block)
      reads this`cells, cells.Keys
    { CellsHold() && b in cells && cells[b].size == 0 && b.size == 0 }

    method CutBack(b: Block, q: Block, s: nat, ghost lo: nat, ghost hi: nat)
      requires Cuttable(b, q, lo, hi) && s < b.size && q.begin == b.begin + s && q.size == b.size - s
      modifies this`cells, b`size, b`next, q`prev, q`next, Only(b.next)`prev
      ensures cells == SplitBack(old(cells), b, q, s) && b.size == s && CellsHold()
      ensures if s > 0 then Core({b, q}, lo, hi) && AllFree(cells, lo, hi) else Emptied(b)
    {
      ghost var m := cells;
      See(b, {b}, lo, hi);
      LinkBack(b, q, s);
      cells := SplitBack(m, b, q, s);
      assert CellsHold() by {
        forall c | c in cells ensures CellHolds(c, cells[c]) { if c != q { assert old(CellHolds(c, m[c])); } }
      }
      if s > 0 {
        SplitBackLaid(m, range, b, q, s);
        SplitLoose(m, range, b, q, s, lo, hi);
        FilesAlike(m, cells, {b}, {b, q}, bySize, byAddr, used);
      }
    }

    // b is in hand, a part of the free place [lo, hi) with at most one new block on each side of it
    ghost predicate Parted(b: Block, lo: nat, hi: nat)
      reads this`bySize, this`byAddr, this`used, this`cells, cells.Keys
    {
      && Core({b}, lo, hi) && AllFree(cells, lo, hi) && b in cells && !cells[b].isAllocated && CellHolds(b, cells[b])
      && lo <= b.begin && cells[b].End() <= hi && Flanked(cells, b, lo, hi)
    }

    method PartFront(b: Block, at: nat, ghost lo: nat, ghost hi: nat)
      requires Parted(b, lo, hi) && b.begin == lo < at < cells[b].End() == hi
      modifies this`cells, this`bySize, this`byAddr, cells.Keys
      ensures Parted(b, lo, hi) && b.begin == at && cells[b].End() == hi
      ensures Places(cells, true) == Places(old(cells), true) && fresh(cells.Keys - old(cells.Keys))
    {
      var q := new Block(b.begin, at - b.begin);
      ghost var m := cells;
      assert CellOk(cells, range, b);
      See(b, {b}, lo, hi);
      SplitPlaces(m, range, b, q, at - lo);
      FrontFlanked(m, range, b, q, at - lo);
      CutFront(b, q, at - b.begin, lo, hi);
      hide Core;
      PutIn(q, {b, q}, lo, hi);
      assert {b, q} - {q} == {b} && CellHolds(b, cells[b]);
    }

    method PartBack(b: Block, size: nat, ghost lo: nat, ghost hi: nat)
      requires Parted(b, lo, hi) && size < b.size && cells[b].End() == hi
      modifies this`cells, this`bySize, this`byAddr, cells.Keys
      ensures if size > 0
              then Parted(b, lo, hi) && b.begin == old(b.begin) && Places(cells, true) == Places(old(cells), true)
              else Emptied(b)
      ensures b.size == size && fresh(cells.Keys - old(cells.Keys))
    {
      hide Flanked, Files, Loose;
      var q := new Block(b.begin + size, b.size - size);
      ghost var m := cells;
      assert CellOk(cells, range, b);
      See(b, {b}, lo, hi);
      if size > 0 {
        SplitPlaces(m, range, b, q, size);
        BackFlanked(m, range, b, q, size, lo);
      }
      CutBack(b, q, size, lo, hi);
      hide Core;
      PutIn(q, {b, q}, lo, hi);
      assert {b, q} - {q} == {b};
      assert CellHolds(b, cells[b]);
    }

    // b is marked and filed as used, whether or not anything is left of it
    method GiveOut(b: Block, ghost lo: nat, ghost hi: nat)
      requires Parted(b, lo, hi) || Emptied(b)
      modifies this`cells, this`used, b`isAllocated
      ensures b.isAllocated && used == old(used)[b.begin := b] && cells.Keys == old(cells.Keys)
      ensures if old(Emptied(b)) then Emptied(b)
              else
                && Valid() && Places(cells, true) == Places(old(cells), true) + {Extent(b.begin, b.size)}
                && b.begin !in old(used)
    {
      ghost var m, u, emptied := cells, used, Emptied(b);
      b.isAllocated := true;
      cells := Mark(m, b, true);
      used := used[b.begin := b];
      forall c | c in cells ensures CellHolds(c, cells[c]) { assert old(CellHolds(c, m[c])); }
      if !emptied { Given(b, lo, hi, m, u); }
    }

    lemma Given(b: Block, lo: nat, hi: nat, m: Cells, u: AddrMap)
      requires Laid(m, range) && Loose(m, lo, hi) && Files(m, {b}, bySize, byAddr, u)
      requires b in m && !m[b].isAllocated && Flanked(m, b, lo, hi) && cells == Mark(m, b, true) && CellsHold()
      requires used == u[b.begin := b]
      ensures Valid() && Places(cells, true) == Places(m, true) + {Extent(b.begin, b.size)} && b.begin !in u
    {
      assert CellHolds(b, cells[b]);
      MarkLaid(m, range, b, true);
      MarkSpaced(m, range, b, lo, hi);
      FilesAlike(m, cells, {b}, {b}, bySize, byAddr, u);
      NotUsed(m, range, {b}, bySize, byAddr, u, b);
      UsedIn(cells, range, {b}, bySize, byAddr, u, b);
      assert {b} - {b} == {};
    }

    // the pieces of [lo, hi) become one free block again
    method RollBack(b: Block, ghost lo: nat, ghost hi: nat)
      requires Parted(b, lo, hi) && range.base <= lo && hi <= range.limit
      modifies this`bySize, this`byAddr, this`cells, cells.Keys
      ensures Valid() && Places(cells, true) == Places(old(cells), true) && used == old(used)
      ensures cells.Keys <= old(cells.Keys)
    {
      assert CellOk(cells, range, b);
      PutIn(b, {b}, lo, hi);
      assert {b} - {b} == {};
      CollectFragment(b, lo, hi);
    }

    method TakeWhole(b: Block)
      requires Valid() && b in cells && !cells[b].isAllocated
      modifies this`bySize, this`byAddr
      ensures Parted(b, b.begin, b.begin + b.size) && cells[b].End() == b.begin + b.size
      ensures range.base <= b.begin && b.begin + b.size <= range.limit
    {
      See(b, {}, 0, 0);
      OwnRun(cells, range, b);
      TakeOut(b, {}, b.begin, b.begin + b.size);
      assert {} + {b} == {b};
    }

    // whether the blocks that the split of e needs were handed out by the heap
    static ghost predicate Granted(e: Extent, at: nat, size: nat, prevRoom: bool, nextRoom: bool) {
      var begin := if at == 0 then e.begin else at;
      (begin != e.begin ==> prevRoom) && (begin + size < e.begin + e.size ==> nextRoom)
    }

    // b is cut down to the request; fails when the heap has no block for a piece
    method Shape(b: Block, at: nat, size: nat, prevRoom: bool, nextRoom: bool, ghost lo: nat,
        ghost hi: nat) returns (ok: bool)
      requires Parted(b, lo, hi) && b.begin == lo < hi == cells[b].End() && Fits(Extent(lo, hi - lo), at, size)
      modifies this`cells, this`bySize, this`byAddr, cells.Keys
      ensures if ok && size == 0 then Emptied(b)
              else Parted(b, lo, hi) && Places(cells, true) == Places(old(cells), true)
      ensures fresh(cells.Keys - old(cells.Keys))
      ensures ok <==> Granted(Extent(lo, hi - lo), at, size, prevRoom, nextRoom)
      ensures ok && size > 0 ==> b.size == size && b.begin == if at == 0 then lo else at
    {
      if at != 0 && at != b.begin {
        if !prevRoom {
          return false;
        }
        PartFront(b, at, lo, hi);
      }
      if b.size > size {
        if !nextRoom {
          return false;
        }
        PartBack(b, size, lo, hi);
      }
      return true;
    }

    // exactly the asked-for place has become allocated
    twostate predicate Got(b: Block, begin: nat, size: nat)
      reads this`cells, this`used, b
    {
      && Places(cells, true) == Places(old(cells), true) + {Extent(begin, size)}
      && b.begin == begin && b.size == size && b.isAllocated && begin !in old(used) && used == old(used)[begin := b]
    }

    // the piece of b is handed out, or b's extent is put together again
    method Deliver(b: Block, at: nat, size: nat, prevRoom: bool, nextRoom: bool, ghost lo: nat, ghost hi: nat)
      returns (ok: bool)
      requires Parted(b, lo, hi) && b.begin == lo < hi == cells[b].End() && Fits(Extent(lo, hi - lo), at, size)
      requires range.base <= lo && hi <= range.limit
      modifies this`bySize, this`byAddr, this`used, this`cells, cells.Keys
      ensures ok <==> Granted(Extent(lo, hi - lo), at, size, prevRoom, nextRoom)
      ensures !ok ==> Valid() && used == old(used) && Places(cells, true) == Places(old(cells), true)
      ensures ok && size > 0 ==> Valid() && Got(b, if at == 0 then lo else at, size)
      ensures ok && size == 0 ==> CellsHold() && !Laid(cells, range)
      ensures fresh(cells.Keys - old(cells.Keys))
    {
      ok := Shape(b, at, size, prevRoom, nextRoom, lo, hi);
      if ok {
        GiveOut(b, lo, hi);
        assert size == 0 ==> !CellOk(cells, range, b);
      } else {
        RollBack(b, lo, hi);
      }
    }

    /** What the choice of a place and of its pieces comes to: with descriptors to be had a request is served just when
        some free place has room for it, from the smallest such place or at the asked-for address; without, it fails
        only for a piece that would have been left over. */
    static lemma ServedExact(free: set<Extent>, from: Found, at: nat, size: nat, prevRoom: bool, nextRoom: bool)
      requires Choice(from, free, at, size) && size > 0 && Disjoint(free)
      ensures var served := from.Key? && Granted(from.key, at, size, prevRoom, nextRoom);
              && (prevRoom && nextRoom ==> (!served <==> forall e <- free ::
                    if at == 0 then e.size < size else !(e.begin <= at && at + size <= e.begin + e.size)))
              && (!served ==> forall e <- free ::
                    (if at == 0 then e.size >= size else e.begin <= at && at + size <= e.begin + e.size) ==>
                    || (!prevRoom && at != 0 && e.begin < at)
                    || (!nextRoom && if at == 0 then size < e.size else at + size < e.begin + e.size))
              && (served ==>
                    && from.key in free
                    && if at != 0 then from.key.begin <= at && at + size <= from.key.begin + from.key.size
                       else from.key.size >= size && forall f <- free :: f.size >= size ==> from.key.size <= f.size)
    {
      if from.Key? {
        forall e | e in free && at != 0 && e != from.key
          ensures !(e.begin <= at && at + size <= e.begin + e.size)
        {
          assert Contains(from.key, at);
        }
      }
    }

    // from the place chosen to the block handed out
    method Obtain(at: nat, size: nat, sizeTree: Tree, addrTree: Tree, prevRoom: bool, nextRoom: bool)
      returns (b: Block?, ghost from: Found)
      requires Valid()
      requires Ordered(CompareSize, sizeTree) && Keys(sizeTree) == bySize.Keys && Ordered(CompareAddr, addrTree)
          && Keys(addrTree) == Extents(byAddr)
      modifies this`bySize, this`byAddr, this`used, this`cells, cells.Keys
      ensures Choice(from, Places(old(cells), false), at, size) && fresh(cells.Keys - old(cells.Keys))
      ensures b == null <==> from.Nothing? || !Granted(from.key, at, size, prevRoom, nextRoom)
      ensures b == null ==> Valid() && used == old(used)
      ensures b == null ==>
                Places(cells, true) == Places(old(cells), true) && Places(cells, false) == Places(old(cells), false)
      ensures b != null && size > 0 ==>
                Valid() && old(allocated(b)) && Got(b, if at == 0 then from.key.begin else at, size)
      ensures b != null && size == 0 ==> CellsHold() && !Laid(cells, range)
    {
      hide Ordered, Keys, Choice;
      b, from := Choose(at, size, sizeTree, addrTree);
      if b == null {
        return;
      }
      ghost var m, lo, hi := cells, b.begin, b.begin + b.size;
      assert CellHolds(b, cells[b]) && CellOk(cells, range, b);
      TakeWhole(b);
      var ok := Deliver(b, at, size, prevRoom, nextRoom, lo, hi);
      if !ok {
        Canonical(m, cells, range);
        b := null;
      }
    }

    /** alloc_page: the place is cut from the best or the asked-for free block; when a descriptor for a piece is not to
        be had, everything is as before. A request of size 0 that is served leaves a list that is no layout of the
        range. */
    method AllocPage(at: nat, size: nat, sizeTree: Tree, addrTree: Tree, prevRoom: bool, nextRoom: bool)
      returns (b: Block?, ghost from: Found)
      requires Valid()
      requires Ordered(CompareSize, sizeTree) && Keys(sizeTree) == bySize.Keys && Ordered(CompareAddr, addrTree)
          && Keys(addrTree) == Extents(byAddr)
      modifies this, cells.Keys
      ensures log == old(log) + [From(from)]
      ensures Choice(from, Places(old(cells), false), at, size) && fresh(cells.Keys - old(cells.Keys))
      ensures b == null <==> from.Nothing? || !Granted(from.key, at, size, prevRoom, nextRoom)
      ensures b == null ==> Valid() && used == old(used)
      ensures b == null ==>
                Places(cells, true) == Places(old(cells), true) && Places(cells, false) == Places(old(cells), false)
      ensures b != null && size > 0 ==>
                && Valid() && old(allocated(b)) && b.isAllocated
                && Places(cells, true) == Places(old(cells), true) + {Extent(b.begin, size)}
                && b.begin == (if at == 0 then from.key.begin else at) && b.size == size
                && b.begin !in old(used) && used == old(used)[b.begin := b]
      ensures b != null && size > 0 && at == 0 ==>
                exists e <- Places(old(cells), false) :: e.begin == b.begin && e.size >= size
                  && forall f <- Places(old(cells), false) :: f.size >= size ==> e.size <= f.size
      ensures size > 0 && prevRoom && nextRoom ==>
                (b == null <==> forall e <- Places(old(cells), false) ::
                  if at == 0 then e.size < size else !(e.begin <= at && at + size <= e.begin + e.size))
      ensures size > 0 && b == null ==>
                forall e <- Places(old(cells), false) ::
                  (if at == 0 then e.size >= size else e.begin <= at && at + size <= e.begin + e.size) ==>
                  || (!prevRoom && at != 0 && e.begin < at)
                  || (!nextRoom && if at == 0 then size < e.size else at + size < e.begin + e.size)
      ensures b != null && size == 0 ==> CellsHold() && !Laid(cells, range)
    {
      Apart(false);
      hide Core, Choice, Ordered, Keys, Granted;
      b, from := Obtain(at, size, sizeTree, addrTree, prevRoom, nextRoom);
      log := log + [From(from)];
      if size > 0 { ServedExact(Places(old(cells), false), from, at, size, prevRoom, nextRoom); }
    }

    static predicate IsLeast(k: nat, s: set<nat>) { k in s && forall l <- s :: k <= l }

    // the leftmost block of the map
    method First(m: AddrMap) returns (b: Block)
      requires m != map[]
      ensures exists k :: IsLeast(k, m.Keys) && m[k] == b
    {
      Least(m.Keys);
      var k :| IsLeast(k, m.Keys);
      b := m[k];
    }

    static lemma {:induction false} Least(s: set<nat>)
      requires s != {}
      ensures exists k :: IsLeast(k, s)
    {
      var k :| k in s;
      if s == {k} {
        assert IsLeast(k, s);
      } else {
        Least(s - {k});
        var l :| IsLeast(l, s - {k});
        var n := if l < k then l else k;
        forall x | x in s ensures n <= x { if x != k { assert x in s - {k}; } }
        assert IsLeast(n, s);
      }
    }

    /** clear_usr_pg_tbl: everything is freed, and the range is one free block again. */
    method ClearTable()
      requires Valid()
      modifies this, cells.Keys
      ensures Valid() && used == map[] && Places(cells, true) == {}
      ensures range.base < range.limit && Places(cells, false) == {Extent(range.base, range.limit - range.base)}
          && |cells| == 1
    {
      while used != map[]
        invariant Valid() && cells.Keys <= old(cells.Keys)
        decreases |used.Keys|
      {
        var b := First(used);
        ghost var k, u := b.begin, used.Keys;
        Filing(b);
        FreePage(b);
        assert used.Keys == u - {k};
      }
      NoneUsed();
    }

    lemma NoneUsed()
      requires Valid() && used == map[]
      ensures Places(cells, true) == {} && range.base < range.limit && |cells| == 1
      ensures Places(cells, false) == {Extent(range.base, range.limit - range.base)}
    {
      forall b | b in cells ensures !cells[b].isAllocated { assert Filed(cells, {}, bySize, byAddr, used, b); }
      OneBlock(cells, range);
    }

    // ---- any run of requests

    /** core_mm_pg_free: the block that contains the address is freed, wherever in the block the address lies. */
    method Release(at: nat, usedTree: Tree) returns (f: Found)
      requires Valid() && Ordered(CompareAddr, usedTree) && Keys(usedTree) == Extents(used)
      modifies this, cells.Keys
      ensures Valid() && cells.Keys <= old(cells.Keys) && log == old(log) + [Freed(f)]
      ensures f.Nothing? ==>
                && (forall e <- Places(cells, true) :: at < e.begin || e.begin + e.size <= at)
                && cells == old(cells) && used == old(used)
      ensures f.Key? ==>
                && f.key in Places(old(cells), true) && f.key.begin <= at < f.key.begin + f.key.size
                && Places(cells, true) == Places(old(cells), true) - {f.key}
    {
      UsedKeys();
      Apart(true);
      f := FindByAddr(usedTree, at);
      if f.Key? {
        assert f.key in Extents(used);
        var b := used[f.key.begin];
        assert b.begin == f.key.begin && b.size == f.key.size;
        FreePage(b);
      } else {
        log := log + [Freed(f)];
      }
    }

    // whether this can come of the request: the gap it is served from is the best or the asked-for one
    static ghost predicate Answers(r: Range, request: PageRequest, outcome: Outcome, taken: set<Extent>) {
      match request
      case Get(at, size, _, _) => outcome.From? && Choice(outcome.place, Gaps(r, taken), at, size)
      case Give(at) =>
        && outcome.Freed?
        && if outcome.place.Nothing? then forall e <- taken :: !Contains(e, at)
           else outcome.place.key in taken && Contains(outcome.place.key, at)
    }

    static ghost function After(request: PageRequest, outcome: Outcome, taken: set<Extent>): set<Extent> {
      if outcome.place.Nothing? then taken
      else
        var e := outcome.place.key;
        match request
        case Get(at, size, prevRoom, nextRoom) =>
          if Granted(e, at, size, prevRoom, nextRoom) then taken + {Extent(if at == 0 then e.begin else at, size)}
          else taken
        case Give(_) => taken - {e}
    }

    // requests of size 0 are not made
    static predicate Calls(request: PageRequest) { request.Get? ==> request.size > 0 }

    // the requests with these outcomes turn the allocated places from taken into taken'
    static ghost predicate Leaves(r: Range, requests: seq<PageRequest>, log: seq<Outcome>, taken: set<Extent>,
        taken': set<Extent>)
    {
      if requests == [] then log == [] && taken' == taken
      else if !Calls(requests[0]) then Leaves(r, requests[1..], log, taken, taken')
      else
        && log != [] && Answers(r, requests[0], log[0], taken)
        && Leaves(r, requests[1..], log[1..], After(requests[0], log[0], taken), taken')
    }

    static lemma LeavesOne(r: Range, request: PageRequest, log: seq<Outcome>, taken: set<Extent>, taken': set<Extent>)
      ensures Leaves(r, [request], log, taken, taken') <==>
                if Calls(request)
                then |log| == 1 && Answers(r, request, log[0], taken) && taken' == After(request, log[0], taken)
                else log == [] && taken' == taken
    {}

    /** What a run of requests leaves is what its last request makes of what the others leave. */
    static lemma {:induction false} LeavesLast(r: Range, requests: seq<PageRequest>, request: PageRequest,
        log: seq<Outcome>, taken: set<Extent>, taken': set<Extent>) returns (k: nat, mid: set<Extent>)
      requires Leaves(r, requests + [request], log, taken, taken')
      ensures k <= |log| && Leaves(r, requests, log[..k], taken, mid) && Leaves(r, [request], log[k..], mid, taken')
    {
      if requests == [] {
        k, mid := 0, taken;
        assert [] + [request] == [request] && log[0..] == log;
      } else {
        assert (requests + [request])[1..] == requests[1..] + [request];
        if Calls(requests[0]) {
          k, mid := LeavesLast(r, requests[1..], request, log[1..], After(requests[0], log[0], taken), taken');
          k := k + 1;
          assert log[..k][1..] == log[1..][..k - 1] && log[k..] == log[1..][k - 1..];
        } else {
          k, mid := LeavesLast(r, requests[1..], request, log, taken, taken');
        }
      }
    }

    /** What one request makes of the allocated places, in terms of the gaps between them. */
    static lemma AnswersExact(r: Range, request: PageRequest, outcome: Outcome, taken: set<Extent>)
      requires Answers(r, request, outcome, taken) && request.Get? && request.size > 0
      ensures var Get(at, size, prevRoom, nextRoom) := request;
              var taken', gaps := After(request, outcome, taken), Gaps(r, taken);
              && (prevRoom && nextRoom ==> (taken' == taken <==> forall e <- gaps ::
                    if at == 0 then e.size < size else !(e.begin <= at && at + size <= e.begin + e.size)))
              && (taken' == taken ==> forall e <- gaps ::
                    (if at == 0 then e.size >= size else e.begin <= at && at + size <= e.begin + e.size) ==>
                    || (!prevRoom && at != 0 && e.begin < at)
                    || (!nextRoom && if at == 0 then size < e.size else at + size < e.begin + e.size))
              && (taken' != taken ==> exists e <- gaps ::
                    && taken' == taken + {Extent(if at == 0 then e.begin else at, size)}
                    && if at != 0 then e.begin <= at && at + size <= e.begin + e.size
                       else e.size >= size && forall f <- gaps :: f.size >= size ==> e.size <= f.size)
    {
      var Get(at, size, prevRoom, nextRoom) := request;
      var gaps := Gaps(r, taken);
      forall e, f | e in gaps && f in gaps && e != f
        ensures e.begin + e.size <= f.begin || f.begin + f.size <= e.begin
      {
        GapsApart(r, taken, e, f);
      }
      ServedExact(gaps, outcome.place, at, size, prevRoom, nextRoom);
      if outcome.place.Key? && Granted(outcome.place.key, at, size, prevRoom, nextRoom) {
        var e := outcome.place.key;
        assert IsGap(r, taken, e) && Extent(if at == 0 then e.begin else at, size) !in taken;
      }
    }

    /** A release takes away exactly the place that contains the address. */
    static lemma ReleaseExact(r: Range, at: nat, outcome: Outcome, taken: set<Extent>)
      requires Answers(r, Give(at), outcome, taken) && Disjoint(taken)
      ensures After(Give(at), outcome, taken) == set e | e in taken && !(e.begin <= at < e.begin + e.size)
    {}

    static lemma {:induction false} LeavesMore(r: Range, requests: seq<PageRequest>, request: PageRequest,
        log: seq<Outcome>, more: seq<Outcome>, taken: set<Extent>, mid: set<Extent>, taken': set<Extent>)
      requires Leaves(r, requests, log, taken, mid) && Leaves(r, [request], more, mid, taken')
      ensures Leaves(r, requests + [request], log + more, taken, taken')
    {
      if requests == [] {
        assert [] + [request] == [request] && [] + more == more;
      } else {
        assert (requests + [request])[1..] == requests[1..] + [request];
        if Calls(requests[0]) {
          assert (log + more)[1..] == log[1..] + more;
          LeavesMore(r, requests[1..], request, log[1..], more, After(requests[0], log[0], taken), mid, taken');
        } else {
          LeavesMore(r, requests[1..], request, log, more, taken, mid, taken');
        }
      }
    }

    method Request(request: PageRequest)
      requires Valid()
      modifies this, cells.Keys
      ensures Valid() && fresh(cells.Keys - old(cells.Keys)) && old(log) <= log
      ensures Leaves(range, [request], log[|old(log)|..], Places(old(cells), true), Places(cells, true))
    {
      GapsExact(cells, range);
      hide Core, Leaves, Choice, Gaps;
      match request {
        case Get(at, size, prevRoom, nextRoom) =>
          if size > 0 {
            var sizeTree := AnyTree(CompareSize, bySize.Keys);
            var addrTree := AnyTree(CompareAddr, Extents(byAddr));
            var _, _ := AllocPage(at, size, sizeTree, addrTree, prevRoom, nextRoom);
          }
        case Give(at) =>
          var usedTree := AnyTree(CompareAddr, Extents(used));
          var _ := Release(at, usedTree);
      }
      LeavesOne(range, request, log[|old(log)|..], Places(old(cells), true), Places(cells, true));
    }

    /** After any run of requests, each with the trees in whatever shape, the invariant holds and the allocated places
        are those that serving the requests from the best or the asked-for gaps leaves; when nothing is left allocated
        there is a single free block. */
    method Requests(requests: seq<PageRequest>)
      requires Valid()
      modifies this, cells.Keys
      ensures Valid() && old(log) <= log
      ensures Leaves(range, requests, log[|old(log)|..], Places(old(cells), true), Places(cells, true))
      ensures used == map[] ==>
                && range.base < range.limit && Places(cells, false) == {Extent(range.base, range.limit - range.base)}
                && |cells| == 1
    {
      for n := 0 to |requests|
        invariant Valid() && old(log) <= log && forall b <- cells.Keys :: b in old(cells.Keys) || fresh(b)
        invariant Leaves(range, requests[..n], log[|old(log)|..], Places(old(cells), true), Places(cells, true))
      {
        ghost var start, before, mid := |old(log)|, log[|old(log)|..], Places(cells, true);
        Request(requests[n]);
        LeavesMore(range, requests[..n], requests[n], before, log[start + |before|..], Places(old(cells), true), mid,
          Places(cells, true));
        assert requests[..n + 1] == requests[..n] + [requests[n]];
        assert log[start..] == before + log[start + |before|..];
      }
      assert requests[..|requests|] == requests;
      if used == map[] { NoneUsed(); }
    }
  }

  // the free place a request for pages was served from, and the allocated one a release has found
  datatype Outcome = From(place: Found) | Freed(place: Found)
  datatype PageRequest = Get(at: nat, size: nat, prevRoom: bool, nextRoom: bool) | Give(at: nat)
}
