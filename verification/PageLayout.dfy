/** The page blocks of one address range, as a map from blocks to the values of their fields. */
module PageLayout {
  class Block {
    var begin: nat
    var size: nat
    var isAllocated: bool
    var prev: Block?
    var next: Block?

    constructor (begin: nat, size: nat)
      ensures this.begin == begin && this.size == size && !isAllocated && prev == null && next == null
    {
      this.begin, this.size, isAllocated, prev, next := begin, size, false, null, null;
    }
  }

  datatype Extent = Extent(begin: nat, size: nat)
  datatype Cell = Cell(begin: nat, size: nat, isAllocated: bool, prev: Block?, next: Block?) {
    function Place(): Extent { Extent(begin, size) }
    function End(): nat { begin + size }
  }
  datatype Range = Range(base: nat, limit: nat)
  type Cells = map<Block, Cell>

  ghost predicate CellOk(m: Cells, r: Range, b: Block)
    requires b in m
  {
    var k := m[b];
    && k.size > 0 && r.base <= k.begin && k.End() <= r.limit
    && (if k.prev == null then k.begin == r.base else k.prev in m && m[k.prev].next == b)
    && (if k.next == null then k.End() == r.limit else k.next in m && m[k.next].prev == b && m[k.next].begin == k.End())
  }

  ghost predicate Clear(m: Cells, b: Block, c: Block)
    requires b in m && c in m
  { b != c ==> m[b].End() <= m[c].begin || m[c].End() <= m[b].begin }

  // the blocks tile the range in list order
  ghost predicate Laid(m: Cells, r: Range) {
    && (forall b {:trigger CellOk(m, r, b)} :: b in m ==> CellOk(m, r, b))
    && (forall b, c {:trigger Clear(m, b, c)} :: b in m && c in m ==> Clear(m, b, c))
    && m != map[]
  }

  // two free neighbours lie, if anywhere, inside [lo, hi)
  ghost predicate LooseAt(m: Cells, lo: nat, hi: nat, b: Block)
    requires b in m
  {
    !m[b].isAllocated && m[b].next != null && m[b].next in m && !m[m[b].next].isAllocated ==>
      lo <= m[b].begin && m[b].End() < hi
  }

  ghost predicate Loose(m: Cells, lo: nat, hi: nat) {
    forall b {:trigger LooseAt(m, lo, hi, b)} :: b in m ==> LooseAt(m, lo, hi, b)
  }

  ghost predicate Spaced(m: Cells) { Loose(m, 0, 0) }

  ghost predicate FreeAt(m: Cells, lo: nat, hi: nat, b: Block)
    requires b in m
  { m[b].begin < hi && lo < m[b].End() ==> !m[b].isAllocated }

  ghost predicate AllFree(m: Cells, lo: nat, hi: nat) {
    forall b {:trigger FreeAt(m, lo, hi, b)} :: b in m ==> FreeAt(m, lo, hi, b)
  }

  ghost function Places(m: Cells, isAllocated: bool): set<Extent> {
    set b | b in m && m[b].isAllocated == isAllocated :: m[b].Place()
  }

  // ---- q takes the first s bytes of b

  function FrontCell(m: Cells, b: Block, q: Block, s: nat, c: Block): Cell
    requires b in m && s <= m[b].size && (c in m || c == q)
  {
    if c == b then m[b].(begin := m[b].begin + s, size := m[b].size - s, prev := q)
    else if c == q then Cell(m[b].begin, s, false, m[b].prev, b)
    else if c == m[b].prev then m[c].(next := q)
    else m[c]
  }

  function SplitFront(m: Cells, b: Block, q: Block, s: nat): Cells
    requires b in m && s <= m[b].size
  { map c | c in m.Keys + {q} :: FrontCell(m, b, q, s, c) }

  // ---- q takes all but the first s bytes of b

  function BackCell(m: Cells, b: Block, q: Block, s: nat, c: Block): Cell
    requires b in m && s <= m[b].size && (c in m || c == q)
  {
    if c == b then m[b].(size := s, next := q)
    else if c == q then Cell(m[b].begin + s, m[b].size - s, false, b, m[b].next)
    else if c == m[b].next then m[c].(prev := q)
    else m[c]
  }

  function SplitBack(m: Cells, b: Block, q: Block, s: nat): Cells
    requires b in m && s <= m[b].size
  { map c | c in m.Keys + {q} :: BackCell(m, b, q, s, c) }

  ghost predicate Splittable(m: Cells, r: Range, b: Block, q: Block, s: nat) {
    Laid(m, r) && b in m && q !in m && CellOk(m, r, b) && 0 < s < m[b].size && !m[b].isAllocated
  }

  lemma FrontOk(m: Cells, r: Range, b: Block, q: Block, s: nat, c: Block)
    requires Splittable(m, r, b, q, s) && (c in m || c == q)
    ensures CellOk(SplitFront(m, b, q, s), r, c)
  {
    if c != q { assert CellOk(m, r, c); }
    var e := m[b].prev;
    if e != null { assert CellOk(m, r, e); }
  }

  lemma BackOk(m: Cells, r: Range, b: Block, q: Block, s: nat, c: Block)
    requires Splittable(m, r, b, q, s) && (c in m || c == q)
    ensures CellOk(SplitBack(m, b, q, s), r, c)
  {
    if c != q { assert CellOk(m, r, c); }
    var e := m[b].next;
    if e != null { assert CellOk(m, r, e); }
  }

  lemma SplitClear(m: Cells, r: Range, b: Block, q: Block, s: nat, c: Block, d: Block)
    requires Splittable(m, r, b, q, s) && (c in m || c == q) && (d in m || d == q)
    ensures Clear(SplitFront(m, b, q, s), c, d) && Clear(SplitBack(m, b, q, s), c, d)
  {
    assert Clear(m, if c == q then b else c, if d == q then b else d);
  }

  lemma SplitFrontLaid(m: Cells, r: Range, b: Block, q: Block, s: nat)
    requires Splittable(m, r, b, q, s)
    ensures Laid(SplitFront(m, b, q, s), r)
  {
    var m' := SplitFront(m, b, q, s);
    forall c | c in m' ensures CellOk(m', r, c) { FrontOk(m, r, b, q, s, c); }
    forall c, d | c in m' && d in m' ensures Clear(m', c, d) { SplitClear(m, r, b, q, s, c, d); }
    assert q in m';
  }

  lemma SplitBackLaid(m: Cells, r: Range, b: Block, q: Block, s: nat)
    requires Splittable(m, r, b, q, s)
    ensures Laid(SplitBack(m, b, q, s), r)
  {
    var m' := SplitBack(m, b, q, s);
    forall c | c in m' ensures CellOk(m', r, c) { BackOk(m, r, b, q, s, c); }
    forall c, d | c in m' && d in m' ensures Clear(m', c, d) { SplitClear(m, r, b, q, s, c, d); }
    assert q in m';
  }

  // the parts of b may now lie loose, but inside b's old extent [lo, hi)
  lemma SplitLoose(m: Cells, r: Range, b: Block, q: Block, s: nat, lo: nat, hi: nat)
    requires Splittable(m, r, b, q, s) && Loose(m, lo, hi) && AllFree(m, lo, hi)
    requires lo <= m[b].begin && m[b].End() <= hi
    ensures Loose(SplitFront(m, b, q, s), lo, hi) && AllFree(SplitFront(m, b, q, s), lo, hi)
    ensures Loose(SplitBack(m, b, q, s), lo, hi) && AllFree(SplitBack(m, b, q, s), lo, hi)
  {
    var f, k := SplitFront(m, b, q, s), SplitBack(m, b, q, s);
    forall c | c in f ensures LooseAt(f, lo, hi, c) && FreeAt(f, lo, hi, c) { FrontLoose(m, r, b, q, s, lo, hi, c); }
    forall c | c in k ensures LooseAt(k, lo, hi, c) && FreeAt(k, lo, hi, c) { BackLoose(m, r, b, q, s, lo, hi, c); }
  }

  lemma FrontLoose(m: Cells, r: Range, b: Block, q: Block, s: nat, lo: nat, hi: nat, c: Block)
    requires Splittable(m, r, b, q, s) && Loose(m, lo, hi) && AllFree(m, lo, hi) && (c in m || c == q)
    requires lo <= m[b].begin && m[b].End() <= hi
    ensures LooseAt(SplitFront(m, b, q, s), lo, hi, c) && FreeAt(SplitFront(m, b, q, s), lo, hi, c)
  {
    if c != q { assert LooseAt(m, lo, hi, c) && FreeAt(m, lo, hi, c) && CellOk(m, r, c); }
  }

  lemma BackLoose(m: Cells, r: Range, b: Block, q: Block, s: nat, lo: nat, hi: nat, c: Block)
    requires Splittable(m, r, b, q, s) && Loose(m, lo, hi) && AllFree(m, lo, hi) && (c in m || c == q)
    requires lo <= m[b].begin && m[b].End() <= hi
    ensures LooseAt(SplitBack(m, b, q, s), lo, hi, c) && FreeAt(SplitBack(m, b, q, s), lo, hi, c)
  {
    if c != q { assert LooseAt(m, lo, hi, c) && FreeAt(m, lo, hi, c) && CellOk(m, r, c); }
    else { assert LooseAt(m, lo, hi, b); }
  }

  // ---- a grows over the block b behind it

  function JoinCell(m: Cells, a: Block, b: Block, c: Block): Cell
    requires a in m && b in m && c in m
  {
    if c == a then m[a].(size := m[a].size + m[b].size, next := m[b].next)
    else if c == m[b].next then m[c].(prev := a)
    else m[c]
  }

  function Join(m: Cells, a: Block, b: Block): Cells
    requires a in m && b in m
  { map c | c in m && c != b :: JoinCell(m, a, b, c) }

  ghost predicate Joinable(m: Cells, r: Range, a: Block, b: Block) {
    && Laid(m, r) && a in m && b in m && m[a].next == b && CellOk(m, r, a) && CellOk(m, r, b)
    && !m[a].isAllocated && !m[b].isAllocated
  }

  lemma JoinOk(m: Cells, r: Range, a: Block, b: Block, c: Block)
    requires Joinable(m, r, a, b) && c in m && c != b
    ensures CellOk(Join(m, a, b), r, c)
  {
    assert CellOk(m, r, c);
    if m[b].next != null { assert CellOk(m, r, m[b].next); }
    if m[c].prev != null { assert CellOk(m, r, m[c].prev); }
  }

  lemma JoinClear(m: Cells, r: Range, a: Block, b: Block, c: Block, d: Block)
    requires Joinable(m, r, a, b) && c in m && c != b && d in m && d != b
    ensures Clear(Join(m, a, b), c, d)
  {
    assert Clear(m, c, d) && Clear(m, c, b) && Clear(m, b, d) && CellOk(m, r, c) && CellOk(m, r, d);
  }

  lemma JoinLaid(m: Cells, r: Range, a: Block, b: Block)
    requires Joinable(m, r, a, b)
    ensures Laid(Join(m, a, b), r)
  {
    var m' := Join(m, a, b);
    forall c | c in m' ensures CellOk(m', r, c) { JoinOk(m, r, a, b, c); }
    forall c, d | c in m' && d in m' ensures Clear(m', c, d) { JoinClear(m, r, a, b, c, d); }
    assert a in m';
  }

  lemma JoinLoose(m: Cells, r: Range, a: Block, b: Block, lo: nat, hi: nat)
    requires Joinable(m, r, a, b) && Loose(m, m[a].begin, hi) && AllFree(m, lo, hi) && m[a].begin <= lo
    ensures Loose(Join(m, a, b), m[a].begin, hi) && AllFree(Join(m, a, b), lo, hi)
    ensures Places(Join(m, a, b), true) == Places(m, true)
  {
    var m' := Join(m, a, b);
    forall c | c in m' ensures LooseAt(m', m[a].begin, hi, c) && FreeAt(m', lo, hi, c) {
      JoinLooseAt(m, r, a, b, lo, hi, c);
    }
    forall c | c in m && m[c].isAllocated ensures m[c].Place() in Places(m', true) {
      assert c in m' && m'[c].Place() == m[c].Place();
    }
  }

  lemma JoinLooseAt(m: Cells, r: Range, a: Block, b: Block, lo: nat, hi: nat, c: Block)
    requires Joinable(m, r, a, b) && Loose(m, m[a].begin, hi) && AllFree(m, lo, hi) && c in m && c != b
        && m[a].begin <= lo
    ensures LooseAt(Join(m, a, b), m[a].begin, hi, c) && FreeAt(Join(m, a, b), lo, hi, c)
  {
    assert LooseAt(m, m[a].begin, hi, c) && FreeAt(m, lo, hi, c) && LooseAt(m, m[a].begin, hi, b) && CellOk(m, r, c);
  }

  // ---- the ends of a run of free blocks

  ghost predicate Stops(m: Cells, b: Block?) { b == null || (b in m && m[b].isAllocated) }

  lemma RunStart(m: Cells, r: Range, a: Block, lo: nat, hi: nat)
    requires Laid(m, r) && AllFree(m, lo, hi) && a in m && r.base <= lo && m[a].begin < hi && Stops(m, m[a].prev)
    ensures m[a].begin <= lo
  {
    assert CellOk(m, r, a);
    if m[a].prev != null { assert CellOk(m, r, m[a].prev) && FreeAt(m, lo, hi, m[a].prev); }
  }

  lemma RunEnd(m: Cells, r: Range, a: Block, lo: nat, hi: nat)
    requires Laid(m, r) && AllFree(m, lo, hi) && a in m && hi <= r.limit && m[a].begin <= lo < hi && Stops(m, m[a].next)
    requires Loose(m, m[a].begin, hi) && lo < m[a].End()
    ensures Spaced(m)
  {
    assert CellOk(m, r, a);
    if m[a].next != null { assert CellOk(m, r, m[a].next) && FreeAt(m, lo, hi, m[a].next); }
    forall c | c in m ensures LooseAt(m, 0, 0, c) {
      assert LooseAt(m, m[a].begin, hi, c) && CellOk(m, r, c) && Clear(m, a, c);
    }
  }

  // ---- b is handed out or given back

  function Mark(m: Cells, b: Block, isAllocated: bool): Cells
    requires b in m
  { m[b := m[b].(isAllocated := isAllocated)] }

  lemma MarkLaid(m: Cells, r: Range, b: Block, isAllocated: bool)
    requires Laid(m, r) && b in m && m[b].isAllocated != isAllocated
    ensures Laid(Mark(m, b, isAllocated), r)
    ensures Places(Mark(m, b, isAllocated), isAllocated) == Places(m, isAllocated) + {m[b].Place()}
    ensures Places(Mark(m, b, isAllocated), !isAllocated) == Places(m, !isAllocated) - {m[b].Place()}
  {
    var m' := Mark(m, b, isAllocated);
    forall c | c in m' ensures CellOk(m', r, c) { assert CellOk(m, r, c); }
    forall c, d | c in m' && d in m' ensures Clear(m', c, d) { assert Clear(m, c, d); }
    MarkPlaces(m, r, b, isAllocated);
  }

  lemma MarkPlaces(m: Cells, r: Range, b: Block, isAllocated: bool)
    requires Laid(m, r) && b in m && m[b].isAllocated != isAllocated
    ensures Places(Mark(m, b, isAllocated), isAllocated) == Places(m, isAllocated) + {m[b].Place()}
    ensures Places(Mark(m, b, isAllocated), !isAllocated) == Places(m, !isAllocated) - {m[b].Place()}
  {
    var m' := Mark(m, b, isAllocated);
    forall c | c in m ensures m'[c].Place() == m[c].Place() {}
    forall c | c in m && c != b ensures m[c].Place() != m[b].Place() { assert CellOk(m, r, c) && Clear(m, b, c); }
    forall c | c in m && (c == b || m[c].isAllocated == isAllocated) ensures m[c].Place() in Places(m', isAllocated) {
      PlaceIn(m', c);
    }
    forall c | c in m && c != b && m[c].isAllocated != isAllocated ensures m[c].Place() in Places(m', !isAllocated) {
      PlaceIn(m', c);
    }
  }

  // the run of free blocks that b is in once it is given back
  function RunBegin(m: Cells, b: Block): nat
    requires b in m
  {
    var p := m[b].prev;
    if p != null && p in m && !m[p].isAllocated then m[p].begin else m[b].begin
  }

  function RunLimit(m: Cells, b: Block): nat
    requires b in m
  {
    var n := m[b].next;
    if n != null && n in m && !m[n].isAllocated then m[n].End() else m[b].End()
  }

  lemma FreeRun(m: Cells, r: Range, b: Block)
    requires Good(m, r) && b in m && m[b].isAllocated
    ensures var m', lo, hi := Mark(m, b, false), RunBegin(m, b), RunLimit(m, b);
            Loose(m', lo, hi) && AllFree(m', lo, hi) && r.base <= lo <= m[b].begin < hi <= r.limit
  {
    var m', lo, hi := Mark(m, b, false), RunBegin(m, b), RunLimit(m, b);
    RunBounds(m, r, b);
    forall c | c in m' ensures LooseAt(m', lo, hi, c) && FreeAt(m', lo, hi, c) { FreeRunAt(m, r, b, c); }
  }

  lemma RunBounds(m: Cells, r: Range, b: Block)
    requires Laid(m, r) && b in m
    ensures CellOk(m, r, b) && r.base <= RunBegin(m, b) <= m[b].begin < m[b].End() <= RunLimit(m, b) <= r.limit
    ensures m[b].prev != null ==> CellOk(m, r, m[b].prev)
    ensures m[b].next != null ==> CellOk(m, r, m[b].next)
  {
    assert CellOk(m, r, b);
    if m[b].prev != null { assert CellOk(m, r, m[b].prev); }
    if m[b].next != null { assert CellOk(m, r, m[b].next); }
  }

  lemma FreeRunAt(m: Cells, r: Range, b: Block, c: Block)
    requires Good(m, r) && b in m && m[b].isAllocated && c in m
    ensures var m', lo, hi := Mark(m, b, false), RunBegin(m, b), RunLimit(m, b);
            LooseAt(m', lo, hi, c) && FreeAt(m', lo, hi, c)
  {
    RunBounds(m, r, b);
    var p, n := m[b].prev, m[b].next;
    assert LooseAt(m, 0, 0, c) && CellOk(m, r, c) && Clear(m, b, c);
    if p != null { assert Clear(m, p, c); }
    if n != null { assert Clear(m, n, c); }
  }

  // ---- handing out a part of a free block, whose extent was [lo, hi)

  lemma OwnRun(m: Cells, r: Range, b: Block)
    requires Good(m, r) && b in m && !m[b].isAllocated
    ensures CellOk(m, r, b) && Loose(m, m[b].begin, m[b].End()) && AllFree(m, m[b].begin, m[b].End())
  {
    assert CellOk(m, r, b);
    forall c | c in m ensures LooseAt(m, m[b].begin, m[b].End(), c) && FreeAt(m, m[b].begin, m[b].End(), c) {
      assert LooseAt(m, 0, 0, c) && Clear(m, b, c);
    }
  }

  // b covers [lo, hi) but for at most one block on each side
  ghost predicate Flanked(m: Cells, b: Block, lo: nat, hi: nat)
    requires b in m
  {
    var p, n := m[b].prev, m[b].next;
    && (m[b].begin == lo || (p != null && p in m && m[p].begin == lo))
    && (m[b].End() == hi || (n != null && n in m && m[n].End() == hi))
  }

  lemma MarkSpaced(m: Cells, r: Range, b: Block, lo: nat, hi: nat)
    requires Laid(m, r) && Loose(m, lo, hi) && b in m && !m[b].isAllocated && Flanked(m, b, lo, hi)
    ensures Spaced(Mark(m, b, true))
  {
    var m' := Mark(m, b, true);
    forall c | c in m' ensures LooseAt(m', 0, 0, c) { MarkSpacedAt(m, r, b, lo, hi, c); }
  }

  lemma MarkSpacedAt(m: Cells, r: Range, b: Block, lo: nat, hi: nat, c: Block)
    requires Laid(m, r) && Loose(m, lo, hi) && b in m && !m[b].isAllocated && Flanked(m, b, lo, hi) && c in m
    ensures LooseAt(Mark(m, b, true), 0, 0, c)
  {
    RunBounds(m, r, b);
    var p, n := m[b].prev, m[b].next;
    assert LooseAt(m, lo, hi, c) && CellOk(m, r, c) && Clear(m, b, c);
    if p != null { assert Clear(m, p, c); }
    if n != null { assert Clear(m, n, c); }
  }

  /** Cutting b down to s bytes keeps the layout just when s is positive: nothing stops a request of size zero. */
  lemma ZeroBreaks(m: Cells, r: Range, b: Block, q: Block, s: nat)
    requires Laid(m, r) && b in m && q !in m && s < m[b].size && !m[b].isAllocated
    ensures Laid(SplitBack(m, b, q, s), r) <==> s > 0
  {
    assert CellOk(m, r, b);
    if s > 0 { SplitBackLaid(m, r, b, q, s); }
    var m' := SplitBack(m, b, q, s);
    assert b in m' && (s == 0 ==> !CellOk(m', r, b));
  }

  lemma FrontFlanked(m: Cells, r: Range, b: Block, q: Block, s: nat)
    requires Splittable(m, r, b, q, s)
    ensures var f := SplitFront(m, b, q, s);
            && f[b].begin == m[b].begin + s && f[b].End() == m[b].End() && !f[b].isAllocated
            && Flanked(f, b, m[b].begin, m[b].End())
  {
    assert SplitFront(m, b, q, s)[q] == FrontCell(m, b, q, s, q);
  }

  lemma BackFlanked(m: Cells, r: Range, b: Block, q: Block, s: nat, lo: nat)
    requires Splittable(m, r, b, q, s) && Flanked(m, b, lo, m[b].End()) && m[b].prev != q
    ensures var f := SplitBack(m, b, q, s);
            f[b].begin == m[b].begin && f[b].size == s && !f[b].isAllocated && Flanked(f, b, lo, m[b].End())
  {
    assert SplitBack(m, b, q, s)[q] == BackCell(m, b, q, s, q) && CellOk(m, r, b);
    if m[b].prev != null { assert CellOk(m, r, m[b].prev); }
  }

  lemma SplitPlaces(m: Cells, r: Range, b: Block, q: Block, s: nat)
    requires Splittable(m, r, b, q, s)
    ensures Places(SplitFront(m, b, q, s), true) == Places(m, true)
    ensures Places(SplitBack(m, b, q, s), true) == Places(m, true)
  {
    var f, k := SplitFront(m, b, q, s), SplitBack(m, b, q, s);
    forall c | c in m && m[c].isAllocated ensures m[c].Place() in Places(f, true) && m[c].Place() in Places(k, true) {
      PlaceIn(f, c);
      PlaceIn(k, c);
    }
  }

  // ---- what the layout means

  // walking the list from b to the block that holds address a
  lemma {:induction false} WalkTo(m: Cells, r: Range, b: Block, a: nat) returns (c: Block)
    requires Laid(m, r) && b in m && m[b].begin <= a < r.limit
    ensures c in m && m[c].begin <= a < m[c].End()
    decreases r.limit - m[b].begin
  {
    assert CellOk(m, r, b);
    if a < m[b].End() { c := b; } else { assert CellOk(m, r, m[b].next); c := WalkTo(m, r, m[b].next, a); }
  }

  lemma {:induction false} WalkBack(m: Cells, r: Range, b: Block) returns (c: Block)
    requires Laid(m, r) && b in m
    ensures c in m && m[c].begin == r.base
    decreases m[b].begin
  {
    assert CellOk(m, r, b);
    if m[b].prev == null { c := b; } else { assert CellOk(m, r, m[b].prev); c := WalkBack(m, r, m[b].prev); }
  }

  /** Every address of the range lies in exactly one block. */
  lemma Tiles(m: Cells, r: Range, a: nat) returns (b: Block)
    requires Laid(m, r) && r.base <= a < r.limit
    ensures b in m && m[b].begin <= a < m[b].End()
    ensures forall c :: c in m && m[c].begin <= a < m[c].End() ==> c == b
  {
    var some :| some in m;
    var first := WalkBack(m, r, some);
    b := WalkTo(m, r, first, a);
    forall c | c in m && m[c].begin <= a < m[c].End() ensures c == b { assert Clear(m, b, c); }
  }

  ghost predicate Good(m: Cells, r: Range) { Laid(m, r) && Spaced(m) }

  lemma PlaceIn(m: Cells, c: Block)
    requires c in m
    ensures m[c].Place() in Places(m, m[c].isAllocated)
  {}

  lemma ApartFrom(m: Cells, r: Range, b: Block, e: Extent)
    requires Laid(m, r) && b in m && !m[b].isAllocated && e in Places(m, true)
    ensures e.begin + e.size <= m[b].begin || m[b].End() <= e.begin
  {
    var d :| d in m && m[d].isAllocated && m[d].Place() == e;
    assert Clear(m, b, d);
  }

  // the neighbours of a free block are allocated
  lemma Beside(m: Cells, r: Range, b: Block)
    requires Good(m, r) && b in m && !m[b].isAllocated
    ensures CellOk(m, r, b)
    ensures m[b].prev != null ==>
              m[m[b].prev].isAllocated && m[m[b].prev].End() == m[b].begin && CellOk(m, r, m[b].prev)
    ensures m[b].next != null ==>
              m[m[b].next].isAllocated && m[m[b].next].begin == m[b].End() && CellOk(m, r, m[b].next)
  {
    assert CellOk(m, r, b) && LooseAt(m, 0, 0, b);
    if m[b].prev != null { assert CellOk(m, r, m[b].prev) && LooseAt(m, 0, 0, m[b].prev); }
    if m[b].next != null { assert CellOk(m, r, m[b].next); }
  }

  // e lies between the allocated places, and no longer extent with it does
  ghost predicate IsGap(r: Range, taken: set<Extent>, e: Extent) {
    && e.size > 0 && r.base <= e.begin && e.begin + e.size <= r.limit
    && (forall u <- taken :: u.begin + u.size <= e.begin || e.begin + e.size <= u.begin)
    && (e.begin == r.base || exists u <- taken :: u.begin + u.size == e.begin)
    && (e.begin + e.size == r.limit || exists u <- taken :: u.begin == e.begin + e.size)
  }

  ghost function Gaps(r: Range, taken: set<Extent>): set<Extent> {
    set b, n | r.base <= b < r.limit && 0 < n <= r.limit - r.base && IsGap(r, taken, Extent(b, n)) :: Extent(b, n)
  }

  lemma FreeIsGap(m: Cells, r: Range, b: Block)
    requires Good(m, r) && b in m && !m[b].isAllocated
    ensures IsGap(r, Places(m, true), m[b].Place())
  {
    Beside(m, r, b);
    forall u | u in Places(m, true) ensures u.begin + u.size <= m[b].begin || m[b].End() <= u.begin {
      ApartFrom(m, r, b, u);
    }
    if m[b].prev != null { PlaceIn(m, m[b].prev); }
    if m[b].next != null { PlaceIn(m, m[b].next); }
  }

  lemma GapIsFree(m: Cells, r: Range, e: Extent) returns (c: Block)
    requires Good(m, r) && IsGap(r, Places(m, true), e)
    ensures c in m && !m[c].isAllocated && m[c].Place() == e
  {
    c := Tiles(m, r, e.begin);
    PlaceIn(m, c);
    Beside(m, r, c);
    if m[c].begin < e.begin {
      var u :| u in Places(m, true) && u.begin + u.size == e.begin;
      ApartFrom(m, r, c, u);
    }
    if e.begin + e.size < m[c].End() {
      var u :| u in Places(m, true) && u.begin == e.begin + e.size;
      ApartFrom(m, r, c, u);
    }
    if m[c].next != null { PlaceIn(m, m[c].next); }
  }

  lemma GapsApart(r: Range, taken: set<Extent>, e: Extent, f: Extent)
    requires IsGap(r, taken, e) && IsGap(r, taken, f) && e != f
    ensures e.begin + e.size <= f.begin || f.begin + f.size <= e.begin
  {}

  /** The free blocks are exactly the gaps between the allocated places, each gap a single block. */
  lemma GapsExact(m: Cells, r: Range)
    requires Good(m, r)
    ensures Places(m, false) == Gaps(r, Places(m, true))
  {
    forall b | b in m && !m[b].isAllocated ensures m[b].Place() in Gaps(r, Places(m, true)) { FreeIsGap(m, r, b); }
    forall e | e in Gaps(r, Places(m, true)) ensures e in Places(m, false) {
      var c := GapIsFree(m, r, e);
      PlaceIn(m, c);
    }
  }

  /** The allocated places determine the free ones. */
  lemma Canonical(m: Cells, m': Cells, r: Range)
    requires Good(m, r) && Good(m', r) && Places(m, true) == Places(m', true)
    ensures Places(m, false) == Places(m', false)
  {
    GapsExact(m, r);
    GapsExact(m', r);
  }

  /** With nothing allocated, one free block covers the range. */
  lemma OneBlock(m: Cells, r: Range)
    requires Good(m, r) && Places(m, true) == {}
    ensures r.base < r.limit && Places(m, false) == {Extent(r.base, r.limit - r.base)} && |m| == 1
  {
    forall b | b in m ensures m[b].prev == null && m[b].next == null && CellOk(m, r, b) && !m[b].isAllocated {
      Alone(m, r, b);
    }
    var b :| b in m;
    forall c | c in m ensures c == b { assert Clear(m, b, c); }
    assert m.Keys == {b};
    assert |m| == |m.Keys|;
  }

  lemma Alone(m: Cells, r: Range, b: Block)
    requires Good(m, r) && Places(m, true) == {} && b in m
    ensures m[b].prev == null && m[b].next == null && CellOk(m, r, b) && !m[b].isAllocated
  {
    PlaceIn(m, b);
    Beside(m, r, b);
    if m[b].prev != null { PlaceIn(m, m[b].prev); }
    if m[b].next != null { PlaceIn(m, m[b].next); }
  }
}
