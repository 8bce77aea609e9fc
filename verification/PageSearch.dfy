/** Searching the maps of free page blocks, over whatever tree shape the map has at the time. */
module PageSearch {
  import opened PageLayout

  datatype Tree = Leaf | Node(left: Tree, key: Extent, right: Tree)
  datatype Found = Nothing | Key(key: Extent)

  function CompareAddr(p1: Extent, p2: Extent): int {
    if p1.begin > p2.begin then 1 else if p1.begin == p2.begin then 0 else -1
  }

  function CompareSize(p1: Extent, p2: Extent): int {
    if p1.size > p2.size then 1 else if p1.size == p2.size then CompareAddr(p1, p2) else -1
  }

  ghost function Keys(t: Tree): set<Extent> { if t.Leaf? then {} else Keys(t.left) + {t.key} + Keys(t.right) }

  type Order = (Extent, Extent) -> int

  ghost predicate Ordered(compare: Order, t: Tree) {
    t.Node? ==>
      && Ordered(compare, t.left) && Ordered(compare, t.right)
      && (forall k <- Keys(t.left) :: compare(k, t.key) < 0) && (forall k <- Keys(t.right) :: compare(k, t.key) > 0)
  }

  /** Both comparators are total orders on keys: antisymmetric, transitive, and zero only on keys a map takes for the
      same. */
  lemma ComparatorsOrder(p: Extent, q: Extent, r: Extent)
    ensures CompareSize(p, q) == -CompareSize(q, p) && CompareAddr(p, q) == -CompareAddr(q, p)
    ensures CompareSize(p, q) == 0 <==> p == q
    ensures CompareAddr(p, q) == 0 <==> p.begin == q.begin
    ensures CompareSize(p, q) <= 0 && CompareSize(q, r) <= 0 ==> CompareSize(p, r) <= 0
    ensures CompareAddr(p, q) <= 0 && CompareAddr(q, r) <= 0 ==> CompareAddr(p, r) <= 0
  {}

  function Side(compare: Order, s: set<Extent>, k: Extent, after: bool): set<Extent> {
    set e | e in s && (if after then compare(e, k) > 0 else compare(e, k) < 0)
  }

  // a tree over the keys, of any shape
  method AnyTree(compare: Order, s: set<Extent>) returns (t: Tree)
    requires forall e, f :: e in s && f in s ==> (compare(e, f) == 0 <==> e == f)
    ensures Ordered(compare, t) && Keys(t) == s
    decreases |s|
  {
    if s == {} {
      return Leaf;
    }
    var k :| k in s;
    Sides(compare, s, k);
    var left := AnyTree(compare, Side(compare, s, k, false));
    var right := AnyTree(compare, Side(compare, s, k, true));
    t := Node(left, k, right);
  }

  lemma Sides(compare: Order, s: set<Extent>, k: Extent)
    requires k in s && forall e <- s :: compare(e, k) == 0 <==> e == k
    ensures var below, above := Side(compare, s, k, false), Side(compare, s, k, true);
            s == below + {k} + above && |below| < |s| && |above| < |s|
  {
    Subset(Side(compare, s, k, false), s - {k});
    Subset(Side(compare, s, k, true), s - {k});
  }

  lemma {:induction false} Subset(s: set<Extent>, t: set<Extent>)
    requires s <= t
    ensures |s| <= |t|
  {
    if s != {} {
      var e :| e in s;
      Subset(s - {e}, t - {e});
    }
  }

  ghost predicate LeastFit(f: Found, s: set<Extent>, size: nat) {
    if f.Nothing? then forall k <- s :: k.size < size
    else f.key in s && f.key.size >= size && forall k <- s :: k.size >= size ==> f.key.size <= k.size
  }

  // the search callback and what its out-argument becomes
  function SearchSize(size: nat, key: Extent, best: Found): (int, Found) {
    if size > key.size then (1, best) else if size < key.size then (-1, Key(key)) else (0, Key(key))
  }

  function SearchAddr(address: nat, key: Extent): int {
    if address < key.begin then -1 else if address - key.begin >= key.size then 1 else 0
  }

  /** core_rtl_map_search with search_size: a key of the least sufficient size, whatever the tree. */
  method FindBySize(t: Tree, size: nat) returns (best: Found)
    requires Ordered(CompareSize, t)
    ensures LeastFit(best, Keys(t), size)
    ensures best.Nothing? <==> forall k <- Keys(t) :: k.size < size
    ensures best.Key? ==>
              && best.key in Keys(t) && best.key.size >= size
              && forall k <- Keys(t) :: k.size >= size ==> best.key.size <= k.size
  {
    var node := t;
    best := Nothing;
    while node.Node?
      invariant Ordered(CompareSize, node) && Keys(node) <= Keys(t)
      invariant forall k <- Keys(t) :: k in Keys(node) || k.size < size || (best.Key? && best.key.size <= k.size)
      invariant best.Key? ==> best.key in Keys(t) && best.key.size >= size
      invariant best.Key? ==> forall k <- Keys(node) :: k.size <= best.key.size
      decreases node
    {
      var (side, b) := SearchSize(size, node.key, best);
      best := b;
      if side > 0 {
        node := node.right;
      } else if side == 0 {
        return;
      } else {
        node := node.left;
      }
    }
  }

  ghost predicate Contains(k: Extent, address: nat) { k.begin <= address < k.begin + k.size }

  ghost predicate Disjoint(s: set<Extent>) {
    forall k, l :: k in s && l in s && k != l ==> k.begin + k.size <= l.begin || l.begin + l.size <= k.begin
  }

  /** core_rtl_map_search with search_addr: the key that contains the address, whatever the tree. */
  method FindByAddr(t: Tree, address: nat) returns (f: Found)
    requires Ordered(CompareAddr, t) && Disjoint(Keys(t)) && forall k <- Keys(t) :: k.size > 0
    ensures if f.Nothing? then forall k <- Keys(t) :: !Contains(k, address)
            else f.key in Keys(t) && Contains(f.key, address)
    ensures f.Nothing? <==> forall k <- Keys(t) :: address < k.begin || k.begin + k.size <= address
    ensures f.Key? ==> f.key.begin <= address < f.key.begin + f.key.size
  {
    var node := t;
    while node.Node?
      invariant Ordered(CompareAddr, node) && Keys(node) <= Keys(t)
      invariant forall k <- Keys(t) :: k in Keys(node) || !Contains(k, address)
      decreases node
    {
      var side := SearchAddr(address, node.key);
      if side > 0 {
        node := node.right;
      } else if side == 0 {
        return Key(node.key);
      } else {
        node := node.left;
      }
    }
    f := Nothing;
  }
}
