/** The order of the nodes by size and page index. */
module TreeOrder {
  import opened Blocks
  import opened TreeLinks

  function Compare(size1: nat, index1: nat, size2: nat, index2: nat): int {
    if size1 > size2 then 1
    else if size1 < size2 then -1
    else if index1 > index2 then 1
    else if index1 < index2 then -1
    else 0
  }

  /** The comparison is a total preorder on pairs of size and page index, with size first; equal pairs compare as zero.
      */
  lemma CompareOrders(s1: nat, i1: nat, s2: nat, i2: nat, s3: nat, i3: nat)
    ensures Compare(s1, i1, s2, i2) == -Compare(s2, i2, s1, i1)
    ensures Compare(s1, i1, s2, i2) <= 0 && Compare(s2, i2, s3, i3) <= 0 ==> Compare(s1, i1, s3, i3) <= 0
    ensures Compare(s1, i1, s2, i2) == 0 <==> s1 == s2 && i1 == i2
    ensures Compare(s1, i1, s2, i2) <= 0 ==> s1 <= s2
  {}

  function CompareLinks(k1: Link, k2: Link): int { Compare(k1.size, k1.index, k2.size, k2.index) }

  ghost predicate Ordered(m: Links, a: MemBlock, b: MemBlock)
    requires a in m && b in m
  { m[a].rank <= m[b].rank ==> CompareLinks(m[a], m[b]) <= 0 }

  ghost predicate Sorted(m: Links) {
    forall a, b {:trigger Ordered(m, a, b)} :: a in m && b in m ==> Ordered(m, a, b)
  }

  ghost predicate SameKeys(m: Links, m': Links) {
    && m'.Keys <= m.Keys
    && forall c <- m' :: m'[c].rank == m[c].rank && m'[c].size == m[c].size && m'[c].index == m[c].index
  }

  lemma SortedSame(m: Links, m': Links)
    requires Sorted(m) && SameKeys(m, m')
    ensures Sorted(m')
  {
    forall a, b | a in m' && b in m' ensures Ordered(m', a, b) { assert Ordered(m, a, b); }
  }

  // a new key of this size and index belongs between lo and hi
  ghost predicate Beside(m: Links, a: MemBlock, lo: real, hi: real, size: nat, index: nat)
    requires a in m
  {
    && (m[a].rank <= lo ==> Compare(m[a].size, m[a].index, size, index) <= 0)
    && (m[a].rank >= hi ==> Compare(size, index, m[a].size, m[a].index) <= 0)
  }

  ghost predicate Belongs(m: Links, lo: real, hi: real, size: nat, index: nat) {
    forall a {:trigger Beside(m, a, lo, hi, size, index)} :: a in m ==> Beside(m, a, lo, hi, size, index)
  }

  lemma BelongsRoot(m: Links, root: MemBlock, size: nat, index: nat)
    requires Linked(m, root)
    ensures Belongs(m, m[root].lo, m[root].hi, size, index)
  {
    assert NodeOk(m, root, root);
    forall a | a in m ensures Beside(m, a, m[root].lo, m[root].hi, size, index) { assert NodeOk(m, root, a); }
  }

  // one step of the descent
  lemma BelongsDown(m: Links, root: MemBlock?, cur: MemBlock, s: Side, size: nat, index: nat)
    requires Linked(m, root) && Sorted(m) && cur in m && Belongs(m, m[cur].lo, m[cur].hi, size, index)
    requires s == if Compare(size, index, m[cur].size, m[cur].index) <= 0 then Left else Right
    ensures Belongs(m, m[cur].Lo(s), m[cur].Hi(s), size, index)
  {
    forall a | a in m ensures Beside(m, a, m[cur].Lo(s), m[cur].Hi(s), size, index) {
      assert Beside(m, a, m[cur].lo, m[cur].hi, size, index) && Ordered(m, a, cur) && Ordered(m, cur, a);
    }
  }

  lemma AddSorted(m: Links, root: MemBlock?, n: MemBlock, p: MemBlock, s: Side, size: nat, index: nat)
    requires Addable(m, root, n, p, s) && Sorted(m) && Belongs(m, m[p].Lo(s), m[p].Hi(s), size, index)
    ensures Sorted(AddLeaf(m, n, p, s, size, index))
  {
    var m' := AddLeaf(m, n, p, s, size, index);
    assert KidOk(m, p, s);
    forall a, b | a in m' && b in m' ensures Ordered(m', a, b) {
      if a != n && b != n { assert Ordered(m, a, b); }
      else if a != n {
        assert Outside(m, a, m[p].Lo(s), m[p].Hi(s)) && Beside(m, a, m[p].Lo(s), m[p].Hi(s), size, index);
      }
      else if b != n {
        assert Outside(m, b, m[p].Lo(s), m[p].Hi(s)) && Beside(m, b, m[p].Lo(s), m[p].Hi(s), size, index);
      }
    }
  }

  // everything but x is in order
  ghost predicate SortedBut(m: Links, x: MemBlock) {
    forall a, b {:trigger Ordered(m, a, b)} :: a in m && b in m && a != x && b != x ==> Ordered(m, a, b)
  }

  // nothing lies between a node and the last of its left subtree, so they may change places if the node is to go
  lemma SwapSorted(m: Links, root: MemBlock?, n: MemBlock, q: MemBlock)
    requires Linked(m, root) && Sorted(m) && n in m && q in m && n != q
    requires NodeOk(m, root, n) && NodeOk(m, root, q) && m[q].right == null && m[q].hi == m[n].rank
    ensures SortedBut(Swap(m, n, q), n)
  {
    var m' := Swap(m, n, q);
    assert KidOk(m, q, Right);
    forall a, b | a in m' && b in m' && a != n && b != n ensures Ordered(m', a, b) {
      SwapOrdered(m, root, n, q, a, b);
    }
  }

  lemma SwapOrdered(m: Links, root: MemBlock?, n: MemBlock, q: MemBlock, a: MemBlock, b: MemBlock)
    requires Linked(m, root) && Sorted(m) && n in m && q in m && n != q && a in m && b in m && a != n && b != n
    requires NodeOk(m, root, n) && NodeOk(m, root, q) && Empty(m, m[q].rank, m[n].rank) && m[q].rank < m[n].rank
    ensures Ordered(Swap(m, n, q), a, b)
  {
    assert Ordered(m, a, b) && Outside(m, a, m[q].rank, m[n].rank) && Outside(m, b, m[q].rank, m[n].rank);
    assert NodeOk(m, root, a) && NodeOk(m, root, b) && Apart(m, a, n) && Apart(m, b, n);
  }

  lemma SortedGone(m: Links, m': Links, x: MemBlock)
    requires SortedBut(m, x) && SameKeys(m, m') && x !in m'
    ensures Sorted(m')
  {
    forall a, b | a in m' && b in m' ensures Ordered(m', a, b) { assert Ordered(m, a, b); }
  }

  lemma RotateKeys(m: Links, x: MemBlock, y: MemBlock, s: Side)
    requires x in m && y in m
    ensures SameKeys(m, Rotate(m, x, y, s)) && Rotate(m, x, y, s).Keys == m.Keys
  {}
}
