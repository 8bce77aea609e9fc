/** The invariant of a block tree, read back as the textbook definition over an explicit tree. */
module TreeMeaning {
  import opened Blocks
  import opened TreeLinks
  import opened TreeColors
  import opened TreeOrder

  datatype Shape = Leaf | Node(left: Shape, block: MemBlock, color: Color, right: Shape)

  // following the child pointers from b
  ghost function ShapeOf(m: Links, root: MemBlock?, b: MemBlock?): Shape
    requires Linked(m, root) && (b != null ==> b in m)
    decreases if b == null then {} else Inside(m, m[b].lo, m[b].hi), b != null
  {
    if b == null then Leaf
    else
      assert NodeOk(m, root, b) && KidOk(m, b, Left) && KidOk(m, b, Right);
      assert b in Inside(m, m[b].lo, m[b].hi);
      assert m[b].left != null ==> NodeOk(m, root, m[b].left);
      Node(ShapeOf(m, root, m[b].left), b, m[b].color, ShapeOf(m, root, m[b].right))
  }

  ghost function InOrder(t: Shape): seq<MemBlock> {
    if t.Leaf? then [] else InOrder(t.left) + [t.block] + InOrder(t.right)
  }

  // how many black nodes lie on each path from the top of t down to a leaf
  ghost function PathBlacks(t: Shape): set<nat> {
    if t.Leaf? then {0}
    else (set n | n in PathBlacks(t.left) + PathBlacks(t.right) :: n + if t.color == Black then 1 else 0)
  }

  ghost predicate RedFree(t: Shape) { t.Leaf? || t.color == Black }

  ghost predicate NoRedPair(t: Shape) {
    t.Node? ==> NoRedPair(t.left) && NoRedPair(t.right) && (t.color == Red ==> RedFree(t.left) && RedFree(t.right))
  }

  // the sequence visits exactly the nodes with ranks in the interval, each once, by rising rank
  ghost predicate Rising(m: Links, q: seq<MemBlock>, lo: real, hi: real) {
    && (forall b <- q :: b in m && lo < m[b].rank < hi)
    && (forall i, j :: 0 <= i < j < |q| ==> m[q[i]].rank < m[q[j]].rank)
  }

  lemma RisingJoined(m: Links, p: seq<MemBlock>, b: MemBlock, q: seq<MemBlock>, lo: real, hi: real)
    requires b in m && lo < m[b].rank < hi && Rising(m, p, lo, m[b].rank) && Rising(m, q, m[b].rank, hi)
    ensures Rising(m, p + [b] + q, lo, hi)
  {}

  lemma {:induction false} InOrderRises(m: Links, root: MemBlock?, b: MemBlock)
    requires Linked(m, root) && b in m
    ensures Rising(m, InOrder(ShapeOf(m, root, b)), m[b].lo, m[b].hi)
    decreases Inside(m, m[b].lo, m[b].hi)
  {
    assert NodeOk(m, root, b) && KidOk(m, b, Left) && KidOk(m, b, Right);
    assert b in Inside(m, m[b].lo, m[b].hi);
    if m[b].left != null { InOrderRises(m, root, m[b].left); }
    if m[b].right != null { InOrderRises(m, root, m[b].right); }
    hide Rising;
    RisingJoined(m, InOrder(ShapeOf(m, root, m[b].left)), b, InOrder(ShapeOf(m, root, m[b].right)), m[b].lo, m[b].hi);
  }

  lemma {:induction false} InOrderAll(m: Links, root: MemBlock?, b: MemBlock, c: MemBlock)
    requires Linked(m, root) && b in m && c in Inside(m, m[b].lo, m[b].hi)
    ensures c in InOrder(ShapeOf(m, root, b))
    decreases Inside(m, m[b].lo, m[b].hi)
  {
    assert NodeOk(m, root, b) && KidOk(m, b, Left) && KidOk(m, b, Right) && NodeOk(m, root, c);
    assert b in Inside(m, m[b].lo, m[b].hi) && Apart(m, b, c);
    assert m[b].left == null ==> Outside(m, c, m[b].lo, m[b].rank);
    assert m[b].right == null ==> Outside(m, c, m[b].rank, m[b].hi);
    if m[c].rank < m[b].rank {
      InOrderAll(m, root, m[b].left, c);
    } else if m[c].rank > m[b].rank {
      InOrderAll(m, root, m[b].right, c);
    }
  }

  lemma {:induction false} ColorsOf(m: Links, root: MemBlock?, b: MemBlock?)
    requires Linked(m, root) && NoFlaw(m) && (b != null ==> b in m)
    ensures NoRedPair(ShapeOf(m, root, b)) && PathBlacks(ShapeOf(m, root, b)) == {H(m, b)}
    decreases if b == null then {} else Inside(m, m[b].lo, m[b].hi), b != null
  {
    if b != null {
      assert NodeOk(m, root, b) && KidOk(m, b, Left) && KidOk(m, b, Right) && NodeColor(m, b, null, Left, null, null);
      assert b in Inside(m, m[b].lo, m[b].hi);
      ColorsOf(m, root, m[b].left);
      ColorsOf(m, root, m[b].right);
    }
  }

  /** The tree reached from the root holds exactly the linked blocks, each once, in size order; its root is black, no
      red node has a red child, and every path to a leaf meets the same number of black nodes. */
  lemma IsRedBlackTree(m: Links, root: MemBlock?)
    requires Linked(m, root) && NoFlaw(m) && Sorted(m) && (root != null ==> m[root].color == Black)
    ensures var t := ShapeOf(m, root, root); var q := InOrder(t);
            && (forall c :: c in q <==> c in m)
            && (forall i, j :: 0 <= i < j < |q| ==>
                  q[i] in m && q[j] in m && q[i] != q[j] && CompareLinks(m[q[i]], m[q[j]]) <= 0)
            && RedFree(t) && NoRedPair(t) && |PathBlacks(t)| == 1
  {
    ColorsOf(m, root, root);
    if root != null {
      var q := InOrder(ShapeOf(m, root, root));
      InOrderRises(m, root, root);
      assert NodeOk(m, root, root);
      forall c | c in m ensures c in q { assert NodeOk(m, root, c); InOrderAll(m, root, root, c); }
      forall i, j | 0 <= i < j < |q| ensures q[i] != q[j] && CompareLinks(m[q[i]], m[q[j]]) <= 0 {
        assert Ordered(m, q[i], q[j]);
      }
    }
  }
}
