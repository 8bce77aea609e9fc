/** The red-black trees that index the blocks of a heap by size, with the pointers in the blocks themselves. Every
    method runs on the pointers; the ghost map of links says what they amount to. */
module BlockTrees {
  import opened Blocks
  import opened TreeLinks
  import opened TreeColors
  import opened TreeOrder

  class BlockTree {
    var root: MemBlock?
    ghost var links: Links

    constructor ()
      ensures root == null && links == map[] && Valid()
    {
      root, links := null, map[];
    }

    ghost predicate Holds(b: MemBlock, k: Link)
      reads b
    {
      && b.parent == k.parent && b.left == k.left && b.right == k.right && b.color == k.color && b.size == k.size
      && b.page.index == k.index
    }

    ghost predicate Matches()
      reads this`links, links.Keys
    {
      forall b {:trigger Holds(b, links[b])} :: b in links ==> Holds(b, links[b])
    }

    // the pointer changes of a left rotation
    method TurnLeft(node: MemBlock) returns (newParent: MemBlock)
      requires node.right != null
      requires var p, y, b := node.parent, node.right, node.right.left;
               node != y && p != node && p != y && (b != null ==> b != node && b != y && b != p)
      modifies this`root, node`parent, node`right, node.right`parent, node.right`left
      modifies (if node.parent != null then {node.parent} else {})`left
      modifies (if node.parent != null then {node.parent} else {})`right
      modifies (if node.right.left != null then {node.right.left} else {})`parent
      ensures newParent == old(node.right)
      ensures root == if old(node.parent) == null then newParent else old(root)
      ensures node.parent == newParent && node.right == old(node.right.left)
      ensures newParent.parent == old(node.parent) && newParent.left == node
      ensures old(node.right.left) != null ==> old(node.right.left).parent == node
      ensures old(node.parent) != null ==>
                var p := old(node.parent);
                && p.left == (if old(p.left) == node then newParent else old(p.left))
                && p.right == (if old(p.left) == node then old(p.right) else newParent)
    {
      newParent := node.right;
      newParent.parent := node.parent;
      if node.parent == null {
        root := newParent;
      } else if node == node.parent.left {
        node.parent.left := newParent;
      } else {
        node.parent.right := newParent;
      }
      node.right := newParent.left;
      if node.right != null {
        node.right.parent := node;
      }
      newParent.left := node;
      node.parent := newParent;
    }

    method RotateLeft(node: MemBlock) returns (newParent: MemBlock)
      requires Matches() && node in links && links[node].right != null
      requires Quad(links, node, links[node].right, Left)
      modifies this`root, this`links, links.Keys`parent, links.Keys`left, links.Keys`right
      ensures newParent == old(links)[node].right
      ensures links == Rotate(old(links), node, newParent, Left)
          && root == NewRoot(old(links), old(root), node, newParent)
      ensures Matches()
    {
      ghost var m := links;
      assert Holds(node, m[node]) && Holds(node.right, m[node.right]);
      newParent := TurnLeft(node);
      links := Rotate(m, node, newParent, Left);
      forall c | c in links ensures Holds(c, links[c]) {
        assert old(Holds(c, m[c])) && links[c] == Turned(m, node, newParent, Left, c);
      }
    }

    // the pointer changes of a right rotation
    method TurnRight(node: MemBlock) returns (newParent: MemBlock)
      requires node.left != null
      requires var p, y, b := node.parent, node.left, node.left.right;
               node != y && p != node && p != y && (b != null ==> b != node && b != y && b != p)
      modifies this`root, node`parent, node`left, node.left`parent, node.left`right
      modifies (if node.parent != null then {node.parent} else {})`left
      modifies (if node.parent != null then {node.parent} else {})`right
      modifies (if node.left.right != null then {node.left.right} else {})`parent
      ensures newParent == old(node.left)
      ensures root == if old(node.parent) == null then newParent else old(root)
      ensures node.parent == newParent && node.left == old(node.left.right)
      ensures newParent.parent == old(node.parent) && newParent.right == node
      ensures old(node.left.right) != null ==> old(node.left.right).parent == node
      ensures old(node.parent) != null ==>
                var p := old(node.parent);
                && p.left == (if old(p.left) == node then newParent else old(p.left))
                && p.right == (if old(p.left) == node then old(p.right) else newParent)
    {
      newParent := node.left;
      newParent.parent := node.parent;
      if node.parent == null {
        root := newParent;
      } else if node == node.parent.left {
        node.parent.left := newParent;
      } else {
        node.parent.right := newParent;
      }
      node.left := newParent.right;
      if node.left != null {
        node.left.parent := node;
      }
      newParent.right := node;
      node.parent := newParent;
    }

    method RotateRight(node: MemBlock) returns (newParent: MemBlock)
      requires Matches() && node in links && links[node].left != null
      requires Quad(links, node, links[node].left, Right)
      modifies this`root, this`links, links.Keys`parent, links.Keys`left, links.Keys`right
      ensures newParent == old(links)[node].left
      ensures links == Rotate(old(links), node, newParent, Right)
          && root == NewRoot(old(links), old(root), node, newParent)
      ensures Matches()
    {
      ghost var m := links;
      assert Holds(node, m[node]) && Holds(node.left, m[node.left]);
      newParent := TurnRight(node);
      links := Rotate(m, node, newParent, Right);
      forall c | c in links ensures Holds(c, links[c]) {
        assert old(Holds(c, m[c])) && links[c] == Turned(m, node, newParent, Right, c);
      }
    }

    // first part: the parents
    method SwapParents(p1: MemBlock, p2: MemBlock)
      requires p1 != p2 && (p1.parent == null || p1.parent != p2.parent)
      requires p1.parent != null ==>
                (p1.parent.left == p1) != (p1.parent.right == p1) && p1.parent.left != p2 && p1.parent.right != p2
      requires p2.parent != null ==>
                (p2.parent.left == p2) != (p2.parent.right == p2) && p2.parent.left != p1 && p2.parent.right != p1
      modifies this`root, p1`parent, p2`parent
      modifies Only(p1.parent)`left, Only(p1.parent)`right, Only(p2.parent)`left, Only(p2.parent)`right
      ensures root == if old(p2.parent) == null then p1 else if old(p1.parent) == null then p2 else old(root)
      ensures p1.parent == old(p2.parent) && p2.parent == old(p1.parent)
      ensures old(p1.parent) != null ==>
                var o := old(p1.parent);
                o.left == Renamed(p1, p2, old(o.left)) && o.right == Renamed(p1, p2, old(o.right))
      ensures old(p2.parent) != null ==>
                var o := old(p2.parent);
                o.left == Renamed(p1, p2, old(o.left)) && o.right == Renamed(p1, p2, old(o.right))
    {
      if p1.parent == null {
        root := p2;
      } else {
        if p1 == p1.parent.left {
          p1.parent.left := p2;
        } else {
          p1.parent.right := p2;
        }
      }
      if p2.parent == null {
        root := p1;
      } else {
        if p2 == p2.parent.left {
          p2.parent.left := p1;
        } else {
          p2.parent.right := p1;
        }
      }
      p1.parent, p2.parent := p2.parent, p1.parent;
    }

    method SwapLefts(p1: MemBlock, p2: MemBlock)
      requires p1 != p2 && (p1.left == null || p1.left != p2.left)
      modifies p1`left, p2`left, Only(p1.left)`parent, Only(p2.left)`parent
      ensures p1.left == old(p2.left) && p2.left == old(p1.left)
      ensures p1.left != null ==> p1.left.parent == p1
      ensures p2.left != null ==> p2.left.parent == p2
    {
      p1.left, p2.left := p2.left, p1.left;
      if p1.left != null {
        p1.left.parent := p1;
      }
      if p2.left != null {
        p2.left.parent := p2;
      }
    }

    method SwapRights(p1: MemBlock, p2: MemBlock)
      requires p1 != p2 && (p1.right == null || p1.right != p2.right)
      modifies p1`right, p2`right, Only(p1.right)`parent, Only(p2.right)`parent
      ensures p1.right == old(p2.right) && p2.right == old(p1.right)
      ensures p1.right != null ==> p1.right.parent == p1
      ensures p2.right != null ==> p2.right.parent == p2
    {
      p1.right, p2.right := p2.right, p1.right;
      if p1.right != null {
        p1.right.parent := p1;
      }
      if p2.right != null {
        p2.right.parent := p2;
      }
    }

    // p's links and its neighbours' agree
    static ghost predicate Near(p: MemBlock)
      reads p, Only(p.parent), Only(p.left), Only(p.right)
    {
      && (p.parent != null ==> (p.parent.left == p) != (p.parent.right == p))
      && (p.left != null ==> p.left.parent == p) && (p.right != null ==> p.right.parent == p)
      && (p.left != null ==> p.left != p.right) && p.left != p && p.right != p && p.parent != p
      && (p.parent != null ==> p.parent != p.left && p.parent != p.right)
    }

    // a child k of one of the pair now has p as its parent
    static ghost predicate Moved(k: MemBlock?, p1: MemBlock, p2: MemBlock, p: MemBlock)
      reads Only(k)
    {
      k != null && k != p1 && k != p2 ==> k.parent == p
    }

    method SwapFields(p1: MemBlock, p2: MemBlock)
      requires p1 != p2 && Near(p1) && Near(p2) && (p1.parent == null || p1.parent != p2.parent) && p1.parent != p2
      requires p1.left != null && p1.right != null && p2.right == null && p2.parent != null && p1.right != p2
      requires p1.parent != null ==> p1.parent.left != p2 && p1.parent.right != p2
      requires p2.parent != null ==> p2.parent.left != p1 && p2.parent.right != p1
      modifies this`root, p1`parent, p2`parent, p1`left, p2`left, p1`right, p2`right, p1`color, p2`color
      modifies Only(p1.parent)`left, Only(p1.parent)`right, Only(p2.parent)`left, Only(p2.parent)`right
      modifies Only(p1.left)`parent, Only(p1.right)`parent, Only(p2.left)`parent, Only(p2.right)`parent
      ensures root == if old(p2.parent) == null then p1 else if old(p1.parent) == null then p2 else old(root)
      ensures p1.parent == Renamed(p1, p2, old(p2.parent)) && p2.parent == Renamed(p1, p2, old(p1.parent))
      ensures p1.left == Renamed(p1, p2, old(p2.left)) && p2.left == Renamed(p1, p2, old(p1.left))
      ensures p1.right == Renamed(p1, p2, old(p2.right)) && p2.right == Renamed(p1, p2, old(p1.right))
      ensures p1.color == old(p2.color) && p2.color == old(p1.color)
      ensures Moved(old(p1.left), p1, p2, p2) && Moved(old(p1.right), p1, p2, p2)
      ensures Moved(old(p2.left), p1, p2, p1) && Moved(old(p2.right), p1, p2, p1)
      ensures var o := old(p1.parent);
              o != null && o != p2 ==>
                o.left == Renamed(p1, p2, old(o.left)) && o.right == Renamed(p1, p2, old(o.right))
      ensures var o := old(p2.parent);
              o != null && o != p1 ==>
                o.left == Renamed(p1, p2, old(o.left)) && o.right == Renamed(p1, p2, old(o.right))
    {
      SwapParents(p1, p2);
      SwapLefts(p1, p2);
      SwapRights(p1, p2);
      p1.color, p2.color := p2.color, p1.color;
    }

    // what the swap does to a node outside the pair
    twostate predicate Seen(c: MemBlock, p1: MemBlock, p2: MemBlock)
      reads c
    {
      && c.parent == (if c == old(p1.left) || c == old(p1.right) then p2
                      else if c == old(p2.left) then p1 else old(c.parent))
      && c.left == (if c == old(p1.parent) || c == old(p2.parent) then Renamed(p1, p2, old(c.left)) else old(c.left))
      && c.right == (if c == old(p1.parent) || c == old(p2.parent) then Renamed(p1, p2, old(c.right)) else old(c.right))
      && c.color == old(c.color) && c.size == old(c.size)
    }

    method SwapSeen(p1: MemBlock, p2: MemBlock, ghost s: set<MemBlock>)
      requires p1 != p2 && Near(p1) && Near(p2) && (p1.parent == null || p1.parent != p2.parent) && p1.parent != p2
      requires p1.left != null && p1.right != null && p2.right == null && p2.parent != null && p1.right != p2
      requires p1.parent != null ==> p1.parent.left != p2 && p1.parent.right != p2
      requires p2.parent != null ==> p2.parent.left != p1 && p2.parent.right != p1
      requires p1 in s && p2 in s && p2.parent in s && p1.left in s && p1.right in s && Only(p1.parent) <= s
          && Only(p2.left) <= s
      modifies this`root, s`parent, s`left, s`right, s`color
      ensures root == if old(p1.parent) == null then p2 else old(root)
      ensures p1.parent == Renamed(p1, p2, old(p2.parent)) && p2.parent == Renamed(p1, p2, old(p1.parent))
      ensures p1.left == Renamed(p1, p2, old(p2.left)) && p2.left == Renamed(p1, p2, old(p1.left))
      ensures p1.right == Renamed(p1, p2, old(p2.right)) && p2.right == Renamed(p1, p2, old(p1.right))
      ensures p1.color == old(p2.color) && p2.color == old(p1.color)
      ensures forall c {:trigger Seen(c, p1, p2)} :: c in s && c != p1 && c != p2 ==> Seen(c, p1, p2)
    {
      SwapFields(p1, p2);
    }

    /** swap_node: the two nodes change places and colours, even when one is the child of the other. */
    method SwapNodes(p1: MemBlock, p2: MemBlock)
      requires Matches() && Swappable(links, root, p1, p2)
      modifies this`root, this`links, links.Keys`parent, links.Keys`left, links.Keys`right, links.Keys`color
      ensures links == Swap(old(links), p1, p2) && root == Renamed(p1, p2, old(root))
      ensures Matches()
    {
      ghost var m := links;
      SwapReady(p1, p2);
      SwapSeen(p1, p2, links.Keys);
      links := Swap(m, p1, p2);
      forall c | c in links ensures Holds(c, links[c]) {
        assert links[c] == Swapped(m, p1, p2, c);
        if c != p1 && c != p2 {
          assert old(Holds(c, m[c]));
          SwappedView(m, old(root), p1, p2, c);
          assert Seen(c, p1, p2);
        }
      }
    }

    lemma SwapReady(p1: MemBlock, p2: MemBlock)
      requires Matches() && Swappable(links, root, p1, p2)
      ensures p1 != p2 && Near(p1) && Near(p2) && (p1.parent == null || p1.parent != p2.parent) && p1.parent != p2
      ensures p1.left != null && p1.right != null && p2.right == null && p2.parent != null && p1.right != p2
      ensures p1.parent != null ==> p1.parent.left != p2 && p1.parent.right != p2
      ensures p2.parent != null ==> p2.parent.left != p1 && p2.parent.right != p1
      ensures Holds(p1, links[p1]) && Holds(p2, links[p2])
      ensures p2.parent in links && p1.left in links && p1.right in links
      ensures p2.left != null ==> p2.left in links
      ensures p1.parent == null <==> p1 == root
      ensures p1.parent != null ==> p1.parent in links && Holds(p1.parent, links[p1.parent])
      ensures Holds(p2.parent, links[p2.parent])
    {
      var m := links;
      SwapNear(m, root, p1, p2);
      ParentNear(m, root, p2);
      assert Holds(p1, m[p1]) && Holds(p2, m[p2]) && Holds(m[p2].parent, m[m[p2].parent]);
      assert Holds(m[p1].left, m[m[p1].left]) && Holds(m[p1].right, m[m[p1].right]);
      if m[p1].parent != null { ParentNear(m, root, p1); assert Holds(m[p1].parent, m[m[p1].parent]); }
      if m[p2].left != null { assert Holds(m[p2].left, m[m[p2].left]); }
    }

    // ---- insertion

    ghost predicate Valid()
      reads this, links.Keys
    {
      Matches() && Good(links, root)
    }

    // list links and flags of the blocks do not matter to a tree
    twostate lemma Untouched()
      requires old(Valid()) && links == old(links) && root == old(root)
      requires forall b <- links :: b.parent == old(b.parent) && b.left == old(b.left) && b.right == old(b.right)
                                    && b.color == old(b.color) && b.size == old(b.size)
      ensures Valid()
    {
      forall b | b in links ensures Holds(b, links[b]) { assert old(Holds(b, links[b])); }
    }

    static ghost predicate Good(m: Links, root: MemBlock?) {
      Linked(m, root) && NoFlaw(m) && Sorted(m) && (root != null ==> m[root].color == Black)
    }

    static lemma OneDown(m: Links, root: MemBlock?, at: MemBlock, s: Side)
      requires Linked(m, root) && at in m && m[at].Kid(s) != null
      ensures m[at].Kid(s) in m && NodeOk(m, root, m[at].Kid(s))
      ensures var k := m[m[at].Kid(s)]; k.lo == m[at].Lo(s) && k.hi == m[at].Hi(s)
      ensures var k := m[m[at].Kid(s)]; Inside(m, k.lo, k.hi) < Inside(m, m[at].lo, m[at].hi)
    {
      assert NodeOk(m, root, at) && KidOk(m, at, s) && NodeOk(m, root, m[at].Kid(s));
      assert at in Inside(m, m[at].lo, m[at].hi);
    }

    // the new node becomes a red leaf below the last node met on the way down
    method Attach(node: MemBlock) returns (ghost p: MemBlock, ghost s: Side)
      requires Matches() && Linked(links, root) && Sorted(links) && root != null && node !in links
      requires node.left == null && node.right == null
      modifies this`links, node`parent, node`color, links.Keys`left, links.Keys`right
      ensures old(p in links && links[p].Kid(s) == null && NodeOk(links, root, p))
      ensures old(Belongs(links, links[p].Lo(s), links[p].Hi(s), node.size, node.page.index))
      ensures links == AddLeaf(old(links), node, p, s, node.size, node.page.index)
      ensures Matches()
    {
      var at: MemBlock := root;
      BelongsRoot(links, root, node.size, node.page.index);
      assert NodeOk(links, root, root);
      hide Linked, Sorted, Inside, NodeOk;
      while true
        invariant at in links && links == old(links) && Matches()
        invariant Belongs(links, links[at].lo, links[at].hi, node.size, node.page.index)
        invariant NodeOk(links, root, at)
        decreases Inside(links, links[at].lo, links[at].hi)
      {
        p := at;
        assert Holds(at, links[at]);
        if Compare(node.size, node.page.index, at.size, at.page.index) <= 0 {
          s := Left;
          BelongsDown(links, root, at, Left, node.size, node.page.index);
          if at.left == null {
            at.left := node;
            node.parent := at;
            break;
          } else {
            OneDown(links, root, at, Left);
            at := at.left;
          }
        } else {
          s := Right;
          BelongsDown(links, root, at, Right, node.size, node.page.index);
          if at.right == null {
            at.right := node;
            node.parent := at;
            break;
          } else {
            OneDown(links, root, at, Right);
            at := at.right;
          }
        }
      }
      node.color := Red;
      ghost var m := links;
      links := AddLeaf(m, node, p, s, node.size, node.page.index);
      forall c | c in links ensures Holds(c, links[c]) {
        if c != node { assert old(Holds(c, links[c])); }
      }
    }

    // z is red and may hang from a red parent; nothing else is wrong
    static ghost predicate FixState(m: Links, root: MemBlock?, z: MemBlock) {
      && Linked(m, root) && Colored(m, null, Left, null, z) && IsRed(m, z)
      && root != null && (m[root].color == Black || root == z)
    }

    // ... and its red parent is on this side of the grandparent
    static ghost predicate RedRed(m: Links, root: MemBlock?, z: MemBlock, s: Side) {
      && z in m && m[z].parent != null && m[z].parent in m && m[m[z].parent].parent != null
      && m[m[z].parent].parent in m
      && Uncle(m, root, z, m[z].parent, m[m[z].parent].parent, s)
      && FixState(m, root, z)
    }

    // the parent and the uncle of z turn black, the grandparent red
    method Lighter(z: MemBlock, y: MemBlock)
      requires Matches() && z in links && links[z].parent != null && links[z].parent in links
      requires y in links && links[links[z].parent].parent != null && links[links[z].parent].parent in links
      requires var p, g := links[z].parent, links[links[z].parent].parent; p != y && p != g && y != g
      modifies this`links, links.Keys`color
      ensures links == Lighten(old(links), old(links[z].parent), y, old(links[links[z].parent].parent)) && Matches()
    {
      ghost var m, p, g := links, links[z].parent, links[links[z].parent].parent;
      assert Holds(z, m[z]) && Holds(p, m[p]) && Holds(g, m[g]);
      assert z.parent == p && p.parent == g;
      z.parent.color := Black;
      y.color := Black;
      z.parent.parent.color := Red;
      links := Lighten(m, p, y, g);
      forall c | c in links ensures Holds(c, links[c]) {
        assert old(Holds(c, links[c])) && links[c] == m[c].(color := c.color, bh := links[c].bh);
      }
    }

    // two nodes change colour; the new black heights are ghosts
    method PaintTwo(a: MemBlock, ca: Color, ghost ha: nat, b: MemBlock, cb: Color, ghost hb: nat)
      requires Matches() && a in links && b in links && a != b
      modifies this`links, a`color, b`color
      ensures links == Paint2(old(links), a, ca, ha, b, cb, hb) && Matches()
    {
      a.color := ca;
      b.color := cb;
      links := Paint2(links, a, ca, ha, b, cb, hb);
      forall c | c in links ensures Holds(c, links[c]) { assert old(Holds(c, links[c])); }
    }

    // the parent of z turns black, the grandparent red
    method Raiser(z: MemBlock)
      requires Matches() && z in links && links[z].parent != null && links[z].parent in links
      requires links[links[z].parent].parent != null && links[links[z].parent].parent in links
      requires links[z].parent != links[links[z].parent].parent
      modifies this`links, links.Keys`color
      ensures links == Raise(old(links), old(links[z].parent), old(links[links[z].parent].parent)) && Matches()
    {
      ghost var m, p, g := links, links[z].parent, links[links[z].parent].parent;
      assert Holds(z, m[z]) && Holds(p, m[p]) && Holds(g, m[g]);
      PaintTwo(z.parent, Black, m[g].bh, z.parent.parent, Red, m[p].bh);
    }

    // one turn of the repair loop when the parent is a left child
    method InsertLeft(z: MemBlock) returns (next: MemBlock, done: bool)
      requires Matches() && RedRed(links, root, z, Left)
      modifies this`root, this`links, links.Keys`parent, links.Keys`left, links.Keys`right, links.Keys`color
      ensures Matches() && SameKeys(old(links), links) && links.Keys == old(links).Keys
      ensures next in links && (done ==> Linked(links, root) && NoFlaw(links))
      ensures !done ==>
                && FixState(links, root, next) && root == old(root) && next == old(links[links[z].parent].parent)
                && SameShape(old(links), links)
    {
      ghost var p, g := links[z].parent, links[links[z].parent].parent;
      assert Holds(z, links[z]) && Holds(p, links[p]) && Holds(g, links[g]);
      assert NodeOk(links, root, g) && NodeOk(links, root, z);
      var y := z.parent.parent.right;
      if y != null { assert KidOk(links, g, Right); assert Holds(y, links[y]); }
      if y != null && y.color == Red {
        InsertCase1(links, root, z, p, y, g, Left);
        next, done := z.parent.parent, false;
        Lighter(z, y);
      } else {
        next, done := z, true;
        if next == next.parent.right {
          next := InsertTurnLeft(z);
        }
        InsertLiftLeft(next);
      }
    }

    method InsertTurnLeft(z: MemBlock) returns (next: MemBlock)
      requires Matches() && RedRed(links, root, z, Left) && links[links[z].parent].right == z
      requires !IsRed(links, links[links[links[z].parent].parent].right)
      modifies this`root, this`links, links.Keys`parent, links.Keys`left, links.Keys`right
      ensures Matches() && SameKeys(old(links), links) && links.Keys == old(links).Keys
      ensures RedRed(links, root, next, Left) && links[links[next].parent].left == next
      ensures !IsRed(links, links[links[links[next].parent].parent].right)
    {
      ghost var m, p, g := links, links[z].parent, links[links[z].parent].parent;
      assert Holds(z, m[z]) && Holds(p, m[p]);
      InsertCase3(m, root, z, p, g, Left);
      RotateApart(m, root, p, z, Left);
      RotateKeys(m, p, z, Left);
      RotateInk(m, p, z, Left);
      next := z.parent;
      var _ := RotateLeft(next);
    }

    method InsertLiftLeft(z: MemBlock)
      requires Matches() && RedRed(links, root, z, Left) && links[links[z].parent].left == z
      requires !IsRed(links, links[links[links[z].parent].parent].right)
      modifies this`root, this`links, links.Keys`parent, links.Keys`left, links.Keys`right, links.Keys`color
      ensures Matches() && SameKeys(old(links), links) && links.Keys == old(links).Keys && Linked(links, root)
          && NoFlaw(links)
    {
      ghost var m, p, g := links, links[z].parent, links[links[z].parent].parent;
      InsertCase2(m, root, z, p, g, Left);
      ghost var m1 := Raise(m, p, g);
      RotateApart(m1, root, g, p, Right);
      RotateLinked(m1, root, g, p, Right);
      RotateKeys(m1, g, p, Right);
      assert Holds(z, m[z]) && Holds(p, m[p]);
      if z.parent != null && z.parent.parent != null {
        Raiser(z);
        assert Holds(z, links[z]) && Holds(p, links[p]);
        var _ := RotateRight(z.parent.parent);
      }
    }

    // one turn of the repair loop when the parent is a right child
    method InsertRight(z: MemBlock) returns (next: MemBlock, done: bool)
      requires Matches() && RedRed(links, root, z, Right)
      modifies this`root, this`links, links.Keys`parent, links.Keys`left, links.Keys`right, links.Keys`color
      ensures Matches() && SameKeys(old(links), links) && links.Keys == old(links).Keys
      ensures next in links && (done ==> Linked(links, root) && NoFlaw(links))
      ensures !done ==>
                && FixState(links, root, next) && root == old(root) && next == old(links[links[z].parent].parent)
                && SameShape(old(links), links)
    {
      ghost var p, g := links[z].parent, links[links[z].parent].parent;
      assert Holds(z, links[z]) && Holds(p, links[p]) && Holds(g, links[g]);
      assert NodeOk(links, root, g) && NodeOk(links, root, z);
      var y := z.parent.parent.left;
      if y != null { assert KidOk(links, g, Left); assert Holds(y, links[y]); }
      if y != null && y.color == Red {
        InsertCase1(links, root, z, p, y, g, Right);
        next, done := z.parent.parent, false;
        Lighter(z, y);
      } else {
        next, done := z, true;
        if next == next.parent.left {
          next := InsertTurnRight(z);
        }
        InsertLiftRight(next);
      }
    }

    method InsertTurnRight(z: MemBlock) returns (next: MemBlock)
      requires Matches() && RedRed(links, root, z, Right) && links[links[z].parent].left == z
      requires !IsRed(links, links[links[links[z].parent].parent].left)
      modifies this`root, this`links, links.Keys`parent, links.Keys`left, links.Keys`right
      ensures Matches() && SameKeys(old(links), links) && links.Keys == old(links).Keys
      ensures RedRed(links, root, next, Right) && links[links[next].parent].right == next
      ensures !IsRed(links, links[links[links[next].parent].parent].left)
    {
      ghost var m, p, g := links, links[z].parent, links[links[z].parent].parent;
      assert Holds(z, m[z]) && Holds(p, m[p]);
      InsertCase3(m, root, z, p, g, Right);
      RotateApart(m, root, p, z, Right);
      RotateKeys(m, p, z, Right);
      RotateInk(m, p, z, Right);
      next := z.parent;
      var _ := RotateRight(next);
    }

    method InsertLiftRight(z: MemBlock)
      requires Matches() && RedRed(links, root, z, Right) && links[links[z].parent].right == z
      requires !IsRed(links, links[links[links[z].parent].parent].left)
      modifies this`root, this`links, links.Keys`parent, links.Keys`left, links.Keys`right, links.Keys`color
      ensures Matches() && SameKeys(old(links), links) && links.Keys == old(links).Keys && Linked(links, root)
          && NoFlaw(links)
    {
      ghost var m, p, g := links, links[z].parent, links[links[z].parent].parent;
      InsertCase2(m, root, z, p, g, Right);
      ghost var m1 := Raise(m, p, g);
      RotateApart(m1, root, g, p, Left);
      RotateLinked(m1, root, g, p, Left);
      RotateKeys(m1, g, p, Left);
      assert Holds(z, m[z]) && Holds(p, m[p]);
      if z.parent != null && z.parent.parent != null {
        Raiser(z);
        assert Holds(z, links[z]) && Holds(p, links[p]);
        var _ := RotateLeft(z.parent.parent);
      }
    }

    // the red-red pair moves up until it is gone
    method Repair(node: MemBlock)
      requires Matches() && node in links && FixState(links, root, node) && Sorted(links)
      modifies this`root, this`links, links.Keys`parent, links.Keys`left, links.Keys`right, links.Keys`color
      ensures Matches() && Linked(links, root) && NoFlaw(links) && Sorted(links) && links.Keys == old(links).Keys
          && root != null
    {
      var z, done := node, false;
      while !done && z.parent != null && z.parent.color == Red
        invariant Matches() && links.Keys == old(links).Keys && Sorted(links) && root != null
        invariant !done ==> z in links && FixState(links, root, z)
        invariant done ==> Linked(links, root) && NoFlaw(links)
        invariant z in links
        decreases !done, links.Keys - Inside(links, links[z].lo, links[z].hi)
      {
        ghost var m := links;
        SeeParent(z);
        RedParent(links, root, z);
        ghost var p, g := links[z].parent, links[links[z].parent].parent;
        assert Holds(z, links[z]) && Holds(p, links[p]) && Holds(g, links[g]);
        if z.parent == z.parent.parent.left {
          z, done := InsertLeft(z);
        } else {
          z, done := InsertRight(z);
        }
        SortedSame(m, links);
        assert !done ==> Inside(links, links[z].lo, links[z].hi) == Inside(m, m[z].lo, m[z].hi);
      }
      if !done {
        SeeParent(z);
        RedRedGone(links, root, z);
      }
    }

    lemma SeeParent(z: MemBlock)
      requires Matches() && z in links && Linked(links, root)
      ensures Holds(z, links[z])
      ensures z.parent != null ==> z.parent in links && Holds(z.parent, links[z.parent])
    {
      assert Holds(z, links[z]) && NodeOk(links, root, z);
      if z.parent != null { assert Holds(z.parent, links[z.parent]); }
    }

    /** insert_node: exactly this node is added, and the tree is a sorted red-black tree again. */
    method Insert(node: MemBlock)
      requires Valid() && node !in links
      modifies this`root, this`links, node`parent, node`left, node`right, node`color
      modifies links.Keys`parent, links.Keys`left, links.Keys`right, links.Keys`color
      ensures Valid() && links.Keys == old(links).Keys + {node}
    {
      node.parent := null;
      node.left := null;
      node.right := null;
      if root == null {
        root := node;
        node.color := Black;
        links := map[node := Link(null, null, null, Black, node.size, node.page.index, 0.0, 0.5, 1.0, 1)];
      } else {
        ghost var m := links;
        ghost var p, s := Attach(node);
        AddLinked(m, root, node, p, s, node.size, node.page.index);
        AddColor(m, root, node, p, s, node.size, node.page.index);
        AddSorted(m, root, node, p, s, node.size, node.page.index);
        Repair(node);
        PaintRoot();
      }
    }

    method PaintRoot()
      requires Matches() && Linked(links, root) && NoFlaw(links) && Sorted(links) && root != null
      modifies this`links, links.Keys`color
      ensures Valid() && links.Keys == old(links).Keys
    {
      ghost var m := links;
      assert Holds(root, m[root]);
      BlackRoot(m, root);
      root.color := Black;
      links := Paint(m, root, Black, m[root].bh + if m[root].color == Red then 1 else 0);
      forall c | c in links ensures Holds(c, links[c]) { assert old(Holds(c, links[c])); }
      SortedSame(m, links);
    }

    // a red parent is not the root
    static lemma RedParent(m: Links, root: MemBlock?, z: MemBlock)
      requires z in m && FixState(m, root, z) && m[z].parent != null && m[z].parent in m && m[m[z].parent].color == Red
      ensures var p := m[z].parent; m[p].parent != null && m[p].parent in m
      ensures var g := m[m[z].parent].parent; RedRed(m, root, z, if m[g].left == m[z].parent then Left else Right)
      ensures var g := m[m[z].parent].parent; Inside(m, m[z].lo, m[z].hi) < Inside(m, m[g].lo, m[g].hi)
    {
      var p := m[z].parent;
      assert NodeOk(m, root, p) && NodeOk(m, root, z) && NodeOk(m, root, root);
      var g := m[p].parent;
      assert NodeOk(m, root, g) && KidOk(m, g, Left) && KidOk(m, g, Right) && KidOk(m, p, Left) && KidOk(m, p, Right);
      assert g in Inside(m, m[g].lo, m[g].hi) && g !in Inside(m, m[z].lo, m[z].hi);
    }

    // ---- removal

    lemma SeeHang(x: MemBlock?, parent: MemBlock?, s: Side)
      requires Matches() && Hang(links, root, parent, s, x)
      ensures x != null ==> x in links && Holds(x, links[x]) && x.parent == parent
      ensures ColorOf(x) == Red <==> IsRed(links, x)
      ensures x == root <==> parent == null
    {
      if parent != null { assert NodeOk(links, root, parent) && KidOk(links, parent, s) && NodeOk(links, root, root); }
      if x != null { assert Holds(x, links[x]); }
    }

    method PaintBlack(x: MemBlock, ghost hp: MemBlock?, ghost hs: Side)
      requires Matches() && Hang(links, root, hp, hs, x) && IsRed(links, x) && (BlackTop(links, root) || root == x)
      modifies this`links, links.Keys`color
      ensures Matches() && Done(old(links), links, root)
    {
      hide Hang, Done;
      FarEnd(links, links, root, hp, hs, x);
      x.color := Black;
      links := Paint(links, x, Black, links[x].bh + 1);
      forall c | c in links ensures Holds(c, links[c]) { assert old(Holds(c, links[c])); }
    }

    static ghost predicate BlackTop(m: Links, root: MemBlock?) { root != null && root in m && m[root].color == Black }

    static ghost predicate SameSlot(m: Links, m': Links, p: MemBlock, s: Side) {
      p in m && p in m' && m'[p].Lo(s) == m[p].Lo(s) && m'[p].Hi(s) == m[p].Hi(s)
    }

    static function ColorOf(p: MemBlock?): Color
      reads p
    {
      if p == null || p.color == Black then Black else Red
    }

    lemma SeeNephews(b: MemBlock)
      requires Matches() && b in links && Linked(links, root)
      ensures Holds(b, links[b])
      ensures ColorOf(b.left) == Red <==> IsRed(links, links[b].left)
      ensures ColorOf(b.right) == Red <==> IsRed(links, links[b].right)
    {
      assert Holds(b, links[b]) && NodeOk(links, root, b) && KidOk(links, b, Left) && KidOk(links, b, Right);
      if b.left != null { assert Holds(b.left, links[b.left]); }
      if b.right != null { assert Holds(b.right, links[b.right]); }
    }

    // the last part of case 4: the sibling takes over its parent's colour, its children turn black
    method PaintFar(sibling: MemBlock, color: Color, ghost hs: nat, ghost hl: nat, ghost hr: nat)
      requires Matches() && sibling in links && links[sibling].left in links && links[sibling].right in links
      requires links[sibling].left != links[sibling].right && links[sibling].left != sibling
          && links[sibling].right != sibling
      modifies this`links, links.Keys`color
      ensures links == Paint(Paint2(old(links), sibling, color, hs, old(links)[sibling].left, Black, hl),
          old(links)[sibling].right, Black, hr)
      ensures Matches()
    {
      ghost var m := links;
      assert Holds(sibling, m[sibling]);
      sibling.color := color;
      if sibling.left != null {
        sibling.left.color := Black;
      }
      if sibling.right != null {
        sibling.right.color := Black;
      }
      links := Paint(Paint2(m, sibling, color, hs, m[sibling].left, Black, hl), m[sibling].right, Black, hr);
      forall c | c in links ensures Holds(c, links[c]) { assert old(Holds(c, links[c])); }
    }

    // case 2: the sibling and its children are black
    method BlackSibling(parent: MemBlock, sibling: MemBlock, ghost s: Side, ghost x: MemBlock?)
      requires Matches() && Short(links, root, parent, s, x) && links[parent].Kid(Other(s)) == sibling
          && sibling in links
      requires !IsRed(links, sibling) && !IsRed(links, links[sibling].left) && !IsRed(links, links[sibling].right)
          && BlackTop(links, root)
      modifies this`links, links.Keys`color
      ensures Matches() && SameKeys(old(links), links) && links.Keys == old(links).Keys
      ensures Hang(links, root, links[parent].parent, SideOf(links, links[parent].parent, parent), parent)
      ensures BlackTop(links, root) && SameSlot(old(links), links, parent, s)
    {
      ghost var m := links;
      Case2Facts(m, root, parent, s, x, sibling);
      assert Holds(parent, m[parent]);
      PaintTwo(sibling, Red, m[sibling].bh - 1, parent, parent.color, m[parent].bh - 1);
    }

    static lemma Case1Facts(m: Links, root: MemBlock?, hp: MemBlock, hs: Side, x: MemBlock?, b: MemBlock)
      requires Short(m, root, hp, hs, x) && b in m && m[hp].Kid(Other(hs)) == b && IsRed(m, b) && BlackTop(m, root)
      ensures Quad(Case1Paint(m, hp, b), hp, b, hs)
      ensures var m', root' := Case1(m, hp, b, hs), NewRoot(m, root, hp, b);
              && SameKeys(m, m') && m'.Keys == m.Keys && SameSlot(m, m', hp, hs)
              && Short(m', root', hp, hs, x) && !IsRed(m', m'[hp].Kid(Other(hs))) && BlackTop(m', root')
    {
      Sibling(m, root, hp, hs, x);
      Case1Short(m, root, hp, hs, x, b);
      RotateApart(Case1Paint(m, hp, b), root, hp, b, hs);
      RotateKeys(Case1Paint(m, hp, b), hp, b, hs);
      RotateInk(Case1Paint(m, hp, b), hp, b, hs);
      assert NodeOk(m, root, root) && NodeOk(m, root, hp);
    }

    static lemma Case2Facts(m: Links, root: MemBlock?, hp: MemBlock, hs: Side, x: MemBlock?, b: MemBlock)
      requires Short(m, root, hp, hs, x) && b in m && m[hp].Kid(Other(hs)) == b && BlackTop(m, root)
      requires !IsRed(m, b) && !IsRed(m, m[b].left) && !IsRed(m, m[b].right)
      ensures m[hp].bh > 0 && m[b].bh > 0 && b != hp
      ensures var m' := Case2(m, hp, b);
              && SameKeys(m, m') && m'.Keys == m.Keys && SameSlot(m, m', hp, hs) && m'[hp].parent == m[hp].parent
              && Hang(m', root, m'[hp].parent, SideOf(m', m'[hp].parent, hp), hp) && BlackTop(m', root)
    {
      Sibling(m, root, hp, hs, x);
      Case2Hang(m, root, hp, hs, x, b);
      assert NodeOk(m, root, root) && NodeOk(m, root, b);
    }

    static lemma Case3Facts(m: Links, root: MemBlock?, hp: MemBlock, hs: Side, x: MemBlock?, b: MemBlock, n: MemBlock)
      requires Short(m, root, hp, hs, x) && b in m && n in m && m[hp].Kid(Other(hs)) == b && m[b].Kid(hs) == n
      requires !IsRed(m, b) && IsRed(m, n) && BlackTop(m, root)
      ensures Quad(Case3Paint(m, b, n), b, n, Other(hs)) && m[b].parent == hp
      ensures var m' := Case3(m, b, n, hs);
              && SameKeys(m, m') && m'.Keys == m.Keys && Far(m', root, hp, hs, x, n, b) && BlackTop(m', root)
    {
      Case3Far(m, root, hp, hs, x, b, n);
      RotateApart(Case3Paint(m, b, n), root, b, n, Other(hs));
      RotateKeys(Case3Paint(m, b, n), b, n, Other(hs));
      RotateInk(Case3Paint(m, b, n), b, n, Other(hs));
      assert NodeOk(m, root, root);
    }

    static lemma FarFacts(m: Links, root: MemBlock?, hp: MemBlock, hs: Side, x: MemBlock?, b: MemBlock, f: MemBlock)
      requires Far(m, root, hp, hs, x, b, f) && BlackTop(m, root)
      ensures Quad(m, hp, b, hs) && f != b && f != hp
      ensures var m1 := Rotate(m, hp, b, hs);
              m1[b].Kid(hs) == hp && m1[b].Kid(Other(hs)) == f && m1[hp].color == m[hp].color
    {
      Case4Hang(m, root, hp, hs, x, b, f);
      RotateApart(m, root, hp, b, hs);
      RotateViewTurned(m, root, hp, b, hs);
      RotateInk(m, hp, b, hs);
    }

    static lemma FarResult(m: Links, root: MemBlock?, hp: MemBlock, hs: Side, x: MemBlock?, b: MemBlock, f: MemBlock)
      requires Far(m, root, hp, hs, x, b, f) && BlackTop(m, root)
      ensures Done(m, FarDone(m, hp, b, x, hs, f), NewRoot(m, root, hp, b))
    {
      hide Hang, SameKeys, Done, FarDone;
      FarFacts(m, root, hp, hs, x, b, f);
      Case4Hang(m, root, hp, hs, x, b, f);
      Case4Same(m, hp, b, x, hs, f);
      FarKeys(m, root, hp, hs, x, b);
      FarEnd(m, Case4(m, hp, b, x, hs), NewRoot(m, root, hp, b), b, Other(hs), f);
    }

    // m' is a flawless tree with m's keys
    static ghost predicate Done(m: Links, m': Links, root': MemBlock?) {
      SameKeys(m, m') && m'.Keys == m.Keys && Linked(m', root') && NoFlaw(m') && BlackTop(m', root')
    }

    static lemma FarEnd(m: Links, m2: Links, root: MemBlock?, hp: MemBlock?, hs: Side, x: MemBlock)
      requires Hang(m2, root, hp, hs, x) && IsRed(m2, x) && root != null
      requires (BlackTop(m2, root) || root == x) && SameKeys(m, m2) && m2.Keys == m.Keys
      ensures Done(m, Paint(m2, x, Black, m2[x].bh + 1), root)
    {
      HangRed(m2, root, hp, hs, x);
    }

    static lemma FarKeys(m: Links, root: MemBlock?, hp: MemBlock, hs: Side, x: MemBlock?, b: MemBlock)
      requires hp in m && b in m && Linked(m, root) && BlackTop(m, root) && b != root
      ensures var m2 := Case4(m, hp, b, x, hs);
              SameKeys(m, m2) && m2.Keys == m.Keys && BlackTop(m2, NewRoot(m, root, hp, b))
    {
      RotateKeys(Case4Paint(m, hp, b, x), hp, b, hs);
      RotateInk(Case4Paint(m, hp, b, x), hp, b, hs);
      assert NodeOk(m, root, hp) && NodeOk(m, root, root);
    }

    // case 1: the sibling is red
    method RedSiblingLeft(parent: MemBlock, ghost x: MemBlock?)
      requires Matches() && Short(links, root, parent, Left, x) && IsRed(links, links[parent].right)
          && BlackTop(links, root)
      modifies this`root, this`links, links.Keys`parent, links.Keys`left, links.Keys`right, links.Keys`color
      ensures Matches() && SameKeys(old(links), links) && links.Keys == old(links).Keys
          && SameSlot(old(links), links, parent, Left)
      ensures Short(links, root, parent, Left, x) && !IsRed(links, links[parent].right) && BlackTop(links, root)
    {
      ghost var m, b := links, links[parent].right;
      Case1Facts(m, root, parent, Left, x, b);
      assert Holds(parent, m[parent]) && Holds(b, m[b]);
      var sibling := parent.right;
      PaintTwo(sibling, Black, m[parent].bh, parent, Red, m[b].bh);
      var _ := RotateLeft(parent);
    }

    // case 3: the near nephew is red
    method NearNephewLeft(parent: MemBlock, sibling: MemBlock, ghost x: MemBlock?)
      requires Matches() && Short(links, root, parent, Left, x) && links[parent].right == sibling
          && BlackTop(links, root)
      requires sibling in links && !IsRed(links, sibling) && IsRed(links, links[sibling].left)
      modifies this`root, this`links, links.Keys`parent, links.Keys`left, links.Keys`right, links.Keys`color
      ensures Matches() && SameKeys(old(links), links) && links.Keys == old(links).Keys
      ensures links[parent].right != null && Far(links, root, parent, Left, x, links[parent].right, sibling)
          && BlackTop(links, root)
    {
      ghost var m, n := links, links[sibling].left;
      Case3Facts(m, root, parent, Left, x, sibling, n);
      assert Holds(sibling, m[sibling]) && Holds(n, m[n]);
      PaintTwo(sibling, Red, m[n].bh, sibling.left, Black, m[sibling].bh);
      var _ := RotateRight(sibling);
    }

    // case 4: the far nephew is red
    method FarNephewLeft(parent: MemBlock, sibling: MemBlock, ghost x: MemBlock?)
      requires Matches() && BlackTop(links, root) && parent in links && links[parent].right == sibling
          && sibling in links
      requires links[sibling].right != null && Far(links, root, parent, Left, x, sibling, links[sibling].right)
      modifies this`root, this`links, links.Keys`parent, links.Keys`left, links.Keys`right, links.Keys`color
      ensures Matches() && Done(old(links), links, root)
    {
      ghost var f := links[sibling].right;
      FarFacts(links, root, parent, Left, x, sibling, f);
      FarResult(links, root, parent, Left, x, sibling, f);
      FarTurnLeft(parent, sibling, x, f);
    }

    method FarTurnLeft(parent: MemBlock, sibling: MemBlock, ghost x: MemBlock?, ghost f: MemBlock)
      requires Matches() && Quad(links, parent, sibling, Left) && links[sibling].right == f && f in links
          && f != sibling && f != parent
      requires var m1 := Rotate(links, parent, sibling, Left);
               m1[sibling].left == parent && m1[sibling].right == f && m1[parent].color == links[parent].color
      modifies this`root, this`links, links.Keys`parent, links.Keys`left, links.Keys`right, links.Keys`color
      ensures Matches() && links == FarDone(old(links), parent, sibling, x, Left, f)
      ensures root == NewRoot(old(links), old(root), parent, sibling)
    {
      ghost var m := links;
      var _ := RotateLeft(parent);
      assert Holds(sibling, links[sibling]) && Holds(parent, links[parent]);
      PaintFar(sibling, parent.color, m[parent].bh, H(m, x) + 1, m[f].bh + 1);
    }

    // one turn of the rebalancing loop, x being a left child
    method RebalanceLeft(parent: MemBlock, ghost x: MemBlock?) returns (done: bool)
      requires Matches() && Short(links, root, parent, Left, x) && BlackTop(links, root)
      modifies this`root, this`links, links.Keys`parent, links.Keys`left, links.Keys`right, links.Keys`color
      ensures Matches() && SameKeys(old(links), links) && links.Keys == old(links).Keys
      ensures done ==> Linked(links, root) && NoFlaw(links) && BlackTop(links, root)
      ensures !done ==> Hang(links, root, links[parent].parent, SideOf(links, links[parent].parent, parent), parent)
      ensures !done ==> BlackTop(links, root) && SameSlot(old(links), links, parent, Left)
    {
      Sibling(links, root, parent, Left, x);
      assert Holds(parent, links[parent]) && Holds(parent.right, links[parent.right]);
      var sibling := parent.right;
      if sibling.color == Red {
        RedSiblingLeft(parent, x);
        Sibling(links, root, parent, Left, x);
        assert Holds(parent, links[parent]) && Holds(parent.right, links[parent.right]);
      }
      sibling := parent.right;
      SeeNephews(sibling);
      if sibling.color == Black && ColorOf(sibling.left) == Black && ColorOf(sibling.right) == Black {
        BlackSibling(parent, sibling, Left, x);
        done := false;
      } else {
        if ColorOf(sibling) == Black && ColorOf(sibling.left) == Red {
          NearNephewLeft(parent, sibling, x);
          assert Holds(parent, links[parent]);
          sibling := parent.right;
        } else {
          StraightFar(links, root, parent, Left, x, sibling, links[sibling].right);
        }
        FarNephewLeft(parent, sibling, x);
        done := true;
      }
    }

    // case 1: the sibling is red
    method RedSiblingRight(parent: MemBlock, ghost x: MemBlock?)
      requires Matches() && Short(links, root, parent, Right, x) && IsRed(links, links[parent].left)
          && BlackTop(links, root)
      modifies this`root, this`links, links.Keys`parent, links.Keys`left, links.Keys`right, links.Keys`color
      ensures Matches() && SameKeys(old(links), links) && links.Keys == old(links).Keys
          && SameSlot(old(links), links, parent, Right)
      ensures Short(links, root, parent, Right, x) && !IsRed(links, links[parent].left) && BlackTop(links, root)
    {
      ghost var m, b := links, links[parent].left;
      Case1Facts(m, root, parent, Right, x, b);
      assert Holds(parent, m[parent]) && Holds(b, m[b]);
      var sibling := parent.left;
      PaintTwo(sibling, Black, m[parent].bh, parent, Red, m[b].bh);
      var _ := RotateRight(parent);
    }

    // case 3: the near nephew is red
    method NearNephewRight(parent: MemBlock, sibling: MemBlock, ghost x: MemBlock?)
      requires Matches() && Short(links, root, parent, Right, x) && links[parent].left == sibling
          && BlackTop(links, root)
      requires sibling in links && !IsRed(links, sibling) && IsRed(links, links[sibling].right)
      modifies this`root, this`links, links.Keys`parent, links.Keys`left, links.Keys`right, links.Keys`color
      ensures Matches() && SameKeys(old(links), links) && links.Keys == old(links).Keys
      ensures links[parent].left != null && Far(links, root, parent, Right, x, links[parent].left, sibling)
          && BlackTop(links, root)
    {
      ghost var m, n := links, links[sibling].right;
      Case3Facts(m, root, parent, Right, x, sibling, n);
      assert Holds(sibling, m[sibling]) && Holds(n, m[n]);
      PaintTwo(sibling, Red, m[n].bh, sibling.right, Black, m[sibling].bh);
      var _ := RotateLeft(sibling);
    }

    // case 4: the far nephew is red
    method FarNephewRight(parent: MemBlock, sibling: MemBlock, ghost x: MemBlock?)
      requires Matches() && BlackTop(links, root) && parent in links && links[parent].left == sibling
          && sibling in links
      requires links[sibling].left != null && Far(links, root, parent, Right, x, sibling, links[sibling].left)
      modifies this`root, this`links, links.Keys`parent, links.Keys`left, links.Keys`right, links.Keys`color
      ensures Matches() && Done(old(links), links, root)
    {
      ghost var f := links[sibling].left;
      FarFacts(links, root, parent, Right, x, sibling, f);
      FarResult(links, root, parent, Right, x, sibling, f);
      FarTurnRight(parent, sibling, x, f);
    }

    method FarTurnRight(parent: MemBlock, sibling: MemBlock, ghost x: MemBlock?, ghost f: MemBlock)
      requires Matches() && Quad(links, parent, sibling, Right) && links[sibling].left == f && f in links
          && f != sibling && f != parent
      requires var m1 := Rotate(links, parent, sibling, Right);
               m1[sibling].right == parent && m1[sibling].left == f && m1[parent].color == links[parent].color
      modifies this`root, this`links, links.Keys`parent, links.Keys`left, links.Keys`right, links.Keys`color
      ensures Matches() && links == FarDone(old(links), parent, sibling, x, Right, f)
      ensures root == NewRoot(old(links), old(root), parent, sibling)
    {
      ghost var m := links;
      var _ := RotateRight(parent);
      assert Holds(sibling, links[sibling]) && Holds(parent, links[parent]);
      PaintFar(sibling, parent.color, m[parent].bh, m[f].bh + 1, H(m, x) + 1);
    }

    // one turn of the rebalancing loop, x being a right child
    method RebalanceRight(parent: MemBlock, ghost x: MemBlock?) returns (done: bool)
      requires Matches() && Short(links, root, parent, Right, x) && BlackTop(links, root)
      modifies this`root, this`links, links.Keys`parent, links.Keys`left, links.Keys`right, links.Keys`color
      ensures Matches() && SameKeys(old(links), links) && links.Keys == old(links).Keys
      ensures done ==> Linked(links, root) && NoFlaw(links) && BlackTop(links, root)
      ensures !done ==> Hang(links, root, links[parent].parent, SideOf(links, links[parent].parent, parent), parent)
      ensures !done ==> BlackTop(links, root) && SameSlot(old(links), links, parent, Right)
    {
      Sibling(links, root, parent, Right, x);
      assert Holds(parent, links[parent]) && Holds(parent.left, links[parent.left]);
      var sibling := parent.left;
      if sibling.color == Red {
        RedSiblingRight(parent, x);
        Sibling(links, root, parent, Right, x);
        assert Holds(parent, links[parent]) && Holds(parent.left, links[parent.left]);
      }
      sibling := parent.left;
      SeeNephews(sibling);
      if sibling.color == Black && ColorOf(sibling.left) == Black && ColorOf(sibling.right) == Black {
        BlackSibling(parent, sibling, Right, x);
        done := false;
      } else {
        if ColorOf(sibling) == Black && ColorOf(sibling.right) == Red {
          NearNephewRight(parent, sibling, x);
          assert Holds(parent, links[parent]);
          sibling := parent.left;
        } else {
          StraightFar(links, root, parent, Right, x, sibling, links[sibling].left);
        }
        FarNephewRight(parent, sibling, x);
        done := true;
      }
    }

    static lemma SlotGrows(m: Links, m': Links, root: MemBlock?, p: MemBlock, s: Side)
      requires SameKeys(m, m') && m'.Keys == m.Keys && SameSlot(m, m', p, s)
      requires Hang(m', root, m'[p].parent, SideOf(m', m'[p].parent, p), p)
      ensures Inside(m, m[p].Lo(s), m[p].Hi(s)) < Inside(m', m'[p].lo, m'[p].hi)
      ensures var q := m'[p].parent;
              q != null ==> q in m' && m'[q].Lo(SideOf(m', q, p)) == m'[p].lo && m'[q].Hi(SideOf(m', q, p)) == m'[p].hi
    {
      assert NodeOk(m', root, p);
      var q := m'[p].parent;
      if q != null { assert NodeOk(m', root, q) && KidOk(m', q, Left) && KidOk(m', q, Right); }
      assert p in Inside(m', m'[p].lo, m'[p].hi) && p !in Inside(m, m[p].Lo(s), m[p].Hi(s));
    }

    /** remove_rebalance: the slot that is one black short is moved up or repaired until no path is. */
    method RemoveRebalance(node: MemBlock?, above: MemBlock?, ghost side: Side)
      requires Matches() && Sorted(links) && Hang(links, root, above, side, node)
      requires (BlackTop(links, root) || root == node)
      modifies this`root, this`links, links.Keys`parent, links.Keys`left, links.Keys`right, links.Keys`color
      ensures Valid() && links.Keys == old(links).Keys
    {
      var x, parent := node, above;
      ghost var s, lo, hi := side, 0.0, 0.0;
      if above != null { lo, hi := links[above].Lo(side), links[above].Hi(side); }
      while true
        invariant Matches() && Sorted(links) && links.Keys == old(links).Keys
        invariant Hang(links, root, parent, s, x) && (BlackTop(links, root) || root == x)
        invariant parent != null ==> lo == links[parent].Lo(s) && hi == links[parent].Hi(s)
        decreases links.Keys - Inside(links, lo, hi)
      {
        ghost var m := links;
        SeeHang(x, parent, s);
        if x != null {
          parent := x.parent;
        }
        if ColorOf(x) == Red {
          PaintBlack(x, parent, s);
          SortedSame(m, links);
          break;
        } else if x == root {
          HangRoot(links, root, s, x);
          break;
        }
        ghost var p := parent;
        Sibling(links, root, parent, s, x);
        assert Holds(parent, links[parent]);
        var done;
        if parent.left == x {
          done := RebalanceLeft(parent, x);
        } else {
          done := RebalanceRight(parent, x);
        }
        SortedSame(m, links);
        if done {
          break;
        }
        SlotGrows(m, links, root, p, s);
        assert Holds(p, links[p]);
        x := parent;
        parent := x.parent;
        s := SideOf(links, parent, x);
        lo, hi := links[x].lo, links[x].hi;
      }
    }

    method CutLeaf(node: MemBlock)
      requires Matches() && Droppable(links, root, node)
      modifies this`links, Only(node.parent)`left, Only(node.parent)`right
      ensures Matches() && links == DropLeaf(old(links), node)
    {
      ghost var m := links;
      assert Holds(node, m[node]) && Holds(m[node].parent, m[m[node].parent]);
      if node.parent.left == node {
        node.parent.left := null;
      } else {
        node.parent.right := null;
      }
      links := DropLeaf(m, node);
      forall c | c in links ensures Holds(c, links[c]) { assert old(Holds(c, links[c])); }
    }

    // node's only child takes its place
    method PutUp(node: MemBlock, child: MemBlock, ghost s: Side)
      requires Matches() && Liftable(links, root, node, child, s) && node != root
      modifies this`links, Only(node.parent)`left, Only(node.parent)`right, child`parent
      ensures Matches() && links == Lift(old(links), node, child)
    {
      ghost var m := links;
      assert Holds(node, m[node]) && Holds(m[node].parent, m[m[node].parent]) && NodeOk(m, root, m[node].parent);
      if node.parent.left == node {
        node.parent.left := child;
      } else {
        node.parent.right := child;
      }
      child.parent := node.parent;
      links := Lift(m, node, child);
      forall c | c in links ensures Holds(c, links[c]) { assert old(Holds(c, links[c])); }
    }

    method PutOnTop(child: MemBlock, ghost node: MemBlock, ghost s: Side)
      requires Matches() && Liftable(links, root, node, child, s) && node == root && NoFlaw(links)
          && SortedBut(links, node)
      requires IsRed(links, child) && links[node].color == Black
      modifies this`root, this`links, child`parent, links.Keys`color
      ensures Valid() && links.Keys == old(links).Keys - {node}
    {
      ghost var m := links;
      LiftHang(m, root, node, child, s);
      root := child;
      child.parent := null;
      links := Lift(m, node, child);
      forall c | c in links ensures Holds(c, links[c]) { assert old(Holds(c, links[c])); }
      SortedGone(m, links, node);
      ghost var m1 := links;
      PaintBlack(root, null, Left);
      SortedSame(m1, links);
    }

    static lemma LoneRoot(m: Links, root: MemBlock)
      requires Linked(m, root) && m[root].left == null && m[root].right == null
      ensures m.Keys == {root}
    {
      forall c | c in m ensures c == root {
        assert NodeOk(m, root, root) && NodeOk(m, root, c) && KidOk(m, root, Left) && KidOk(m, root, Right);
        assert Outside(m, c, 0.0, m[root].rank) && Outside(m, c, m[root].rank, 1.0) && Apart(m, c, root);
      }
    }

    ghost predicate Ready(node: MemBlock)
      reads this, links.Keys
    {
      && Matches() && Linked(links, root) && NoFlaw(links) && SortedBut(links, node) && BlackTop(links, root)
      && node in links && (links[node].left == null || links[node].right == null)
    }

    method Unlink(node: MemBlock)
      requires Ready(node)
      modifies this`root, this`links, links.Keys`parent, links.Keys`left, links.Keys`right, links.Keys`color
      ensures Valid() && links.Keys == old(links).Keys - {node}
    {
      ghost var m := links;
      assert Holds(node, m[node]) && NodeOk(m, root, node);
      if m[node].left != null { OneChild(m, root, node, Left); }
      if m[node].right != null { OneChild(m, root, node, Right); }
      if node.color == Red {
        DropRed(m, root, node);
        DropLinked(m, root, node);
        CutLeaf(node);
        SortedGone(m, links, node);
      } else if node == root {
        if node.left == null && node.right == null {
          LoneRoot(m, root);
          root := null;
          links := map[];
        } else if node.left != null {
          PutOnTop(node.left, node, Left);
        } else {
          PutOnTop(node.right, node, Right);
        }
      } else {
        UnlinkBlack(node);
      }
    }

    static lemma LiftReady(m: Links, root: MemBlock?, node: MemBlock, child: MemBlock, s: Side)
      requires Linked(m, root) && NoFlaw(m) && SortedBut(m, node) && BlackTop(m, root) && node in m && node != root
      requires m[node].color == Black && m[node].Kid(s) == child && m[node].Kid(Other(s)) == null
      ensures Liftable(m, root, node, child, s) && m[node].parent != null
      ensures var m', p := Lift(m, node, child), m[node].parent;
              Hang(m', root, p, SideOf(m, p, node), child) && Sorted(m') && BlackTop(m', root)
    {
      assert NodeOk(m, root, node) && NodeOk(m, root, m[node].parent);
      OneChild(m, root, node, s);
      LiftHang(m, root, node, child, s);
      SortedGone(m, Lift(m, node, child), node);
    }

    // a black node below the root goes, and its only child takes its place
    method UnlinkOver(node: MemBlock, child: MemBlock, ghost s: Side)
      requires Ready(node) && links[node].color == Black && node != root
      requires links[node].Kid(s) == child && links[node].Kid(Other(s)) == null
      modifies this`root, this`links, links.Keys`parent, links.Keys`left, links.Keys`right, links.Keys`color
      ensures Valid() && links.Keys == old(links).Keys - {node}
    {
      ghost var m := links;
      assert Holds(node, m[node]);
      LiftReady(m, root, node, child, s);
      PutUp(node, child, s);
      RemoveRebalance(child, node.parent, SideOf(m, m[node].parent, node));
    }

    method UnlinkBlack(node: MemBlock)
      requires Ready(node) && links[node].color == Black && node != root
      modifies this`root, this`links, links.Keys`parent, links.Keys`left, links.Keys`right, links.Keys`color
      ensures Valid() && links.Keys == old(links).Keys - {node}
    {
      ghost var m := links;
      assert Holds(node, m[node]) && NodeOk(m, root, node);
      if node.left != null {
        UnlinkOver(node, node.left, Left);
      } else if node.right != null {
        UnlinkOver(node, node.right, Right);
      } else {
        assert NodeOk(m, root, m[node].parent);
        DropBlack(m, root, node);
        CutLeaf(node);
        SortedGone(m, links, node);
        RemoveRebalance(null, node.parent, SideOf(m, m[node].parent, node));
      }
    }

    // a node with two children changes places with the last node of its left subtree
    method SwapWithPrevious(node: MemBlock)
      requires Valid() && node in links && links[node].left != null && links[node].right != null
      modifies this`root, this`links, links.Keys`parent, links.Keys`left, links.Keys`right, links.Keys`color
      ensures Ready(node) && links.Keys == old(links).Keys
    {
      assert Holds(node, links[node]) && NodeOk(links, root, node) && KidOk(links, node, Left);
      var last: MemBlock := node.left;
      assert NodeOk(links, root, last) && Holds(last, links[last]);
      while last.right != null
        invariant last in links && NodeOk(links, root, last) && Holds(last, links[last])
        invariant links[node].lo <= links[last].lo && links[last].hi == links[node].rank
        decreases Inside(links, links[last].lo, links[last].hi)
      {
        assert KidOk(links, last, Right) && NodeOk(links, root, last.right) && Holds(last.right, links[last.right]);
        assert last in Inside(links, links[last].lo, links[last].hi);
        last := last.right;
      }
      SwapLinked(links, root, node, last);
      SwapColor(links, root, node, last);
      SwapSorted(links, root, node, last);
      SwapNodes(node, last);
    }

    /** remove_node: exactly this node is taken out, and the tree is a sorted red-black tree again. */
    method Remove(node: MemBlock)
      requires Valid() && node in links
      modifies this`root, this`links, links.Keys`parent, links.Keys`left, links.Keys`right, links.Keys`color
      ensures Valid() && links.Keys == old(links).Keys - {node}
    {
      assert Holds(node, links[node]);
      if node.left != null && node.right != null {
        SwapWithPrevious(node);
      } else {
        forall a, b | a in links && b in links && a != node && b != node ensures Ordered(links, a, b) {}
      }
      Unlink(node);
    }

    // ---- best fit

    // every block left of lo is too small, every block right of hi is large enough
    static ghost predicate Bracketed(m: Links, lo: real, hi: real, size: nat) {
      forall a {:trigger OffBracket(m, a, lo, hi, size)} :: a in m ==> OffBracket(m, a, lo, hi, size)
    }

    static ghost predicate OffBracket(m: Links, a: MemBlock, lo: real, hi: real, size: nat)
      requires a in m
    {
      (m[a].rank <= lo ==> m[a].size < size) && (m[a].rank >= hi ==> m[a].size > size)
    }

    static ghost predicate IsFit(m: Links, b: MemBlock?, size: nat) {
      if b == null then forall c <- m :: m[c].size < size
      else b in m && m[b].size >= size && forall c <- m :: m[c].size >= size ==> m[b].size <= m[c].size
    }

    static lemma BracketDown(m: Links, root: MemBlock?, at: MemBlock, s: Side, size: nat)
      requires Linked(m, root) && Sorted(m) && at in m && Bracketed(m, m[at].lo, m[at].hi, size)
      requires if s.Left? then m[at].size > size else m[at].size < size
      ensures Bracketed(m, m[at].Lo(s), m[at].Hi(s), size)
    {
      forall a | a in m ensures OffBracket(m, a, m[at].Lo(s), m[at].Hi(s), size) {
        assert OffBracket(m, a, m[at].lo, m[at].hi, size) && Ordered(m, a, at) && Ordered(m, at, a);
      }
    }

    // the search ends above an empty left slot, or on the very size
    static lemma FitHere(m: Links, root: MemBlock?, at: MemBlock, size: nat)
      requires Linked(m, root) && Sorted(m) && at in m && Bracketed(m, m[at].lo, m[at].hi, size)
      requires m[at].size == size || (m[at].size > size && m[at].left == null)
      ensures IsFit(m, at, size)
    {
      assert NodeOk(m, root, at) && KidOk(m, at, Left);
      forall c | c in m && m[c].size >= size ensures m[at].size <= m[c].size {
        assert OffBracket(m, c, m[at].lo, m[at].hi, size) && Ordered(m, at, c);
        assert m[at].left == null ==> Outside(m, c, m[at].lo, m[at].rank);
      }
    }

    // ... or above an empty right slot, whose upper end is the answer's rank
    static lemma FitAbove(m: Links, root: MemBlock?, at: MemBlock, b: MemBlock?, size: nat)
      requires Linked(m, root) && Sorted(m) && at in m && Bracketed(m, m[at].lo, m[at].hi, size)
      requires m[at].size < size && m[at].right == null
      requires if b == null then m[at].hi == 1.0 else b in m && m[b].rank == m[at].hi
      ensures IsFit(m, b, size)
    {
      assert NodeOk(m, root, at) && KidOk(m, at, Right);
      if b != null { assert OffBracket(m, b, m[at].lo, m[at].hi, size); }
      forall c | c in m && m[c].size >= size ensures b != null && m[b].size <= m[c].size {
        assert OffBracket(m, c, m[at].lo, m[at].hi, size) && Ordered(m, c, at) && NodeOk(m, root, c);
        assert Outside(m, c, m[at].rank, m[at].hi);
        if b != null { assert Ordered(m, b, c); }
      }
    }

    // back up from a node that is too small with nothing to its right
    method Climb(at: MemBlock, size: nat) returns (b: MemBlock?)
      requires Valid() && at in links && Bracketed(links, links[at].lo, links[at].hi, size)
      requires links[at].size < size && links[at].right == null
      ensures IsFit(links, b, size)
    {
      ghost var h := links[at].hi;
      assert NodeOk(links, root, at) && Holds(at, links[at]);
      b := at;
      while b != null && b.size < size
        invariant b == null ==> h == 1.0
        invariant b != null ==> b in links && Holds(b, links[b]) && NodeOk(links, root, b)
        invariant b != null && links[b].rank != h ==>
                  links[b].hi == h && links[b].lo <= links[at].lo && links[b].rank <= links[at].rank
        decreases if b == null then {} else links.Keys - Inside(links, links[b].lo, links[b].hi), b != null
      {
        assert OffBracket(links, b, links[at].lo, links[at].hi, size);
        ghost var below := b;
        b := b.parent;
        if b != null {
          assert NodeOk(links, root, b) && Holds(b, links[b]) && KidOk(links, b, Left) && KidOk(links, b, Right);
          assert b in Inside(links, links[b].lo, links[b].hi) && b !in Inside(links, links[below].lo, links[below].hi);
        }
      }
      if b != null { assert Ordered(links, b, at); }
      FitAbove(links, root, at, b, size);
    }

    /** Best fit: the block found has the least size that is at least size; none is found when every block is smaller.
        */
    method FindFit(size: nat) returns (b: MemBlock?)
      requires Valid()
      ensures IsFit(links, b, size)
      ensures b == null <==> forall c <- links :: links[c].size < size
      ensures b != null ==>
                && b in links && links[b].size >= size
                && forall c <- links :: links[c].size >= size ==> links[b].size <= links[c].size
    {
      if root == null {
        return null;
      }
      var at: MemBlock := root;
      BracketRoot(links, root, size);
      assert NodeOk(links, root, at) && Holds(at, links[at]);
      while true
        invariant at in links && Holds(at, links[at]) && NodeOk(links, root, at)
        invariant Bracketed(links, links[at].lo, links[at].hi, size)
        decreases Inside(links, links[at].lo, links[at].hi)
      {
        assert KidOk(links, at, Left) && KidOk(links, at, Right) && at in Inside(links, links[at].lo, links[at].hi);
        if at.size == size {
          FitHere(links, root, at, size);
          return at;
        }
        if at.size > size {
          if at.left == null {
            FitHere(links, root, at, size);
            return at;
          } else {
            BracketDown(links, root, at, Left, size);
            assert NodeOk(links, root, at.left) && Holds(at.left, links[at.left]);
            at := at.left;
          }
        } else {
          if at.right == null {
            b := Climb(at, size);
            return;
          } else {
            BracketDown(links, root, at, Right, size);
            assert NodeOk(links, root, at.right) && Holds(at.right, links[at.right]);
            at := at.right;
          }
        }
      }
    }

    static lemma BracketRoot(m: Links, root: MemBlock, size: nat)
      requires Linked(m, root)
      ensures Bracketed(m, m[root].lo, m[root].hi, size)
    {
      assert NodeOk(m, root, root);
      forall a | a in m ensures OffBracket(m, a, m[root].lo, m[root].hi, size) { assert NodeOk(m, root, a); }
    }
  }
}
