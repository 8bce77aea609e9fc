/** Binary search trees as maps from nodes to their links. Every node has a rank and the interval of ranks below it, so
    that "left of" is an order of numbers and no path needs to be followed. */
module TreeLinks {
  import opened Blocks

  datatype Side = Left | Right

  function Other(s: Side): Side { if s.Left? then Right else Left }

  datatype Link = Link(parent: MemBlock?, left: MemBlock?, right: MemBlock?, color: Color,
                       size: nat, index: nat, lo: real, rank: real, hi: real, bh: nat) {
    function Kid(s: Side): MemBlock? { if s.Left? then left else right }
    function SetKid(s: Side, b: MemBlock?): Link { if s.Left? then this.(left := b) else this.(right := b) }
    function Lo(s: Side): real { if s.Left? then lo else rank }
    function Hi(s: Side): real { if s.Left? then rank else hi }
    function Replace(o: MemBlock, n: MemBlock?): Link { if left == o then this.(left := n) else this.(right := n) }
  }
  type Links = map<MemBlock, Link>

  ghost predicate KidOk(m: Links, b: MemBlock, s: Side)
    requires b in m
  {
    var c := m[b].Kid(s);
    if c != null
    then c in m && m[c].parent == b && m[c].lo == m[b].Lo(s) && m[c].hi == m[b].Hi(s)
    else Empty(m, m[b].Lo(s), m[b].Hi(s))
  }

  ghost predicate Outside(m: Links, a: MemBlock, lo: real, hi: real)
    requires a in m
  { m[a].rank <= lo || hi <= m[a].rank }

  ghost predicate Apart(m: Links, a: MemBlock, b: MemBlock)
    requires a in m && b in m
  {
    a != b ==> m[a].hi <= m[b].lo || m[b].hi <= m[a].lo || Within(m[a], m[b]) || Within(m[b], m[a])
  }

  // k's interval lies in one of the two slots of k'
  ghost predicate Within(k: Link, k': Link) {
    (k'.lo <= k.lo && k.hi <= k'.rank) || (k'.rank <= k.lo && k.hi <= k'.hi)
  }

  ghost predicate Empty(m: Links, lo: real, hi: real) {
    forall a {:trigger Outside(m, a, lo, hi)} :: a in m ==> Outside(m, a, lo, hi)
  }

  // the nodes with a rank in the open interval
  ghost function Inside(m: Links, lo: real, hi: real): set<MemBlock> { set a | a in m && lo < m[a].rank < hi }

  ghost predicate SameRanks(m: Links, m': Links) {
    m.Keys == m'.Keys && forall a <- m :: m'[a].rank == m[a].rank
  }

  lemma EmptySame(m: Links, m': Links, lo: real, hi: real)
    requires SameRanks(m, m') && Empty(m, lo, hi)
    ensures Empty(m', lo, hi)
  {
    forall a | a in m' ensures Outside(m', a, lo, hi) { assert Outside(m, a, lo, hi); }
  }

  ghost predicate ParentOk(m: Links, root: MemBlock?, b: MemBlock)
    requires b in m
  {
    var k := m[b];
    if k.parent == null then b == root && k.lo == 0.0 && k.hi == 1.0
    else b != root && k.parent in m && (m[k.parent].left == b || m[k.parent].right == b)
  }

  ghost predicate NodeOk(m: Links, root: MemBlock?, b: MemBlock)
    requires b in m
  {
    && 0.0 <= m[b].lo < m[b].rank < m[b].hi <= 1.0
    && KidOk(m, b, Left) && KidOk(m, b, Right)
    && ParentOk(m, root, b)
  }

  ghost predicate NodesOk(m: Links, root: MemBlock?) {
    forall b {:trigger NodeOk(m, root, b)} :: b in m ==> NodeOk(m, root, b)
  }

  ghost predicate AllApart(m: Links) {
    forall a, b {:trigger Apart(m, a, b)} :: a in m && b in m ==> Apart(m, a, b)
  }

  ghost predicate Linked(m: Links, root: MemBlock?) {
    && (root == null ==> m == map[])
    && (root != null ==> root in m && m[root].parent == null)
    && NodesOk(m, root) && AllApart(m)
  }

  // the link of c after x goes down on side s and its child y comes up
  function Turned(m: Links, x: MemBlock, y: MemBlock, s: Side, c: MemBlock): Link
    requires x in m && y in m && c in m
  {
    var p, b := m[x].parent, m[y].Kid(s);
    if c == x then
      m[x].SetKid(Other(s), b).(
        parent := y, lo := if s.Left? then m[x].lo else m[y].rank, hi := if s.Left? then m[y].rank else m[x].hi)
    else if c == y then m[y].SetKid(s, x).(parent := p, lo := m[x].lo, hi := m[x].hi)
    else if c == p then m[p].Replace(x, y)
    else if c == b then m[b].(parent := x)
    else m[c]
  }

  function Rotate(m: Links, x: MemBlock, y: MemBlock, s: Side): Links
    requires x in m && y in m
  {
    map c | c in m :: Turned(m, x, y, s, c)
  }

  // what Rotate does to a link other than x and y
  ghost predicate Kept(k: Link, k': Link) { k' == k.(parent := k'.parent, left := k'.left, right := k'.right) }

  ghost predicate Rotatable(m: Links, root: MemBlock?, x: MemBlock, y: MemBlock, s: Side)
  {
    Linked(m, root) && x in m && y in m && m[x].Kid(Other(s)) == y
    && NodeOk(m, root, x) && NodeOk(m, root, y)
  }

  // the four nodes a rotation touches are different
  lemma RotateApart(m: Links, root: MemBlock?, x: MemBlock, y: MemBlock, s: Side)
    requires Rotatable(m, root, x, y, s)
    ensures x != y && m[y].parent == x
    ensures var p := m[x].parent; p != x && p != y && (p != null ==> p in m && p != m[y].Kid(s))
    ensures var b := m[y].Kid(s); b != x && b != y && (b != null ==> b in m && m[b].parent == y)
  {
    var p, b := m[x].parent, m[y].Kid(s);
    if p != null { assert NodeOk(m, root, p); }
    if b != null { assert NodeOk(m, root, b); }
  }

  lemma RotateOther(m: Links, root: MemBlock?, x: MemBlock, y: MemBlock, s: Side, c: MemBlock, t: Side)
    requires Rotatable(m, root, x, y, s) && c in m && c != x && c != y
    ensures KidOk(Rotate(m, x, y, s), c, t)
  {
    RotateApart(m, root, x, y, s);
    var m' := Rotate(m, x, y, s);
    assert NodeOk(m, root, c);
    assert KidOk(m, c, t);
    var k := m[c].Kid(t);
    if k == null { EmptySame(m, m', m[c].Lo(t), m[c].Hi(t)); }
    else if c == m[x].parent {
      if k != x { assert m'[k].parent == c; }
    } else {
      assert m[k].parent == c && k != x && k != y;
      assert m'[k].parent == c;
    }
  }

  lemma RotateKidX(m: Links, root: MemBlock?, x: MemBlock, y: MemBlock, s: Side, t: Side)
    requires Rotatable(m, root, x, y, s)
    ensures KidOk(Rotate(m, x, y, s), x, t)
  {
    RotateApart(m, root, x, y, s);
    var m' := Rotate(m, x, y, s);
    if t == s {
      var k := m[x].Kid(s);
      assert KidOk(m, x, s);
      if k == null { EmptySame(m, m', m[x].Lo(s), m[x].Hi(s)); }
      else { assert m'[k].parent == x; }
    } else {
      assert KidOk(m, y, s);
      if m[y].Kid(s) == null { EmptySame(m, m', m[y].Lo(s), m[y].Hi(s)); }
    }
  }

  lemma RotateKidY(m: Links, root: MemBlock?, x: MemBlock, y: MemBlock, s: Side, t: Side)
    requires Rotatable(m, root, x, y, s)
    ensures KidOk(Rotate(m, x, y, s), y, t)
  {
    RotateApart(m, root, x, y, s);
    var m' := Rotate(m, x, y, s);
    if t != s {
      var k := m[y].Kid(t);
      assert KidOk(m, y, t);
      if k == null { EmptySame(m, m', m[y].Lo(t), m[y].Hi(t)); }
      else { assert m'[k].parent == y; }
    }
  }

  function NewRoot(m: Links, root: MemBlock?, x: MemBlock, y: MemBlock): MemBlock?
    requires x in m
  { if m[x].parent == null then y else root }

  lemma RotateParent(m: Links, root: MemBlock?, x: MemBlock, y: MemBlock, s: Side, c: MemBlock)
    requires Rotatable(m, root, x, y, s) && c in m
    ensures ParentOk(Rotate(m, x, y, s), NewRoot(m, root, x, y), c)
  {
    RotateApart(m, root, x, y, s);
    assert NodeOk(m, root, c);
    var p, m' := m[x].parent, Rotate(m, x, y, s);
    if c == x { assert m'[y].Kid(s) == x;
    } else if c == y {
      if p != null { assert NodeOk(m, root, p); assert m'[p] == m[p].Replace(x, y); }
    } else if c == m[y].Kid(s) { assert m'[x].Kid(Other(s)) == c;
    } else {
      var q := m[c].parent;
      assert m'[c].parent == q;
      if q == p && q != null { assert m'[p] == m[p].Replace(x, y); }
    }
  }

  /** The opposite rotation at the new top undoes a rotation. */
  lemma RotateBack(m: Links, root: MemBlock?, x: MemBlock, y: MemBlock, s: Side)
    requires Rotatable(m, root, x, y, s)
    ensures var m', root' := Rotate(m, x, y, s), NewRoot(m, root, x, y);
            Rotate(m', y, x, Other(s)) == m && NewRoot(m', root', y, x) == root
  {
    RotateApart(m, root, x, y, s);
    var m', p := Rotate(m, x, y, s), m[x].parent;
    assert KidOk(m, x, Other(s));
    if p != null { assert NodeOk(m, root, p) && KidOk(m, p, Left) && KidOk(m, p, Right); }
    forall c | c in m ensures Turned(m', y, x, Other(s), c) == m[c] {
      assert m'[c] == Turned(m, x, y, s, c) && m'[x] == Turned(m, x, y, s, x) && m'[y] == Turned(m, x, y, s, y);
    }
  }

  lemma RotateNode(m: Links, root: MemBlock?, x: MemBlock, y: MemBlock, s: Side, c: MemBlock)
    requires Rotatable(m, root, x, y, s) && c in m
    ensures NodeOk(Rotate(m, x, y, s), NewRoot(m, root, x, y), c)
  {
    assert NodeOk(m, root, c);
    RotateParent(m, root, x, y, s, c);
    forall t: Side ensures KidOk(Rotate(m, x, y, s), c, t) {
      if c == x { RotateKidX(m, root, x, y, s, t); }
      else if c == y { RotateKidY(m, root, x, y, s, t); }
      else { RotateOther(m, root, x, y, s, c, t); }
    }
  }

  lemma RotateNodes(m: Links, root: MemBlock?, x: MemBlock, y: MemBlock, s: Side)
    requires Rotatable(m, root, x, y, s)
    ensures NodesOk(Rotate(m, x, y, s), NewRoot(m, root, x, y))
  {
    var m', root' := Rotate(m, x, y, s), NewRoot(m, root, x, y);
    forall c | c in m' ensures NodeOk(m', root', c) {
      RotateNode(m, root, x, y, s, c);
    }
  }

  lemma RotateUp(m: Links, root: MemBlock?, x: MemBlock, y: MemBlock, s: Side, c: MemBlock)
    requires Rotatable(m, root, x, y, s) && c in m && c != x
    ensures Apart(Rotate(m, x, y, s), y, c) && Apart(Rotate(m, x, y, s), c, y)
  {
    RotateApart(m, root, x, y, s);
    assert NodeOk(m, root, c) && Apart(m, c, x) && Apart(m, c, y);
    assert KidOk(m, x, Other(s));
  }

  lemma RotateDown(m: Links, root: MemBlock?, x: MemBlock, y: MemBlock, s: Side, c: MemBlock)
    requires Rotatable(m, root, x, y, s) && c in m
    ensures Apart(Rotate(m, x, y, s), x, c) && Apart(Rotate(m, x, y, s), c, x)
  {
    RotateApart(m, root, x, y, s);
    assert NodeOk(m, root, c) && Apart(m, c, x) && Apart(m, c, y);
    assert KidOk(m, x, Other(s));
  }

  lemma RotatePair(m: Links, root: MemBlock?, x: MemBlock, y: MemBlock, s: Side, a: MemBlock, b: MemBlock)
    requires Rotatable(m, root, x, y, s) && a in m && b in m
    ensures Apart(Rotate(m, x, y, s), a, b)
  {
    if a == x { RotateDown(m, root, x, y, s, b); }
    else if b == x { RotateDown(m, root, x, y, s, a); }
    else if a == y { RotateUp(m, root, x, y, s, b); }
    else if b == y { RotateUp(m, root, x, y, s, a); }
    else { assert Apart(m, a, b); }
  }

  lemma RotateLinked(m: Links, root: MemBlock?, x: MemBlock, y: MemBlock, s: Side)
    requires Rotatable(m, root, x, y, s)
    ensures Linked(Rotate(m, x, y, s), NewRoot(m, root, x, y))
  {
    var m' := Rotate(m, x, y, s);
    RotateNodes(m, root, x, y, s);
    forall a, b | a in m' && b in m' ensures Apart(m', a, b) { RotatePair(m, root, x, y, s, a, b); }
    assert root in m;
    if m[x].parent != null { assert root != x; assert m'[root].parent == null; }
  }

  // ---- a new leaf

  function Middle(lo: real, hi: real): (r: real)
    ensures lo < hi ==> lo < r < hi
  { (lo + hi) / 2.0 }

  function Leaf(m: Links, p: MemBlock, s: Side, size: nat, index: nat): Link
    requires p in m
  {
    Link(p, null, null, Red, size, index, m[p].Lo(s), Middle(m[p].Lo(s), m[p].Hi(s)), m[p].Hi(s), 0)
  }

  function AddLeaf(m: Links, n: MemBlock, p: MemBlock, s: Side, size: nat, index: nat): Links
    requires p in m
  {
    m[p := m[p].SetKid(s, n)][n := Leaf(m, p, s, size, index)]
  }

  ghost predicate Addable(m: Links, root: MemBlock?, n: MemBlock, p: MemBlock, s: Side) {
    Linked(m, root) && n !in m && p in m && m[p].Kid(s) == null && NodeOk(m, root, p)
  }

  // no two empty slots overlap, so the new rank falls in no other one
  lemma AddEmpty(m: Links, root: MemBlock?, n: MemBlock, p: MemBlock, s: Side, c: MemBlock, t: Side, r: real)
    requires Addable(m, root, n, p, s) && c in m && (c != p || t != s)
    requires m[c].Kid(t) == null && m[p].Lo(s) < r < m[p].Hi(s)
    ensures r <= m[c].Lo(t) || m[c].Hi(t) <= r
  {
    assert NodeOk(m, root, c) && KidOk(m, p, s) && KidOk(m, c, t);
    assert Outside(m, c, m[p].Lo(s), m[p].Hi(s)) && Outside(m, p, m[c].Lo(t), m[c].Hi(t)) && Apart(m, c, p);
  }

  lemma AddKid(m: Links, root: MemBlock?, n: MemBlock, p: MemBlock, s: Side, size: nat, index: nat, c: MemBlock,
      t: Side)
    requires Addable(m, root, n, p, s) && c in m
    ensures KidOk(AddLeaf(m, n, p, s, size, index), c, t)
  {
    var m' := AddLeaf(m, n, p, s, size, index);
    assert NodeOk(m, root, c) && KidOk(m, c, t);
    var k := m[c].Kid(t);
    if c == p && t == s {
    } else if k == null {
      AddEmpty(m, root, n, p, s, c, t, m'[n].rank);
      forall a | a in m' ensures Outside(m', a, m[c].Lo(t), m[c].Hi(t)) {
        if a != n { assert Outside(m, a, m[c].Lo(t), m[c].Hi(t)); }
      }
    } else {
      assert m'[k].parent == c;
    }
  }

  lemma AddNew(m: Links, root: MemBlock?, n: MemBlock, p: MemBlock, s: Side, size: nat, index: nat)
    requires Addable(m, root, n, p, s)
    ensures NodeOk(AddLeaf(m, n, p, s, size, index), root, n)
  {
    var m' := AddLeaf(m, n, p, s, size, index);
    assert KidOk(m, p, s);
    forall t: Side ensures KidOk(m', n, t) {
      forall a | a in m' ensures Outside(m', a, m'[n].Lo(t), m'[n].Hi(t)) {
        if a != n { assert Outside(m, a, m[p].Lo(s), m[p].Hi(s)); }
      }
    }
    assert m'[p].Kid(s) == n;
  }

  lemma AddApart(m: Links, root: MemBlock?, n: MemBlock, p: MemBlock, s: Side, size: nat, index: nat, a: MemBlock)
    requires Addable(m, root, n, p, s) && a in m
    ensures var m' := AddLeaf(m, n, p, s, size, index); Apart(m', a, n) && Apart(m', n, a)
  {
    assert NodeOk(m, root, a) && KidOk(m, p, s) && Apart(m, a, p) && Outside(m, a, m[p].Lo(s), m[p].Hi(s));
  }

  lemma AddNode(m: Links, root: MemBlock?, n: MemBlock, p: MemBlock, s: Side, size: nat, index: nat, c: MemBlock)
    requires Addable(m, root, n, p, s) && (c in m || c == n)
    ensures NodeOk(AddLeaf(m, n, p, s, size, index), root, c)
  {
    if c == n { AddNew(m, root, n, p, s, size, index); }
    else {
      assert NodeOk(m, root, c);
      AddKid(m, root, n, p, s, size, index, c, Left);
      AddKid(m, root, n, p, s, size, index, c, Right);
    }
  }

  lemma AddPair(m: Links, root: MemBlock?, n: MemBlock, p: MemBlock, s: Side, size: nat, index: nat, a: MemBlock,
      b: MemBlock)
    requires Addable(m, root, n, p, s) && (a in m || a == n) && (b in m || b == n)
    ensures Apart(AddLeaf(m, n, p, s, size, index), a, b)
  {
    if a != n && b != n { assert Apart(m, a, b); }
    else if a != n { AddApart(m, root, n, p, s, size, index, a); }
    else if b != n { AddApart(m, root, n, p, s, size, index, b); }
  }

  lemma AddLinked(m: Links, root: MemBlock?, n: MemBlock, p: MemBlock, s: Side, size: nat, index: nat)
    requires Addable(m, root, n, p, s)
    ensures Linked(AddLeaf(m, n, p, s, size, index), root)
  {
    var m' := AddLeaf(m, n, p, s, size, index);
    forall c | c in m' ensures NodeOk(m', root, c) { AddNode(m, root, n, p, s, size, index, c); }
    forall a, b | a in m' && b in m' ensures Apart(m', a, b) { AddPair(m, root, n, p, s, size, index, a, b); }
  }

  // ---- a leaf goes

  function DropLeaf(m: Links, n: MemBlock): Links
    requires n in m
  {
    map c | c in m && c != n :: if c == m[n].parent then m[c].Replace(n, null) else m[c]
  }

  ghost predicate Droppable(m: Links, root: MemBlock?, n: MemBlock) {
    Linked(m, root) && n in m && m[n].left == null && m[n].right == null && m[n].parent != null && NodeOk(m, root, n)
  }

  lemma DropKid(m: Links, root: MemBlock?, n: MemBlock, c: MemBlock, t: Side)
    requires Droppable(m, root, n) && c in m && c != n
    ensures KidOk(DropLeaf(m, n), c, t)
  {
    var m' := DropLeaf(m, n);
    assert NodeOk(m, root, c) && KidOk(m, c, t) && KidOk(m, n, Left) && KidOk(m, n, Right);
    var k := m[c].Kid(t);
    var lo, hi := m[c].Lo(t), m[c].Hi(t);
    if k == null || k == n {
      forall a | a in m' ensures Outside(m', a, lo, hi) {
        if k == null { assert Outside(m, a, lo, hi); }
        else {
          assert NodeOk(m, root, a) && Outside(m, a, lo, m[n].rank) && Outside(m, a, m[n].rank, hi) && Apart(m, a, n);
        }
      }
    } else {
      assert m'[k].parent == c;
    }
  }

  lemma DropLinked(m: Links, root: MemBlock?, n: MemBlock)
    requires Droppable(m, root, n)
    ensures Linked(DropLeaf(m, n), root)
  {
    var m' := DropLeaf(m, n);
    forall c | c in m' ensures NodeOk(m', root, c) {
      assert NodeOk(m, root, c);
      DropKid(m, root, n, c, Left);
      DropKid(m, root, n, c, Right);
      DropParent(m, root, n, c);
    }
    forall a, b | a in m' && b in m' ensures Apart(m', a, b) { assert Apart(m, a, b); }
    assert NodeOk(m, root, root);
  }

  lemma DropParent(m: Links, root: MemBlock?, n: MemBlock, c: MemBlock)
    requires Droppable(m, root, n) && c in m && c != n
    ensures ParentOk(DropLeaf(m, n), root, c)
  {
    assert NodeOk(m, root, c);
    var q := m[c].parent;
    if q == n { assert false; }
  }

  // ---- a node whose only child is a leaf goes, and the leaf takes its place

  function Lift(m: Links, n: MemBlock, y: MemBlock): Links
    requires n in m && y in m
  {
    map c | c in m && c != n ::
      if c == m[n].parent then m[c].Replace(n, y)
      else if c == y then m[y].(parent := m[n].parent, lo := m[n].lo, hi := m[n].hi)
      else m[c]
  }

  ghost predicate Liftable(m: Links, root: MemBlock?, n: MemBlock, y: MemBlock, s: Side) {
    && Linked(m, root) && n in m && y in m && m[n].Kid(s) == y && m[n].Kid(Other(s)) == null
    && m[y].left == null && m[y].right == null && NodeOk(m, root, n) && NodeOk(m, root, y)
  }

  lemma LiftKid(m: Links, root: MemBlock?, n: MemBlock, y: MemBlock, s: Side, c: MemBlock, t: Side)
    requires Liftable(m, root, n, y, s) && c in m && c != n && c != y
    ensures KidOk(Lift(m, n, y), c, t)
  {
    var m' := Lift(m, n, y);
    assert NodeOk(m, root, c) && KidOk(m, c, t);
    var k := m[c].Kid(t);
    if k == null {
      forall a | a in m' ensures Outside(m', a, m[c].Lo(t), m[c].Hi(t)) {
        assert Outside(m, a, m[c].Lo(t), m[c].Hi(t));
      }
    } else if k == n {
      assert m[n].parent == c && m'[c] == m[c].Replace(n, y);
    } else {
      assert k != y && m'[k].parent == c;
    }
  }

  lemma LiftUp(m: Links, root: MemBlock?, n: MemBlock, y: MemBlock, s: Side, t: Side)
    requires Liftable(m, root, n, y, s)
    ensures KidOk(Lift(m, n, y), y, t)
  {
    var m' := Lift(m, n, y);
    assert KidOk(m, y, t) && KidOk(m, n, Other(s));
    forall a | a in m' ensures Outside(m', a, m'[y].Lo(t), m'[y].Hi(t)) {
      assert NodeOk(m, root, a) && Outside(m, a, m[y].Lo(t), m[y].Hi(t));
      assert Outside(m, a, m[n].Lo(Other(s)), m[n].Hi(Other(s))) && Apart(m, a, n);
    }
  }

  lemma LiftParent(m: Links, root: MemBlock?, n: MemBlock, y: MemBlock, s: Side, c: MemBlock)
    requires Liftable(m, root, n, y, s) && c in m && c != n
    ensures ParentOk(Lift(m, n, y), NewRoot(m, root, n, y), c)
  {
    assert NodeOk(m, root, c);
    var q := m[c].parent;
    if c == y { if m[n].parent != null { assert NodeOk(m, root, m[n].parent); } }
    else if q == n { assert false; }
    else if q == y { assert false; }
  }

  lemma LiftApart(m: Links, root: MemBlock?, n: MemBlock, y: MemBlock, s: Side, a: MemBlock)
    requires Liftable(m, root, n, y, s) && a in m && a != n
    ensures Apart(Lift(m, n, y), a, y) && Apart(Lift(m, n, y), y, a)
  {
    if a != y {
      assert NodeOk(m, root, a) && KidOk(m, n, s) && KidOk(m, n, Other(s)) && Apart(m, a, n) && Apart(m, a, y);
      assert KidOk(m, y, Left) && KidOk(m, y, Right);
      assert Outside(m, a, m[y].lo, m[y].rank) && Outside(m, a, m[y].rank, m[y].hi);
      assert Outside(m, a, m[n].Lo(Other(s)), m[n].Hi(Other(s)));
    }
  }

  lemma LiftNode(m: Links, root: MemBlock?, n: MemBlock, y: MemBlock, s: Side, c: MemBlock)
    requires Liftable(m, root, n, y, s) && c in m && c != n
    ensures NodeOk(Lift(m, n, y), NewRoot(m, root, n, y), c)
  {
    assert NodeOk(m, root, c);
    if c == y {
      LiftUp(m, root, n, y, s, Left); LiftUp(m, root, n, y, s, Right);
    } else {
      LiftKid(m, root, n, y, s, c, Left); LiftKid(m, root, n, y, s, c, Right);
    }
    LiftParent(m, root, n, y, s, c);
  }

  lemma LiftLinked(m: Links, root: MemBlock?, n: MemBlock, y: MemBlock, s: Side)
    requires Liftable(m, root, n, y, s)
    ensures Linked(Lift(m, n, y), NewRoot(m, root, n, y))
  {
    var m', root' := Lift(m, n, y), NewRoot(m, root, n, y);
    forall c | c in m' ensures NodeOk(m', root', c) { LiftNode(m, root, n, y, s, c); }
    forall a, b | a in m' && b in m' ensures Apart(m', a, b) {
      if a == y { LiftApart(m, root, n, y, s, b); }
      else if b == y { LiftApart(m, root, n, y, s, a); }
      else { assert Apart(m, a, b); }
    }
  }

  // ---- two nodes change places

  function Partner(a: MemBlock, b: MemBlock, c: MemBlock): MemBlock {
    if c == a then b else if c == b then a else c
  }

  function Renamed(a: MemBlock, b: MemBlock, c: MemBlock?): MemBlock? {
    if c == null then null else Partner(a, b, c)
  }

  function Swapped(m: Links, a: MemBlock, b: MemBlock, c: MemBlock): Link
    requires a in m && b in m && c in m
  {
    var k := m[Partner(a, b, c)];
    k.(parent := Renamed(a, b, k.parent), left := Renamed(a, b, k.left), right := Renamed(a, b, k.right),
       size := m[c].size, index := m[c].index)
  }

  function Swap(m: Links, a: MemBlock, b: MemBlock): Links
    requires a in m && b in m
  {
    map c | c in m :: Swapped(m, a, b, c)
  }

  lemma SwapNode(m: Links, root: MemBlock?, a: MemBlock, b: MemBlock, c: MemBlock)
    requires Linked(m, root) && a in m && b in m && c in m
    ensures NodeOk(Swap(m, a, b), Renamed(a, b, root), c)
  {
    var m' := Swap(m, a, b);
    var o := Partner(a, b, c);
    assert NodeOk(m, root, o);
    forall t: Side ensures KidOk(m', c, t) {
      assert KidOk(m, o, t);
      var k := m[o].Kid(t);
      if k == null {
        forall e | e in m' ensures Outside(m', e, m[o].Lo(t), m[o].Hi(t)) {
          assert Outside(m, Partner(a, b, e), m[o].Lo(t), m[o].Hi(t));
        }
      } else {
        assert m'[Renamed(a, b, k)].parent == c;
      }
    }
  }

  lemma SwapPair(m: Links, a: MemBlock, b: MemBlock, c: MemBlock, e: MemBlock)
    requires AllApart(m) && a in m && b in m && c in m && e in m
    ensures Apart(Swap(m, a, b), c, e)
  {
    assert Apart(m, Partner(a, b, c), Partner(a, b, e));
  }

  lemma SwapLinked(m: Links, root: MemBlock?, a: MemBlock, b: MemBlock)
    requires Linked(m, root) && a in m && b in m
    ensures Linked(Swap(m, a, b), Renamed(a, b, root))
  {
    var m' := Swap(m, a, b);
    forall c | c in m' ensures NodeOk(m', Renamed(a, b, root), c) { SwapNode(m, root, a, b, c); }
    forall c, e | c in m' && e in m' ensures Apart(m', c, e) {
      SwapPair(m, a, b, c, e);
    }
  }

  // x, its child y, x's parent and y's inner child are different nodes of the tree
  ghost predicate Quad(m: Links, x: MemBlock, y: MemBlock, s: Side) {
    && x in m && y in m && m[x].Kid(Other(s)) == y && x != y
    && (var p := m[x].parent; p != x && p != y && (p != null ==> p in m && p != m[y].Kid(s)))
    && (var b := m[y].Kid(s); b != x && b != y && (b != null ==> b in m))
  }

  // p2 is a node below p1's left child, with no right child
  ghost predicate Swappable(m: Links, root: MemBlock?, p1: MemBlock, p2: MemBlock) {
    && Linked(m, root) && p1 in m && p2 in m && NodeOk(m, root, p1) && NodeOk(m, root, p2)
    && m[p1].left != null && m[p1].right != null && m[p2].right == null && m[p1].lo <= m[p2].lo
    && m[p2].hi == m[p1].rank
  }

  lemma SwapNear(m: Links, root: MemBlock?, p1: MemBlock, p2: MemBlock)
    requires Swappable(m, root, p1, p2)
    ensures p1 != p2 && m[p1].parent != p2 && m[p2].parent != null && m[p1].parent != m[p2].parent && m[p1].right != p2
    ensures m[p2].parent in m && m[p1].left in m && m[p1].right in m
    ensures m[m[p1].left].parent == p1 && m[m[p1].right].parent == p1
    ensures m[p1].left != m[p1].right && m[p1].left != p1 && m[p1].right != p1 && m[p1].parent != p1
    ensures m[p2].left != p2 && m[p2].parent != p2
    ensures m[p2].left != null ==> m[p2].left in m && m[m[p2].left].parent == p2
  {
    assert KidOk(m, p1, Left) && KidOk(m, p1, Right) && KidOk(m, p2, Left);
    var q1, q2 := m[p1].parent, m[p2].parent;
    if q1 != null { assert NodeOk(m, root, q1) && KidOk(m, q1, Left) && KidOk(m, q1, Right); }
    if q2 != null { assert NodeOk(m, root, q2) && KidOk(m, q2, Left) && KidOk(m, q2, Right); }
  }

  // the parent q of p
  lemma ParentNear(m: Links, root: MemBlock?, p: MemBlock)
    requires Linked(m, root) && p in m && m[p].parent != null
    ensures var q := m[p].parent; q in m && (m[q].left == p) != (m[q].right == p) && q != m[p].left && q != m[p].right
    ensures forall c: MemBlock :: c in m && c != p && m[c].parent != m[p].parent ==>
              c != m[m[p].parent].left && c != m[m[p].parent].right
  {
    var q := m[p].parent;
    assert NodeOk(m, root, p) && NodeOk(m, root, q) && KidOk(m, q, Left) && KidOk(m, q, Right);
    assert KidOk(m, p, Left) && KidOk(m, p, Right);
  }

  // only the pair's neighbours point to them
  lemma SwappedView(m: Links, root: MemBlock?, p1: MemBlock, p2: MemBlock, c: MemBlock)
    requires Swappable(m, root, p1, p2) && c in m && c != p1 && c != p2
    ensures var k := Swapped(m, p1, p2, c);
            && k.parent == (if c == m[p1].left || c == m[p1].right then p2
                            else if c == m[p2].left then p1 else m[c].parent)
            && k.left == (if c == m[p1].parent || c == m[p2].parent then Renamed(p1, p2, m[c].left) else m[c].left)
            && k.right == (if c == m[p1].parent || c == m[p2].parent then Renamed(p1, p2, m[c].right) else m[c].right)
            && k == m[c].(parent := k.parent, left := k.left, right := k.right)
  {
    assert NodeOk(m, root, c) && KidOk(m, c, Left) && KidOk(m, c, Right);
    assert KidOk(m, p1, Left) && KidOk(m, p1, Right) && KidOk(m, p2, Left) && KidOk(m, p2, Right);
  }
}
