/** The colours of a tree, and what each case of the two repairs does to them. */
module TreeColors {
  import opened Blocks
  import opened TreeLinks

  function H(m: Links, b: MemBlock?): nat { if b != null && b in m then m[b].bh else 0 }
  ghost predicate IsRed(m: Links, b: MemBlock?) { b != null && b in m && m[b].color == Red }

  function Depth(m: Links, b: MemBlock, s: Side, hp: MemBlock?, hs: Side): nat
    requires b in m
  { H(m, m[b].Kid(s)) + if b == hp && s == hs then 1 else 0 }

  ghost predicate NodeColor(m: Links, b: MemBlock, hp: MemBlock?, hs: Side, top: MemBlock?, low: MemBlock?)
    requires b in m
  {
    var ink := if m[b].color == Black then 1 else 0;
    && m[b].bh == Depth(m, b, Left, hp, hs) + ink
    && m[b].bh == Depth(m, b, Right, hp, hs) + ink
    && (m[b].color == Red && b != top ==>
          (IsRed(m, m[b].left) ==> m[b].left == low) && (IsRed(m, m[b].right) ==> m[b].right == low))
  }

  ghost predicate Colored(m: Links, hp: MemBlock?, hs: Side, top: MemBlock?, low: MemBlock?) {
    forall b {:trigger NodeColor(m, b, hp, hs, top, low)} :: b in m ==> NodeColor(m, b, hp, hs, top, low)
  }

  ghost predicate NoFlaw(m: Links) { Colored(m, null, Left, null, null) }

  // ---- painting

  ghost predicate SameShape(m: Links, m': Links) {
    m.Keys == m'.Keys && forall c <- m :: m'[c] == m[c].(color := m'[c].color, bh := m'[c].bh)
  }

  lemma PaintLinked(m: Links, m': Links, root: MemBlock?)
    requires Linked(m, root) && SameShape(m, m')
    ensures Linked(m', root)
  {
    forall c | c in m' ensures NodeOk(m', root, c) {
      assert NodeOk(m, root, c);
      forall t: Side ensures KidOk(m', c, t) {
        assert KidOk(m, c, t);
        if m[c].Kid(t) == null { EmptySame(m, m', m[c].Lo(t), m[c].Hi(t)); }
      }
    }
    forall a, b | a in m' && b in m' ensures Apart(m', a, b) { assert Apart(m, a, b); }
  }

  function Paint(m: Links, b: MemBlock, color: Color, bh: nat): Links {
    map c | c in m :: if c == b then m[c].(color := color, bh := bh) else m[c]
  }

  function Paint2(m: Links, a: MemBlock, ca: Color, ha: nat, b: MemBlock, cb: Color, hb: nat): Links {
    map c | c in m ::
      if c == a then m[c].(color := ca, bh := ha) else if c == b then m[c].(color := cb, bh := hb) else m[c]
  }

  // ---- insertion

  ghost predicate Uncle(m: Links, root: MemBlock?, z: MemBlock, p: MemBlock, g: MemBlock, s: Side) {
    && Linked(m, root) && Colored(m, null, Left, null, z)
    && z in m && p in m && g in m && m[z].parent == p && m[p].parent == g && m[g].Kid(s) == p
    && IsRed(m, z) && IsRed(m, p)
  }

  function Lighten(m: Links, p: MemBlock, y: MemBlock, g: MemBlock): Links
    requires p in m && y in m && g in m
  {
    map c | c in m :: if c == p || c == y then m[c].(color := Black, bh := m[c].bh + 1)
                      else if c == g then m[c].(color := Red) else m[c]
  }

  lemma InsertCase1Node(m: Links, root: MemBlock?, z: MemBlock, p: MemBlock, y: MemBlock, g: MemBlock, s: Side,
      c: MemBlock)
    requires Uncle(m, root, z, p, g, s) && c in m && y in m && m[g].Kid(Other(s)) == y && IsRed(m, y)
    ensures NodeColor(Lighten(m, p, y, g), c, null, Left, null, g)
  {
    var m' := Lighten(m, p, y, g);
    assert NodeColor(m, c, null, Left, null, z);
    assert NodeColor(m, g, null, Left, null, z);
    assert NodeOk(m, root, c) && NodeOk(m, root, g);
    assert KidOk(m, g, Left) && KidOk(m, g, Right) && p != y && p != g && y != g;
    assert KidOk(m, c, Left) && KidOk(m, c, Right);
  }

  lemma InsertCase1(m: Links, root: MemBlock?, z: MemBlock, p: MemBlock, y: MemBlock, g: MemBlock, s: Side)
    requires Uncle(m, root, z, p, g, s) && y in m && m[g].Kid(Other(s)) == y && IsRed(m, y)
    ensures Linked(Lighten(m, p, y, g), root) && Colored(Lighten(m, p, y, g), null, Left, null, g)
  {
    var m' := Lighten(m, p, y, g);
    assert NodeOk(m, root, g) && p != y && p != g && y != g;
    PaintLinked(m, m', root);
    forall c | c in m' ensures NodeColor(m', c, null, Left, null, g) {
      InsertCase1Node(m, root, z, p, y, g, s, c);
    }
  }

  // what a rotation does to the children of c
  lemma RotateView(m: Links, root: MemBlock?, x: MemBlock, y: MemBlock, s: Side, c: MemBlock, t: Side)
    requires Rotatable(m, root, x, y, s) && c in m && c != x && c != y
    ensures m[c].Kid(t) != y && Rotate(m, x, y, s)[c].Kid(t) == if m[c].Kid(t) == x then y else m[c].Kid(t)
    ensures m[c].Kid(t) == x ==> m[x].parent == c
    ensures m[c].Kid(t) != null ==> m[c].Kid(t) in m && m[m[c].Kid(t)].parent == c
  {
    RotateApart(m, root, x, y, s);
    assert NodeOk(m, root, c) && KidOk(m, c, t);
    if m[x].parent == c { assert KidOk(m, c, Left) && KidOk(m, c, Right); }
  }

  lemma RotateViewTurned(m: Links, root: MemBlock?, x: MemBlock, y: MemBlock, s: Side)
    requires Rotatable(m, root, x, y, s)
    ensures x != y && m[y].parent == x && m[x].Kid(s) != y
    ensures var m' := Rotate(m, x, y, s);
            && m'[x].Kid(s) == m[x].Kid(s) && m'[x].Kid(Other(s)) == m[y].Kid(s)
            && m'[y].Kid(s) == x && m'[y].Kid(Other(s)) == m[y].Kid(Other(s))
    ensures forall t: Side :: m[y].Kid(t) != x && m[y].Kid(t) != y
    ensures m[x].Kid(s) != x
  {
    RotateApart(m, root, x, y, s);
    assert KidOk(m, x, s) && KidOk(m, y, s) && KidOk(m, x, Other(s)) && KidOk(m, y, Other(s));
  }

  ghost predicate SameInk(m: Links, m': Links) {
    m.Keys == m'.Keys && forall c <- m :: m'[c].color == m[c].color && m'[c].bh == m[c].bh
  }

  lemma RotateInk(m: Links, x: MemBlock, y: MemBlock, s: Side)
    requires x in m && y in m
    ensures SameInk(m, Rotate(m, x, y, s))
  {}

  // m1 is m with only x and y painted
  ghost predicate Painted(m: Links, m1: Links, x: MemBlock, y: MemBlock) {
    && m.Keys == m1.Keys
    && forall c <- m :: m1[c] == if c == x || c == y then m[c].(color := m1[c].color, bh := m1[c].bh) else m[c]
  }

  // m' is m1 after the rotation, seen from a node that is neither of the two
  lemma TurnedOther(m: Links, m1: Links, m': Links, x: MemBlock, y: MemBlock, c: MemBlock,
                    hp: MemBlock?, hs: Side, top: MemBlock?, low: MemBlock?, low': MemBlock?)
    requires x in m && y in m && c in m && c != x && c != y && Painted(m, m1, x, y) && SameInk(m1, m')
    requires forall t: Side :: m[c].Kid(t) != y && m'[c].Kid(t) == if m[c].Kid(t) == x then y else m[c].Kid(t)
    requires NodeColor(m, c, hp, hs, top, low)
    requires m[c].left == x || m[c].right == x ==>
              m1[y].bh == m[x].bh && (m[c].color == Red && c != top ==> m1[y].color == Black || y == low')
    requires low == null || low == low' || low == x || (m[c].left != low && m[c].right != low)
    ensures NodeColor(m', c, hp, hs, top, low')
  {
    assert m[c].Kid(Left) == m[c].left && m[c].Kid(Right) == m[c].right;
    assert m'[c].Kid(Left) == m'[c].left && m'[c].Kid(Right) == m'[c].right;
  }

  lemma TurnOther(m: Links, m1: Links, root: MemBlock?, x: MemBlock, y: MemBlock, s: Side, c: MemBlock,
                  hp: MemBlock?, hs: Side, top: MemBlock?, low: MemBlock?, low': MemBlock?)
    requires Rotatable(m1, root, x, y, s) && Painted(m, m1, x, y)
    requires c in m && c != x && c != y && NodeColor(m, c, hp, hs, top, low)
    requires m[x].parent == c ==>
              m1[y].bh == m[x].bh && (m[c].color == Red && c != top ==> m1[y].color == Black || y == low')
    requires low == null || low == low' || low == x || (low in m && m[low].parent != c)
    ensures NodeColor(Rotate(m1, x, y, s), c, hp, hs, top, low')
  {
    RotateInk(m1, x, y, s);
    RotateView(m1, root, x, y, s, c, Left);
    RotateView(m1, root, x, y, s, c, Right);
    TurnedOther(m, m1, Rotate(m1, x, y, s), x, y, c, hp, hs, top, low, low');
  }

  // c's children in m' are l on side s and r on the other, and c's own ink suits theirs
  lemma TurnedOne(m: Links, m1: Links, m': Links, x: MemBlock, y: MemBlock, c: MemBlock, s: Side, l: MemBlock?,
      r: MemBlock?,
                  hp: MemBlock?, hs: Side, top: MemBlock?, low: MemBlock?)
    requires c in m && SameInk(m1, m') && m.Keys == m1.Keys && m'[c].Kid(s) == l && m'[c].Kid(Other(s)) == r
    requires var ink := if m1[c].color == Black then 1 else 0;
             && m1[c].bh == H(m1, l) + ink + (if c == hp && hs == s then 1 else 0)
             && m1[c].bh == H(m1, r) + ink + (if c == hp && hs == Other(s) then 1 else 0)
    requires m1[c].color == Red && c != top ==> (IsRed(m1, l) ==> l == low) && (IsRed(m1, r) ==> r == low)
    ensures NodeColor(m', c, hp, hs, top, low)
  {
    assert m'[c].Kid(Left) == m'[c].left && m'[c].Kid(Right) == m'[c].right;
  }

  // ... from x, which gets y's inner child
  lemma TurnX(m: Links, m1: Links, root: MemBlock?, x: MemBlock, y: MemBlock, s: Side,
              hp: MemBlock?, hs: Side, top: MemBlock?, low: MemBlock?)
    requires Rotatable(m1, root, x, y, s) && Painted(m, m1, x, y)
    requires var ink := if m1[x].color == Black then 1 else 0;
             && m1[x].bh == Depth(m, x, s, hp, hs) + ink
             && m1[x].bh == H(m, m[y].Kid(s)) + ink + if x == hp && hs == Other(s) then 1 else 0
    requires m1[x].color == Red && x != top ==> !IsRed(m, m[x].Kid(s)) && !IsRed(m, m[y].Kid(s))
    ensures NodeColor(Rotate(m1, x, y, s), x, hp, hs, top, low)
  {
    RotateInk(m1, x, y, s);
    RotateViewTurned(m1, root, x, y, s);
    TurnedOne(m, m1, Rotate(m1, x, y, s), x, y, x, s, m1[x].Kid(s), m1[y].Kid(s), hp, hs, top, low);
  }

  // ... from y, which gets x as a child
  lemma TurnY(m: Links, m1: Links, root: MemBlock?, x: MemBlock, y: MemBlock, s: Side,
              hp: MemBlock?, hs: Side, top: MemBlock?, low: MemBlock?)
    requires Rotatable(m1, root, x, y, s) && Painted(m, m1, x, y) && (y == hp ==> hs != s)
    requires var ink := if m1[y].color == Black then 1 else 0;
             m1[y].bh == m1[x].bh + ink && m1[y].bh == Depth(m, y, Other(s), hp, hs) + ink
    requires m1[y].color == Red && y != top ==>
               (m1[x].color == Black || x == low) && (IsRed(m, m[y].Kid(Other(s))) ==> m[y].Kid(Other(s)) == low)
    ensures NodeColor(Rotate(m1, x, y, s), y, hp, hs, top, low)
  {
    RotateInk(m1, x, y, s);
    RotateViewTurned(m1, root, x, y, s);
    TurnedOne(m, m1, Rotate(m1, x, y, s), x, y, y, s, x, m1[y].Kid(Other(s)), hp, hs, top, low);
  }

  lemma InsertCase3Node(m: Links, root: MemBlock?, z: MemBlock, p: MemBlock, g: MemBlock, s: Side, c: MemBlock)
    requires Uncle(m, root, z, p, g, s) && c in m && m[p].Kid(Other(s)) == z && Rotatable(m, root, p, z, s)
    ensures NodeColor(Rotate(m, p, z, s), c, null, Left, null, p)
  {
    assert NodeColor(m, c, null, Left, null, z) && NodeColor(m, z, null, Left, null, z);
    assert NodeColor(m, p, null, Left, null, z) && NodeColor(m, g, null, Left, null, z);
    RotateApart(m, root, p, z, s);
    if c == p { TurnX(m, m, root, p, z, s, null, Left, null, p); }
    else if c == z { TurnY(m, m, root, p, z, s, null, Left, null, p); }
    else { TurnOther(m, m, root, p, z, s, c, null, Left, null, z, p); }
  }

  lemma InsertCase3(m: Links, root: MemBlock?, z: MemBlock, p: MemBlock, g: MemBlock, s: Side)
    requires Uncle(m, root, z, p, g, s) && m[p].Kid(Other(s)) == z
    ensures Rotatable(m, root, p, z, s) && Uncle(Rotate(m, p, z, s), root, p, z, g, s)
    ensures Rotate(m, p, z, s)[z].Kid(s) == p && Rotate(m, p, z, s)[g].Kid(Other(s)) == m[g].Kid(Other(s))
  {
    assert NodeOk(m, root, z) && NodeOk(m, root, p) && NodeOk(m, root, g);
    RotateApart(m, root, p, z, s);
    RotateLinked(m, root, p, z, s);
    var m' := Rotate(m, p, z, s);
    forall c | c in m' ensures NodeColor(m', c, null, Left, null, p) {
      assert c in m;
      InsertCase3Node(m, root, z, p, g, s, c);
    }
  }

  function Raise(m: Links, p: MemBlock, g: MemBlock): Links
    requires p in m && g in m
  { Paint2(m, p, Black, m[g].bh, g, Red, m[p].bh) }

  lemma InsertCase2Node(m: Links, root: MemBlock?, z: MemBlock, p: MemBlock, g: MemBlock, s: Side, c: MemBlock)
    requires Uncle(m, root, z, p, g, s) && m[p].Kid(s) == z && !IsRed(m, m[g].Kid(Other(s))) && c in m && p != g
    requires Rotatable(Raise(m, p, g), root, g, p, Other(s))
    ensures NodeColor(Rotate(Raise(m, p, g), g, p, Other(s)), c, null, Left, null, null)
  {
    var m1 := Raise(m, p, g);
    assert NodeColor(m, c, null, Left, null, z);
    assert NodeColor(m, p, null, Left, null, z) && NodeColor(m, g, null, Left, null, z);
    assert NodeOk(m, root, p) && m[p].left != m[p].right;
    if c == g { TurnX(m, m1, root, g, p, Other(s), null, Left, null, null); }
    else if c == p { TurnY(m, m1, root, g, p, Other(s), null, Left, null, null); }
    else { TurnOther(m, m1, root, g, p, Other(s), c, null, Left, null, z, null); }
  }

  lemma InsertCase2(m: Links, root: MemBlock?, z: MemBlock, p: MemBlock, g: MemBlock, s: Side)
    requires Uncle(m, root, z, p, g, s) && m[p].Kid(s) == z && !IsRed(m, m[g].Kid(Other(s)))
    ensures Rotatable(Raise(m, p, g), root, g, p, Other(s)) && NoFlaw(Rotate(Raise(m, p, g), g, p, Other(s)))
  {
    var m1 := Raise(m, p, g);
    PaintLinked(m, m1, root);
    assert NodeOk(m1, root, p) && NodeOk(m1, root, g);
    RotateApart(m1, root, g, p, Other(s));
    var m' := Rotate(m1, g, p, Other(s));
    forall c | c in m' ensures NodeColor(m', c, null, Left, null, null) {
      InsertCase2Node(m, root, z, p, g, s, c);
    }
  }

  lemma RedRedGone(m: Links, root: MemBlock?, z: MemBlock)
    requires Linked(m, root) && Colored(m, null, Left, null, z) && z in m && !IsRed(m, m[z].parent)
    ensures NoFlaw(m)
  {
    forall c | c in m ensures NodeColor(m, c, null, Left, null, null) {
      assert NodeColor(m, c, null, Left, null, z);
      assert NodeOk(m, root, c) && KidOk(m, c, Left) && KidOk(m, c, Right);
    }
  }

  lemma BlackRoot(m: Links, root: MemBlock)
    requires Linked(m, root) && NoFlaw(m)
    ensures var m' := Paint(m, root, Black, m[root].bh + if m[root].color == Red then 1 else 0);
            Linked(m', root) && NoFlaw(m')
  {
    var m' := Paint(m, root, Black, m[root].bh + if m[root].color == Red then 1 else 0);
    PaintLinked(m, m', root);
    forall c | c in m' ensures NodeColor(m', c, null, Left, null, null) {
      assert NodeColor(m, c, null, Left, null, null);
      assert NodeOk(m, root, c) && KidOk(m, c, Left) && KidOk(m, c, Right);
    }
  }

  // ---- removal: the slot hs of hp is one black short, x is what hangs there

  ghost predicate Short(m: Links, root: MemBlock?, hp: MemBlock, hs: Side, x: MemBlock?) {
    && Linked(m, root) && hp in m && m[hp].Kid(hs) == x && !IsRed(m, x) && Colored(m, hp, hs, x, x)
  }

  // the sibling of a short slot exists
  lemma Sibling(m: Links, root: MemBlock?, hp: MemBlock, hs: Side, x: MemBlock?)
    requires Short(m, root, hp, hs, x)
    ensures var b := m[hp].Kid(Other(hs)); b != null && b in m && m[b].parent == hp && b != hp && b != x
    ensures m[m[hp].Kid(Other(hs))].bh == H(m, x) + 1
    ensures NodeColor(m, hp, hp, hs, x, x) && NodeColor(m, m[hp].Kid(Other(hs)), hp, hs, x, x)
  {
    assert NodeColor(m, hp, hp, hs, x, x);
    assert NodeOk(m, root, hp) && KidOk(m, hp, Left) && KidOk(m, hp, Right);
    var b := m[hp].Kid(Other(hs));
    assert NodeOk(m, root, b) && NodeColor(m, b, hp, hs, x, x);
    if x != null { assert m[x].hi <= m[b].lo || m[b].hi <= m[x].lo; assert NodeOk(m, root, x); }
  }

  // case 1: a red sibling b
  function Case1(m: Links, hp: MemBlock, b: MemBlock, hs: Side): Links
    requires hp in m && b in m
  { Rotate(Case1Paint(m, hp, b), hp, b, hs) }

  function Case1Paint(m: Links, hp: MemBlock, b: MemBlock): Links
    requires hp in m && b in m
  { Paint2(m, b, Black, m[hp].bh, hp, Red, m[b].bh) }

  lemma Case1Node(m: Links, root: MemBlock?, hp: MemBlock, hs: Side, x: MemBlock?, b: MemBlock, c: MemBlock)
    requires Short(m, root, hp, hs, x) && b in m && m[hp].Kid(Other(hs)) == b && IsRed(m, b) && c in m && b != hp
        && b != x
    requires Rotatable(Case1Paint(m, hp, b), root, hp, b, hs)
    ensures NodeColor(Case1(m, hp, b, hs), c, hp, hs, x, x)
  {
    var m1 := Case1Paint(m, hp, b);
    assert NodeColor(m, c, hp, hs, x, x) && NodeColor(m, hp, hp, hs, x, x) && NodeColor(m, b, hp, hs, x, x);
    assert NodeOk(m, root, b) && m[b].parent == hp;
    if c == hp { TurnX(m, m1, root, hp, b, hs, hp, hs, x, x); }
    else if c == b { TurnY(m, m1, root, hp, b, hs, hp, hs, x, x); }
    else { TurnOther(m, m1, root, hp, b, hs, c, hp, hs, x, x, x); }
  }

  lemma Case1Short(m: Links, root: MemBlock?, hp: MemBlock, hs: Side, x: MemBlock?, b: MemBlock)
    requires Short(m, root, hp, hs, x) && b in m && m[hp].Kid(Other(hs)) == b && IsRed(m, b)
    ensures Rotatable(Case1Paint(m, hp, b), root, hp, b, hs)
    ensures Short(Case1(m, hp, b, hs), NewRoot(m, root, hp, b), hp, hs, x)
    ensures !IsRed(Case1(m, hp, b, hs), m[b].Kid(hs)) && Case1(m, hp, b, hs)[hp].Kid(Other(hs)) == m[b].Kid(hs)
  {
    Sibling(m, root, hp, hs, x);
    var m1 := Case1Paint(m, hp, b);
    PaintLinked(m, m1, root);
    assert NodeOk(m1, root, hp) && NodeOk(m1, root, b);
    RotateLinked(m1, root, hp, b, hs);
    RotateApart(m1, root, hp, b, hs);
    var m' := Rotate(m1, hp, b, hs);
    forall c | c in m' ensures NodeColor(m', c, hp, hs, x, x) {
      Case1Node(m, root, hp, hs, x, b, c);
    }
  }

  // x hangs from the short slot, or is the root when hp is null; it alone may be red next to red
  ghost predicate Hang(m: Links, root: MemBlock?, hp: MemBlock?, hs: Side, x: MemBlock?) {
    && Linked(m, root) && Colored(m, hp, hs, x, x)
    && (hp == null ==> x == root != null)
    && (hp != null ==> hp in m && m[hp].Kid(hs) == x)
  }

  function SideOf(m: Links, q: MemBlock?, c: MemBlock): Side
  { if q != null && q in m && m[q].left != c then Right else Left }

  // case 2: a black sibling with black children
  function Case2(m: Links, hp: MemBlock, b: MemBlock): Links
    requires hp in m && b in m && m[hp].bh > 0 && m[b].bh > 0
  { Paint2(m, b, Red, m[b].bh - 1, hp, m[hp].color, m[hp].bh - 1) }

  lemma Case2Below(m: Links, root: MemBlock?, hp: MemBlock, hs: Side, x: MemBlock?, b: MemBlock, c: MemBlock)
    requires Short(m, root, hp, hs, x) && b in m && m[hp].Kid(Other(hs)) == b
    requires b != x && b != hp && (c == hp || c == b)
    requires m[hp].bh > 0 && m[b].bh > 0 && m[b].parent == hp
    requires !IsRed(m, b) && !IsRed(m, m[b].left) && !IsRed(m, m[b].right)
    ensures NodeColor(Case2(m, hp, b), c, m[hp].parent, SideOf(m, m[hp].parent, hp), hp, hp)
  {
    assert NodeColor(m, hp, hp, hs, x, x) && NodeColor(m, b, hp, hs, x, x);
    assert NodeOk(m, root, hp) && NodeOk(m, root, b);
    assert KidOk(m, b, Left) && KidOk(m, b, Right) && KidOk(m, hp, Left) && KidOk(m, hp, Right);
  }

  lemma Case2Above(m: Links, root: MemBlock?, hp: MemBlock, hs: Side, x: MemBlock?, b: MemBlock, c: MemBlock)
    requires Short(m, root, hp, hs, x) && b in m && m[hp].Kid(Other(hs)) == b && b != x && b != hp && c in m
        && c != hp && c != b
    requires m[hp].bh > 0 && m[b].bh > 0 && m[b].parent == hp
    ensures NodeColor(Case2(m, hp, b), c, m[hp].parent, SideOf(m, m[hp].parent, hp), hp, hp)
  {
    assert NodeColor(m, c, hp, hs, x, x);
    assert NodeOk(m, root, c) && KidOk(m, c, Left) && KidOk(m, c, Right);
    assert NodeOk(m, root, hp);
  }

  lemma Case2Node(m: Links, root: MemBlock?, hp: MemBlock, hs: Side, x: MemBlock?, b: MemBlock, c: MemBlock)
    requires Short(m, root, hp, hs, x) && b in m && m[hp].Kid(Other(hs)) == b && b != x && b != hp && c in m
    requires m[hp].bh > 0 && m[b].bh > 0 && m[b].parent == hp
    requires !IsRed(m, b) && !IsRed(m, m[b].left) && !IsRed(m, m[b].right)
    ensures NodeColor(Case2(m, hp, b), c, m[hp].parent, SideOf(m, m[hp].parent, hp), hp, hp)
  {
    if c == hp || c == b { Case2Below(m, root, hp, hs, x, b, c); } else { Case2Above(m, root, hp, hs, x, b, c); }
  }

  lemma Case2Hang(m: Links, root: MemBlock?, hp: MemBlock, hs: Side, x: MemBlock?, b: MemBlock)
    requires Short(m, root, hp, hs, x) && b in m && m[hp].Kid(Other(hs)) == b
    requires !IsRed(m, b) && !IsRed(m, m[b].left) && !IsRed(m, m[b].right)
    ensures m[hp].bh > 0 && m[b].bh > 0
    ensures Hang(Case2(m, hp, b), root, m[hp].parent, SideOf(m, m[hp].parent, hp), hp)
  {
    Sibling(m, root, hp, hs, x);
    var m' := Case2(m, hp, b);
    PaintLinked(m, m', root);
    assert NodeOk(m, root, hp);
    forall c | c in m' ensures NodeColor(m', c, m[hp].parent, SideOf(m, m[hp].parent, hp), hp, hp) {
      Case2Node(m, root, hp, hs, x, b, c);
    }
  }

  // case 3: a red near nephew n, whatever the far one is
  function Case3Paint(m: Links, b: MemBlock, n: MemBlock): Links
    requires b in m && n in m
  { Paint2(m, b, Red, m[n].bh, n, Black, m[b].bh) }

  function Case3(m: Links, b: MemBlock, n: MemBlock, hs: Side): Links
    requires b in m && n in m
  { Rotate(Case3Paint(m, b, n), b, n, Other(hs)) }

  lemma Case3Node(m: Links, root: MemBlock?, hp: MemBlock, hs: Side, x: MemBlock?, b: MemBlock, n: MemBlock,
      c: MemBlock)
    requires Short(m, root, hp, hs, x) && b in m && n in m && m[hp].Kid(Other(hs)) == b && m[b].Kid(hs) == n && c in m
    requires b != x && b != hp && n != hp && n != b && n != x && !IsRed(m, b) && IsRed(m, n)
    requires Rotatable(Case3Paint(m, b, n), root, b, n, Other(hs))
    ensures NodeColor(Case3(m, b, n, hs), c, hp, hs, b, null)
  {
    var m1 := Case3Paint(m, b, n);
    assert NodeColor(m, c, hp, hs, x, x) && NodeColor(m, b, hp, hs, x, x) && NodeColor(m, n, hp, hs, x, x);
    assert NodeColor(m, hp, hp, hs, x, x);
    assert NodeOk(m, root, b);
    if c == b { TurnX(m, m1, root, b, n, Other(hs), hp, hs, b, null); }
    else if c == n { TurnY(m, m1, root, b, n, Other(hs), hp, hs, b, null); }
    else {
      assert NodeColor(m, c, hp, hs, b, null);
      TurnOther(m, m1, root, b, n, Other(hs), c, hp, hs, b, null, null);
    }
  }

  // the state case 4 starts from: black sibling b, red far nephew f, which may have a red child
  ghost predicate Far(m: Links, root: MemBlock?, hp: MemBlock, hs: Side, x: MemBlock?, b: MemBlock, f: MemBlock) {
    && Linked(m, root) && Colored(m, hp, hs, f, null) && hp in m && m[hp].Kid(hs) == x && !IsRed(m, x)
    && b in m && f in m && m[hp].Kid(Other(hs)) == b && m[b].Kid(Other(hs)) == f && !IsRed(m, b) && IsRed(m, f)
  }

  lemma Case3Far(m: Links, root: MemBlock?, hp: MemBlock, hs: Side, x: MemBlock?, b: MemBlock, n: MemBlock)
    requires Short(m, root, hp, hs, x) && b in m && n in m && m[hp].Kid(Other(hs)) == b && m[b].Kid(hs) == n
    requires !IsRed(m, b) && IsRed(m, n)
    ensures Rotatable(Case3Paint(m, b, n), root, b, n, Other(hs)) && m[b].parent == hp
    ensures Far(Case3(m, b, n, hs), root, hp, hs, x, n, b)
  {
    Sibling(m, root, hp, hs, x);
    var m1 := Case3Paint(m, b, n);
    PaintLinked(m, m1, root);
    assert NodeOk(m1, root, b) && NodeOk(m1, root, n);
    RotateApart(m1, root, b, n, Other(hs));
    RotateLinked(m1, root, b, n, Other(hs));
    RotateViewTurned(m1, root, b, n, Other(hs));
    RotateView(m1, root, b, n, Other(hs), hp, Left);
    RotateView(m1, root, b, n, Other(hs), hp, Right);
    RotateInk(m1, b, n, Other(hs));
    assert NodeOk(m, root, hp) && KidOk(m, hp, hs);
    forall c | c in m1 ensures NodeColor(Case3(m, b, n, hs), c, hp, hs, b, null) {
      Case3Node(m, root, hp, hs, x, b, n, c);
    }
  }

  lemma StraightFar(m: Links, root: MemBlock?, hp: MemBlock, hs: Side, x: MemBlock?, b: MemBlock, f: MemBlock)
    requires Short(m, root, hp, hs, x) && b in m && f in m && m[hp].Kid(Other(hs)) == b && m[b].Kid(Other(hs)) == f
    requires !IsRed(m, b) && IsRed(m, f)
    ensures Far(m, root, hp, hs, x, b, f)
  {
    forall c | c in m ensures NodeColor(m, c, hp, hs, f, null) { assert NodeColor(m, c, hp, hs, x, x); }
  }

  // case 4, before f is painted: f now hangs from the short slot
  function Case4Paint(m: Links, hp: MemBlock, b: MemBlock, x: MemBlock?): Links
    requires hp in m && b in m
  { Paint2(m, b, m[hp].color, m[hp].bh, hp, Black, H(m, x) + 1) }

  function Case4(m: Links, hp: MemBlock, b: MemBlock, x: MemBlock?, hs: Side): Links
    requires hp in m && b in m
  { Rotate(Case4Paint(m, hp, b, x), hp, b, hs) }

  lemma Case4Node(m: Links, root: MemBlock?, hp: MemBlock, hs: Side, x: MemBlock?, b: MemBlock, f: MemBlock,
      c: MemBlock)
    requires Far(m, root, hp, hs, x, b, f) && c in m && b != hp && f != hp && f != b && m[f].parent == b
    requires Rotatable(Case4Paint(m, hp, b, x), root, hp, b, hs)
    ensures NodeColor(Case4(m, hp, b, x, hs), c, b, Other(hs), f, f)
  {
    var m1 := Case4Paint(m, hp, b, x);
    assert NodeColor(m, c, hp, hs, f, null) && NodeColor(m, b, hp, hs, f, null) && NodeColor(m, f, hp, hs, f, null);
    assert NodeColor(m, hp, hp, hs, f, null);
    assert NodeOk(m, root, hp);
    if c == hp { TurnX(m, m1, root, hp, b, hs, b, Other(hs), f, f); }
    else if c == b { TurnY(m, m1, root, hp, b, hs, b, Other(hs), f, f); }
    else {
      assert NodeColor(m, c, b, Other(hs), f, null);
      TurnOther(m, m1, root, hp, b, hs, c, b, Other(hs), f, null, f);
    }
  }

  lemma Case4Hang(m: Links, root: MemBlock?, hp: MemBlock, hs: Side, x: MemBlock?, b: MemBlock, f: MemBlock)
    requires Far(m, root, hp, hs, x, b, f)
    ensures Rotatable(m, root, hp, b, hs) && Rotatable(Case4Paint(m, hp, b, x), root, hp, b, hs)
    ensures Hang(Case4(m, hp, b, x, hs), NewRoot(m, root, hp, b), b, Other(hs), f)
  {
    hide NodeColor;
    assert NodeOk(m, root, hp) && NodeOk(m, root, b) && NodeOk(m, root, f);
    var m1 := Case4Paint(m, hp, b, x);
    PaintLinked(m, m1, root);
    assert NodeOk(m1, root, hp) && NodeOk(m1, root, b);
    RotateApart(m1, root, hp, b, hs);
    RotateLinked(m1, root, hp, b, hs);
    RotateViewTurned(m1, root, hp, b, hs);
    forall c | c in m1 ensures NodeColor(Case4(m, hp, b, x, hs), c, b, Other(hs), f, f) {
      Case4Node(m, root, hp, hs, x, b, f, c);
    }
  }

  // the end: the hanging node is red and turns black, or is the root
  lemma HangRed(m: Links, root: MemBlock?, hp: MemBlock?, hs: Side, x: MemBlock)
    requires Hang(m, root, hp, hs, x) && IsRed(m, x)
    ensures var m' := Paint(m, x, Black, m[x].bh + 1); Linked(m', root) && NoFlaw(m')
  {
    var m' := Paint(m, x, Black, m[x].bh + 1);
    PaintLinked(m, m', root);
    assert NodeOk(m, root, x);
    forall c | c in m' ensures NodeColor(m', c, null, Left, null, null) { HangRedNode(m, root, hp, hs, x, c); }
  }

  lemma HangRedNode(m: Links, root: MemBlock?, hp: MemBlock?, hs: Side, x: MemBlock, c: MemBlock)
    requires Hang(m, root, hp, hs, x) && IsRed(m, x) && c in m
    ensures NodeColor(Paint(m, x, Black, m[x].bh + 1), c, null, Left, null, null)
  {
    assert NodeColor(m, c, hp, hs, x, x);
    assert NodeOk(m, root, c) && KidOk(m, c, Left) && KidOk(m, c, Right) && NodeOk(m, root, x);
    if hp != null { assert NodeOk(m, root, hp) && KidOk(m, hp, hs); }
  }

  lemma HangRoot(m: Links, root: MemBlock?, hs: Side, x: MemBlock?)
    requires Hang(m, root, null, hs, x) && !IsRed(m, x)
    ensures NoFlaw(m)
  {
    forall c | c in m ensures NodeColor(m, c, null, Left, null, null) { assert NodeColor(m, c, null, hs, x, x); }
  }

  // ---- the colours when a node goes

  lemma ZeroRed(m: Links, c: MemBlock?)
    requires NoFlaw(m)
    ensures c != null && c in m && m[c].bh == 0 ==> IsRed(m, c)
  {
    if c != null && c in m { assert NodeColor(m, c, null, Left, null, null); }
  }

  // a node with one child is black, and the child is a red leaf
  lemma OneChild(m: Links, root: MemBlock?, n: MemBlock, s: Side)
    requires Linked(m, root) && NoFlaw(m) && n in m && m[n].Kid(s) != null && m[n].Kid(Other(s)) == null
    ensures var y := m[n].Kid(s); y in m && IsRed(m, y) && m[y].left == null && m[y].right == null
    ensures m[n].color == Black && Liftable(m, root, n, m[n].Kid(s), s)
  {
    assert NodeOk(m, root, n) && NodeColor(m, n, null, Left, null, null) && KidOk(m, n, s);
    var y := m[n].Kid(s);
    assert NodeOk(m, root, y) && NodeColor(m, y, null, Left, null, null) && KidOk(m, y, Left) && KidOk(m, y, Right);
    ZeroRed(m, m[y].left);
    ZeroRed(m, m[y].right);
  }

  lemma DropRed(m: Links, root: MemBlock?, n: MemBlock)
    requires Droppable(m, root, n) && NoFlaw(m) && m[n].color == Red
    ensures NoFlaw(DropLeaf(m, n))
  {
    var m' := DropLeaf(m, n);
    forall c | c in m' ensures NodeColor(m', c, null, Left, null, null) {
      assert NodeColor(m, c, null, Left, null, null) && NodeColor(m, n, null, Left, null, null);
      assert NodeOk(m, root, c) && KidOk(m, c, Left) && KidOk(m, c, Right);
    }
  }

  lemma DropBlack(m: Links, root: MemBlock?, n: MemBlock)
    requires Droppable(m, root, n) && NoFlaw(m) && m[n].color == Black
    ensures var p := m[n].parent; Short(DropLeaf(m, n), root, p, SideOf(m, p, n), null)
  {
    var m', p := DropLeaf(m, n), m[n].parent;
    DropLinked(m, root, n);
    assert NodeOk(m, root, p) && KidOk(m, p, Left) && KidOk(m, p, Right);
    forall c | c in m' ensures NodeColor(m', c, p, SideOf(m, p, n), null, null) {
      DropBlackNode(m, root, n, c);
    }
  }

  lemma DropBlackNode(m: Links, root: MemBlock?, n: MemBlock, c: MemBlock)
    requires Droppable(m, root, n) && NoFlaw(m) && m[n].color == Black && c in m && c != n
    ensures var p := m[n].parent; NodeColor(DropLeaf(m, n), c, p, SideOf(m, p, n), null, null)
  {
    assert NodeColor(m, c, null, Left, null, null) && NodeColor(m, n, null, Left, null, null);
    assert NodeOk(m, root, c) && KidOk(m, c, Left) && KidOk(m, c, Right);
  }

  lemma LiftHang(m: Links, root: MemBlock?, n: MemBlock, y: MemBlock, s: Side)
    requires Liftable(m, root, n, y, s) && NoFlaw(m) && m[n].color == Black && IsRed(m, y)
    ensures var p := m[n].parent; Hang(Lift(m, n, y), NewRoot(m, root, n, y), p, SideOf(m, p, n), y)
  {
    var m', p := Lift(m, n, y), m[n].parent;
    LiftLinked(m, root, n, y, s);
    if p != null { assert NodeOk(m, root, p) && KidOk(m, p, Left) && KidOk(m, p, Right); }
    forall c | c in m' ensures NodeColor(m', c, p, SideOf(m, p, n), y, y) {
      LiftHangNode(m, root, n, y, s, c);
    }
  }

  lemma LiftHangNode(m: Links, root: MemBlock?, n: MemBlock, y: MemBlock, s: Side, c: MemBlock)
    requires Liftable(m, root, n, y, s) && NoFlaw(m) && m[n].color == Black && IsRed(m, y) && c in m && c != n
    ensures var p := m[n].parent; NodeColor(Lift(m, n, y), c, p, SideOf(m, p, n), y, y)
  {
    assert NodeColor(m, c, null, Left, null, null);
    assert NodeColor(m, n, null, Left, null, null) && NodeColor(m, y, null, Left, null, null);
    assert NodeOk(m, root, c) && KidOk(m, c, Left) && KidOk(m, c, Right);
    forall t: Side ensures m[c].Kid(t) != n ==> Lift(m, n, y)[c].Kid(t) == m[c].Kid(t) {}
  }

  lemma SwapColor(m: Links, root: MemBlock?, a: MemBlock, b: MemBlock)
    requires Linked(m, root) && NoFlaw(m) && a in m && b in m
    ensures NoFlaw(Swap(m, a, b))
  {
    var m' := Swap(m, a, b);
    forall c | c in m' ensures NodeColor(m', c, null, Left, null, null) {
      SwapColorNode(m, root, a, b, c);
    }
  }

  lemma SwapColorNode(m: Links, root: MemBlock?, a: MemBlock, b: MemBlock, c: MemBlock)
    requires Linked(m, root) && NoFlaw(m) && a in m && b in m && c in m
    ensures NodeColor(Swap(m, a, b), c, null, Left, null, null)
  {
    var o := Partner(a, b, c);
    assert NodeColor(m, o, null, Left, null, null) && NodeOk(m, root, o) && KidOk(m, o, Left) && KidOk(m, o, Right);
    forall t: Side ensures H(Swap(m, a, b), Swap(m, a, b)[c].Kid(t)) == H(m, m[o].Kid(t))
                        && (IsRed(Swap(m, a, b), Swap(m, a, b)[c].Kid(t)) <==> IsRed(m, m[o].Kid(t))) {
      assert m[o].Kid(t) != null ==> m[o].Kid(t) in m;
    }
    assert Swap(m, a, b)[c].Kid(Left) == Swap(m, a, b)[c].left && Swap(m, a, b)[c].Kid(Right) == Swap(m, a, b)[c].right;
    assert m[o].Kid(Left) == m[o].left && m[o].Kid(Right) == m[o].right;
  }

  // a new red leaf is at worst a red child of a red parent
  lemma AddColor(m: Links, root: MemBlock?, n: MemBlock, p: MemBlock, s: Side, size: nat, index: nat)
    requires Addable(m, root, n, p, s) && NoFlaw(m)
    ensures Colored(AddLeaf(m, n, p, s, size, index), null, Left, null, n)
  {
    var m' := AddLeaf(m, n, p, s, size, index);
    forall c | c in m' ensures NodeColor(m', c, null, Left, null, n) {
      if c != n {
        assert NodeColor(m, c, null, Left, null, null);
        assert NodeOk(m, root, c) && KidOk(m, c, Left) && KidOk(m, c, Right);
      }
    }
  }

  // the rotation of case 4, then its painting, left child first
  function FarDone(m: Links, hp: MemBlock, b: MemBlock, x: MemBlock?, hs: Side, f: MemBlock): Links
    requires hp in m && b in m && f in m
  {
    var m1, hb, hh, hf := Rotate(m, hp, b, hs), m[hp].bh, H(m, x) + 1, m[f].bh + 1;
    if hs.Left? then Paint(Paint2(m1, b, m[hp].color, hb, hp, Black, hh), f, Black, hf)
    else Paint(Paint2(m1, b, m[hp].color, hb, f, Black, hf), hp, Black, hh)
  }

  lemma TurnPainted(m: Links, hp: MemBlock, b: MemBlock, x: MemBlock?, hs: Side, c: MemBlock)
    requires hp in m && b in m && hp != b && c in m
    ensures var m1 := Rotate(m, hp, b, hs);
            Case4(m, hp, b, x, hs)[c]
            == if c == b then m1[b].(color := m[hp].color, bh := m[hp].bh)
               else if c == hp then m1[hp].(color := Black, bh := H(m, x) + 1) else m1[c]
    ensures Rotate(m, hp, b, hs)[c].bh == m[c].bh
  {}

  // painting before or after the rotation is the same
  lemma Case4Same(m: Links, hp: MemBlock, b: MemBlock, x: MemBlock?, hs: Side, f: MemBlock)
    requires hp in m && b in m && hp != b && f in m && f != b && f != hp
    ensures var m2 := Case4(m, hp, b, x, hs); FarDone(m, hp, b, x, hs, f) == Paint(m2, f, Black, m2[f].bh + 1)
  {
    hide Turned;
    TurnPainted(m, hp, b, x, hs, f);
    var m2, d := Case4(m, hp, b, x, hs), FarDone(m, hp, b, x, hs, f);
    forall c | c in m ensures d[c] == Paint(m2, f, Black, m2[f].bh + 1)[c] { TurnPainted(m, hp, b, x, hs, c); }
  }
}
