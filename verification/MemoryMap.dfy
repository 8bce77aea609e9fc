/** Laying the boot memory records over one another: where records conflict, the higher type wins. */
module MemoryMap {
  import opened Wrappers

  datatype Span = Span(begin: nat, size: nat, kind: nat) {
    function End(): nat { begin + size }
    predicate Has(a: nat) { begin <= a < begin + size }
  }

  predicate InRange(n: nat, start: nat, size: nat) { n >= start && n - start < size }

  ghost predicate Sound(s: seq<Span>) { forall k {:trigger s[k]} :: 0 <= k < |s| ==> s[k].size > 0 }

  function Min(a: nat, b: nat): nat { if a < b then a else b }

  predicate ShouldMerge(p1: Span, p2: Span)
    requires p1.size > 0 && p2.size > 0
  {
    || ((p1.End() == p2.begin || p2.End() == p1.begin) && p1.kind == p2.kind)
    || InRange(p1.begin, p2.begin, p2.size) || InRange(p1.End() - 1, p2.begin, p2.size)
    || InRange(p2.begin, p1.begin, p1.size) || InRange(p2.End() - 1, p1.begin, p1.size)
  }

  ghost predicate Meets(p1: Span, p2: Span) { exists a: nat :: p1.Has(a) && p2.Has(a) }

  /** Two records are to be merged exactly when they share an address, or are alike and touch. */
  lemma ShouldMergeExact(p1: Span, p2: Span)
    requires p1.size > 0 && p2.size > 0
    ensures ShouldMerge(p1, p2) <==>
              Meets(p1, p2) || (p1.kind == p2.kind && (p1.End() == p2.begin || p2.End() == p1.begin))
  {
    if p1.Has(p2.begin) && p2.Has(p2.begin) { assert Meets(p1, p2); }
    if p1.Has(p1.begin) && p2.Has(p1.begin) { assert Meets(p1, p2); }
  }

  /** When no pair is left to merge, no two records share an address. */
  lemma NothingLeft(s: seq<Span>)
    requires Sound(s) && forall i, j :: 0 <= i < j < |s| ==> !ShouldMerge(s[i], s[j])
    ensures forall i, j, a: nat :: 0 <= i < j < |s| ==> !(s[i].Has(a) && s[j].Has(a))
  {
    forall i, j, a: nat | 0 <= i < j < |s| ensures !(s[i].Has(a) && s[j].Has(a)) {
      assert !ShouldMerge(s[i], s[j]);
      ShouldMergeExact(s[i], s[j]);
    }
  }

  // ---- the highest type at an address

  // one more than the highest type among the records that cover a, or 0 if none does
  function Top(s: seq<Span>, a: nat): nat {
    if s == [] then 0 else Max(if s[0].Has(a) then s[0].kind + 1 else 0, Top(s[1..], a))
  }

  lemma {:induction false} TopIs(s: seq<Span>, a: nat)
    ensures forall k :: 0 <= k < |s| && s[k].Has(a) ==> s[k].kind < Top(s, a)
    ensures Top(s, a) > 0 ==> exists k :: 0 <= k < |s| && s[k].Has(a) && s[k].kind + 1 == Top(s, a)
  {
    if s != [] {
      TopIs(s[1..], a);
      forall k | 0 <= k < |s| && s[k].Has(a) ensures s[k].kind < Top(s, a) { assert k > 0 ==> s[k] == s[1..][k - 1]; }
      if Top(s, a) > 0 && Top(s, a) == Top(s[1..], a) {
        var k :| 0 <= k < |s[1..]| && s[1..][k].Has(a) && s[1..][k].kind + 1 == Top(s[1..], a);
        assert s[k + 1] == s[1..][k];
      }
    }
  }

  lemma {:induction false} TopConcat(s: seq<Span>, t: seq<Span>, a: nat)
    ensures Top(s + t, a) == Max(Top(s, a), Top(t, a))
  {
    if s == [] {
      assert s + t == t;
    } else {
      TopConcat(s[1..], t, a);
      assert (s + t)[1..] == s[1..] + t;
    }
  }

  // what one record adds at a
  function One(p: Span, a: nat): nat { if p.Has(a) then p.kind + 1 else 0 }

  function Without(s: seq<Span>, k: nat): seq<Span>
    requires k < |s|
  { s[..k] + s[k + 1..] }

  lemma TopSplit(s: seq<Span>, k: nat, a: nat)
    requires k < |s|
    ensures Top(s, a) == Max(One(s[k], a), Top(Without(s, k), a))
  {
    assert s == s[..k] + ([s[k]] + s[k + 1..]);
    TopConcat(s[..k], [s[k]] + s[k + 1..], a);
    TopConcat([s[k]], s[k + 1..], a);
    TopConcat(s[..k], s[k + 1..], a);
    assert Top([s[k]], a) == One(s[k], a) by { assert [s[k]][1..] == []; }
  }

  // ---- merging

  // the pieces of the lower record w that the higher record h, inside it, leaves over
  function Pieces(h: Span, w: Span): seq<Span> {
    (if w.begin < h.begin then [w.(size := h.begin - w.begin)] else [])
    + (if h.End() < w.End() then [Span(h.End(), w.End() - h.End(), w.kind)] else [])
  }

  function Union(p1: Span, p2: Span): Span {
    var begin, end := Min(p1.begin, p2.begin), Max(p1.End(), p2.End());
    p1.(begin := begin, size := if end >= begin then end - begin else 0)
  }

  // the branch whose size is computed from the wrong record: 2 is higher and covers the beginning of 1
  predicate Faulty(p1: Span, p2: Span) {
    p1.kind < p2.kind && p2.End() > p1.begin && p1.End() > p2.End() && p2.begin < p1.begin
  }

  // what becomes of the list when the records at i and j, of which the second comes later, are merged
  function Merge(s: seq<Span>, i: nat, j: nat): seq<Span>
    requires i < |s| && j < |s| && i != j
  {
    var p1, p2 := s[i], s[j];
    if p1.kind > p2.kind then
      if p1.End() > p2.begin && p2.End() > p1.End() && p1.begin < p2.begin
      then s[j := Span(p1.End(), p2.End() - p1.End(), p2.kind)]
      else if p2.End() > p1.begin && p1.End() > p2.End() && p1.begin > p2.begin
      then s[j := p2.(size := p1.begin - p2.begin)]
      else if p1.begin <= p2.begin && p1.End() >= p2.End() then Without(s[i := Union(p1, p2)], j)
      else Without(s, j) + Pieces(p1, p2)
    else if p1.kind == p2.kind then Without(s[i := Union(p1, p2)], j)
    else
      if Faulty(p1, p2) then s[i := Span(p2.End(), p1.End() - p2.begin, p1.kind)]
      else if p1.End() > p2.begin && p2.End() > p1.End() && p2.begin > p1.begin
      then s[i := p1.(size := p2.begin - p1.begin)]
      else if p2.begin <= p1.begin && p2.End() >= p1.End() then Without(s[j := Union(p2, p1)], i)
      else Without(s, i) + Pieces(p2, p1)
  }

  predicate Mergeable(s: seq<Span>, i: nat, j: nat) {
    i < |s| && j < |s| && i != j && s[i].size > 0 && s[j].size > 0 && ShouldMerge(s[i], s[j])
  }

  // the records other than i and j
  function Rest(s: seq<Span>, i: nat, j: nat): seq<Span>
    requires i < |s| && j < |s| && i != j
  { if i < j then Without(Without(s, j), i) else Without(Without(s, i), j) }

  lemma TopTwo(s: seq<Span>, lo: nat, hi: nat, a: nat)
    requires lo < hi < |s|
    ensures var r := Top(Without(Without(s, hi), lo), a);
            && Top(s, a) == Max(One(s[lo], a), Max(One(s[hi], a), r))
            && Top(Without(s, hi), a) == Max(One(s[lo], a), r) && Top(Without(s, lo), a) == Max(One(s[hi], a), r)
  {
    var u, v := Without(s, hi), Without(s, lo);
    assert u[lo] == s[lo] && v[hi - 1] == s[hi] && Without(v, hi - 1) == Without(u, lo);
    TopSplit(s, hi, a);
    TopSplit(u, lo, a);
    TopSplit(v, hi - 1, a);
  }

  // the top at an address is that of the two records or of the rest
  lemma TopPair(s: seq<Span>, i: nat, j: nat, a: nat)
    requires i < |s| && j < |s| && i != j
    ensures var r := Top(Rest(s, i, j), a);
            && Top(s, a) == Max(One(s[i], a), Max(One(s[j], a), r))
            && Top(Without(s, j), a) == Max(One(s[i], a), r) && Top(Without(s, i), a) == Max(One(s[j], a), r)
  {
    if i < j { TopTwo(s, i, j, a); } else { TopTwo(s, j, i, a); }
  }

  lemma RestSet(s: seq<Span>, i: nat, j: nat, p: Span)
    requires i < |s| && j < |s| && i != j
    ensures Rest(s[i := p], i, j) == Rest(s, i, j) && Rest(s[j := p], i, j) == Rest(s, i, j)
  {}

  lemma TopPieces(h: Span, w: Span, a: nat)
    requires w.begin <= h.begin && h.End() <= w.End()
    ensures w.Has(a) && !h.Has(a) ==> Top(Pieces(h, w), a) == w.kind + 1
    ensures h.Has(a) ==> Top(Pieces(h, w), a) <= w.kind + 1
    ensures !w.Has(a) ==> Top(Pieces(h, w), a) == 0
  {
    var q := Pieces(h, w);
    assert |q| == 2 ==> q[1..] == [q[1]] && q[1..][1..] == [];
    assert |q| == 1 ==> q[1..] == [];
  }

  /** Merging two records leaves the highest type at every address as it was, but for the faulty branch. */
  lemma MergeKeepsTop(s: seq<Span>, i: nat, j: nat, a: nat)
    requires Mergeable(s, i, j)
    requires !(s[i].kind < s[j].kind && s[j].begin < s[i].begin < s[j].End() < s[i].End())
    ensures Top(Merge(s, i, j), a) == Top(s, a)
  {
    var p1, p2 := s[i], s[j];
    TopPair(s, i, j, a);
    if p1.kind > p2.kind {
      MergeOver(s, i, j, a);
    } else if p1.kind == p2.kind {
      MergeUnion(s, i, j, a);
    } else {
      MergeUnder(s, i, j, a);
    }
  }

  lemma UnionOne(p1: Span, p2: Span, a: nat)
    requires p1.size > 0 && p2.size > 0 && p1.kind == p2.kind && ShouldMerge(p1, p2)
    ensures One(Union(p1, p2), a) == Max(One(p1, a), One(p2, a))
  {}

  lemma MergeUnion(s: seq<Span>, i: nat, j: nat, a: nat)
    requires Mergeable(s, i, j) && s[i].kind == s[j].kind
    ensures Top(Merge(s, i, j), a) == Top(s, a)
  {
    var u := Union(s[i], s[j]);
    UnionOne(s[i], s[j], a);
    hide Union, One, ShouldMerge;
    TopPair(s, i, j, a);
    TopPair(s[i := u], i, j, a);
    RestSet(s, i, j, u);
  }

  // of the lower record w, what lies outside the higher one h is kept as p
  lemma TrimKeeps(s: seq<Span>, h: nat, w: nat, p: Span, a: nat)
    requires h < |s| && w < |s| && h != w && s[h].kind > s[w].kind == p.kind
    requires p.Has(a) ==> s[w].Has(a)
    requires s[w].Has(a) && !s[h].Has(a) ==> p.Has(a)
    ensures Top(s[w := p], a) == Top(s, a)
  {
    TopPair(s, h, w, a);
    TopPair(s[w := p], h, w, a);
    RestSet(s, h, w, p);
  }

  // the higher record h contains the lower one
  lemma SwallowKeeps(s: seq<Span>, h: nat, w: nat, a: nat)
    requires h < |s| && w < |s| && h != w && s[h].kind > s[w].kind && s[h].begin <= s[w].begin
        && s[w].End() <= s[h].End()
    ensures Top(Without(s[h := Union(s[h], s[w])], w), a) == Top(s, a)
  {
    TopPair(s, h, w, a);
    assert Union(s[h], s[w]) == s[h] && s[h := s[h]] == s;
  }

  // the higher record h lies inside the lower one
  lemma PiecesKeep(s: seq<Span>, h: nat, w: nat, a: nat)
    requires h < |s| && w < |s| && h != w && s[h].kind > s[w].kind && s[w].begin <= s[h].begin
        && s[h].End() <= s[w].End()
    ensures Top(Without(s, w) + Pieces(s[h], s[w]), a) == Top(s, a)
  {
    TopPair(s, h, w, a);
    TopConcat(Without(s, w), Pieces(s[h], s[w]), a);
    TopPieces(s[h], s[w], a);
  }

  lemma MergeOver(s: seq<Span>, i: nat, j: nat, a: nat)
    requires Mergeable(s, i, j) && s[i].kind > s[j].kind
    ensures Top(Merge(s, i, j), a) == Top(s, a)
  {
    var p1, p2 := s[i], s[j];
    if p1.End() > p2.begin && p2.End() > p1.End() && p1.begin < p2.begin {
      TrimKeeps(s, i, j, Span(p1.End(), p2.End() - p1.End(), p2.kind), a);
    } else if p2.End() > p1.begin && p1.End() > p2.End() && p1.begin > p2.begin {
      TrimKeeps(s, i, j, p2.(size := p1.begin - p2.begin), a);
    } else if p1.begin <= p2.begin && p1.End() >= p2.End() {
      SwallowKeeps(s, i, j, a);
    } else {
      PiecesKeep(s, i, j, a);
    }
  }

  lemma MergeUnder(s: seq<Span>, i: nat, j: nat, a: nat)
    requires Mergeable(s, i, j) && s[i].kind < s[j].kind && !Faulty(s[i], s[j])
    ensures Top(Merge(s, i, j), a) == Top(s, a)
  {
    var p1, p2 := s[i], s[j];
    if p1.End() > p2.begin && p2.End() > p1.End() && p2.begin > p1.begin {
      TrimKeeps(s, j, i, p1.(size := p2.begin - p1.begin), a);
    } else if p2.begin <= p1.begin && p2.End() >= p1.End() {
      SwallowKeeps(s, j, i, a);
    } else {
      PiecesKeep(s, j, i, a);
    }
  }

  // the addresses the faulty branch adds to record 1: as many as record 2 reaches below it and over it
  predicate Excess(p1: Span, p2: Span, a: nat) { p1.End() <= a < p1.End() + p2.size }

  lemma FaultyTop(s: seq<Span>, i: nat, j: nat, a: nat)
    requires Mergeable(s, i, j) && Faulty(s[i], s[j])
    ensures Top(Merge(s, i, j), a) == if Excess(s[i], s[j], a) then Max(Top(s, a), s[i].kind + 1) else Top(s, a)
  {
    hide Top;
    var s' := Merge(s, i, j);
    TopPair(s, i, j, a);
    TopPair(s', i, j, a);
    RestSet(s, i, j, s'[i]);
  }

  /** The faulty branch keeps the highest types just when the addresses it adds are covered by that type already. */
  lemma FaultyExact(s: seq<Span>, i: nat, j: nat)
    requires Mergeable(s, i, j) && Faulty(s[i], s[j])
    ensures (forall a: nat :: Top(Merge(s, i, j), a) == Top(s, a)) <==>
              (forall a: nat :: Excess(s[i], s[j], a) ==> Top(s, a) > s[i].kind)
  {
    forall a: nat
      ensures Top(Merge(s, i, j), a) == if Excess(s[i], s[j], a) then Max(Top(s, a), s[i].kind + 1) else Top(s, a)
    {
      FaultyTop(s, i, j, a);
    }
  }

  /** An available record lying over the end of a reserved one grows into addresses nobody reported. */
  lemma FaultyShown()
    ensures var s := [Span(10, 10, 0), Span(5, 10, 5)];
            && Mergeable(s, 0, 1) && Merge(s, 0, 1) == [Span(15, 15, 0), Span(5, 10, 5)] && Top(s, 20) == 0
            && Top(Merge(s, 0, 1), 20) == 1
  {
    var s := [Span(10, 10, 0), Span(5, 10, 5)];
    assert s[1..] == [Span(5, 10, 5)] && s[1..][1..] == [];
    assert Merge(s, 0, 1)[1..] == [Span(5, 10, 5)];
  }

  /** Every record of the merged list is non-empty. */
  lemma MergeSound(s: seq<Span>, i: nat, j: nat)
    requires Sound(s) && Mergeable(s, i, j)
    ensures Sound(Merge(s, i, j))
  {
    var s', w, v := Merge(s, i, j), Without(s, i), Without(s, j);
    forall k | 0 <= k < |s| - 1 ensures w[k].size > 0 && v[k].size > 0 {
      assert w[k] == s[if k < i then k else k + 1] && v[k] == s[if k < j then k else k + 1];
    }
  }

  // ---- any number of merges

  // each list comes from the one before by a merge
  ghost predicate Merging(ss: seq<seq<Span>>, ps: seq<(nat, nat)>) {
    |ss| == |ps| + 1 && forall k {:trigger ps[k]} :: 0 <= k < |ps| ==>
      && Mergeable(ss[k], ps[k].0, ps[k].1) && !Faulty(ss[k][ps[k].0], ss[k][ps[k].1])
      && ss[k + 1] == Merge(ss[k], ps[k].0, ps[k].1)
  }

  /** So do any number of merges, in whatever order the pairs are taken. */
  lemma {:induction false} MergingKeepsTop(ss: seq<seq<Span>>, ps: seq<(nat, nat)>, a: nat)
    requires Merging(ss, ps)
    ensures Top(ss[|ps|], a) == Top(ss[0], a)
    decreases |ps|
  {
    if ps != [] {
      var n := |ps| - 1;
      assert ps[n] == ps[n];
      forall k | 0 <= k < n ensures ps[..n][k] == ps[k] {}
      MergingKeepsTop(ss[..n + 1], ps[..n], a);
      MergeKeepsTop(ss[n], ps[n].0, ps[n].1, a);
    }
  }

  // ---- merging ends

  function Total(s: seq<Span>): nat { if s == [] then 0 else s[0].size + Total(s[1..]) }

  // every merge outside the faulty branch makes this smaller
  function Measure(s: seq<Span>): nat { 2 * Total(s) + |s| }

  lemma {:induction false} TotalConcat(s: seq<Span>, t: seq<Span>)
    ensures Total(s + t) == Total(s) + Total(t)
  {
    if s == [] {
      assert s + t == t;
    } else {
      TotalConcat(s[1..], t);
      assert (s + t)[1..] == s[1..] + t;
    }
  }

  lemma TotalSplit(s: seq<Span>, k: nat)
    requires k < |s|
    ensures Total(s) == s[k].size + Total(Without(s, k)) && |Without(s, k)| == |s| - 1
  {
    assert s == s[..k] + ([s[k]] + s[k + 1..]);
    TotalConcat(s[..k], [s[k]] + s[k + 1..]);
    TotalConcat([s[k]], s[k + 1..]);
    TotalConcat(s[..k], s[k + 1..]);
    assert Total([s[k]]) == s[k].size by { assert [s[k]][1..] == []; }
  }

  lemma TotalSet(s: seq<Span>, k: nat, p: Span)
    requires k < |s|
    ensures Total(s[k := p]) == Total(s) - s[k].size + p.size
  {
    TotalSplit(s, k);
    TotalSplit(s[k := p], k);
    assert Without(s[k := p], k) == Without(s, k);
  }

  // the hull takes the place of one record and the other one goes
  lemma TotalUnion(s: seq<Span>, k: nat, l: nat, u: Span)
    requires k < |s| && l < |s| && k != l
    ensures Total(Without(s[k := u], l)) == Total(s) - s[k].size - s[l].size + u.size
    ensures |Without(s[k := u], l)| == |s| - 1
  {
    TotalSet(s, k, u);
    TotalSplit(s[k := u], l);
  }

  lemma TotalPieces(h: Span, w: Span)
    requires w.begin <= h.begin && h.End() <= w.End()
    ensures Total(Pieces(h, w)) == w.size - h.size && |Pieces(h, w)| <= 2
  {
    var l := if w.begin < h.begin then [w.(size := h.begin - w.begin)] else [];
    var r := if h.End() < w.End() then [Span(h.End(), w.End() - h.End(), w.kind)] else [];
    TotalConcat(l, r);
    TotalOne(l);
    TotalOne(r);
  }

  lemma TotalOne(s: seq<Span>)
    requires |s| <= 1
    ensures Total(s) == if s == [] then 0 else s[0].size
  {
    assert s != [] ==> s[1..] == [];
  }

  /** A merge outside the faulty branch makes the measure smaller. */
  lemma MergeShrinks(s: seq<Span>, i: nat, j: nat)
    requires Mergeable(s, i, j) && !Faulty(s[i], s[j])
    ensures Measure(Merge(s, i, j)) < Measure(s)
  {
    var p1, p2 := s[i], s[j];
    if p1.kind > p2.kind {
      ShrinkOver(s, i, j);
    } else if p1.kind == p2.kind {
      TotalUnion(s, i, j, Union(p1, p2));
    } else {
      ShrinkUnder(s, i, j);
    }
  }

  lemma ShrinkOver(s: seq<Span>, i: nat, j: nat)
    requires Mergeable(s, i, j) && s[i].kind > s[j].kind
    ensures Measure(Merge(s, i, j)) < Measure(s)
  {
    var p1, p2 := s[i], s[j];
    if p1.End() > p2.begin && p2.End() > p1.End() && p1.begin < p2.begin {
      TotalSet(s, j, Span(p1.End(), p2.End() - p1.End(), p2.kind));
    } else if p2.End() > p1.begin && p1.End() > p2.End() && p1.begin > p2.begin {
      TotalSet(s, j, p2.(size := p1.begin - p2.begin));
    } else if p1.begin <= p2.begin && p1.End() >= p2.End() {
      TotalUnion(s, i, j, Union(p1, p2));
    } else {
      TotalSplit(s, j);
      TotalConcat(Without(s, j), Pieces(p1, p2));
      TotalPieces(p1, p2);
    }
  }

  lemma ShrinkUnder(s: seq<Span>, i: nat, j: nat)
    requires Mergeable(s, i, j) && s[i].kind < s[j].kind && !Faulty(s[i], s[j])
    ensures Measure(Merge(s, i, j)) < Measure(s)
  {
    var p1, p2 := s[i], s[j];
    if p1.End() > p2.begin && p2.End() > p1.End() && p2.begin > p1.begin {
      TotalSet(s, i, p1.(size := p2.begin - p1.begin));
    } else if p2.begin <= p1.begin && p2.End() >= p1.End() {
      TotalUnion(s, j, i, Union(p2, p1));
    } else {
      TotalSplit(s, i);
      TotalConcat(Without(s, i), Pieces(p2, p1));
      TotalPieces(p2, p1);
    }
  }

  lemma {:induction false} MergingShrinks(ss: seq<seq<Span>>, ps: seq<(nat, nat)>)
    requires Merging(ss, ps) && Sound(ss[0])
    ensures Measure(ss[|ps|]) + |ps| <= Measure(ss[0]) && Sound(ss[|ps|])
    decreases |ps|
  {
    if ps != [] {
      var n := |ps| - 1;
      assert ps[n] == ps[n];
      forall k | 0 <= k < n ensures ps[..n][k] == ps[k] {}
      MergingShrinks(ss[..n + 1], ps[..n]);
      MergeShrinks(ss[n], ps[n].0, ps[n].1);
      MergeSound(ss[n], ps[n].0, ps[n].1);
    }
  }

  /** Merging ends after no more steps than the measure of the list; a list left without a pair to merge has no two
      records on one address, and at every address the highest type it had to begin with. */
  lemma MergingEnds(ss: seq<seq<Span>>, ps: seq<(nat, nat)>)
    requires Merging(ss, ps) && Sound(ss[0])
    ensures |ps| <= Measure(ss[0]) && Sound(ss[|ps|])
    ensures (forall i, j :: 0 <= i < j < |ss[|ps|]| ==> !ShouldMerge(ss[|ps|][i], ss[|ps|][j])) ==>
              && (forall i, j, a: nat :: 0 <= i < j < |ss[|ps|]| ==> !(ss[|ps|][i].Has(a) && ss[|ps|][j].Has(a)))
              && (forall a: nat :: Top(ss[|ps|], a) == Top(ss[0], a))
  {
    MergingShrinks(ss, ps);
    forall a: nat ensures Top(ss[|ps|], a) == Top(ss[0], a) { MergingKeepsTop(ss, ps, a); }
    if forall i, j :: 0 <= i < j < |ss[|ps|]| ==> !ShouldMerge(ss[|ps|][i], ss[|ps|][j]) { NothingLeft(ss[|ps|]); }
  }

  // ---- the records themselves

  class Region {
    var begin: nat
    var size: nat
    const kind: nat

    constructor (begin: nat, size: nat, kind: nat)
      ensures this.begin == begin && this.size == size && this.kind == kind
    {
      this.begin, this.size, this.kind := begin, size, kind;
    }

    ghost function View(): Span
      reads this
    { Span(begin, size, kind) }
  }

  class RegionList {
    var items: seq<Region>

    constructor (items: seq<Region>)
      ensures this.items == items
    {
      this.items := items;
    }

    // the records hold these values, each in an object of its own
    ghost predicate Shows(s: seq<Span>)
      reads this, items
    {
      |s| == |items| && (forall k {:trigger items[k]} :: 0 <= k < |s| ==> items[k].View() == s[k])
      && (forall k, l :: 0 <= k < l < |s| ==> items[k] != items[l])
    }

    method Remove(k: nat)
      requires k < |items|
      modifies this
      ensures items == old(items)[..k] + old(items)[k + 1..]
    {
      items := items[..k] + items[k + 1..];
    }

    // p grows to the hull of p and q
    method Hull(p: Region, q: Region)
      requires p != q
      modifies p
      ensures p.View() == Union(old(p.View()), q.View())
    {
      var end := if p.begin + p.size > q.begin + q.size then p.begin + p.size else q.begin + q.size;
      var begin := if p.begin < q.begin then p.begin else q.begin;
      p.begin := begin;
      p.size := end - begin;
    }

    // the lower record w, at position k, is cut around the higher one; empty pieces are dropped
    method Split(h: Region, w: Region, k: nat)
      requires k < |items| && items[k] == w && h != w && w.begin <= h.begin && h.begin + h.size <= w.begin + w.size
      modifies this, w
      ensures |items| == |old(items)| - 1 + |Pieces(h.View(), old(w.View()))|
      ensures items[..|old(items)| - 1] == old(items)[..k] + old(items)[k + 1..]
      ensures forall n {:trigger items[n]} :: |old(items)| - 1 <= n < |items| ==>
                && (items[n] == w || fresh(items[n]))
                && items[n].View() == Pieces(h.View(), old(w.View()))[n - |old(items)| + 1]
      ensures forall n, l :: |old(items)| - 1 <= n < l < |items| ==> items[n] != items[l]
    {
      Remove(k);
      var r := new Region(h.begin + h.size, w.begin + w.size - (h.begin + h.size), w.kind);
      w.size := h.begin - w.begin;
      if w.size != 0 {
        items := items + [w];
      }
      if r.size != 0 {
        items := items + [r];
      }
    }

    // the record at k gets a new extent
    method Trim(k: nat, begin: nat, size: nat, ghost s: seq<Span>)
      requires Shows(s) && k < |s|
      modifies items
      ensures Shows(s[k := Span(begin, size, s[k].kind)])
    {
      var p := items[k];
      assert p.View() == s[k];
      p.begin := begin;
      p.size := size;
    }

    method Join(k: nat, l: nat, ghost s: seq<Span>)
      requires Shows(s) && k < |s| && l < |s| && k != l
      modifies this, items
      ensures Shows(Without(s[k := Union(s[k], s[l])], l))
    {
      assert items[k].View() == s[k] && items[l].View() == s[l];
      Hull(items[k], items[l]);
      Remove(l);
    }

    method Carve(h: nat, w: nat, ghost s: seq<Span>)
      requires Shows(s) && h < |s| && w < |s| && h != w && s[w].begin <= s[h].begin && s[h].End() <= s[w].End()
      modifies this, items
      ensures Shows(Without(s, w) + Pieces(s[h], s[w]))
    {
      assert items[h].View() == s[h] && items[w].View() == s[w];
      ghost var q, r := items[..w] + items[w + 1..], items[w];
      assert forall k :: 0 <= k < |q| ==> q[k] != r && q[k].View() == Without(s, w)[k];
      Split(items[h], items[w], w);
      forall k | 0 <= k < |items| ensures items[k].View() == (Without(s, w) + Pieces(s[h], s[w]))[k] {
        if k < |q| { assert items[k] == items[..|q|][k] == q[k]; }
      }
      forall k, l | 0 <= k < l < |items| ensures items[k] != items[l] {
        if k < |q| { assert items[k] == items[..|q|][k] == q[k]; }
        if l < |q| { assert items[l] == items[..|q|][l] == q[l]; }
      }
    }

    /** merge_mem, at two positions of the list. */
    method MergeMem(i: nat, j: nat, ghost s: seq<Span>)
      requires Shows(s) && Mergeable(s, i, j)
      modifies this, items
      ensures Shows(Merge(s, i, j))
    {
      var p1, p2 := items[i], items[j];
      assert p1.View() == s[i] && p2.View() == s[j];
      if p1.kind > p2.kind {
        if p1.begin + p1.size > p2.begin && p2.begin + p2.size > p1.begin + p1.size && p1.begin < p2.begin {
          var end, begin := p2.begin + p2.size, p1.begin + p1.size;
          Trim(j, begin, end - begin, s);
        } else if p2.begin + p2.size > p1.begin && p1.begin + p1.size > p2.begin + p2.size && p1.begin > p2.begin {
          Trim(j, p2.begin, p1.begin - p2.begin, s);
        } else if p1.begin <= p2.begin && p1.begin + p1.size >= p2.begin + p2.size {
          Join(i, j, s);
        } else {
          Carve(i, j, s);
        }
      } else if p1.kind == p2.kind {
        Join(i, j, s);
      } else {
        if p2.begin + p2.size > p1.begin && p1.begin + p1.size > p2.begin + p2.size && p2.begin < p1.begin {
          var end := p1.begin + p1.size;
          Trim(i, p2.begin + p2.size, end - p2.begin, s);
        } else if p1.begin + p1.size > p2.begin && p2.begin + p2.size > p1.begin + p1.size && p2.begin > p1.begin {
          Trim(i, p1.begin, p2.begin - p1.begin, s);
        } else if p2.begin <= p1.begin && p2.begin + p2.size >= p1.begin + p1.size {
          Join(j, i, s);
        } else {
          Carve(j, i, s);
        }
      }
    }
  }
}
