/** Sets of disjoint blocks of one region, kept as a map from the start of a block to its level. */
module BlockSets {
  import opened Powers
  import opened BuddyGeometry

  type Blocks = map<nat, nat>

  function With(bs: Blocks, a: nat, l: nat): Blocks {
    bs[a := l]
  }

  function Less(bs: Blocks, a: nat): Blocks {
    bs - {a}
  }

  predicate HasBlock(bs: Blocks, a: nat, l: nat) {
    a in bs && bs[a] == l
  }

  ghost predicate AreBlocks(L: nat, bs: Blocks) {
    forall c :: c in bs ==> IsBlock(L, c, bs[c])
  }

  /** The block listed at `d` lies inside the one listed at `c` or meets it. */
  ghost predicate Meets(L: nat, bs: Blocks, c: nat, d: nat)
    requires AreBlocks(L, bs)
  {
    c in bs && d in bs && bs[c] <= bs[d] && SameBlock(L, c, d, bs[c])
  }

  ghost predicate Apart(L: nat, bs: Blocks)
    requires AreBlocks(L, bs)
  {
    forall c, d :: Meets(L, bs, c, d) ==> c == d
  }

  ghost predicate LiveSet(L: nat, live: Blocks) {
    L > 0 && AreBlocks(L, live) && Apart(L, live)
  }

  /** The cells outside all live blocks. */
  ghost predicate FreeCells(L: nat, live: Blocks, free: set<nat>)
    requires LiveSet(L, live)
  {
    forall d: nat :: d in free <==> d < RegionCells(L) && !Occupied(L, live, d)
  }

  ghost predicate Occupied(L: nat, live: Blocks, d: nat)
    requires LiveSet(L, live)
  {
    exists c :: Covers(L, live, c, d)
  }

  /** Of two listed blocks, neither holds a cell of the other. */
  lemma Separate(L: nat, bs: Blocks, c: nat, d: nat)
    requires AreBlocks(L, bs) && Apart(L, bs) && c in bs && d in bs && c != d
    ensures bs[c] <= bs[d] ==> !SameBlock(L, c, d, bs[c]) && !SameBlock(L, d, c, bs[c])
    ensures bs[d] <= bs[c] ==> !SameBlock(L, d, c, bs[d]) && !SameBlock(L, c, d, bs[d])
  {
    assert Meets(L, bs, c, d) <==> bs[c] <= bs[d] && SameBlock(L, c, d, bs[c]);
    assert Meets(L, bs, d, c) <==> bs[d] <= bs[c] && SameBlock(L, d, c, bs[d]);
  }

  lemma ApartFewer(L: nat, bs: Blocks, fewer: Blocks)
    requires AreBlocks(L, bs) && Apart(L, bs)
    requires forall c :: c in fewer ==> c in bs && bs[c] == fewer[c]
    ensures AreBlocks(L, fewer) && Apart(L, fewer)
  {
    forall c, d | Meets(L, fewer, c, d)
      ensures c == d
    {
      assert Meets(L, bs, c, d);
    }
  }

  ghost predicate Covers(L: nat, bs: Blocks, c: nat, d: nat)
    requires AreBlocks(L, bs)
  {
    c in bs && SameBlock(L, c, d, bs[c])
  }

  /** The block of level `l` around `c` is listed. */
  ghost predicate HasListed(L: nat, bs: Blocks, c: nat, l: nat)
    requires l < L
  {
    AlignLeft(L, c, l) in bs && bs[AlignLeft(L, c, l)] == l
  }

  ghost predicate WhollyFree(L: nat, free: set<nat>, a: nat, l: nat)
    requires l < L
  {
    forall d: nat :: d < RegionCells(L) && SameBlock(L, a, d, l) ==> d in free
  }

  lemma ServedIsFree(L: nat, free: set<nat>, a: nat, l: nat)
    requires IsBlock(L, a, l)
    ensures Cells(L, a, l) <= free <==> WhollyFree(L, free, a, l)
  {
    BlockInside(L, a, l);
    forall c: nat
      ensures c in Cells(L, a, l) <==> SameBlock(L, a, c, l)
    {
      BlockCells(L, a, l, c);
    }
    if WhollyFree(L, free, a, l) {
      forall c | c in Cells(L, a, l)
        ensures c in free
      {
        assert SameBlock(L, a, c, l);
      }
    }
  }

  /** Listing one more block that meets no listed block. */
  lemma ApartAdd(L: nat, bs: Blocks, m: nat, k: nat)
    requires AreBlocks(L, bs) && Apart(L, bs) && m !in bs && IsBlock(L, m, k)
    requires forall c ::
      c in bs ==> !(bs[c] <= k && SameBlock(L, c, m, bs[c])) && !(k <= bs[c] && SameBlock(L, m, c, k))
    ensures Apart(L, bs[m := k])
  {
    var bs' := bs[m := k];
    forall c, d | Meets(L, bs', c, d)
      ensures c == d
    {
      assert c != m && d != m ==> Meets(L, bs, c, d);
    }
  }

  /** No cell is covered twice. */
  lemma CoverOnce(L: nat, bs: Blocks, a: nat, c: nat, d: nat)
    requires AreBlocks(L, bs) && Apart(L, bs)
    requires Covers(L, bs, a, d) && Covers(L, bs, c, d)
    ensures a == c
  {
    if a != c {
      Separate(L, bs, a, c);
    }
    if bs[a] <= bs[c] {
      SameBlockUp(L, c, d, bs[c], bs[a]);
    } else {
      SameBlockUp(L, a, d, bs[a], bs[c]);
    }
  }

  lemma HalfFree(L: nat, free: set<nat>, a: nat, b: nat, l: nat)
    requires l + 1 < L && WhollyFree(L, free, a, l) && SameBlock(L, a, b, l)
    ensures WhollyFree(L, free, b, l + 1)
  {
    forall d: nat | d < RegionCells(L) && SameBlock(L, b, d, l + 1)
      ensures d in free
    {
      SameBlockUp(L, b, d, l + 1, l);
    }
  }

  lemma BuddyStart(L: nat, c: nat, l: nat)
    requires 0 < l && IsBlock(L, c, l)
    ensures var b := BuddyCell(L, c, l);
      b < RegionCells(L) && AlignLeft(L, b, l) == b && b != c && BuddyCell(L, b, l) == c
  {
    Buddy(L, c, l);
    var j := InLevel(L, c, l);
    var j' := if j % 2 == 1 then j - 1 else j + 1;
    BlockAt(L, l, j');
  }

  /** The right half of a block is the buddy of its left half. */
  lemma RightHalf(L: nat, x: nat, k: nat)
    requires IsBlock(L, x, k) && k + 1 < L
    ensures var y := x + Span(L, k + 1);
      && IsBlock(L, x, k + 1) && IsBlock(L, y, k + 1)
      && y == BuddyCell(L, x, k + 1) && x == BuddyCell(L, y, k + 1)
      && SameBlock(L, x, y, k) && !SameBlock(L, x, y, k + 1)
      && forall d: nat :: SameBlock(L, x, d, k) <==> SameBlock(L, x, d, k + 1) || SameBlock(L, y, d, k + 1)
  {
    FirstBelow(L, x, k, k + 1);
    Buddy(L, x, k + 1);
    var j := InLevel(L, x, k + 1);
    assert j == 2 * InLevel(L, x, k);
    ShlMono(j, j + 1, L - 2 - k);
    BlockAt(L, k + 1, j + 1);
  }

  // One more live block

  lemma FreeNotLive(L: nat, live: Blocks, free: set<nat>, a: nat, l: nat, c: nat)
    requires LiveSet(L, live) && FreeCells(L, live, free) && IsBlock(L, a, l) && WhollyFree(L, free, a, l)
    requires c in live
    ensures !(live[c] <= l && SameBlock(L, c, a, live[c])) && !SameBlock(L, a, c, l)
  {
    assert SameBlock(L, a, a, l);
    assert Covers(L, live, c, a) <==> SameBlock(L, c, a, live[c]);
    assert SameBlock(L, c, c, live[c]);
    assert Covers(L, live, c, c);
  }

  lemma AddLive(L: nat, live: Blocks, free: set<nat>, a: nat, l: nat)
    requires LiveSet(L, live) && FreeCells(L, live, free) && IsBlock(L, a, l) && WhollyFree(L, free, a, l)
    ensures a !in live
    ensures LiveSet(L, live[a := l])
    ensures FreeCells(L, live[a := l], free - Cells(L, a, l))
  {
    assert SameBlock(L, a, a, l);
    forall c | c in live
      ensures !(live[c] <= l && SameBlock(L, c, a, live[c])) && !SameBlock(L, a, c, l)
    {
      FreeNotLive(L, live, free, a, l, c);
    }
    ApartAdd(L, live, a, l);
    TakenAfter(L, live, free, a, l);
  }

  lemma TakenAfter(L: nat, live: Blocks, free: set<nat>, a: nat, l: nat)
    requires LiveSet(L, live) && FreeCells(L, live, free) && IsBlock(L, a, l) && a !in live
    requires LiveSet(L, live[a := l])
    ensures FreeCells(L, live[a := l], free - Cells(L, a, l))
  {
    var live' := live[a := l];
    forall d: nat
      ensures Occupied(L, live', d) <==> Occupied(L, live, d) || d in Cells(L, a, l)
    {
      BlockCells(L, a, l, d);
      if Occupied(L, live', d) {
        var c :| Covers(L, live', c, d);
        assert c == a || Covers(L, live, c, d);
      }
      if Occupied(L, live, d) {
        var c :| Covers(L, live, c, d);
        assert Covers(L, live', c, d);
      }
      if d in Cells(L, a, l) {
        assert Covers(L, live', a, d);
      }
    }
  }

  // One fewer

  lemma RemoveLive(L: nat, live: Blocks, free: set<nat>, a: nat)
    requires LiveSet(L, live) && FreeCells(L, live, free) && a in live
    ensures var free' := free + Cells(L, a, live[a]);
      LiveSet(L, live - {a}) && FreeCells(L, live - {a}, free') && WhollyFree(L, free', a, live[a])
    ensures forall d: nat :: d in Cells(L, a, live[a]) ==> d !in free
  {
    var m := live[a];
    var rest := live - {a};
    BlockInside(L, a, m);
    ApartFewer(L, live, rest);
    forall d: nat
      ensures d in Cells(L, a, m) <==> Covers(L, live, a, d)
      ensures Occupied(L, live, d) <==> Occupied(L, rest, d) || d in Cells(L, a, m)
      ensures d in Cells(L, a, m) ==> !Occupied(L, rest, d)
    {
      BlockCells(L, a, m, d);
      RemovedTaken(L, live, a, d);
    }
  }

  lemma RemovedTaken(L: nat, live: Blocks, a: nat, d: nat)
    requires LiveSet(L, live) && a in live && LiveSet(L, live - {a})
    ensures Occupied(L, live, d) <==> Occupied(L, live - {a}, d) || Covers(L, live, a, d)
    ensures Covers(L, live, a, d) ==> !Occupied(L, live - {a}, d)
  {
    var rest := live - {a};
    if Occupied(L, live, d) {
      var c :| Covers(L, live, c, d);
      assert c == a || Covers(L, rest, c, d);
    }
    if Occupied(L, rest, d) {
      var c :| Covers(L, rest, c, d);
      assert Covers(L, live, c, d);
      if Covers(L, live, a, d) {
        CoverOnce(L, live, a, c, d);
      }
    }
  }
}
