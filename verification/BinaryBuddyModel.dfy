/**
 The idea behind the binary buddy, free of links.  A listing gives the start and the level of every
 listed block.  The listed blocks are disjoint, cover the free cells and hold no pair of buddies;
 hence they are exactly the maximal wholly free blocks.
 */
module BinaryBuddyModel {
  import opened Powers
  import opened BuddyGeometry
  import opened BuddySpec
  import opened BlockSets

  /** The listed blocks cover the free cells and nothing else. */
  ghost predicate Cover(L: nat, bs: Blocks, free: set<nat>)
    requires L > 0 && AreBlocks(L, bs)
  {
    (forall d :: d in free ==> d < RegionCells(L) && exists c :: Covers(L, bs, c, d)) &&
    (forall c, d: nat :: d < RegionCells(L) && Covers(L, bs, c, d) ==> d in free)
  }

  /** No pair of buddies is listed, except perhaps the two halves of the block of level `k - 1` around `p`. */
  ghost predicate CanonicalBut(L: nat, bs: Blocks, p: nat, k: nat)
    requires AreBlocks(L, bs) && k < L
  {
    forall c :: c in bs && bs[c] > 0 && HasListed(L, bs, BuddyCell(L, c, bs[c]), bs[c]) ==>
      bs[c] == k && SameBlock(L, c, p, k - 1)
  }

  /** No pair of buddies is listed. */
  ghost predicate Canonical(L: nat, bs: Blocks)
    requires AreBlocks(L, bs)
  {
    forall c :: c in bs && bs[c] > 0 ==> !HasListed(L, bs, BuddyCell(L, c, bs[c]), bs[c])
  }

  ghost predicate Tiles(L: nat, bs: Blocks, free: set<nat>) {
    L > 0 && AreBlocks(L, bs) && Apart(L, bs) && Cover(L, bs, free)
  }

  ghost predicate Inv(L: nat, bs: Blocks, free: set<nat>) {
    Tiles(L, bs, free) && Canonical(L, bs)
  }

  /** No listed block lies strictly above the block of level `l` around `a`. */
  ghost predicate NoneAbove(L: nat, bs: Blocks, a: nat, l: nat)
    requires l < L && AreBlocks(L, bs)
  {
    forall c :: c in bs && bs[c] < l ==> !SameBlock(L, c, a, bs[c])
  }

  lemma HalfNoneAbove(L: nat, bs: Blocks, free: set<nat>, a: nat, b: nat, l: nat)
    requires Tiles(L, bs, free) && l + 1 < L && IsBlock(L, a, l) && NoneAbove(L, bs, a, l)
    requires SameBlock(L, a, b, l)
    requires !(a in bs && bs[a] == l)
    ensures NoneAbove(L, bs, b, l + 1)
  {
    forall c | c in bs && bs[c] < l + 1
      ensures !SameBlock(L, c, b, bs[c])
    {
      if SameBlock(L, c, b, bs[c]) {
        SameBlockUp(L, a, b, l, bs[c]);
      }
    }
  }

  /** A wholly free block with no listed block above it is listed itself. */
  lemma {:induction false} Merged(L: nat, bs: Blocks, free: set<nat>, a: nat, l: nat)
    requires Inv(L, bs, free) && IsBlock(L, a, l)
    requires WhollyFree(L, free, a, l) && NoneAbove(L, bs, a, l)
    ensures a in bs && bs[a] == l
    decreases L - l
  {
    if l == L - 1 {
      assert SameBlock(L, a, a, l);
      var c :| Covers(L, bs, c, a);
      assert bs[c] == l;
      LevelLast(L, a);
      LevelLast(L, c);
    } else if !(a in bs && bs[a] == l) {
      FirstBelow(L, a, l, l + 1);
      var b := BuddyCell(L, a, l + 1);
      Buddy(L, a, l + 1);
      HalfNoneAbove(L, bs, free, a, a, l);
      HalfNoneAbove(L, bs, free, a, b, l);
      HalfFree(L, free, a, a, l);
      HalfFree(L, free, a, b, l);
      Merged(L, bs, free, a, l + 1);
      Merged(L, bs, free, b, l + 1);
    }
  }

  /** The listed blocks are exactly the maximal wholly free blocks. */
  lemma ListedIffMaximal(L: nat, bs: Blocks, free: set<nat>, a: nat, l: nat)
    requires Inv(L, bs, free) && IsBlock(L, a, l)
    ensures a in bs && bs[a] == l <==>
      WhollyFree(L, free, a, l) && (l > 0 ==> !WhollyFree(L, free, a, l - 1))
  {
    if a in bs && bs[a] == l {
      ListedIsFree(L, bs, free, a);
      if l > 0 && WhollyFree(L, free, a, l - 1) {
        ListedIsMaximal(L, bs, free, a);
      }
    }
    if WhollyFree(L, free, a, l) && (l > 0 ==> !WhollyFree(L, free, a, l - 1)) {
      MaximalNoneAbove(L, bs, free, a, l);
      Merged(L, bs, free, a, l);
    }
  }

  lemma ListedIsFree(L: nat, bs: Blocks, free: set<nat>, a: nat)
    requires Tiles(L, bs, free) && a in bs
    ensures WhollyFree(L, free, a, bs[a])
  {
    forall d: nat | d < RegionCells(L) && SameBlock(L, a, d, bs[a])
      ensures d in free
    {
      assert Covers(L, bs, a, d);
    }
  }

  lemma ListedIsMaximal(L: nat, bs: Blocks, free: set<nat>, a: nat)
    requires Inv(L, bs, free) && a in bs && bs[a] > 0
    ensures !WhollyFree(L, free, a, bs[a] - 1)
  {
    var l := bs[a];
    if WhollyFree(L, free, a, l - 1) {
      var b := BuddyCell(L, a, l);
      Buddy(L, a, l);
      HalfFree(L, free, a, b, l - 1);
      forall c | c in bs && bs[c] < l
        ensures !SameBlock(L, c, b, bs[c])
      {
        if SameBlock(L, c, b, bs[c]) {
          SameBlockUp(L, a, b, l - 1, bs[c]);
          Separate(L, bs, c, a);
        }
      }
      Merged(L, bs, free, b, l);
    }
  }

  lemma MaximalNoneAbove(L: nat, bs: Blocks, free: set<nat>, a: nat, l: nat)
    requires Tiles(L, bs, free) && l < L && WhollyFree(L, free, a, l)
    requires l > 0 ==> !WhollyFree(L, free, a, l - 1)
    ensures NoneAbove(L, bs, a, l)
  {
    forall c | c in bs && bs[c] < l
      ensures !SameBlock(L, c, a, bs[c])
    {
      if SameBlock(L, c, a, bs[c]) {
        forall d: nat | d < RegionCells(L) && SameBlock(L, a, d, l - 1)
          ensures d in free
        {
          SameBlockUp(L, a, d, l - 1, bs[c]);
          assert Covers(L, bs, c, d);
        }
      }
    }
  }

  /** A request can be served exactly when some list at its level or above is not empty. */
  lemma ServesIffListed(L: nat, bs: Blocks, free: set<nat>, l: nat)
    requires Inv(L, bs, free) && l < L
    ensures Serves(L, free, l) <==> exists c :: c in bs && bs[c] <= l
  {
    if Serves(L, free, l) {
      var a: nat :| IsBlock(L, a, l) && Cells(L, a, l) <= free;
      ServedIsFree(L, free, a, l);
      if NoneAbove(L, bs, a, l) {
        Merged(L, bs, free, a, l);
      }
    }
    if c :| c in bs && bs[c] <= l {
      ListedIsFree(L, bs, free, c);
      FirstBelow(L, c, bs[c], l);
      forall d: nat | d < RegionCells(L) && SameBlock(L, c, d, l)
        ensures d in free
      {
        SameBlockUp(L, c, d, l, bs[c]);
      }
      ServedIsFree(L, free, c, l);
    }
  }

  // Splitting

  function Split(L: nat, bs: Blocks, x: nat, k: nat): Blocks
    requires k + 1 < L
  {
    (bs - {x})[x := k + 1][x + Span(L, k + 1) := k + 1]
  }

  /** Splitting a listed block leaves the free cells as they are; only the new pair is not canonical. */
  lemma SplitTiles(L: nat, bs: Blocks, free: set<nat>, x: nat, k: nat)
    requires Tiles(L, bs, free) && x in bs && bs[x] == k && k + 1 < L
    ensures Tiles(L, Split(L, bs, x, k), free)
    ensures x + Span(L, k + 1) !in bs
  {
    var y := x + Span(L, k + 1);
    var bs' := Split(L, bs, x, k);
    RightHalf(L, x, k);
    forall c | c in bs && c != x
      ensures !SameBlock(L, c, y, bs[c]) || bs[c] > k
      ensures !SameBlock(L, c, x, k) && !SameBlock(L, c, y, k)
    {
      Separate(L, bs, c, x);
      if bs[c] <= k && SameBlock(L, c, y, bs[c]) {
        SameBlockUp(L, x, y, k, bs[c]);
      }
      if SameBlock(L, c, x, k) && bs[c] <= k {
        SameBlockUp(L, c, x, k, bs[c]);
      }
    }
    SplitApart(L, bs, x, k);
    SplitCover(L, bs, free, x, k);
  }

  lemma SplitApart(L: nat, bs: Blocks, x: nat, k: nat)
    requires AreBlocks(L, bs) && Apart(L, bs) && x in bs && bs[x] == k && k + 1 < L
    requires x + Span(L, k + 1) !in bs
    ensures AreBlocks(L, Split(L, bs, x, k)) && Apart(L, Split(L, bs, x, k))
  {
    var y := x + Span(L, k + 1);
    RightHalf(L, x, k);
    forall c | c in bs && c != x
      ensures !(bs[c] <= k + 1 && SameBlock(L, c, x, bs[c])) && !(k + 1 <= bs[c] && SameBlock(L, x, c, k + 1))
    {
      SplitMeets(L, bs, x, k, c, x);
    }
    forall c | c in bs && c != x
      ensures !(bs[c] <= k + 1 && SameBlock(L, c, y, bs[c])) && !(k + 1 <= bs[c] && SameBlock(L, y, c, k + 1))
    {
      SplitMeets(L, bs, x, k, c, y);
    }
    assert Split(L, bs, x, k) == (bs - {x})[x := k + 1][y := k + 1];
    ApartFewer(L, bs, bs - {x});
    PairApart(L, bs - {x}, x, y, k + 1);
  }

  lemma PairApart(L: nat, bs: Blocks, x: nat, y: nat, k: nat)
    requires AreBlocks(L, bs) && Apart(L, bs) && x !in bs && y !in bs && x != y && IsBlock(L, x, k) && IsBlock(L, y, k)
    requires !SameBlock(L, x, y, k)
    requires forall c ::
      c in bs ==> !(bs[c] <= k && SameBlock(L, c, x, bs[c])) && !(k <= bs[c] && SameBlock(L, x, c, k))
    requires forall c ::
      c in bs ==> !(bs[c] <= k && SameBlock(L, c, y, bs[c])) && !(k <= bs[c] && SameBlock(L, y, c, k))
    ensures AreBlocks(L, bs[x := k][y := k]) && Apart(L, bs[x := k][y := k])
  {
    ApartAdd(L, bs, x, k);
    ApartAdd(L, bs[x := k], y, k);
  }

  lemma SplitMeets(L: nat, bs: Blocks, x: nat, k: nat, c: nat, d: nat)
    requires AreBlocks(L, bs) && Apart(L, bs) && x in bs && bs[x] == k && k + 1 < L
    requires c in bs && c != x && SameBlock(L, x, d, k)
    ensures !(bs[c] <= k + 1 && SameBlock(L, c, d, bs[c])) && !(k + 1 <= bs[c] && SameBlock(L, d, c, k + 1))
  {
    Separate(L, bs, c, x);
    if bs[c] <= k + 1 && SameBlock(L, c, d, bs[c]) {
      if bs[c] <= k {
        SameBlockUp(L, x, d, k, bs[c]);
      } else {
        SameBlockUp(L, c, d, bs[c], k);
      }
    }
    Parent(L, c, k);
    Parent(L, d, k);
  }

  lemma SplitCover(L: nat, bs: Blocks, free: set<nat>, x: nat, k: nat)
    requires L > 0 && AreBlocks(L, bs) && Cover(L, bs, free) && x in bs && bs[x] == k && k + 1 < L
    requires AreBlocks(L, Split(L, bs, x, k))
    requires x + Span(L, k + 1) !in bs
    ensures Cover(L, Split(L, bs, x, k), free)
  {
    var y := x + Span(L, k + 1);
    var bs' := Split(L, bs, x, k);
    RightHalf(L, x, k);
    forall d | d in free
      ensures exists c :: Covers(L, bs', c, d)
    {
      var c :| Covers(L, bs, c, d);
      if c == x {
        assert Covers(L, bs', x, d) || Covers(L, bs', y, d);
      } else {
        assert Covers(L, bs', c, d);
      }
    }
    forall c, d: nat | d < RegionCells(L) && Covers(L, bs', c, d)
      ensures d in free
    {
      if c == x || c == y {
        assert Covers(L, bs, x, d);
      } else {
        assert Covers(L, bs, c, d);
      }
    }
  }

  lemma SplitCanonical(L: nat, bs: Blocks, free: set<nat>, x: nat, k: nat, p: nat)
    requires Tiles(L, bs, free) && x in bs && bs[x] == k && k + 1 < L
    requires Canonical(L, bs) || (CanonicalBut(L, bs, p, k) && k > 0 && SameBlock(L, x, p, k - 1))
    ensures Tiles(L, Split(L, bs, x, k), free)
    ensures CanonicalBut(L, Split(L, bs, x, k), x, k + 1)
  {
    var y := x + Span(L, k + 1);
    var bs' := Split(L, bs, x, k);
    SplitTiles(L, bs, free, x, k);
    RightHalf(L, x, k);
    forall c | c in bs' && bs'[c] > 0 && HasListed(L, bs', BuddyCell(L, c, bs'[c]), bs'[c])
      ensures bs'[c] == k + 1 && SameBlock(L, c, x, k)
    {
      if c != x && c != y {
        BuddyKept(L, bs, free, x, k, p, c);
      }
    }
  }

  /** The buddies of the other listed blocks are listed neither before nor after the split. */
  lemma BuddyKept(L: nat, bs: Blocks, free: set<nat>, x: nat, k: nat, p: nat, c: nat)
    requires Tiles(L, bs, free) && x in bs && bs[x] == k && k + 1 < L
    requires Canonical(L, bs) || (CanonicalBut(L, bs, p, k) && k > 0 && SameBlock(L, x, p, k - 1))
    requires c in bs && c != x && bs[c] > 0
    ensures !HasListed(L, Split(L, bs, x, k), BuddyCell(L, c, bs[c]), bs[c])
  {
    var y := x + Span(L, k + 1);
    var l := bs[c];
    var b := BuddyCell(L, c, l);
    BuddyStart(L, c, l);
    Buddy(L, c, l);
    RightHalf(L, x, k);
    if HasListed(L, Split(L, bs, x, k), b, l) {
      if b == x || b == y {
        OutsideSplit(L, bs, x, k, c);
      } else {
        assert HasListed(L, bs, b, l);
        OnlyPair(L, bs, x, k, p, c, b);
      }
    }
  }

  lemma OutsideSplit(L: nat, bs: Blocks, x: nat, k: nat, c: nat)
    requires AreBlocks(L, bs) && Apart(L, bs) && x in bs && bs[x] == k && k + 1 < L
    requires c in bs && c != x
    ensures bs[c] >= k ==> !SameBlock(L, x, c, k)
  {
    Separate(L, bs, c, x);
  }

  /** In the exceptional pair one half is `x` itself. */
  lemma OnlyPair(L: nat, bs: Blocks, x: nat, k: nat, p: nat, c: nat, b: nat)
    requires AreBlocks(L, bs) && Apart(L, bs) && x in bs && bs[x] == k && k + 1 < L
    requires c in bs && c != x && bs[c] > 0 && b == BuddyCell(L, c, bs[c]) && HasListed(L, bs, b, bs[c])
    requires Canonical(L, bs) || (CanonicalBut(L, bs, p, k) && k > 0 && SameBlock(L, x, p, k - 1))
    ensures b == x
  {
    assert !Canonical(L, bs);
    assert bs[c] == k && SameBlock(L, c, x, k - 1);
    Buddy(L, c, k);
    BuddyStart(L, c, k);
  }

  // Taking

  /** Taking a listed block of the exceptional pair, if there is one, restores the canonical form. */
  lemma TakeListed(L: nat, bs: Blocks, free: set<nat>, a: nat, l: nat)
    requires Tiles(L, bs, free) && a in bs && bs[a] == l
    requires Canonical(L, bs) || (CanonicalBut(L, bs, a, l) && l > 0)
    ensures Inv(L, bs - {a}, free - Cells(L, a, l))
    ensures Cells(L, a, l) <= free
  {
    var bs' := bs - {a};
    ListedIsFree(L, bs, free, a);
    ServedIsFree(L, free, a, l);
    forall d: nat
      ensures d in Cells(L, a, l) <==> SameBlock(L, a, d, l)
    {
      BlockCells(L, a, l, d);
    }
    TakeCover(L, bs, free, a, l);
    ApartFewer(L, bs, bs');
    forall c | c in bs' && bs'[c] > 0
      ensures !HasListed(L, bs', BuddyCell(L, c, bs'[c]), bs'[c])
    {
      if HasListed(L, bs', BuddyCell(L, c, bs'[c]), bs'[c]) {
        TakenPair(L, bs, a, l, c);
      }
    }
  }

  lemma TakenPair(L: nat, bs: Blocks, a: nat, l: nat, c: nat)
    requires AreBlocks(L, bs) && a in bs && bs[a] == l
    requires Canonical(L, bs) || (CanonicalBut(L, bs, a, l) && l > 0)
    requires c in bs && c != a && bs[c] > 0 && HasListed(L, bs, BuddyCell(L, c, bs[c]), bs[c])
    ensures AlignLeft(L, BuddyCell(L, c, bs[c]), bs[c]) == a
  {
    assert bs[c] == l && SameBlock(L, c, a, l - 1);
    Buddy(L, c, l);
    BuddyStart(L, c, l);
  }

  lemma TakeCover(L: nat, bs: Blocks, free: set<nat>, a: nat, l: nat)
    requires Tiles(L, bs, free) && a in bs && bs[a] == l
    requires forall d: nat :: d in Cells(L, a, l) <==> SameBlock(L, a, d, l)
    ensures Cover(L, bs - {a}, free - Cells(L, a, l))
  {
    var bs' := bs - {a};
    forall d | d in free - Cells(L, a, l)
      ensures exists c :: Covers(L, bs', c, d)
    {
      var c :| Covers(L, bs, c, d);
      assert Covers(L, bs', c, d);
    }
    forall c, d: nat | d < RegionCells(L) && Covers(L, bs', c, d)
      ensures d in free - Cells(L, a, l)
    {
      assert Covers(L, bs, c, d);
      if SameBlock(L, a, d, l) {
        CoverOnce(L, bs, a, c, d);
      }
    }
  }

  // Freeing

  lemma FreeBlockStart(L: nat, bs: Blocks, free: set<nat>, a: nat, l: nat)
    requires Inv(L, bs, free) && IsBlock(L, a, l)
    requires forall d: nat :: d in Cells(L, a, l) ==> d !in free
    ensures a !in bs
    ensures Tiles(L, bs[a := l], free + Cells(L, a, l))
    ensures CanonicalBut(L, bs[a := l], a, l)
  {
    var bs' := bs[a := l];
    forall d: nat
      ensures d in Cells(L, a, l) <==> SameBlock(L, a, d, l)
    {
      BlockCells(L, a, l, d);
    }
    FreedApart(L, bs, free, a, l);
    FreedCover(L, bs, free, a, l);
    forall c | c in bs' && bs'[c] > 0 && HasListed(L, bs', BuddyCell(L, c, bs'[c]), bs'[c])
      ensures bs'[c] == l && SameBlock(L, c, a, l - 1)
    {
      var b := BuddyCell(L, c, bs'[c]);
      BuddyStart(L, c, bs'[c]);
      Buddy(L, c, bs'[c]);
    }
  }

  lemma FreedApart(L: nat, bs: Blocks, free: set<nat>, a: nat, l: nat)
    requires Tiles(L, bs, free) && IsBlock(L, a, l)
    requires forall d: nat :: SameBlock(L, a, d, l) ==> d !in free
    ensures a !in bs
    ensures Apart(L, bs[a := l])
  {
    forall c | c in bs
      ensures !SameBlock(L, c, a, bs[c]) && !(l <= bs[c] && SameBlock(L, a, c, l))
    {
      assert SameBlock(L, a, a, l);
      assert Covers(L, bs, c, a) <==> SameBlock(L, c, a, bs[c]);
      assert Covers(L, bs, c, c);
    }
    ApartAdd(L, bs, a, l);
  }

  lemma FreedCover(L: nat, bs: Blocks, free: set<nat>, a: nat, l: nat)
    requires L > 0 && AreBlocks(L, bs) && Cover(L, bs, free) && IsBlock(L, a, l) && a !in bs
    requires forall d: nat :: d in Cells(L, a, l) <==> SameBlock(L, a, d, l)
    ensures Cover(L, bs[a := l], free + Cells(L, a, l))
  {
    var bs' := bs[a := l];
    BlockInside(L, a, l);
    forall d | d in free + Cells(L, a, l)
      ensures d < RegionCells(L) && exists c :: Covers(L, bs', c, d)
    {
      if d in free {
        var c :| Covers(L, bs, c, d);
        assert Covers(L, bs', c, d);
      } else {
        assert Covers(L, bs', a, d);
      }
    }
    forall c, d: nat | d < RegionCells(L) && Covers(L, bs', c, d)
      ensures d in free + Cells(L, a, l)
    {
      if c != a {
        assert Covers(L, bs, c, d);
      }
    }
  }

  /** Merging a listed block with its listed buddy. */
  function Merge(bs: Blocks, x: nat, b: nat, l: nat): Blocks
    requires l > 0
  {
    (bs - {x} - {b})[if b < x then b else x := l - 1]
  }

  lemma MergeStart(L: nat, x: nat, l: nat)
    requires 0 < l && IsBlock(L, x, l)
    ensures var b := BuddyCell(L, x, l); IsBlock(L, if b < x then b else x, l - 1)
  {
    var b := BuddyCell(L, x, l);
    Buddy(L, x, l);
    BuddyStart(L, x, l);
    var j := InLevel(L, x, l);
    var h := j / 2;
    ShlShl(h, 1, L - 1 - l);
    assert Shl(h, 1) == 2 * h;
    ShlMono(2 * h, 2 * h + 1, L - 1 - l);
    Parent(L, x, l - 1);
    Parent(L, b, l - 1);
  }

  lemma MergeStep(L: nat, bs: Blocks, free: set<nat>, x: nat, l: nat)
    requires l < L && Tiles(L, bs, free) && CanonicalBut(L, bs, x, l)
    requires x in bs && bs[x] == l > 0 && HasListed(L, bs, BuddyCell(L, x, l), l)
    ensures var b := BuddyCell(L, x, l); b in bs && bs[b] == l && b != x
    ensures var b := BuddyCell(L, x, l);
      && Tiles(L, Merge(bs, x, b, l), free)
      && CanonicalBut(L, Merge(bs, x, b, l), if b < x then b else x, l - 1)
  {
    var b := BuddyCell(L, x, l);
    BuddyStart(L, x, l);
    Buddy(L, x, l);
    MergeStart(L, x, l);
    MergeApart(L, bs, x, b, l);
    MergeCover(L, bs, free, x, b, l);
    var m := if b < x then b else x;
    var bs' := Merge(bs, x, b, l);
    forall c | c in bs' && bs'[c] > 0 && HasListed(L, bs', BuddyCell(L, c, bs'[c]), bs'[c])
      ensures bs'[c] == l - 1 && SameBlock(L, c, m, l - 2)
    {
      var e := BuddyCell(L, c, bs'[c]);
      BuddyStart(L, c, bs'[c]);
      Buddy(L, c, bs'[c]);
      if c != m && e != m {
        assert HasListed(L, bs, e, bs[c]);
        SameBlockPair(L, x, b, c, l);
      }
    }
  }

  lemma SameBlockPair(L: nat, x: nat, b: nat, c: nat, l: nat)
    requires 0 < l && IsBlock(L, x, l) && b == BuddyCell(L, x, l) && IsBlock(L, c, l) && SameBlock(L, c, x, l - 1)
    ensures c == x || c == b
  {
    Buddy(L, x, l);
    BuddyStart(L, x, l);
  }

  lemma MergeApart(L: nat, bs: Blocks, x: nat, b: nat, l: nat)
    requires AreBlocks(L, bs) && Apart(L, bs) && x in bs && bs[x] == l > 0 && b == BuddyCell(L, x, l)
    requires b in bs && bs[b] == l
    requires AreBlocks(L, Merge(bs, x, b, l))
    ensures Apart(L, Merge(bs, x, b, l))
  {
    var m := if b < x then b else x;
    Buddy(L, x, l);
    forall c | c in bs && c != x && c != b
      ensures !(bs[c] <= l - 1 && SameBlock(L, c, m, bs[c])) && !(l - 1 <= bs[c] && SameBlock(L, m, c, l - 1))
    {
      Separate(L, bs, c, x);
      Separate(L, bs, c, b);
      assert SameBlock(L, c, m, l - 1) <==> SameBlock(L, m, c, l - 1);
    }
    ApartFewer(L, bs, bs - {x} - {b});
    assert Merge(bs, x, b, l)[m] == l - 1;
    ApartAdd(L, bs - {x} - {b}, m, l - 1);
  }

  lemma MergeCover(L: nat, bs: Blocks, free: set<nat>, x: nat, b: nat, l: nat)
    requires L > 0 && AreBlocks(L, bs) && Cover(L, bs, free) && x in bs && bs[x] == l > 0 && b == BuddyCell(L, x, l)
    requires b in bs && bs[b] == l
    requires AreBlocks(L, Merge(bs, x, b, l))
    ensures Cover(L, Merge(bs, x, b, l), free)
  {
    var m := if b < x then b else x;
    var bs' := Merge(bs, x, b, l);
    Buddy(L, x, l);
    forall d | d in free
      ensures exists c :: Covers(L, bs', c, d)
    {
      var c :| Covers(L, bs, c, d);
      if c == x || c == b {
        assert Covers(L, bs', m, d);
      } else {
        assert Covers(L, bs', c, d);
      }
    }
    forall c, d: nat | d < RegionCells(L) && Covers(L, bs', c, d)
      ensures d in free
    {
      if c == m {
        assert Covers(L, bs, x, d) || Covers(L, bs, b, d);
      } else {
        assert Covers(L, bs, c, d);
      }
    }
  }

  lemma MergeStops(L: nat, bs: Blocks, x: nat, l: nat)
    requires AreBlocks(L, bs) && x in bs && bs[x] == l && CanonicalBut(L, bs, x, l)
    requires l > 0 ==> !HasListed(L, bs, BuddyCell(L, x, l), l)
    ensures Canonical(L, bs)
  {
    forall c | c in bs && bs[c] > 0
      ensures !HasListed(L, bs, BuddyCell(L, c, bs[c]), bs[c])
    {
      if HasListed(L, bs, BuddyCell(L, c, bs[c]), bs[c]) {
        SameBlockPair(L, x, BuddyCell(L, x, l), c, l);
        BuddyStart(L, x, l);
        BuddyStart(L, c, l);
      }
    }
  }

  // The pair bits

  /** `map_index` of the block of level `l > 0` around `c`: one bit for each pair of buddies. */
  function MapIndex(index: nat): nat {
    if index == 0 then 0 else (index - 1) / 2 + 1
  }

  function PairIndex(L: nat, c: nat, l: nat): nat
    requires l < L
  {
    MapIndex(BlockIndex(L, c, l))
  }

  lemma PairIndexIs(L: nat, c: nat, l: nat)
    requires 0 < l < L && c < RegionCells(L)
    ensures PairIndex(L, c, l) == BlockIndex(L, c, l - 1) + 1
    ensures PairIndex(L, c, l) < Pow2(L)
  {
    Parent(L, c, l - 1);
    BlockIndexBound(L, c, l - 1);
    Pow2Mono(l, L);
  }

  lemma PairIndexInjective(L: nat, c: nat, l: nat, d: nat, m: nat)
    requires 0 < l < L && 0 < m < L && c < RegionCells(L) && d < RegionCells(L)
    ensures PairIndex(L, c, l) == PairIndex(L, d, m) <==> l == m && SameBlock(L, c, d, l - 1)
  {
    PairIndexIs(L, c, l);
    PairIndexIs(L, d, m);
    BlockIndexInjective(L, c, l - 1, d, m - 1);
  }

  lemma PairBitFits(L: nat, c: nat, l: nat)
    requires l < L && c < RegionCells(L)
    ensures PairIndex(L, c, l) < Pow2(L)
  {
    if l > 0 {
      PairIndexIs(L, c, l);
    } else {
      LevelZero(L, c);
    }
  }

  function Flip(bits: seq<bool>, i: nat): seq<bool>
    requires i < |bits|
  {
    bits[i := !bits[i]]
  }

  /** Every pair bit is (left half listed) xor (right half listed). */
  ghost predicate PairBits(L: nat, bits: seq<bool>, bs: Blocks)
    requires L > 0
  {
    |bits| == Pow2(L) &&
    forall c: nat, l: nat {:trigger PairIndex(L, c, l)} :: c < RegionCells(L) && 0 < l < L ==>
      PairIndex(L, c, l) < |bits| &&
      (bits[PairIndex(L, c, l)] <==> HasListed(L, bs, c, l) != HasListed(L, bs, BuddyCell(L, c, l), l))
  }

  /** The bit is the same for both buddies. */
  lemma PairBit(L: nat, bits: seq<bool>, bs: Blocks, c: nat, l: nat)
    requires L > 0 && PairBits(L, bits, bs)
    requires 0 < l && IsBlock(L, c, l)
    ensures var b := BuddyCell(L, c, l);
      && b < RegionCells(L) && PairIndex(L, b, l) == PairIndex(L, c, l) < |bits|
      && (bits[PairIndex(L, b, l)] <==> HasListed(L, bs, c, l) != HasListed(L, bs, b, l))
  {
    Buddy(L, c, l);
    PairIndexInjective(L, c, l, BuddyCell(L, c, l), l);
  }

  ghost predicate ListedAt(bs: Blocks, x: nat, l: nat) {
    x in bs && bs[x] == l
  }

  /** Listing or unlisting the block at `x` flips exactly its pair bit; the flip of the root's bit is never read. */
  lemma FlipPair(L: nat, bits: seq<bool>, bs: Blocks, bs': Blocks, x: nat, l: nat)
    requires L > 0 && PairBits(L, bits, bs) && IsBlock(L, x, l)
    requires forall c, m :: (c != x || m != l) ==> (ListedAt(bs', c, m) <==> ListedAt(bs, c, m))
    requires ListedAt(bs', x, l) != ListedAt(bs, x, l)
    ensures PairIndex(L, x, l) < |bits|
    ensures PairBits(L, Flip(bits, PairIndex(L, x, l)), bs')
  {
    PairBitFits(L, x, l);
    var bits' := Flip(bits, PairIndex(L, x, l));
    forall c: nat, m: nat | c < RegionCells(L) && 0 < m < L
      ensures PairIndex(L, c, m) < |bits'| &&
        (bits'[PairIndex(L, c, m)] <==> HasListed(L, bs', c, m) != HasListed(L, bs', BuddyCell(L, c, m), m))
    {
      FlipPairAt(L, bs, bs', x, l, c, m);
      assert PairIndex(L, c, m) < |bits| &&
        (bits[PairIndex(L, c, m)] <==> HasListed(L, bs, c, m) != HasListed(L, bs, BuddyCell(L, c, m), m));
    }
  }

  lemma FlipPairAt(L: nat, bs: Blocks, bs': Blocks, x: nat, l: nat, c: nat, m: nat)
    requires L > 0 && IsBlock(L, x, l) && c < RegionCells(L) && 0 < m < L
    requires forall c, m :: (c != x || m != l) ==> (ListedAt(bs', c, m) <==> ListedAt(bs, c, m))
    requires ListedAt(bs', x, l) != ListedAt(bs, x, l)
    ensures var before := HasListed(L, bs, c, m) != HasListed(L, bs, BuddyCell(L, c, m), m);
      var after := HasListed(L, bs', c, m) != HasListed(L, bs', BuddyCell(L, c, m), m);
      (before != after) <==> PairIndex(L, c, m) == PairIndex(L, x, l)
  {
    var b := BuddyCell(L, c, m);
    Buddy(L, c, m);
    ListedFlip(L, bs, bs', x, l, c, m);
    ListedFlip(L, bs, bs', x, l, b, m);
    if l > 0 {
      PairIndexInjective(L, c, m, x, l);
    } else {
      PairIndexIs(L, c, m);
      LevelZero(L, x);
    }
  }

  lemma ListedFlip(L: nat, bs: Blocks, bs': Blocks, x: nat, l: nat, c: nat, m: nat)
    requires L > 0 && IsBlock(L, x, l) && c < RegionCells(L) && m < L
    requires forall c, m :: (c != x || m != l) ==> (ListedAt(bs', c, m) <==> ListedAt(bs, c, m))
    requires ListedAt(bs', x, l) != ListedAt(bs, x, l)
    ensures (HasListed(L, bs', c, m) != HasListed(L, bs, c, m)) <==> m == l && SameBlock(L, c, x, l)
  {
    var a := AlignLeft(L, c, m);
    assert HasListed(L, bs, c, m) <==> ListedAt(bs, a, m);
    assert HasListed(L, bs', c, m) <==> ListedAt(bs', a, m);
    if m == l {
      AlignLeftIsBlock(L, c, m);
    }
  }
}
