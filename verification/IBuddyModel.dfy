/**
 The idea behind iBuddy, free of links and bits.  Every free cell `c` carries the level `lv[c]` of
 the list it is in.  Being listed at a level certifies that the whole enclosing block of that level
 is free, and inside any wholly free block exactly one cell is listed at that level or higher up.
 */
module IBuddyModel {
  import opened Powers
  import opened BuddyGeometry
  import opened BuddySpec
  import opened BlockSets

  type Listing = map<nat, nat>

  ghost predicate InRegion(L: nat, lv: Listing)
    requires L > 0
  {
    forall c :: c in lv ==> c < RegionCells(L) && lv[c] < L
  }

  ghost predicate BlockFree(L: nat, lv: Listing, c: nat, m: nat)
    requires m < L
  {
    WhollyFree(L, lv.Keys, c, m)
  }

  /** A cell listed at level `l` has its whole enclosing block of level `l` free. */
  ghost predicate Certified(L: nat, lv: Listing)
    requires L > 0 && InRegion(L, lv)
  {
    forall c :: c in lv ==> BlockFree(L, lv, c, lv[c])
  }

  /** Two cells never certify the same block. */
  ghost predicate Unambiguous(L: nat, lv: Listing)
    requires L > 0 && InRegion(L, lv)
  {
    forall c, d, m :: c in lv && d in lv && lv[c] <= m < L && lv[d] <= m && SameBlock(L, c, d, m) ==> c == d
  }

  ghost predicate Certifies(L: nat, lv: Listing, c: nat, m: nat, d: nat)
    requires m < L
  {
    d in lv && SameBlock(L, c, d, m) && lv[d] <= m
  }

  /** Every wholly free block holds a cell that certifies it. */
  ghost predicate Complete(L: nat, lv: Listing)
    requires L > 0
  {
    forall c: nat, m: nat :: m < L && c < RegionCells(L) && BlockFree(L, lv, c, m) ==>
      exists d :: Certifies(L, lv, c, m, d)
  }

  ghost predicate Inv(L: nat, lv: Listing)
  {
    L > 0 && InRegion(L, lv) && Certified(L, lv) && Unambiguous(L, lv) && Complete(L, lv)
  }

  ghost predicate ListedInBlock(L: nat, lv: Listing, c: nat, l: nat, d: nat)
    requires l < L
  {
    d in lv && lv[d] == l && SameBlock(L, c, d, l)
  }

  /** What bit `(l, block of c)` of `_freeBlocks` records: a cell of the block is listed at exactly level `l`. */
  ghost predicate Marked(L: nat, lv: Listing, c: nat, l: nat)
    requires l < L
  {
    exists d :: ListedInBlock(L, lv, c, l, d)
  }

  /** For the buddy of a block that is not wholly free, the mark says exactly whether the buddy is wholly free. */
  lemma MarkedIffFree(L: nat, lv: Listing, c: nat, b: nat, l: nat)
    requires Inv(L, lv) && 0 < l < L
    requires c < RegionCells(L) && b < RegionCells(L)
    requires SameBlock(L, c, b, l - 1) && c !in lv
    ensures Marked(L, lv, b, l) <==> BlockFree(L, lv, b, l)
  {
    if Marked(L, lv, b, l) {
      var d :| ListedInBlock(L, lv, b, l, d);
      assert BlockFree(L, lv, b, l);
    }
    if BlockFree(L, lv, b, l) {
      var d :| Certifies(L, lv, b, l, d);
      if lv[d] < l {
        SameBlockUp(L, b, d, l, l - 1);
        SameBlockUp(L, c, d, l - 1, lv[d]);
        assert false;
      }
      assert ListedInBlock(L, lv, b, l, d);
    }
  }

  /**
   Freeing `c` and listing it at the highest level whose block becomes wholly free keeps the listing
   in order.
   */
  lemma FreeCell(L: nat, lv: Listing, c: nat, l: nat)
    requires Inv(L, lv) && l < L && c < RegionCells(L) && c !in lv
    requires BlockFree(L, lv[c := l], c, l)
    requires l > 0 ==> !BlockFree(L, lv[c := l], c, l - 1)
    ensures Inv(L, lv[c := l])
  {
    FreeCellUnambiguous(L, lv, c, l);
    FreeCellComplete(L, lv, c, l);
  }

  lemma FreeCellUnambiguous(L: nat, lv: Listing, c: nat, l: nat)
    requires L > 0 && InRegion(L, lv) && Certified(L, lv) && Unambiguous(L, lv)
    requires l < L && c < RegionCells(L) && c !in lv
    ensures Unambiguous(L, lv[c := l])
  {
    var lv' := lv[c := l];
    forall d, m | d in lv && l <= m < L && lv[d] <= m
      ensures !SameBlock(L, c, d, m) && !SameBlock(L, d, c, m)
    {
      if SameBlock(L, c, d, m) {
        SameBlockUp(L, c, d, m, lv[d]);
      }
    }
    forall d, e, m | d in lv' && e in lv' && lv'[d] <= m < L && lv'[e] <= m && SameBlock(L, d, e, m)
      ensures d == e
    {
      if d != c && e != c {
        assert d in lv && e in lv;
      }
    }
  }

  lemma FreeCellComplete(L: nat, lv: Listing, c: nat, l: nat)
    requires Inv(L, lv) && l < L && c < RegionCells(L) && c !in lv
    requires l > 0 ==> !BlockFree(L, lv[c := l], c, l - 1)
    ensures Complete(L, lv[c := l])
  {
    var lv' := lv[c := l];
    forall a: nat, m: nat | m < L && a < RegionCells(L) && BlockFree(L, lv', a, m)
      ensures exists d :: Certifies(L, lv', a, m, d)
    {
      if SameBlock(L, a, c, m) {
        if m < l {
          EnclosingNotFree(L, lv', c, l - 1, a, m);
        }
        assert Certifies(L, lv', a, m, c);
      } else {
        assert BlockFree(L, lv, a, m);
        var d :| Certifies(L, lv, a, m, d);
        assert Certifies(L, lv', a, m, d);
      }
    }
  }

  lemma EnclosingNotFree(L: nat, lv: Listing, c: nat, l: nat, a: nat, m: nat)
    requires m <= l < L && SameBlock(L, a, c, m)
    requires !BlockFree(L, lv, c, l)
    ensures !BlockFree(L, lv, a, m)
  {
    var x: nat :| x < RegionCells(L) && SameBlock(L, c, x, l) && x !in lv;
    SameBlockUp(L, c, x, l, m);
    assert SameBlock(L, a, x, m);
  }

  /** What is left of the listing when the block of level `bl` around `c` is taken. */
  ghost function Take(L: nat, lv: Listing, c: nat, bl: nat): Listing
    requires bl < L
  {
    map d | d in lv && !SameBlock(L, c, d, bl) :: lv[d]
  }

  /** Cells listed highest certify the largest free blocks: no block above them is wholly free. */
  lemma TopIsLargest(L: nat, lv: Listing, top: nat, a: nat, m: nat)
    requires Inv(L, lv) && m < L && a < RegionCells(L)
    requires forall d :: d in lv ==> top <= lv[d]
    requires BlockFree(L, lv, a, m)
    ensures top <= m
  {
    var d :| Certifies(L, lv, a, m, d);
  }

  /** A listed cell whose certified block meets the taken block lies in the taken block itself. */
  lemma TakenTogether(L: nat, lv: Listing, c: nat, bl: nat, d: nat, x: nat)
    requires L > 0 && InRegion(L, lv) && Unambiguous(L, lv)
    requires c in lv && d in lv && lv[c] <= bl < L && lv[c] <= lv[d]
    requires SameBlock(L, c, x, bl) && SameBlock(L, d, x, lv[d])
    ensures SameBlock(L, c, d, bl)
  {
    if bl <= lv[d] {
      SameBlockUp(L, d, x, lv[d], bl);
    } else {
      SameBlockUp(L, c, x, bl, lv[d]);
      assert SameBlock(L, c, d, lv[d]);
    }
  }

  /** Taking a block around a cell listed highest keeps the rest in order. */
  lemma TakeBlock(L: nat, lv: Listing, c: nat, bl: nat)
    requires Inv(L, lv) && c in lv && lv[c] <= bl < L
    requires forall d :: d in lv ==> lv[c] <= lv[d]
    ensures Inv(L, Take(L, lv, c, bl))
  {
    var lv' := Take(L, lv, c, bl);
    forall d, x: nat | d in lv' && x < RegionCells(L) && SameBlock(L, d, x, lv'[d])
      ensures x in lv'
    {
      if SameBlock(L, c, x, bl) {
        TakenTogether(L, lv, c, bl, d, x);
      }
    }
    forall a: nat, m: nat | m < L && a < RegionCells(L) && BlockFree(L, lv', a, m)
      ensures exists d :: Certifies(L, lv', a, m, d)
    {
      assert BlockFree(L, lv, a, m);
      var d :| Certifies(L, lv, a, m, d);
      assert d in lv' by {
        assert SameBlock(L, a, d, m);
      }
      assert Certifies(L, lv', a, m, d);
    }
  }

  /** Marks outside the taken block are those of the listing before, and above it only the popped cell's goes. */
  lemma MarksAfterTake(L: nat, lv: Listing, c: nat, bl: nat, b: nat, l: nat)
    requires Inv(L, lv) && c in lv && lv[c] <= bl < L
    requires forall d :: d in lv ==> lv[c] <= lv[d]
    requires l < L && b < RegionCells(L)
    ensures Marked(L, Take(L, lv, c, bl), b, l) <==>
      Marked(L, lv, b, l) && !(l >= bl && SameBlock(L, c, b, bl)) && !(l == lv[c] && SameBlock(L, c, b, l))
  {
    if Marked(L, Take(L, lv, c, bl), b, l) {
      MarkKept(L, lv, c, bl, b, l);
    }
    if Marked(L, lv, b, l) && !(l >= bl && SameBlock(L, c, b, bl)) && !(l == lv[c] && SameBlock(L, c, b, l)) {
      var d :| ListedInBlock(L, lv, b, l, d);
      if SameBlock(L, c, d, bl) {
        MarkInTaken(L, lv, c, bl, b, l, d);
      }
      assert ListedInBlock(L, Take(L, lv, c, bl), b, l, d);
    }
  }

  lemma MarkKept(L: nat, lv: Listing, c: nat, bl: nat, b: nat, l: nat)
    requires L > 0 && InRegion(L, lv) && Unambiguous(L, lv)
    requires c in lv && lv[c] <= bl < L && l < L
    requires Marked(L, Take(L, lv, c, bl), b, l)
    ensures Marked(L, lv, b, l) && !(l >= bl && SameBlock(L, c, b, bl)) && !(l == lv[c] && SameBlock(L, c, b, l))
  {
    var d :| ListedInBlock(L, Take(L, lv, c, bl), b, l, d);
    assert ListedInBlock(L, lv, b, l, d);
    if l >= bl && SameBlock(L, c, b, bl) {
      SameBlockUp(L, b, d, l, bl);
    }
    if l == lv[c] && SameBlock(L, c, b, l) {
      OneMark(L, lv, c, d, l);
    }
  }

  lemma OneMark(L: nat, lv: Listing, c: nat, d: nat, l: nat)
    requires L > 0 && InRegion(L, lv) && Unambiguous(L, lv)
    requires c in lv && d in lv && l < L && lv[c] == lv[d] == l && SameBlock(L, c, d, l)
    ensures c == d
  {
  }

  lemma MarkInTaken(L: nat, lv: Listing, c: nat, bl: nat, b: nat, l: nat, d: nat)
    requires L > 0 && InRegion(L, lv) && Unambiguous(L, lv)
    requires c in lv && lv[c] <= bl < L
    requires forall d :: d in lv ==> lv[c] <= lv[d]
    requires l < L && b < RegionCells(L)
    requires ListedInBlock(L, lv, b, l, d) && SameBlock(L, c, d, bl)
    ensures (l >= bl && SameBlock(L, c, b, bl)) || (l == lv[c] && SameBlock(L, c, b, l))
  {
    if l >= bl {
      SameBlockUp(L, b, d, l, bl);
    } else {
      SameBlockUp(L, c, d, bl, l);
    }
  }

  /** How the constructor lists the cells of an empty region: each at the highest level it is aligned to. */
  ghost function HighestLevel(L: nat, c: nat, l: nat): nat
    requires l < L
    decreases l
  {
    if l > 0 && AlignLeft(L, c, l - 1) == c then HighestLevel(L, c, l - 1) else l
  }

  predicate Aligned(L: nat, c: nat, m: nat)
    requires m < L
  {
    AlignLeft(L, c, m) == c
  }

  lemma {:induction false} AlignedBelow(L: nat, c: nat, m: nat, l: nat)
    requires m <= l < L && Aligned(L, c, m)
    ensures Aligned(L, c, l)
    decreases l
  {
    if m < l {
      AlignedBelow(L, c, m, l - 1);
      AlignedHalf(L, c, l);
    }
  }

  /** A cell aligned to level `l` is aligned to the level above exactly when its block is a left half. */
  lemma AlignedHalf(L: nat, c: nat, l: nat)
    requires 0 < l < L
    ensures Aligned(L, c, l - 1) <==> Aligned(L, c, l) && InLevel(L, c, l) % 2 == 0
  {
    var j, k := InLevel(L, c, l), L - 1 - l;
    ShlShl(j / 2, 1, k);
    assert Shl(j / 2, 1) == 2 * (j / 2);
    ShlMono(2 * (j / 2), j, k);
    ShlShrBelow(c, k);
    Parent(L, c, l - 1);
  }

  lemma {:induction false} HighestIsHighest(L: nat, c: nat, l: nat)
    requires l < L && Aligned(L, c, l)
    ensures HighestLevel(L, c, l) <= l
    ensures forall m :: 0 <= m <= l ==> (HighestLevel(L, c, l) <= m <==> Aligned(L, c, m))
  {
    if l > 0 && Aligned(L, c, l - 1) {
      HighestIsHighest(L, c, l - 1);
    } else {
      forall m | 0 <= m < l
        ensures !Aligned(L, c, m)
      {
        if Aligned(L, c, m) {
          AlignedBelow(L, c, m, l - 1);
        }
      }
    }
  }

  /** The listing of an empty region. */
  ghost function InitialListing(L: nat): Listing
    requires L > 0
  {
    map c | c in Interval(0, RegionCells(L)) :: HighestLevel(L, c, L - 1)
  }

  lemma InitialLevel(L: nat, c: nat, m: nat)
    requires m < L && c < RegionCells(L)
    ensures c in InitialListing(L) && InitialListing(L)[c] < L
    ensures InitialListing(L)[c] <= m <==> Aligned(L, c, m)
  {
    HighestIsHighest(L, c, L - 1);
  }

  lemma AlignedUnique(L: nat, c: nat, d: nat, m: nat)
    requires m < L && Aligned(L, c, m) && Aligned(L, d, m) && SameBlock(L, c, d, m)
    ensures c == d
  {
  }

  lemma InitialListingInv(L: nat)
    requires L > 0
    ensures Inv(L, InitialListing(L))
  {
    var lv := InitialListing(L);
    forall c | c in lv
      ensures c < RegionCells(L) && lv[c] < L
    {
      InitialLevel(L, c, L - 1);
    }
    forall c, d, m | c in lv && d in lv && lv[c] <= m < L && lv[d] <= m && SameBlock(L, c, d, m)
      ensures c == d
    {
      InitialLevel(L, c, m);
      InitialLevel(L, d, m);
      AlignedUnique(L, c, d, m);
    }
    forall c: nat, m: nat | m < L && c < RegionCells(L) && BlockFree(L, lv, c, m)
      ensures exists d :: Certifies(L, lv, c, m, d)
    {
      var a := AlignLeft(L, c, m);
      AlignLeftIsBlock(L, c, m);
      InitialLevel(L, a, m);
      assert Certifies(L, lv, c, m, a);
    }
  }

  /** In an empty region the marked blocks are the right halves: the pattern 0x55 of the constructor. */
  lemma InitialMarks(L: nat, c: nat, l: nat)
    requires 0 < l < L && c < RegionCells(L)
    ensures Marked(L, InitialListing(L), c, l) <==> BlockIndex(L, c, l) % 2 == 0
  {
    InitialMarkIsRight(L, c, l);
    Parity(Pow2(l - 1), InLevel(L, c, l));
  }

  lemma InitialMarkIsRight(L: nat, c: nat, l: nat)
    requires 0 < l < L && c < RegionCells(L)
    ensures Marked(L, InitialListing(L), c, l) <==> InLevel(L, c, l) % 2 == 1
  {
    var a := AlignLeft(L, c, l);
    AlignLeftIsBlock(L, c, l);
    InitialLeader(L, c, a, l);
    LeaderIsRight(L, a, l);
  }

  lemma Parity(p: nat, j: nat)
    requires p >= 1
    ensures (2 * p - 1 + j) % 2 == 0 <==> j % 2 == 1
  {
  }

  lemma LeaderIsRight(L: nat, a: nat, l: nat)
    requires 0 < l && IsBlock(L, a, l)
    ensures a in InitialListing(L) && (InitialListing(L)[a] == l <==> InLevel(L, a, l) % 2 == 1)
  {
    InitialLevel(L, a, l);
    InitialLevel(L, a, l - 1);
    AlignedHalf(L, a, l);
  }

  lemma InitialLeader(L: nat, c: nat, a: nat, l: nat)
    requires l < L && c < RegionCells(L) && IsBlock(L, a, l) && SameBlock(L, c, a, l)
    ensures Marked(L, InitialListing(L), c, l) <==> a in InitialListing(L) && InitialListing(L)[a] == l
  {
    var lv := InitialListing(L);
    InitialLevel(L, a, l);
    if Marked(L, lv, c, l) {
      var d :| ListedInBlock(L, lv, c, l, d);
      InitialLevel(L, d, l);
      AlignedUnique(L, a, d, l);
    }
    if lv[a] == l {
      assert ListedInBlock(L, lv, c, l, a);
    }
  }

  /** The marks after listing a freed cell. */
  lemma MarksAfterFree(L: nat, lv: Listing, c: nat, l: nat, b: nat, m: nat)
    requires c !in lv && l < L && m < L
    ensures Marked(L, lv[c := l], b, m) <==> Marked(L, lv, b, m) || (m == l && SameBlock(L, c, b, l))
  {
    if Marked(L, lv, b, m) {
      var d :| ListedInBlock(L, lv, b, m, d);
      assert ListedInBlock(L, lv[c := l], b, m, d);
    }
    if m == l && SameBlock(L, c, b, l) {
      assert ListedInBlock(L, lv[c := l], b, m, c);
    }
    if Marked(L, lv[c := l], b, m) {
      var d :| ListedInBlock(L, lv[c := l], b, m, d);
      assert d != c ==> ListedInBlock(L, lv, b, m, d);
    }
  }
}
