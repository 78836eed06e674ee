/**
 Where the blocks of one buddy region lie.  A region has `L` levels; at level `l` it is cut into
 `2^l` blocks, and at level `L - 1` each block is one smallest cell.  Positions are counted in
 smallest cells from the start of the region.
 */
module BuddyGeometry {
  import opened Powers

  predicate Between(lo: nat, hi: nat, c: nat) {
    lo <= c < hi
  }

  function Interval(lo: nat, hi: nat): (s: set<nat>)
    ensures forall c: nat :: c in s <==> lo <= c < hi
  {
    set c: nat | c < hi && Between(lo, hi, c)
  }

  /** Number of cells of one block of level `l`. */
  function Span(L: nat, l: nat): (s: nat)
    requires l < L
    ensures s >= 1
  {
    Pow2(L - 1 - l)
  }

  /** Number of cells of a region. */
  function RegionCells(L: nat): (n: nat)
    requires L > 0
    ensures n >= 1
  {
    Pow2(L - 1)
  }

  /** `index_in_level`: the position within its level of the block of level `l` that holds cell `c`. */
  function InLevel(L: nat, c: nat, l: nat): nat
    requires l < L
  {
    Shr(c, L - 1 - l)
  }

  predicate SameBlock(L: nat, c: nat, d: nat, l: nat)
    requires l < L
  {
    InLevel(L, c, l) == InLevel(L, d, l)
  }

  /** `align_left`: the leftmost cell of the block of level `l` that holds `c`. */
  function AlignLeft(L: nat, c: nat, l: nat): nat
    requires l < L
  {
    Shl(InLevel(L, c, l), L - 1 - l)
  }

  /** `a` is the leftmost cell of a block of level `l` of the region. */
  predicate IsBlock(L: nat, a: nat, l: nat) {
    l < L && a < RegionCells(L) && AlignLeft(L, a, l) == a
  }

  /** The cells of the block of level `l` that starts at `a`. */
  function Cells(L: nat, a: nat, l: nat): set<nat>
    requires l < L
  {
    Interval(a, a + Span(L, l))
  }

  lemma LevelZero(L: nat, c: nat)
    requires L > 0 && c < RegionCells(L)
    ensures InLevel(L, c, 0) == 0
  {
    ShrRange(c, L - 1, 0);
    ShlZero(L - 1);
  }

  lemma {:induction false} ShlZero(k: nat)
    ensures Shl(0, k) == 0
  {
    if k > 0 {
      ShlZero(k - 1);
    }
  }

  lemma LevelLast(L: nat, c: nat)
    requires L > 0
    ensures InLevel(L, c, L - 1) == c
  {
  }

  lemma Parent(L: nat, c: nat, l: nat)
    requires l + 1 < L
    ensures InLevel(L, c, l) == InLevel(L, c, l + 1) / 2
  {
  }

  /** Cells that share a block share every enclosing block. */
  lemma {:induction false} SameBlockUp(L: nat, c: nat, d: nat, l: nat, m: nat)
    requires m <= l < L
    requires SameBlock(L, c, d, l)
    ensures SameBlock(L, c, d, m)
    decreases l
  {
    if m < l {
      Parent(L, c, l - 1);
      Parent(L, d, l - 1);
      SameBlockUp(L, c, d, l - 1, m);
    }
  }

  /** Level `l` has `2^l` blocks. */
  lemma {:induction false} InLevelBound(L: nat, c: nat, l: nat)
    requires l < L && c < RegionCells(L)
    ensures InLevel(L, c, l) < Pow2(l)
    decreases l
  {
    if l == 0 {
      LevelZero(L, c);
    } else {
      InLevelBound(L, c, l - 1);
      Parent(L, c, l - 1);
    }
  }

  /** The block of level `l` that starts at `a` holds exactly the cells that share it with `a`. */
  lemma BlockCells(L: nat, a: nat, l: nat, c: nat)
    requires IsBlock(L, a, l)
    ensures c in Cells(L, a, l) <==> SameBlock(L, a, c, l)
  {
    ShrRange(c, L - 1 - l, InLevel(L, a, l));
  }

  lemma AlignLeftIsBlock(L: nat, c: nat, l: nat)
    requires l < L && c < RegionCells(L)
    ensures IsBlock(L, AlignLeft(L, c, l), l)
    ensures SameBlock(L, c, AlignLeft(L, c, l), l)
    ensures c in Cells(L, AlignLeft(L, c, l), l)
  {
    ShrShl(InLevel(L, c, l), L - 1 - l);
    ShlShrBelow(c, L - 1 - l);
  }

  /** Blocks stay inside the region. */
  lemma BlockInside(L: nat, a: nat, l: nat)
    requires IsBlock(L, a, l)
    ensures a + Span(L, l) <= RegionCells(L)
  {
    InLevelBound(L, a, l);
    BlockFitsRegion(L, l, InLevel(L, a, l));
  }

  lemma BlockFitsRegion(L: nat, l: nat, j: nat)
    requires l < L && j < Pow2(l)
    ensures Shl(j, L - 1 - l) + Span(L, l) <= RegionCells(L)
  {
    ShlMono(j, Pow2(l), L - 1 - l);
    Pow2Add(l, L - 1 - l);
  }

  /** The `j`-th block of level `l`. */
  lemma BlockAt(L: nat, l: nat, j: nat)
    requires l < L
    ensures InLevel(L, Shl(j, L - 1 - l), l) == j
    ensures j < Pow2(l) ==> IsBlock(L, Shl(j, L - 1 - l), l)
  {
    ShrShl(j, L - 1 - l);
    if j < Pow2(l) {
      BlockFitsRegion(L, l, j);
    }
  }

  /** `block_index`: blocks numbered level by level from the top. */
  function BlockIndex(L: nat, c: nat, l: nat): nat
    requires l < L
  {
    Pow2(l) - 1 + InLevel(L, c, l)
  }

  /** `buddy_index`: right children have even numbers. */
  function BuddyIndex(L: nat, c: nat, l: nat): nat
    requires 0 < l < L
  {
    var i := BlockIndex(L, c, l);
    if i % 2 == 0 then i - 1 else i + 1
  }

  lemma BlockIndexBound(L: nat, c: nat, l: nat)
    requires l < L && c < RegionCells(L)
    ensures Pow2(l) - 1 <= BlockIndex(L, c, l) < Pow2(l + 1) - 1
    ensures BlockIndex(L, c, l) < Pow2(L)
  {
    InLevelBound(L, c, l);
    Pow2Mono(l + 1, L);
  }

  /** Different blocks have different numbers. */
  lemma BlockIndexInjective(L: nat, c: nat, l: nat, d: nat, m: nat)
    requires l < L && m < L && c < RegionCells(L) && d < RegionCells(L)
    ensures BlockIndex(L, c, l) == BlockIndex(L, d, m) <==> l == m && SameBlock(L, c, d, l)
  {
    BlockIndexBound(L, c, l);
    BlockIndexBound(L, d, m);
    if l < m {
      Pow2Mono(l + 1, m);
    } else if m < l {
      Pow2Mono(m + 1, l);
    }
  }

  /** `get_buddy`: the leftmost cell of the buddy of the block of level `l` that holds `c`. */
  function BuddyCell(L: nat, c: nat, l: nat): nat
    requires 0 < l < L
  {
    var j := InLevel(L, c, l);
    Shl(if j % 2 == 1 then j - 1 else j + 1, L - 1 - l)
  }

  /** A block and its buddy are the two halves of the block above. */
  lemma Buddy(L: nat, c: nat, l: nat)
    requires 0 < l < L && c < RegionCells(L)
    ensures var b := BuddyCell(L, c, l);
      && IsBlock(L, b, l)
      && BlockIndex(L, b, l) == BuddyIndex(L, c, l)
      && SameBlock(L, c, b, l - 1) && !SameBlock(L, c, b, l)
      && forall d: nat :: SameBlock(L, c, d, l - 1) <==> SameBlock(L, c, d, l) || SameBlock(L, b, d, l)
  {
    var j := InLevel(L, c, l);
    InLevelBound(L, c, l);
    BlockAt(L, l, if j % 2 == 1 then j - 1 else j + 1);
    Parent(L, c, l - 1);
    Parent(L, BuddyCell(L, c, l), l - 1);
    forall d: nat
      ensures SameBlock(L, c, d, l - 1) <==> SameBlock(L, c, d, l) || SameBlock(L, BuddyCell(L, c, l), d, l)
    {
      Parent(L, d, l - 1);
    }
  }

  /** The blocks of a lower level `i` inside one block of level `l` have consecutive numbers. */
  lemma BlocksBelow(L: nat, c: nat, l: nat, i: nat, d: nat)
    requires l <= i < L
    ensures SameBlock(L, c, d, l) <==>
      Shl(InLevel(L, c, l), i - l) <= InLevel(L, d, i) < Shl(InLevel(L, c, l), i - l) + Pow2(i - l)
  {
    ShrShr(d, L - 1 - i, i - l);
    ShrRange(InLevel(L, d, i), i - l, InLevel(L, c, l));
  }

  lemma FirstBelow(L: nat, a: nat, l: nat, i: nat)
    requires IsBlock(L, a, l) && l <= i < L
    ensures InLevel(L, a, i) == Shl(InLevel(L, a, l), i - l)
    ensures IsBlock(L, a, i)
  {
    var j := InLevel(L, a, l);
    ShlShl(j, i - l, L - 1 - i);
    ShrShl(Shl(j, i - l), L - 1 - i);
  }
}
