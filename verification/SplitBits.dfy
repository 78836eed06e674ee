/**
 The size map that holds one split bit for each block above the smallest (buddy_allocator.cpp).  A
 region is cut into blocks, and a block is marked split when it lies strictly above one of them; so
 the bits tell the level of every block from its start.
 */
module SplitBits {
  import opened Powers
  import opened BuddyGeometry
  import opened BlockSets

  /** Some live block lies strictly below the block of level `l` around `c`. */
  ghost predicate BelowOf(L: nat, live: Blocks, c: nat, l: nat, d: nat)
    requires l < L
  {
    d in live && live[d] > l && SameBlock(L, c, d, l)
  }

  ghost predicate LiveBelow(L: nat, live: Blocks, c: nat, l: nat)
    requires l < L
  {
    exists d :: BelowOf(L, live, c, l, d)
  }

  ghost predicate SplitAt(L: nat, split: seq<bool>, live: Blocks, c: nat, l: nat)
    requires l < L
  {
    BlockIndex(L, c, l) < |split| && (split[BlockIndex(L, c, l)] <==> LiveBelow(L, live, c, l))
  }

  /** The split bits are right, except perhaps above level `k` on the way to `a`. */
  ghost predicate SplitBut(L: nat, split: seq<bool>, live: Blocks, a: nat, k: nat)
    requires L > 0
  {
    |split| == Pow2(L - 1) &&
    forall c: nat, l: nat {:trigger SplitAt(L, split, live, c, l)} ::
      c < RegionCells(L) && l + 1 < L && !(l < k && SameBlock(L, c, a, l)) ==> SplitAt(L, split, live, c, l)
  }

  /** A node is marked split exactly when it lies strictly above a live block. */
  ghost predicate SplitIs(L: nat, split: seq<bool>, live: Blocks)
    requires L > 0
  {
    SplitBut(L, split, live, 0, 0)
  }

  lemma SplitUpdate(L: nat, split: seq<bool>, c: nat, l: nat, b: nat, m: nat, v: bool)
    requires l + 1 < L && m + 1 < L && |split| == Pow2(L - 1) && c < RegionCells(L) && b < RegionCells(L)
    ensures BlockIndex(L, b, m) < |split| && BlockIndex(L, c, l) < |split|
    ensures split[BlockIndex(L, b, m) := v][BlockIndex(L, c, l)] ==
      if l == m && SameBlock(L, c, b, l) then v else split[BlockIndex(L, c, l)]
  {
    BlockIndexBound(L, c, l);
    BlockIndexBound(L, b, m);
    Pow2Mono(l + 1, L - 1);
    Pow2Mono(m + 1, L - 1);
    BlockIndexInjective(L, c, l, b, m);
  }

  /** Only the nodes above the new live block change their split state. */
  lemma BelowAfter(L: nat, live: Blocks, a: nat, l: nat, c: nat, m: nat)
    requires L > 0 && a !in live && l < L && m < L
    ensures LiveBelow(L, live[a := l], c, m) <==> LiveBelow(L, live, c, m) || (m < l && SameBlock(L, c, a, m))
  {
    if LiveBelow(L, live[a := l], c, m) {
      var d :| BelowOf(L, live[a := l], c, m, d);
      assert d != a ==> BelowOf(L, live, c, m, d);
    }
    if LiveBelow(L, live, c, m) {
      var d :| BelowOf(L, live, c, m, d);
      assert BelowOf(L, live[a := l], c, m, d);
    }
    if m < l && SameBlock(L, c, a, m) {
      assert BelowOf(L, live[a := l], c, m, a);
    }
  }

  /** Outside the way to `a`, split bits that are right without the block of `a` are right with it, and conversely. */
  lemma SplitWith(L: nat, split: seq<bool>, live: Blocks, a: nat, l: nat)
    requires L > 0 && a !in live && l < L && SplitIs(L, split, live)
    ensures SplitBut(L, split, live[a := l], a, l)
  {
    var live' := live[a := l];
    forall c: nat, m: nat {:trigger SplitAt(L, split, live', c, m)} |
      c < RegionCells(L) && m + 1 < L && !(m < l && SameBlock(L, c, a, m))
      ensures SplitAt(L, split, live', c, m)
    {
      assert SplitAt(L, split, live, c, m);
      BelowAfter(L, live, a, l, c, m);
    }
  }

  lemma SplitWithout(L: nat, split: seq<bool>, live: Blocks, a: nat, l: nat)
    requires L > 0 && a !in live && l < L && SplitIs(L, split, live[a := l])
    ensures SplitBut(L, split, live, a, l)
  {
    forall c: nat, m: nat {:trigger SplitAt(L, split, live, c, m)} |
      c < RegionCells(L) && m + 1 < L && !(m < l && SameBlock(L, c, a, m))
      ensures SplitAt(L, split, live, c, m)
    {
      assert SplitAt(L, split, live[a := l], c, m);
      BelowAfter(L, live, a, l, c, m);
    }
  }

  /** The split bit of the node above `a` at level `k - 1`. */
  lemma SplitParent(L: nat, split: seq<bool>, live: Blocks, a: nat, k: nat, v: bool)
    requires 0 < k < L && a < RegionCells(L) && SplitBut(L, split, live, a, k)
    requires v <==> LiveBelow(L, live, a, k - 1)
    ensures BlockIndex(L, a, k - 1) < |split|
    ensures SplitBut(L, split[BlockIndex(L, a, k - 1) := v], live, a, k - 1)
  {
    SplitUpdate(L, split, a, k - 1, a, k - 1, v);
    var split' := split[BlockIndex(L, a, k - 1) := v];
    forall c: nat, m: nat {:trigger SplitAt(L, split', live, c, m)} |
      c < RegionCells(L) && m + 1 < L && !(m < k - 1 && SameBlock(L, c, a, m))
      ensures SplitAt(L, split', live, c, m)
    {
      SplitUpdate(L, split, c, m, a, k - 1, v);
      if m == k - 1 && SameBlock(L, c, a, m) {
        BelowSame(L, live, a, c, m);
      } else {
        assert SplitAt(L, split, live, c, m);
      }
    }
  }

  lemma BelowSame(L: nat, live: Blocks, a: nat, c: nat, m: nat)
    requires m < L && SameBlock(L, c, a, m)
    ensures LiveBelow(L, live, a, m) <==> LiveBelow(L, live, c, m)
  {
    if LiveBelow(L, live, a, m) {
      var d :| BelowOf(L, live, a, m, d);
      assert BelowOf(L, live, c, m, d);
    }
    if LiveBelow(L, live, c, m) {
      var d :| BelowOf(L, live, c, m, d);
      assert BelowOf(L, live, a, m, d);
    }
  }

  /** Above a live block no bit below its parent's level is set, and the parent's is: the level can be read off. */
  lemma LevelFromSplit(L: nat, live: Blocks, a: nat, m: nat)
    requires LiveSet(L, live) && a in live && m < L
    ensures LiveBelow(L, live, a, m) <==> m < live[a]
  {
    if m < live[a] {
      assert BelowOf(L, live, a, m, a);
    }
    if LiveBelow(L, live, a, m) {
      var d :| BelowOf(L, live, a, m, d);
      if live[a] <= m {
        SameBlockUp(L, a, d, m, live[a]);
        Separate(L, live, a, d);
      }
    }
  }
}
