/** Bitmaps with one bit for each block, and how the bits inside one block are cleared. */
module BlockBits {
  import opened Powers
  import opened BuddyGeometry

  /** The bitmap with the bits from `lo` up to `hi` cleared. */
  ghost function Cleared(bits: seq<bool>, lo: nat, hi: nat): seq<bool> {
    seq(|bits|, k requires 0 <= k < |bits| => bits[k] && !(lo <= k < hi))
  }

  /** `bits'` is `bits` with the blocks of levels `bl + 1` up to `i` inside the block around `c` cleared. */
  ghost predicate ClearedBelow(L: nat, bits: seq<bool>, bits': seq<bool>, c: nat, bl: nat, i: nat)
    requires L > 0 && bl < L
  {
    |bits'| == |bits| &&
    forall b: nat, m: nat :: b < RegionCells(L) && m < L && BlockIndex(L, b, m) < |bits| ==>
      (bits'[BlockIndex(L, b, m)] <==> bits[BlockIndex(L, b, m)] && !(bl < m < i && SameBlock(L, c, b, bl)))
  }

  /** One more level: the blocks below `a` are the run of indices the loop clears. */
  lemma ClearLevel(L: nat, bits: seq<bool>, bits': seq<bool>, a: nat, bl: nat, i: nat)
    requires L > 0 && bl < i < L && IsBlock(L, a, bl)
    requires ClearedBelow(L, bits, bits', a, bl, i)
    ensures ClearedBelow(L, bits, Cleared(bits', BlockIndex(L, a, i), BlockIndex(L, a, i) + Pow2(i - bl)), a, bl, i + 1)
  {
    var lo := BlockIndex(L, a, i);
    var bits'' := Cleared(bits', lo, lo + Pow2(i - bl));
    FirstBelow(L, a, bl, i);
    forall b: nat, m: nat | b < RegionCells(L) && m < L && BlockIndex(L, b, m) < |bits|
      ensures bits''[BlockIndex(L, b, m)] <==> bits[BlockIndex(L, b, m)] && !(bl < m < i + 1 && SameBlock(L, a, b, bl))
    {
      InRun(L, a, bl, i, b, m);
    }
  }

  lemma InRun(L: nat, a: nat, bl: nat, i: nat, b: nat, m: nat)
    requires L > 0 && bl < i < L && IsBlock(L, a, bl)
    requires b < RegionCells(L) && m < L
    ensures BlockIndex(L, a, i) <= BlockIndex(L, b, m) < BlockIndex(L, a, i) + Pow2(i - bl) <==>
      m == i && SameBlock(L, a, b, bl)
  {
    FirstBelow(L, a, bl, i);
    BlockIndexBound(L, b, m);
    BlockIndexBound(L, a, i);
    InLevelBound(L, a, bl);
    ShlMono(InLevel(L, a, bl), Pow2(bl), i - bl);
    Pow2Add(bl, i - bl);
    if m == i {
      BlocksBelow(L, a, bl, i, b);
    } else if m < i {
      Pow2Mono(m + 1, i);
    } else {
      Pow2Mono(i + 1, m);
    }
  }

  lemma RunInside(L: nat, a: nat, bl: nat, i: nat)
    requires L > 0 && bl < i < L && IsBlock(L, a, bl)
    ensures BlockIndex(L, a, i) + Pow2(i - bl) < Pow2(i + 1)
  {
    FirstBelow(L, a, bl, i);
    InLevelBound(L, a, bl);
    ShlMono(InLevel(L, a, bl), Pow2(bl), i - bl);
    Pow2Add(bl, i - bl);
  }
}
