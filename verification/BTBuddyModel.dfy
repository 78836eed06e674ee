/**
 The idea behind the binary-tree buddy.  Each node of the tree stands for a block and holds the
 height of the largest free block under it; the tree is a function of the set of live blocks alone.
 The height of a block of level `l` is `L - l`.
 */
module BTBuddyModel {
  import opened Powers
  import opened BuddyGeometry
  import opened BuddySpec
  import opened BlockSets

  /** The block of level `l` around `c` lies strictly inside the live block at `d`. */
  ghost predicate InsideOf(L: nat, live: Blocks, c: nat, l: nat, d: nat)
    requires AreBlocks(L, live)
  {
    d in live && live[d] < l && SameBlock(L, d, c, live[d])
  }

  ghost predicate Inside(L: nat, live: Blocks, c: nat, l: nat)
    requires AreBlocks(L, live)
  {
    exists d :: InsideOf(L, live, c, l, d)
  }

  function Max(a: nat, b: nat): nat {
    if a > b then a else b
  }

  /** What a node holds, given what its two children hold; `h` is the height of the children. */
  function Combine(left: nat, right: nat, h: nat): nat {
    if left == right && left == h then h + 1 else Max(left, right)
  }

  /** What the node of the block of level `l` at `a` holds. */
  ghost function Value(L: nat, live: Blocks, a: nat, l: nat): nat
    requires LiveSet(L, live) && l < L
    decreases L - l
  {
    if Inside(L, live, a, l) then L - l
    else if a in live && live[a] == l then 0
    else if l == L - 1 then 1
    else Combine(Value(L, live, a, l + 1), Value(L, live, a + Span(L, l + 1), l + 1), L - l - 1)
  }

  lemma HalvesNotInside(L: nat, live: Blocks, a: nat, l: nat)
    requires LiveSet(L, live) && IsBlock(L, a, l) && l + 1 < L
    requires !Inside(L, live, a, l) && !(a in live && live[a] == l)
    ensures !Inside(L, live, a, l + 1) && !Inside(L, live, a + Span(L, l + 1), l + 1)
  {
    var b := a + Span(L, l + 1);
    RightHalf(L, a, l);
    if Inside(L, live, a, l + 1) {
      var d: nat :| InsideOf(L, live, a, l + 1, d);
      InsideUp(L, live, a, b, l, d);
    }
    if Inside(L, live, b, l + 1) {
      var d: nat :| InsideOf(L, live, b, l + 1, d);
      InsideUp(L, live, a, b, l, d);
    }
  }

  lemma InsideUp(L: nat, live: Blocks, a: nat, b: nat, l: nat, d: nat)
    requires LiveSet(L, live) && IsBlock(L, a, l) && l + 1 < L && SameBlock(L, a, b, l)
    requires InsideOf(L, live, a, l + 1, d) || InsideOf(L, live, b, l + 1, d)
    ensures InsideOf(L, live, a, l, d) || (d == a && live[d] == l)
  {
    SameBlockUp(L, a, b, l, live[d]);
  }

  /** A block is wholly free exactly when its node holds its full height, provided it is not inside a live block. */
  lemma {:induction false} FullIffFree(L: nat, live: Blocks, free: set<nat>, a: nat, l: nat)
    requires LiveSet(L, live) && FreeCells(L, live, free) && IsBlock(L, a, l) && !Inside(L, live, a, l)
    ensures Value(L, live, a, l) <= L - l
    ensures Value(L, live, a, l) == L - l <==> WhollyFree(L, free, a, l)
    decreases L - l
  {
    if a in live && live[a] == l {
      assert SameBlock(L, a, a, l);
      assert Covers(L, live, a, a);
    } else if l == L - 1 {
      LeafFree(L, live, free, a);
    } else {
      var b := a + Span(L, l + 1);
      RightHalf(L, a, l);
      HalvesNotInside(L, live, a, l);
      FullIffFree(L, live, free, a, l + 1);
      FullIffFree(L, live, free, b, l + 1);
      WholeIffHalves(L, free, a, l);
    }
  }

  lemma LeafFree(L: nat, live: Blocks, free: set<nat>, a: nat)
    requires LiveSet(L, live) && FreeCells(L, live, free) && IsBlock(L, a, L - 1) && !Inside(L, live, a, L - 1)
    requires !(a in live && live[a] == L - 1)
    ensures WhollyFree(L, free, a, L - 1)
  {
    LevelLast(L, a);
    forall d: nat | d < RegionCells(L) && SameBlock(L, a, d, L - 1)
      ensures d in free
    {
      LevelLast(L, d);
      if Occupied(L, live, d) {
        var c :| Covers(L, live, c, d);
        CoversLeaf(L, live, c, a);
      }
    }
  }

  lemma CoversLeaf(L: nat, live: Blocks, c: nat, a: nat)
    requires LiveSet(L, live) && Covers(L, live, c, a)
    ensures InsideOf(L, live, a, L - 1, c) || (c == a && live[a] == L - 1)
  {
    LevelLast(L, a);
    LevelLast(L, c);
  }

  lemma WholeIffHalves(L: nat, free: set<nat>, a: nat, l: nat)
    requires IsBlock(L, a, l) && l + 1 < L
    ensures WhollyFree(L, free, a, l) <==>
      WhollyFree(L, free, a, l + 1) && WhollyFree(L, free, a + Span(L, l + 1), l + 1)
  {
    var b := a + Span(L, l + 1);
    RightHalf(L, a, l);
    if WhollyFree(L, free, a, l) {
      HalfFree(L, free, a, a, l);
      HalfFree(L, free, a, b, l);
    }
  }

  /** A wholly free block of level `m` starting at `b`, under the block of level `l` at `a`. */
  ghost predicate FreeUnder(L: nat, free: set<nat>, a: nat, l: nat, m: nat, b: nat)
    requires l < L && m < L
  {
    IsBlock(L, b, m) && SameBlock(L, a, b, l) && WhollyFree(L, free, b, m)
  }

  ghost predicate HasUnder(L: nat, free: set<nat>, a: nat, l: nat, m: nat)
    requires l < L && m < L
  {
    exists b :: FreeUnder(L, free, a, l, m, b)
  }

  /** Outside live blocks a node holds the height of the largest free aligned block under it. */
  lemma {:induction false} ValueIsLargest(L: nat, live: Blocks, free: set<nat>, a: nat, l: nat, m: nat)
    requires LiveSet(L, live) && FreeCells(L, live, free) && IsBlock(L, a, l) && !Inside(L, live, a, l)
    requires l <= m < L
    ensures Value(L, live, a, l) >= L - m <==> HasUnder(L, free, a, l, m)
    decreases L - l
  {
    FullIffFree(L, live, free, a, l);
    if l == m {
      SelfUnder(L, free, a, l);
    } else if a in live && live[a] == l {
      if HasUnder(L, free, a, l, m) {
        var b: nat :| FreeUnder(L, free, a, l, m, b);
        assert SameBlock(L, b, b, m);
        assert Covers(L, live, a, b);
      }
    } else {
      var y := a + Span(L, l + 1);
      RightHalf(L, a, l);
      HalvesNotInside(L, live, a, l);
      ValueIsLargest(L, live, free, a, l + 1, m);
      ValueIsLargest(L, live, free, y, l + 1, m);
      FullIffFree(L, live, free, a, l + 1);
      FullIffFree(L, live, free, y, l + 1);
      UnderHalves(L, free, a, l, m);
    }
  }

  lemma SelfUnder(L: nat, free: set<nat>, a: nat, l: nat)
    requires IsBlock(L, a, l)
    ensures WhollyFree(L, free, a, l) <==> HasUnder(L, free, a, l, l)
  {
    if WhollyFree(L, free, a, l) {
      assert FreeUnder(L, free, a, l, l, a);
    }
    if HasUnder(L, free, a, l, l) {
      var b: nat :| FreeUnder(L, free, a, l, l, b);
      assert b == a;
    }
  }

  lemma UnderHalves(L: nat, free: set<nat>, a: nat, l: nat, m: nat)
    requires IsBlock(L, a, l) && l + 1 <= m < L
    ensures HasUnder(L, free, a, l, m) <==>
      HasUnder(L, free, a, l + 1, m) || HasUnder(L, free, a + Span(L, l + 1), l + 1, m)
  {
    var y := a + Span(L, l + 1);
    RightHalf(L, a, l);
    if HasUnder(L, free, a, l, m) {
      var b: nat :| FreeUnder(L, free, a, l, m, b);
      assert FreeUnder(L, free, a, l + 1, m, b) || FreeUnder(L, free, y, l + 1, m, b);
    }
    if HasUnder(L, free, a, l + 1, m) {
      var b: nat :| FreeUnder(L, free, a, l + 1, m, b);
      assert FreeUnder(L, free, a, l, m, b);
    }
    if HasUnder(L, free, y, l + 1, m) {
      var b: nat :| FreeUnder(L, free, y, l + 1, m, b);
      assert FreeUnder(L, free, a, l, m, b);
    }
  }

  /** Nodes of blocks apart from the new live block keep their values. */
  lemma {:induction false} ValueElsewhere(L: nat, live: Blocks, a: nat, l: nat, b: nat, m: nat)
    requires LiveSet(L, live) && a !in live && IsBlock(L, a, l) && LiveSet(L, live[a := l])
    requires IsBlock(L, b, m) && !SameBlock(L, a, b, if l <= m then l else m)
    ensures Value(L, live[a := l], b, m) == Value(L, live, b, m)
    decreases L - m
  {
    var live' := live[a := l];
    InsideElsewhere(L, live, a, l, b, m);
    assert b != a;
    if m + 1 < L {
      var y := HalvesElsewhere(L, a, l, b, m);
      ValueElsewhere(L, live, a, l, b, m + 1);
      ValueElsewhere(L, live, a, l, y, m + 1);
    }
  }

  lemma HalvesElsewhere(L: nat, a: nat, l: nat, b: nat, m: nat) returns (y: nat)
    requires l < L && m + 1 < L && IsBlock(L, b, m) && !SameBlock(L, a, b, if l <= m then l else m)
    ensures y == b + Span(L, m + 1) && IsBlock(L, b, m + 1) && IsBlock(L, y, m + 1)
    ensures var k := if l <= m + 1 then l else m + 1; !SameBlock(L, a, b, k) && !SameBlock(L, a, y, k)
  {
    y := b + Span(L, m + 1);
    RightHalf(L, b, m);
    HalfElsewhere(L, a, l, b, m, b);
    HalfElsewhere(L, a, l, b, m, y);
  }

  lemma HalfElsewhere(L: nat, a: nat, l: nat, b: nat, m: nat, y: nat)
    requires l < L && m + 1 < L && SameBlock(L, b, y, m)
    requires !SameBlock(L, a, b, if l <= m then l else m)
    ensures !SameBlock(L, a, y, if l <= m + 1 then l else m + 1)
  {
    var k := if l <= m then l else m;
    var k' := if l <= m + 1 then l else m + 1;
    if SameBlock(L, a, y, k') {
      SameBlockUp(L, a, y, k', k);
      SameBlockUp(L, b, y, m, k);
    }
  }

  lemma InsideElsewhere(L: nat, live: Blocks, a: nat, l: nat, b: nat, m: nat)
    requires AreBlocks(L, live) && a !in live && IsBlock(L, a, l) && m < L
    requires l < m ==> !SameBlock(L, a, b, l)
    ensures Inside(L, live[a := l], b, m) <==> Inside(L, live, b, m)
  {
    var live' := live[a := l];
    if Inside(L, live', b, m) {
      var d :| InsideOf(L, live', b, m, d);
      assert InsideOf(L, live, b, m, d);
    }
    if Inside(L, live, b, m) {
      var d :| InsideOf(L, live, b, m, d);
      assert InsideOf(L, live', b, m, d);
    }
  }

  /** Nodes below the new live block held their full heights and still do. */
  lemma ValueWithin(L: nat, live: Blocks, free: set<nat>, a: nat, l: nat, b: nat, m: nat)
    requires LiveSet(L, live) && FreeCells(L, live, free) && IsBlock(L, a, l) && WhollyFree(L, free, a, l)
    requires a !in live && LiveSet(L, live[a := l])
    requires l < m && IsBlock(L, b, m) && SameBlock(L, a, b, l)
    ensures Value(L, live, b, m) == L - m == Value(L, live[a := l], b, m)
  {
    assert InsideOf(L, live[a := l], b, m, a);
    if !Inside(L, live, b, m) {
      WithinFree(L, free, a, l, b, m);
      FullIffFree(L, live, free, b, m);
    }
  }

  lemma WithinFree(L: nat, free: set<nat>, a: nat, l: nat, b: nat, m: nat)
    requires l <= m < L && SameBlock(L, a, b, l) && WhollyFree(L, free, a, l)
    ensures WhollyFree(L, free, b, m)
  {
    forall d: nat | d < RegionCells(L) && SameBlock(L, b, d, m)
      ensures d in free
    {
      SameBlockUp(L, b, d, m, l);
    }
  }

  /** The new live block's own node, before and after. */
  lemma ValueSelf(L: nat, live: Blocks, free: set<nat>, a: nat, l: nat)
    requires LiveSet(L, live) && FreeCells(L, live, free) && IsBlock(L, a, l) && WhollyFree(L, free, a, l)
    requires a !in live && LiveSet(L, live[a := l])
    ensures !Inside(L, live, a, l)
    ensures Value(L, live, a, l) == L - l && Value(L, live[a := l], a, l) == 0
  {
    assert SameBlock(L, a, a, l);
    if Inside(L, live, a, l) {
      var d :| InsideOf(L, live, a, l, d);
      assert Covers(L, live, d, a);
    }
    InsideElsewhere(L, live, a, l, a, l);
    FullIffFree(L, live, free, a, l);
  }

  /** The nodes above a wholly free block combine their children, before and after it becomes live. */
  lemma ValueAbove(L: nat, live: Blocks, free: set<nat>, a: nat, l: nat, b: nat, m: nat)
    requires LiveSet(L, live) && FreeCells(L, live, free) && IsBlock(L, a, l) && WhollyFree(L, free, a, l)
    requires a !in live && LiveSet(L, live[a := l])
    requires m < l && IsBlock(L, b, m) && SameBlock(L, a, b, m)
    ensures !Inside(L, live, b, m)
    ensures var y := b + Span(L, m + 1);
      && Value(L, live, b, m) == Combine(Value(L, live, b, m + 1), Value(L, live, y, m + 1), L - m - 1)
      && Value(L, live[a := l], b, m) ==
        Combine(Value(L, live[a := l], b, m + 1), Value(L, live[a := l], y, m + 1), L - m - 1)
  {
    if Inside(L, live, b, m) {
      var d :| InsideOf(L, live, b, m, d);
      AboveNotLive(L, live, free, a, l, b, m, d);
    }
    if b in live {
      AboveNotLive(L, live, free, a, l, b, m, b);
    }
    InsideElsewhere(L, live, a, l, b, m);
  }

  lemma AboveNotLive(L: nat, live: Blocks, free: set<nat>, a: nat, l: nat, b: nat, m: nat, d: nat)
    requires LiveSet(L, live) && FreeCells(L, live, free) && IsBlock(L, a, l) && WhollyFree(L, free, a, l)
    requires m < l && SameBlock(L, a, b, m) && d in live
    ensures !(live[d] <= m && SameBlock(L, d, b, live[d]))
  {
    if live[d] <= m && SameBlock(L, d, b, live[d]) {
      SameBlockUp(L, a, b, m, live[d]);
      FreeNotLive(L, live, free, a, l, d);
    }
  }

  // The tree

  /** The node of the block of level `l` around `c` holds its value. */
  ghost predicate NodeIs(L: nat, tree: seq<nat>, live: Blocks, c: nat, l: nat)
    requires LiveSet(L, live) && l < L
  {
    BlockIndex(L, c, l) < |tree| && tree[BlockIndex(L, c, l)] == Value(L, live, AlignLeft(L, c, l), l)
  }

  /** Every node holds its value, except perhaps those above level `k` on the way to `a`. */
  ghost predicate TreeBut(L: nat, tree: seq<nat>, live: Blocks, a: nat, k: nat)
    requires LiveSet(L, live)
  {
    |tree| == Pow2(L) &&
    forall c: nat, l: nat {:trigger NodeIs(L, tree, live, c, l)} ::
      c < RegionCells(L) && l < L && !(l < k && SameBlock(L, c, a, l)) ==> NodeIs(L, tree, live, c, l)
  }

  ghost predicate TreeIs(L: nat, tree: seq<nat>, live: Blocks)
    requires LiveSet(L, live)
  {
    TreeBut(L, tree, live, 0, 0)
  }

  lemma NodeUpdate(L: nat, tree: seq<nat>, c: nat, l: nat, b: nat, m: nat, v: nat)
    requires l < L && m < L && |tree| == Pow2(L) && c < RegionCells(L) && b < RegionCells(L)
    ensures BlockIndex(L, b, m) < |tree|
    ensures BlockIndex(L, c, l) < |tree| && BlockIndex(L, b, m) < |tree|
    ensures tree[BlockIndex(L, b, m) := v][BlockIndex(L, c, l)] ==
      if l == m && SameBlock(L, c, b, l) then v else tree[BlockIndex(L, c, l)]
  {
    BlockIndexBound(L, c, l);
    BlockIndexBound(L, b, m);
    BlockIndexInjective(L, c, l, b, m);
  }

  /** Zeroing the node of the block taken leaves only its ancestors to be recomputed. */
  lemma TakeNode(L: nat, tree: seq<nat>, live: Blocks, free: set<nat>, a: nat, l: nat)
    requires LiveSet(L, live) && FreeCells(L, live, free) && IsBlock(L, a, l) && WhollyFree(L, free, a, l)
    requires a !in live && LiveSet(L, live[a := l])
    requires TreeIs(L, tree, live)
    ensures BlockIndex(L, a, l) < |tree|
    ensures TreeBut(L, tree[BlockIndex(L, a, l) := 0], live[a := l], a, l)
  {
    NodeUpdate(L, tree, a, l, a, l, 0);
    var tree', live' := tree[BlockIndex(L, a, l) := 0], live[a := l];
    forall c: nat, m: nat {:trigger NodeIs(L, tree', live', c, m)} |
      c < RegionCells(L) && m < L && !(m < l && SameBlock(L, c, a, m))
      ensures NodeIs(L, tree', live', c, m)
    {
      assert NodeIs(L, tree, live, c, m);
      NodeUpdate(L, tree, c, m, a, l, 0);
      SameValue(L, live, free, a, l, c, m);
    }
  }

  /** Which values change when a wholly free block becomes live: its own and its ancestors'. */
  lemma SameValue(L: nat, live: Blocks, free: set<nat>, a: nat, l: nat, c: nat, m: nat)
    requires LiveSet(L, live) && FreeCells(L, live, free) && IsBlock(L, a, l) && WhollyFree(L, free, a, l)
    requires a !in live && LiveSet(L, live[a := l])
    requires c < RegionCells(L) && m < L && !(m < l && SameBlock(L, c, a, m))
    ensures var b := AlignLeft(L, c, m);
      if m == l && SameBlock(L, c, a, l)
      then b == a && Value(L, live[a := l], b, m) == 0 && Value(L, live, b, m) == L - l
      else Value(L, live[a := l], b, m) == Value(L, live, b, m)
  {
    var b := AlignLeft(L, c, m);
    AlignLeftIsBlock(L, c, m);
    if m == l && SameBlock(L, c, a, l) {
      ValueSelf(L, live, free, a, l);
    } else if SameBlock(L, a, b, if l <= m then l else m) {
      ValueWithin(L, live, free, a, l, b, m);
    } else {
      ValueElsewhere(L, live, a, l, b, m);
    }
  }

  /** Restoring the node of the block returned: the same facts read backwards. */
  lemma ReturnNode(L: nat, tree: seq<nat>, live: Blocks, free: set<nat>, a: nat, l: nat)
    requires LiveSet(L, live) && FreeCells(L, live, free) && IsBlock(L, a, l) && WhollyFree(L, free, a, l)
    requires a !in live && LiveSet(L, live[a := l])
    requires TreeIs(L, tree, live[a := l])
    ensures BlockIndex(L, a, l) < |tree|
    ensures TreeBut(L, tree[BlockIndex(L, a, l) := L - l], live, a, l)
  {
    NodeUpdate(L, tree, a, l, a, l, L - l);
    var tree', live' := tree[BlockIndex(L, a, l) := L - l], live[a := l];
    forall c: nat, m: nat {:trigger NodeIs(L, tree', live, c, m)} |
      c < RegionCells(L) && m < L && !(m < l && SameBlock(L, c, a, m))
      ensures NodeIs(L, tree', live, c, m)
    {
      assert NodeIs(L, tree, live', c, m);
      NodeUpdate(L, tree, c, m, a, l, L - l);
      SameValue(L, live, free, a, l, c, m);
    }
  }

  /** Node `n` of level `k - 1` above `a`, recomputed from its two children. */
  lemma ParentNode(L: nat, tree: seq<nat>, live: Blocks, a: nat, k: nat, v: nat)
    requires LiveSet(L, live) && a < RegionCells(L) && 0 < k < L
    requires TreeBut(L, tree, live, a, k)
    requires v == Value(L, live, AlignLeft(L, a, k - 1), k - 1)
    ensures BlockIndex(L, a, k - 1) < |tree|
    ensures TreeBut(L, tree[BlockIndex(L, a, k - 1) := v], live, a, k - 1)
  {
    var n := BlockIndex(L, a, k - 1);
    NodeUpdate(L, tree, a, k - 1, a, k - 1, v);
    var tree' := tree[n := v];
    forall c: nat, m: nat {:trigger NodeIs(L, tree', live, c, m)} |
      c < RegionCells(L) && m < L && !(m < k - 1 && SameBlock(L, c, a, m))
      ensures NodeIs(L, tree', live, c, m)
    {
      NodeUpdate(L, tree, c, m, a, k - 1, v);
      if !(m == k - 1 && SameBlock(L, c, a, m)) {
        assert NodeIs(L, tree, live, c, m);
      }
    }
  }

  /** The children of the node above `a` at level `k - 1` are the two nodes the code reads. */
  lemma Children(L: nat, tree: seq<nat>, live: Blocks, a: nat, k: nat)
    requires LiveSet(L, live) && a < RegionCells(L) && 0 < k < L
    requires TreeBut(L, tree, live, a, k)
    ensures var n := BlockIndex(L, a, k - 1);
      var b := AlignLeft(L, a, k - 1);
      && 2 * n + 2 < |tree|
      && (BlockIndex(L, a, k) == 2 * n + 1 || BlockIndex(L, a, k) == 2 * n + 2)
      && tree[2 * n + 1] == Value(L, live, b, k)
      && tree[2 * n + 2] == Value(L, live, b + Span(L, k), k)
  {
    var b, y := ChildBlocks(L, a, k);
    assert NodeIs(L, tree, live, b, k);
    assert NodeIs(L, tree, live, y, k);
  }

  lemma ChildBlocks(L: nat, a: nat, k: nat) returns (b: nat, y: nat)
    requires 0 < k < L && a < RegionCells(L)
    ensures b == AlignLeft(L, a, k - 1) && y == b + Span(L, k) && IsBlock(L, b, k) && IsBlock(L, y, k)
    ensures var n := BlockIndex(L, a, k - 1);
      && BlockIndex(L, b, k) == 2 * n + 1 && BlockIndex(L, y, k) == 2 * n + 2
      && (BlockIndex(L, a, k) == 2 * n + 1 || BlockIndex(L, a, k) == 2 * n + 2)
  {
    b := AlignLeft(L, a, k - 1);
    y := b + Span(L, k);
    AlignLeftIsBlock(L, a, k - 1);
    RightHalf(L, b, k - 1);
    Parent(L, a, k - 1);
    ChildIndex(L, b, k - 1);
  }

  lemma ChildIndex(L: nat, b: nat, k: nat)
    requires IsBlock(L, b, k) && k + 1 < L
    ensures BlockIndex(L, b, k + 1) == 2 * BlockIndex(L, b, k) + 1
    ensures BlockIndex(L, b + Span(L, k + 1), k + 1) == 2 * BlockIndex(L, b, k) + 2
  {
    FirstBelow(L, b, k, k + 1);
    RightHalf(L, b, k);
    Parent(L, b + Span(L, k + 1), k);
  }

  /** The tree is determined by the live blocks. */
  lemma TreeUnique(L: nat, tree: seq<nat>, tree': seq<nat>, live: Blocks)
    requires LiveSet(L, live) && TreeIs(L, tree, live) && TreeIs(L, tree', live)
    ensures forall i :: 0 <= i < Pow2(L) - 1 ==> tree[i] == tree'[i]
  {
    forall i | 0 <= i < Pow2(L) - 1
      ensures tree[i] == tree'[i]
    {
      var c, l := SomeBlock(L, i, L - 1);
      assert NodeIs(L, tree, live, c, l) && NodeIs(L, tree', live, c, l);
    }
  }

  /** A node whose subtree holds a live block is not full, so combining its children is taking the larger. */
  lemma MaxSuffices(L: nat, live: Blocks, free: set<nat>, a: nat, k: nat)
    requires LiveSet(L, live) && FreeCells(L, live, free) && a in live && 0 < k <= live[a]
    ensures var b := AlignLeft(L, a, k - 1);
      var left, right := Value(L, live, b, k), Value(L, live, b + Span(L, k), k);
      Combine(left, right, L - k) == Max(left, right)
  {
    var b := AlignLeft(L, a, k - 1);
    var y := b + Span(L, k);
    AlignLeftIsBlock(L, a, k - 1);
    RightHalf(L, b, k - 1);
    assert SameBlock(L, a, a, live[a]);
    assert Covers(L, live, a, a);
    var x := if SameBlock(L, b, a, k) then b else y;
    assert SameBlock(L, x, a, k);
    LiveNotInside(L, live, a, x, k);
    FullIffFree(L, live, free, x, k);
  }

  lemma LiveNotInside(L: nat, live: Blocks, a: nat, x: nat, k: nat)
    requires LiveSet(L, live) && a in live && k <= live[a] && SameBlock(L, x, a, k)
    ensures !Inside(L, live, x, k)
  {
    if Inside(L, live, x, k) {
      var d :| InsideOf(L, live, x, k, d);
      SameBlockUp(L, x, a, k, live[d]);
      Separate(L, live, d, a);
    }
  }

  // The descent

  /** No free block of level `m` starts before `a`. */
  ghost predicate NoneBefore(L: nat, free: set<nat>, a: nat, m: nat)
    requires m < L
  {
    forall b: nat :: IsBlock(L, b, m) && WhollyFree(L, free, b, m) ==> a <= b
  }

  /** The node at `a` has a free block of level `m` under it, and none starts earlier. */
  ghost predicate OnPath(L: nat, live: Blocks, free: set<nat>, a: nat, l: nat, m: nat)
    requires LiveSet(L, live)
  {
    && l <= m < L && IsBlock(L, a, l)
    && !Inside(L, live, a, l)
    && HasUnder(L, free, a, l, m)
    && NoneBefore(L, free, a, m)
  }

  lemma PathStarts(L: nat, live: Blocks, free: set<nat>, m: nat)
    requires LiveSet(L, live) && FreeCells(L, live, free) && m < L
    ensures IsBlock(L, 0, 0)
    ensures Value(L, live, 0, 0) >= L - m <==> OnPath(L, live, free, 0, 0, m)
    ensures Value(L, live, 0, 0) >= L - m <==> Serves(L, free, m)
  {
    LevelZero(L, 0);
    ShlZero(L - 1);
    ValueIsLargest(L, live, free, 0, 0, m);
    if Serves(L, free, m) {
      var b: nat :| IsBlock(L, b, m) && Cells(L, b, m) <= free;
      ServedIsFree(L, free, b, m);
      LevelZero(L, b);
      assert FreeUnder(L, free, 0, 0, m, b);
    }
    if HasUnder(L, free, 0, 0, m) {
      var b: nat :| FreeUnder(L, free, 0, 0, m, b);
      ServedIsFree(L, free, b, m);
    }
  }

  /** One step down: to the left child if it holds enough, and otherwise the right child does. */
  lemma PathStep(L: nat, live: Blocks, free: set<nat>, a: nat, l: nat, m: nat)
    requires LiveSet(L, live) && FreeCells(L, live, free) && OnPath(L, live, free, a, l, m) && l < m
    ensures IsBlock(L, a, l + 1) && IsBlock(L, a + Span(L, l + 1), l + 1)
    ensures OnPath(L, live, free, if Value(L, live, a, l + 1) >= L - m then a else a + Span(L, l + 1), l + 1, m)
  {
    var y := a + Span(L, l + 1);
    RightHalf(L, a, l);
    NotLiveOnPath(L, live, free, a, l, m);
    HalvesNotInside(L, live, a, l);
    UnderHalves(L, free, a, l, m);
    ValueIsLargest(L, live, free, a, l + 1, m);
    if !HasUnder(L, free, a, l + 1, m) {
      NoneInLeft(L, free, a, l, m);
    }
  }

  lemma NotLiveOnPath(L: nat, live: Blocks, free: set<nat>, a: nat, l: nat, m: nat)
    requires LiveSet(L, live) && FreeCells(L, live, free) && OnPath(L, live, free, a, l, m)
    ensures !(a in live && live[a] == l)
  {
    var b: nat :| FreeUnder(L, free, a, l, m, b);
    assert SameBlock(L, b, b, m);
    assert Covers(L, live, a, b) <==> a in live && SameBlock(L, a, b, live[a]);
  }

  lemma NoneInLeft(L: nat, free: set<nat>, a: nat, l: nat, m: nat)
    requires IsBlock(L, a, l) && l + 1 <= m < L
    requires NoneBefore(L, free, a, m) && !HasUnder(L, free, a, l + 1, m)
    ensures NoneBefore(L, free, a + Span(L, l + 1), m)
  {
    var y := a + Span(L, l + 1);
    RightHalf(L, a, l);
    forall b: nat | IsBlock(L, b, m) && WhollyFree(L, free, b, m)
      ensures y <= b
    {
      if b < y {
        BlockCells(L, a, l + 1, b);
        assert FreeUnder(L, free, a, l + 1, m, b);
      }
    }
  }

  lemma PathEnds(L: nat, live: Blocks, free: set<nat>, a: nat, m: nat)
    requires LiveSet(L, live) && OnPath(L, live, free, a, m, m)
    ensures WhollyFree(L, free, a, m)
  {
    SelfUnder(L, free, a, m);
  }

  /** Every node number belongs to a block. */
  lemma {:induction false} SomeBlock(L: nat, i: nat, m: nat) returns (c: nat, l: nat)
    requires m < L && i < Pow2(m + 1) - 1
    ensures l < L && c < RegionCells(L) && BlockIndex(L, c, l) == i
  {
    if i >= Pow2(m) - 1 {
      l := m;
      c := Shl(i - (Pow2(m) - 1), L - 1 - m);
      BlockAt(L, m, i - (Pow2(m) - 1));
    } else {
      c, l := SomeBlock(L, i, m - 1);
    }
  }
}
