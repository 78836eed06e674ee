/**
 How the binary-tree buddy (btbuddy.cpp) recomputes the nodes above a block that is taken or returned,
 and when a return leaves the tree right.
 */
module BTBuddyClimb {
  import opened Powers
  import opened BuddyGeometry
  import opened BuddySpec
  import opened BlockSets
  import opened SplitBits
  import opened BTBuddyModel
  import opened PackedTree

  function ParentOf(index: int): int {
    (index - 1) / 2
  }

  /** A block neither live nor inside a live block is wholly free exactly when no live block lies below it. */
  lemma FreeIffNoneBelow(L: nat, live: Blocks, free: set<nat>, b: nat, m: nat)
    requires LiveSet(L, live) && FreeCells(L, live, free) && IsBlock(L, b, m)
    requires !Inside(L, live, b, m) && !(b in live && live[b] == m)
    ensures WhollyFree(L, free, b, m) <==> !LiveBelow(L, live, b, m)
  {
    if LiveBelow(L, live, b, m) {
      var d :| BelowOf(L, live, b, m, d);
      assert SameBlock(L, d, d, live[d]);
      assert Covers(L, live, d, d);
    }
    if !LiveBelow(L, live, b, m) {
      forall x: nat | x < RegionCells(L) && SameBlock(L, b, x, m)
        ensures x in free
      {
        if Occupied(L, live, x) {
          var d :| Covers(L, live, d, x);
          CoverPlace(L, live, b, m, d, x);
        }
      }
    }
  }

  lemma CoverPlace(L: nat, live: Blocks, b: nat, m: nat, d: nat, x: nat)
    requires LiveSet(L, live) && IsBlock(L, b, m) && SameBlock(L, b, x, m) && Covers(L, live, d, x)
    ensures BelowOf(L, live, b, m, d) || InsideOf(L, live, b, m, d) || (d == b && live[b] == m)
  {
    if live[d] > m {
      SameBlockUp(L, d, x, live[d], m);
    } else {
      SameBlockUp(L, b, x, m, live[d]);
    }
  }

  lemma NodeAt(L: nat, tree: seq<nat>, live: Blocks, b: nat, m: nat)
    requires LiveSet(L, live) && TreeIs(L, tree, live) && IsBlock(L, b, m)
    ensures BlockIndex(L, b, m) < Pow2(L) - 1 && BlockIndex(L, b, m) < |tree|
    ensures tree[BlockIndex(L, b, m)] == Value(L, live, b, m)
  {
    BlockIndexBound(L, b, m);
    Pow2Mono(m + 1, L);
    assert NodeIs(L, tree, live, b, m);
  }

  lemma ValueFits(L: nat, live: Blocks, free: set<nat>, b: nat, m: nat)
    requires LiveSet(L, live) && FreeCells(L, live, free) && IsBlock(L, b, m) && L < 256
    ensures FitsLevel(L, BlockIndex(L, b, m), Value(L, live, b, m))
    ensures FitsLevel(L, BlockIndex(L, b, m), 0) && FitsLevel(L, BlockIndex(L, b, m), L - m)
  {
    BlockIndexBound(L, b, m);
    LevelOfIndexIs(BlockIndex(L, b, m), m);
    if !Inside(L, live, b, m) {
      FullIffFree(L, live, free, b, m);
    }
  }

  /** The bits above `a` are set down to level `k - 1`. */
  ghost predicate PathSplit(L: nat, split: seq<bool>, a: nat, k: nat) {
    forall m: nat {:trigger BlockIndex(L, a, m)} :: m < k && m + 1 < L ==>
      BlockIndex(L, a, m) < |split| && split[BlockIndex(L, a, m)]
  }

  lemma PathIsSplit(L: nat, split: seq<bool>, live: Blocks, a: nat)
    requires LiveSet(L, live) && SplitIs(L, split, live) && a in live
    ensures PathSplit(L, split, a, live[a])
  {
    forall m: nat | m < live[a] && m + 1 < L
      ensures BlockIndex(L, a, m) < |split| && split[BlockIndex(L, a, m)]
    {
      assert SplitAt(L, split, live, a, m);
      LevelFromSplit(L, live, a, m);
    }
  }

  /** The recomputation has reached level `k` on the way up from `a`. */
  ghost predicate Climbing(L: nat, tree: seq<nat>, split: seq<bool>, live: Blocks, free: set<nat>, a: nat, k: nat) {
    && LiveSet(L, live) && FreeCells(L, live, free)
    && a < RegionCells(L) && k < L < 256
    && TreeBut(L, tree, live, a, k)
    && SplitBut(L, split, live, a, k)
  }

  /** Taking: the larger child's value and a set bit. */
  lemma {:induction false} ClimbTaken(
    L: nat, tree: seq<nat>, split: seq<bool>, live: Blocks, free: set<nat>, a: nat, k: nat)
    requires Climbing(L, tree, split, live, free, a, k) && a in live && 0 < k <= live[a]
    ensures var n := BlockIndex(L, a, k - 1);
      && 2 * n + 2 < |tree| && 2 * n + 2 < Pow2(L) - 1 && n < |split|
      && FitsLevel(L, n, Max(tree[2 * n + 1], tree[2 * n + 2]))
      && Climbing(L, tree[n := Max(tree[2 * n + 1], tree[2 * n + 2])], split[n := true], live, free, a, k - 1)
    ensures ParentIndex(L, a, k) == BlockIndex(L, a, k - 1)
  {
    var b := AlignLeft(L, a, k - 1);
    AlignLeftIsBlock(L, a, k - 1);
    Children(L, tree, live, a, k);
    ChildBound(L, a, k);
    MaxSuffices(L, live, free, a, k);
    LiveNotInside(L, live, a, b, k - 1);
    AncestorNotLive(L, live, a, b, k - 1);
    ValueFits(L, live, free, b, k - 1);
    ParentNode(L, tree, live, a, k, Value(L, live, b, k - 1));
    LevelFromSplit(L, live, a, k - 1);
    SplitParent(L, split, live, a, k, true);
  }

  lemma AncestorNotLive(L: nat, live: Blocks, a: nat, b: nat, m: nat)
    requires LiveSet(L, live) && a in live && m < live[a] && SameBlock(L, b, a, m)
    ensures !(b in live && live[b] == m)
  {
    if b in live && live[b] == m {
      Separate(L, live, b, a);
    }
  }

  function ParentIndex(L: nat, a: nat, k: nat): int
    requires k < L
  {
    (BlockIndex(L, a, k) - 1) / 2
  }

  lemma ChildBound(L: nat, a: nat, k: nat)
    requires 0 < k < L && a < RegionCells(L)
    ensures 2 * BlockIndex(L, a, k - 1) + 2 < Pow2(L) - 1
    ensures ParentIndex(L, a, k) == BlockIndex(L, a, k - 1)
  {
    BlockIndexBound(L, a, k - 1);
    Pow2Mono(k + 1, L);
    Parent(L, a, k - 1);
  }

  /** What the loop of the return writes at the node above `a` at level `k - 1`. */
  function Joined(L: nat, tree: seq<nat>, k: nat, n: nat): nat
    requires k < L && 2 * n + 2 < |tree|
  {
    Combine(tree[2 * n + 1], tree[2 * n + 2], L - k)
  }

  predicate BothFull(L: nat, tree: seq<nat>, k: nat, n: nat)
    requires k < L && 2 * n + 2 < |tree|
  {
    tree[2 * n + 1] == tree[2 * n + 2] == L - k
  }

  /** Returning: full if both children are, and then the bit is cleared. */
  lemma {:induction false} ClimbReturned(
    L: nat, tree: seq<nat>, split: seq<bool>, live: Blocks, free: set<nat>, a: nat, l: nat, k: nat)
    requires Climbing(L, tree, split, live, free, a, k) && 0 < k <= l < L
    requires IsBlock(L, a, l) && WhollyFree(L, free, a, l) && PathSplit(L, split, a, k)
    ensures var n := BlockIndex(L, a, k - 1);
      && 2 * n + 2 < |tree| && 2 * n + 2 < Pow2(L) - 1 && n < |split|
      && FitsLevel(L, n, Joined(L, tree, k, n))
      && var split' := if BothFull(L, tree, k, n) then split[n := false] else split;
      && Climbing(L, tree[n := Joined(L, tree, k, n)], split', live, free, a, k - 1)
      && PathSplit(L, split', a, k - 1)
    ensures ParentIndex(L, a, k) == BlockIndex(L, a, k - 1)
  {
    ReturnedNode(L, tree, live, free, a, l, k);
    var b := AlignLeft(L, a, k - 1);
    ReturnedBit(L, split, live, free, a, b, k);
    PathShorter(L, split, a, k);
    assert |split| == Pow2(L - 1);
  }

  lemma ReturnedNode(L: nat, tree: seq<nat>, live: Blocks, free: set<nat>, a: nat, l: nat, k: nat)
    requires LiveSet(L, live) && FreeCells(L, live, free) && L < 256
    requires TreeBut(L, tree, live, a, k) && 0 < k <= l
    requires IsBlock(L, a, l) && WhollyFree(L, free, a, l)
    ensures var n := BlockIndex(L, a, k - 1);
      var b := AlignLeft(L, a, k - 1);
      && 2 * n + 2 < |tree| && 2 * n + 2 < Pow2(L) - 1
      && !Inside(L, live, b, k - 1) && !(b in live && live[b] == k - 1)
      && (BothFull(L, tree, k, n) <==> Value(L, live, b, k) == Value(L, live, b + Span(L, k), k) == L - k)
      && FitsLevel(L, n, Joined(L, tree, k, n))
      && TreeBut(L, tree[n := Joined(L, tree, k, n)], live, a, k - 1)
    ensures ParentIndex(L, a, k) == BlockIndex(L, a, k - 1)
  {
    var b := AlignLeft(L, a, k - 1);
    AlignLeftIsBlock(L, a, k - 1);
    Children(L, tree, live, a, k);
    ChildBound(L, a, k);
    var v := AboveValue(L, live, free, a, l, b, k);
    ParentNode(L, tree, live, a, k, v);
  }

  lemma AboveValue(L: nat, live: Blocks, free: set<nat>, a: nat, l: nat, b: nat, k: nat) returns (v: nat)
    requires LiveSet(L, live) && FreeCells(L, live, free) && IsBlock(L, a, l) && WhollyFree(L, free, a, l) && L < 256
    requires 0 < k <= l && IsBlock(L, b, k - 1) && SameBlock(L, a, b, k - 1)
    ensures v == Value(L, live, b, k - 1)
    ensures v == Combine(Value(L, live, b, k), Value(L, live, b + Span(L, k), k), L - k)
    ensures !Inside(L, live, b, k - 1) && !(b in live && live[b] == k - 1)
    ensures FitsLevel(L, BlockIndex(L, b, k - 1), v)
  {
    AboveFree(L, live, free, a, l, b, k - 1);
    ValueFits(L, live, free, b, k - 1);
    v := Value(L, live, b, k - 1);
  }

  lemma PathShorter(L: nat, split: seq<bool>, a: nat, k: nat)
    requires 0 < k < L && a < RegionCells(L) && PathSplit(L, split, a, k) && |split| == Pow2(L - 1)
    ensures BlockIndex(L, a, k - 1) < |split| && split[BlockIndex(L, a, k - 1)]
    ensures PathSplit(L, split[BlockIndex(L, a, k - 1) := false], a, k - 1) && PathSplit(L, split, a, k - 1)
  {
    var n := BlockIndex(L, a, k - 1);
    assert n < |split|;
    forall m: nat | m < k - 1 && m + 1 < L
      ensures BlockIndex(L, a, m) < |split| && BlockIndex(L, a, m) != n && split[BlockIndex(L, a, m)]
    {
      BlockIndexInjective(L, a, m, a, k - 1);
    }
  }

  lemma AboveFree(L: nat, live: Blocks, free: set<nat>, a: nat, l: nat, b: nat, m: nat)
    requires LiveSet(L, live) && FreeCells(L, live, free) && IsBlock(L, a, l) && WhollyFree(L, free, a, l)
    requires m < l && IsBlock(L, b, m) && SameBlock(L, a, b, m)
    ensures !Inside(L, live, b, m) && !(b in live && live[b] == m)
    ensures Value(L, live, b, m) ==
      Combine(Value(L, live, b, m + 1), Value(L, live, b + Span(L, m + 1), m + 1), L - m - 1)
  {
    AddLive(L, live, free, a, l);
    ValueAbove(L, live, free, a, l, b, m);
    if b in live {
      AboveNotLive(L, live, free, a, l, b, m, b);
    }
  }

  lemma ReturnedBit(L: nat, split: seq<bool>, live: Blocks, free: set<nat>, a: nat, b: nat, k: nat)
    requires LiveSet(L, live) && FreeCells(L, live, free) && 0 < k < L && a < RegionCells(L)
    requires SplitBut(L, split, live, a, k) && PathSplit(L, split, a, k)
    requires b == AlignLeft(L, a, k - 1) && !Inside(L, live, b, k - 1) && !(b in live && live[b] == k - 1)
    ensures var n := BlockIndex(L, a, k - 1);
      && n < |split|
      && var full := Value(L, live, b, k) == Value(L, live, b + Span(L, k), k) == L - k;
      && SplitBut(L, if full then split[n := false] else split, live, a, k - 1)
  {
    var n := BlockIndex(L, a, k - 1);
    AlignLeftIsBlock(L, a, k - 1);
    FullIffNoneBelow(L, live, free, b, k);
    BelowSame(L, live, a, b, k - 1);
    var full := Value(L, live, b, k) == Value(L, live, b + Span(L, k), k) == L - k;
    SplitParent(L, split, live, a, k, !full);
    assert split[n];
    assert !full ==> split[n := true] == split;
  }

  /** Both halves of a block are full exactly when no live block lies below it. */
  lemma FullIffNoneBelow(L: nat, live: Blocks, free: set<nat>, b: nat, k: nat)
    requires LiveSet(L, live) && FreeCells(L, live, free) && 0 < k < L && IsBlock(L, b, k - 1)
    requires !Inside(L, live, b, k - 1) && !(b in live && live[b] == k - 1)
    ensures Value(L, live, b, k) == Value(L, live, b + Span(L, k), k) == L - k <==> !LiveBelow(L, live, b, k - 1)
  {
    FreeIffNoneBelow(L, live, free, b, k - 1);
    HalvesNotInside(L, live, b, k - 1);
    RightHalf(L, b, k - 1);
    FullIffFree(L, live, free, b, k);
    FullIffFree(L, live, free, b + Span(L, k), k);
    WholeIffHalves(L, free, b, k - 1);
  }

  lemma {:induction false} ReturnBegins(L: nat, tree: seq<nat>, split: seq<bool>, live: Blocks, free: set<nat>, a: nat)
    requires LiveSet(L, live) && FreeCells(L, live, free) && L < 256 && a in live
    requires TreeIs(L, tree, live) && SplitIs(L, split, live)
    ensures var m := live[a];
      var index := BlockIndex(L, a, m);
      var free' := free + Cells(L, a, m);
      && index < |tree| && index < Pow2(L) - 1 && FitsLevel(L, index, L - m)
      && Climbing(L, tree[index := L - m], split, live - {a}, free', a, m)
      && PathSplit(L, split, a, m) && WhollyFree(L, free', a, m)
      && forall d: nat :: d in Cells(L, a, m) ==> d !in free
  {
    var m := live[a];
    var rest := live - {a};
    var free' := free + Cells(L, a, m);
    assert live == rest[a := m];
    RemoveLive(L, live, free, a);
    NodeAt(L, tree, live, a, m);
    ValueFits(L, live, free, a, m);
    ReturnNode(L, tree, rest, free', a, m);
    SplitWithout(L, split, rest, a, m);
    PathIsSplit(L, split, live, a);
  }

  // The return as a function of the nodes

  /** The nodes of a region and its split bits. */
  datatype Nodes = Nodes(tree: seq<nat>, split: seq<bool>) {
    predicate Shape(L: nat) {
      L > 0 && |tree| == Pow2(L) && |split| == Pow2(L - 1)
    }
  }

  lemma BitBound(L: nat, a: nat, k: nat)
    requires 0 < k < L && a < RegionCells(L)
    ensures BlockIndex(L, a, k - 1) < Pow2(L - 1)
  {
    BlockIndexBound(L, a, k - 1);
    Pow2Mono(k, L - 1);
  }

  /** One round of the loop: the node above `a` at level `k - 1`. */
  function ClimbOne(L: nat, s: Nodes, a: nat, k: nat): (r: Nodes)
    requires 0 < k < L && a < RegionCells(L) && s.Shape(L)
    ensures r.Shape(L)
  {
    ChildBound(L, a, k);
    BitBound(L, a, k);
    var n := BlockIndex(L, a, k - 1);
    Nodes(s.tree[n := Joined(L, s.tree, k, n)], if BothFull(L, s.tree, k, n) then s.split[n := false] else s.split)
  }

  function Climbed(L: nat, s: Nodes, a: nat, k: nat): (r: Nodes)
    requires k < L && a < RegionCells(L) && s.Shape(L)
    ensures r.Shape(L)
    decreases k
  {
    if k == 0 then s else Climbed(L, ClimbOne(L, s, a, k), a, k - 1)
  }

  /** What returning the block of level `l` at `a` leaves: its own node is full, and those above are recomputed. */
  function PutBack(L: nat, s: Nodes, a: nat, l: nat): (r: Nodes)
    requires IsBlock(L, a, l) && s.Shape(L)
    ensures r.Shape(L)
  {
    BlockIndexBound(L, a, l);
    Pow2Mono(l + 1, L);
    Climbed(L, s.(tree := s.tree[BlockIndex(L, a, l) := L - l]), a, l)
  }

  /** No node holds more than the height of its block, so that it fits its bits. */
  ghost predicate Low(L: nat, tree: seq<nat>) {
    |tree| == Pow2(L) && forall n: nat {:trigger LowAt(L, tree, n)} :: n < Pow2(L) - 1 ==> LowAt(L, tree, n)
  }

  ghost predicate LowAt(L: nat, tree: seq<nat>, n: nat)
    requires n < |tree|
  {
    LevelOfIndex(n) < L && tree[n] <= L - LevelOfIndex(n)
  }

  lemma LowUpdate(L: nat, tree: seq<nat>, n: nat, v: nat)
    requires Low(L, tree) && n < |tree| && FitsLevel(L, n, v)
    ensures Low(L, tree[n := v])
  {
    var tree' := tree[n := v];
    forall m: nat {:trigger LowAt(L, tree', m)} | m < Pow2(L) - 1
      ensures LowAt(L, tree', m)
    {
      assert LowAt(L, tree, m);
    }
  }

  /** The node of a block takes the height of the block. */
  lemma FullFits(L: nat, tree: seq<nat>, a: nat, l: nat)
    requires IsBlock(L, a, l) && L < 256 && Low(L, tree)
    ensures BlockIndex(L, a, l) < Pow2(L) - 1 && FitsLevel(L, BlockIndex(L, a, l), L - l)
    ensures Low(L, tree[BlockIndex(L, a, l) := L - l])
  {
    BlockIndexBound(L, a, l);
    Pow2Mono(l + 1, L);
    LevelOfIndexIs(BlockIndex(L, a, l), l);
    LowUpdate(L, tree, BlockIndex(L, a, l), L - l);
  }

  lemma ChildrenOneBelow(n: nat)
    ensures LevelOfIndex(2 * n + 1) == LevelOfIndex(2 * n + 2) == LevelOfIndex(n) + 1
  {
    assert (2 * n + 1 - 1) / 2 == n && (2 * n + 2 - 1) / 2 == n;
  }

  /** The level of the node that a round writes. */
  lemma NodeLevelIs(L: nat, a: nat, k: nat)
    requires 0 < k < L && a < RegionCells(L)
    ensures LevelOfIndex(BlockIndex(L, a, k - 1)) == k - 1
  {
    BlockIndexBound(L, a, k - 1);
    LevelOfIndexIs(BlockIndex(L, a, k - 1), k - 1);
  }

  lemma JoinedLow(L: nat, tree: seq<nat>, a: nat, k: nat)
    requires 0 < k < L < 256 && a < RegionCells(L) && Low(L, tree)
    ensures var n := BlockIndex(L, a, k - 1);
      && 2 * n + 2 < Pow2(L) - 1 && FitsLevel(L, n, Joined(L, tree, k, n))
      && Low(L, tree[n := Joined(L, tree, k, n)])
  {
    var n := BlockIndex(L, a, k - 1);
    ChildBound(L, a, k);
    NodeLevelIs(L, a, k);
    ChildrenOneBelow(n);
    assert LowAt(L, tree, 2 * n + 1) && LowAt(L, tree, 2 * n + 2);
    LowUpdate(L, tree, n, Joined(L, tree, k, n));
  }

  lemma ParentStep(L: nat, a: nat, k: nat)
    requires k < L && a < RegionCells(L)
    ensures k > 0 ==> ParentOf(BlockIndex(L, a, k)) == BlockIndex(L, a, k - 1)
  {
    if k > 0 {
      ChildBound(L, a, k);
    }
  }

  lemma ValuesLow(L: nat, tree: seq<nat>, live: Blocks, free: set<nat>)
    requires LiveSet(L, live) && FreeCells(L, live, free) && TreeIs(L, tree, live)
    ensures Low(L, tree)
  {
    forall n: nat | n < Pow2(L) - 1
      ensures LowAt(L, tree, n)
    {
      var c, l := SomeBlock(L, n, L - 1);
      BlockIndexBound(L, c, l);
      LevelOfIndexIs(n, l);
      assert NodeIs(L, tree, live, c, l);
      AlignLeftIsBlock(L, c, l);
      if !Inside(L, live, AlignLeft(L, c, l), l) {
        FullIffFree(L, live, free, AlignLeft(L, c, l), l);
      }
    }
  }

  /** Nodes that are not above `a` stay as they are. */
  lemma {:induction false} ClimbElsewhere(L: nat, s: Nodes, a: nat, k: nat, c: nat, m: nat)
    requires k < L && m < L && a < RegionCells(L) && c < RegionCells(L) && s.Shape(L)
    requires !(m < k && SameBlock(L, c, a, m))
    ensures BlockIndex(L, c, m) < Pow2(L)
    ensures Climbed(L, s, a, k).tree[BlockIndex(L, c, m)] == s.tree[BlockIndex(L, c, m)]
    decreases k
  {
    NodeUpdate(L, s.tree, c, m, a, 0, 0);
    if k > 0 {
      var n := BlockIndex(L, a, k - 1);
      ChildBound(L, a, k);
      NodeUpdate(L, s.tree, c, m, a, k - 1, Joined(L, s.tree, k, n));
      ClimbElsewhere(L, ClimbOne(L, s, a, k), a, k - 1, c, m);
    }
  }

  lemma {:induction false} ClimbRight(L: nat, s: Nodes, live: Blocks, free: set<nat>, a: nat, l: nat, k: nat)
    requires s.Shape(L) && Climbing(L, s.tree, s.split, live, free, a, k) && k <= l < L
    requires IsBlock(L, a, l) && WhollyFree(L, free, a, l) && PathSplit(L, s.split, a, k)
    ensures var r := Climbed(L, s, a, k);
      TreeIs(L, r.tree, live) && SplitIs(L, r.split, live)
    decreases k
  {
    if k > 0 {
      ClimbReturned(L, s.tree, s.split, live, free, a, l, k);
      ClimbRight(L, ClimbOne(L, s, a, k), live, free, a, l, k - 1);
    } else {
      RootOnly(L, s, live, a);
    }
  }

  lemma RootOnly(L: nat, s: Nodes, live: Blocks, a: nat)
    requires LiveSet(L, live) && TreeBut(L, s.tree, live, a, 0) && SplitBut(L, s.split, live, a, 0)
    ensures TreeIs(L, s.tree, live) && SplitIs(L, s.split, live)
  {
    forall c: nat, l: nat {:trigger NodeIs(L, s.tree, live, c, l)} | c < RegionCells(L) && l < L
      ensures NodeIs(L, s.tree, live, c, l)
    {
    }
  }

  /** Returning a whole block in use leaves the tree and the split bits of the other blocks. */
  lemma ReturnedRight(L: nat, s: Nodes, live: Blocks, free: set<nat>, a: nat)
    requires LiveSet(L, live) && FreeCells(L, live, free) && L < 256 && a in live && s.Shape(L)
    requires TreeIs(L, s.tree, live) && SplitIs(L, s.split, live)
    ensures var r := PutBack(L, s, a, live[a]);
      && LiveSet(L, live - {a}) && FreeCells(L, live - {a}, free + Cells(L, a, live[a]))
      && TreeIs(L, r.tree, live - {a}) && SplitIs(L, r.split, live - {a})
  {
    var l := live[a];
    ReturnBegins(L, s.tree, s.split, live, free, a);
    ClimbRight(L, s.(tree := s.tree[BlockIndex(L, a, l) := L - l]), live - {a}, free + Cells(L, a, l), a, l, l);
  }

  // Other returns

  /** The tree is that of some blocks in use which leave exactly these cells free. */
  ghost predicate Right(L: nat, tree: seq<nat>, free: set<nat>) {
    exists live :: RightFor(L, tree, free, live)
  }

  ghost predicate RightFor(L: nat, tree: seq<nat>, free: set<nat>, live: Blocks) {
    LiveSet(L, live) && FreeCells(L, live, free) && TreeIs(L, tree, live)
  }

  /** In a right tree the node of a block that holds a free cell is full exactly if the block is wholly free. */
  lemma RightNode(L: nat, tree: seq<nat>, free: set<nat>, live: Blocks, b: nat, m: nat, x: nat)
    requires RightFor(L, tree, free, live) && IsBlock(L, b, m) && SameBlock(L, b, x, m) && x in free
    ensures BlockIndex(L, b, m) < |tree|
    ensures tree[BlockIndex(L, b, m)] == L - m <==> WhollyFree(L, free, b, m)
  {
    NodeAt(L, tree, live, b, m);
    if Inside(L, live, b, m) {
      var d :| InsideOf(L, live, b, m, d);
      SameBlockUp(L, b, x, m, live[d]);
      assert Covers(L, live, d, x);
    }
    FullIffFree(L, live, free, b, m);
  }

  /** Part of a block in use: the other half above it still holds its height, and so the node above is full. */
  lemma PartReturned(L: nat, s: Nodes, live: Blocks, free: set<nat>, a: nat, l: nat, d: nat)
    requires LiveSet(L, live) && FreeCells(L, live, free) && TreeIs(L, s.tree, live) && s.Shape(L)
    requires IsBlock(L, a, l) && d in live && live[d] < l && SameBlock(L, d, a, live[d])
    ensures !Right(L, PutBack(L, s, a, l).tree, free + Cells(L, a, l))
  {
    var free' := free + Cells(L, a, l);
    var tree' := PutBack(L, s, a, l).tree;
    var q := AlignLeft(L, a, l - 1);
    AlignLeftIsBlock(L, a, l - 1);
    PartFull(L, s, live, a, l, d);
    BlockCells(L, a, l, a);
    OtherHalfUsed(L, live, free, a, l, d, q);
    forall live' | RightFor(L, tree', free', live')
      ensures false
    {
      RightNode(L, tree', free', live', q, l - 1, a);
    }
  }

  lemma OtherHalfUsed(L: nat, live: Blocks, free: set<nat>, a: nat, l: nat, d: nat, q: nat)
    requires LiveSet(L, live) && FreeCells(L, live, free)
    requires IsBlock(L, a, l) && d in live && live[d] < l && SameBlock(L, d, a, live[d]) && SameBlock(L, q, a, l - 1)
    ensures !WhollyFree(L, free + Cells(L, a, l), q, l - 1)
  {
    var y := BuddyCell(L, a, l);
    Buddy(L, a, l);
    SameBlockUp(L, a, y, l - 1, live[d]);
    BlockCells(L, a, l, y);
    assert Covers(L, live, d, y);
    assert SameBlock(L, q, y, l - 1);
  }

  /** Inside a block in use every node holds its full height. */
  lemma InsideFull(L: nat, tree: seq<nat>, live: Blocks, b: nat, l: nat, d: nat)
    requires LiveSet(L, live) && TreeIs(L, tree, live)
    requires IsBlock(L, b, l) && d in live && live[d] < l && SameBlock(L, d, b, live[d])
    ensures BlockIndex(L, b, l) < |tree| && tree[BlockIndex(L, b, l)] == L - l
  {
    assert InsideOf(L, live, b, l, d);
    NodeAt(L, tree, live, b, l);
  }

  lemma PartFull(L: nat, s: Nodes, live: Blocks, a: nat, l: nat, d: nat)
    requires LiveSet(L, live) && TreeIs(L, s.tree, live) && s.Shape(L)
    requires IsBlock(L, a, l) && d in live && live[d] < l && SameBlock(L, d, a, live[d])
    ensures BlockIndex(L, a, l - 1) < Pow2(L)
    ensures PutBack(L, s, a, l).tree[BlockIndex(L, a, l - 1)] == L - (l - 1)
  {
    StoredFull(L, s, live, a, l, d);
    JoinFull(L, s.(tree := s.tree[BlockIndex(L, a, l) := L - l]), a, l);
  }

  /** Two full halves make the node above full, and the rest of the climb does not come back to it. */
  lemma JoinFull(L: nat, s: Nodes, a: nat, k: nat)
    requires 0 < k < L && a < RegionCells(L) && s.Shape(L)
    requires 2 * BlockIndex(L, a, k - 1) + 2 < |s.tree| && BothFull(L, s.tree, k, BlockIndex(L, a, k - 1))
    ensures Climbed(L, s, a, k).tree[BlockIndex(L, a, k - 1)] == L - (k - 1)
  {
    ClimbElsewhere(L, ClimbOne(L, s, a, k), a, k - 1, a, k - 1);
  }

  /** After the node of the part is written, both halves of the block above are full. */
  lemma StoredFull(L: nat, s: Nodes, live: Blocks, a: nat, l: nat, d: nat)
    requires LiveSet(L, live) && TreeIs(L, s.tree, live) && s.Shape(L)
    requires IsBlock(L, a, l) && d in live && live[d] < l && SameBlock(L, d, a, live[d])
    ensures var n := BlockIndex(L, a, l - 1);
      && BlockIndex(L, a, l) < |s.tree| && 2 * n + 2 < |s.tree|
      && BothFull(L, s.tree[BlockIndex(L, a, l) := L - l], l, n)
  {
    var b, y := ChildBlocks(L, a, l);
    ChildBound(L, a, l);
    BlockIndexBound(L, a, l);
    AlignLeftIsBlock(L, a, l - 1);
    RightHalf(L, b, l - 1);
    SameBlockUp(L, a, b, l - 1, live[d]);
    SameBlockUp(L, b, y, l - 1, live[d]);
    InsideFull(L, s.tree, live, b, l, d);
    InsideFull(L, s.tree, live, y, l, d);
  }

  /** Several blocks in use: the node of the first keeps its zero. */
  lemma FirstStaysZero(L: nat, s: Nodes, live: Blocks, a: nat, l: nat)
    requires LiveSet(L, live) && TreeIs(L, s.tree, live) && s.Shape(L)
    requires IsBlock(L, a, l) && a in live && live[a] > l
    ensures BlockIndex(L, a, live[a]) < Pow2(L)
    ensures PutBack(L, s, a, l).tree[BlockIndex(L, a, live[a])] == 0
  {
    var m := live[a];
    NodeAt(L, s.tree, live, a, m);
    LiveNotInside(L, live, a, a, m);
    NodeUpdate(L, s.tree, a, m, a, l, L - l);
    ClimbElsewhere(L, s.(tree := s.tree[BlockIndex(L, a, l) := L - l]), a, l, a, m);
  }

  lemma SeveralReturned(L: nat, s: Nodes, live: Blocks, free: set<nat>, a: nat, l: nat)
    requires LiveSet(L, live) && FreeCells(L, live, free) && TreeIs(L, s.tree, live) && s.Shape(L)
    requires IsBlock(L, a, l) && a in live && live[a] > l
    ensures !Right(L, PutBack(L, s, a, l).tree, free + Cells(L, a, l))
  {
    var m := live[a];
    var free' := free + Cells(L, a, l);
    var tree' := PutBack(L, s, a, l).tree;
    FirstStaysZero(L, s, live, a, l);
    forall x: nat | x < RegionCells(L) && SameBlock(L, a, x, m)
      ensures x in free'
    {
      SameBlockUp(L, a, x, m, l);
      BlockCells(L, a, l, x);
    }
    forall live' | RightFor(L, tree', free', live')
      ensures false
    {
      RightNode(L, tree', free', live', a, m, a);
    }
  }

  /** A return of cells in use leaves a right tree if and only if they are exactly one block in use. */
  lemma ReturnExact(L: nat, s: Nodes, live: Blocks, free: set<nat>, a: nat, l: nat)
    requires LiveSet(L, live) && FreeCells(L, live, free) && L < 256 && s.Shape(L)
    requires TreeIs(L, s.tree, live) && SplitIs(L, s.split, live)
    requires IsBlock(L, a, l) && forall d: nat :: d in Cells(L, a, l) ==> d !in free
    ensures Right(L, PutBack(L, s, a, l).tree, free + Cells(L, a, l)) <==> HasBlock(live, a, l)
  {
    if HasBlock(live, a, l) {
      ReturnedRight(L, s, live, free, a);
      assert RightFor(L, PutBack(L, s, a, l).tree, free + Cells(L, a, l), live - {a});
    } else {
      BlockCells(L, a, l, a);
      assert Occupied(L, live, a);
      var d :| Covers(L, live, d, a);
      if live[d] < l {
        PartReturned(L, s, live, free, a, l, d);
      } else {
        FirstBelow(L, a, l, live[d]);
        SeveralReturned(L, s, live, free, a, l);
      }
    }
  }
}
