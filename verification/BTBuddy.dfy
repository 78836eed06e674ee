/**
 The binary-tree buddy (btbuddy.cpp), started empty and freed in whole blocks, in the configurations
 whose size map holds split bits.
 */
module BTBuddy {
  import opened Powers
  import opened BuddyGeometry
  import opened BuddySpec
  import opened Options
  import opened BlockSets
  import opened SplitBits
  import opened BTBuddyModel
  import opened PackedTree
  import opened BTBuddyClimb

  class Region {
    const cfg: Config
    const tree: Tree
    var split: seq<bool>
    var freeSize: nat
    ghost var live: Blocks
    ghost var free: set<nat>

    ghost predicate Shape()
      reads this, tree, tree.bytes
    {
      && cfg.HasSplitBits() && cfg.L < 256
      && tree.Valid() && tree.L == cfg.L
      && LiveSet(cfg.L, live) && FreeCells(cfg.L, live, free)
    }

    ghost predicate Valid()
      reads this, tree, tree.bytes
    {
      && Shape()
      && TreeIs(cfg.L, tree.plain, live)
      && SplitIs(cfg.L, split, live)
      && freeSize >= FreeBytes(cfg, free)
    }

    ghost predicate Accounted()
      requires cfg.Ok()
      reads this
    {
      freeSize == FreeBytes(cfg, free)
    }

    constructor Empty(cfg: Config)
      requires cfg.HasSplitBits() && cfg.L < 256
      ensures Valid() && Accounted() && fresh(tree) && fresh(tree.bytes)
      ensures this.cfg == cfg
      ensures live == map[] && free == Interval(0, RegionCells(cfg.L))
    {
      this.cfg := cfg;
      this.tree := new Tree(cfg.L);
      this.split := seq(Pow2(cfg.L - 1), i => false);
      this.freeSize := cfg.MaxSize();
      this.live := map[];
      this.free := Interval(0, RegionCells(cfg.L));
      new;
      EmptyTree(cfg.L, tree.plain, split);
      AllFree(cfg);
    }

    /**
       Walks down from the root to the first free block of level `m`; the right child is never read before it
       is entered.
     */
    method Descend(m: nat) returns (index: nat, ghost a: nat)
      requires Valid() && OnPath(cfg.L, live, free, 0, 0, m)
      ensures OnPath(cfg.L, live, free, a, m, m) && index == BlockIndex(cfg.L, a, m)
    {
      index, a := 0, 0;
      ghost var k: nat := 0;
      LevelZero(cfg.L, 0);
      var l := cfg.L;
      while l > cfg.L - m
        invariant l + k == cfg.L && k <= m
        invariant OnPath(cfg.L, live, free, a, k, m) && index == BlockIndex(cfg.L, a, k)
      {
        PathStep(cfg.L, live, free, a, k, m);
        ChildIndex(cfg.L, a, k);
        NodeAt(cfg.L, tree.plain, live, a, k + 1);
        index := 2 * index + 1;
        var height := tree.Get(index);
        if height < cfg.L - m {
          index := index + 1;
          a := a + Span(cfg.L, k + 1);
        }
        k := k + 1;
        l := l - 1;
      }
    }

    /** One node: the larger of its children, marked split. */
    method ClimbOnce(n: nat, ghost a: nat, ghost k: nat)
      requires Shape() && a in live && 0 < k <= live[a] && n == ParentIndex(cfg.L, a, k)
      requires Climbing(cfg.L, tree.plain, split, live, free, a, k)
      modifies this`split, tree, tree.bytes
      ensures Shape() && Climbing(cfg.L, tree.plain, split, live, free, a, k - 1)
      ensures n == BlockIndex(cfg.L, a, k - 1)
    {
      ClimbTaken(cfg.L, tree.plain, split, live, free, a, k);
      var left := tree.Get(2 * n + 1);
      var right := tree.Get(2 * n + 2);
      if left > right {
        tree.Set(n, left);
      } else {
        tree.Set(n, right);
      }
      split := split[n := true];
    }

    /** Recomputes the nodes above the block taken and marks them split. */
    method ClimbFrom(index: nat, height: nat, ghost a: nat)
      requires Shape() && a in live && live[a] == cfg.L - height
      requires index == BlockIndex(cfg.L, a, live[a])
      requires Climbing(cfg.L, tree.plain, split, live, free, a, live[a])
      modifies this`split, tree, tree.bytes
      ensures Shape() && Climbing(cfg.L, tree.plain, split, live, free, a, 0)
    {
      var treeIndex: int := ParentOf(index);
      var l := height;
      while l < cfg.L
        invariant height <= l <= cfg.L
        invariant Shape() && Climbing(cfg.L, tree.plain, split, live, free, a, cfg.L - l)
        invariant l < cfg.L ==> treeIndex == ParentIndex(cfg.L, a, cfg.L - l)
      {
        ClimbOnce(treeIndex, a, cfg.L - l);
        treeIndex := ParentOf(treeIndex);
        l := l + 1;
      }
    }

    /** Takes the lowest-addressed free block that holds `size` bytes. */
    method Allocate(size: nat) returns (r: Option<nat>)
      requires Valid() && size <= cfg.MaxSize()
      modifies this, tree, tree.bytes
      ensures Valid()
      ensures TakenIn(cfg.L, old(free), free, LevelFor(cfg, size), r)
      ensures r.Some? ==> NoneBefore(cfg.L, old(free), r.value, LevelFor(cfg, size))
      ensures r.Some? ==> r.value !in old(live) && live == With(old(live), r.value, LevelFor(cfg, size))
      ensures r.None? ==> free == old(free) && live == old(live) && tree.plain == old(tree.plain) && split == old(split)
      ensures freeSize == old(freeSize) - if r.Some? then RoundUpPow2(size) else 0
      ensures old(Accounted()) ==> (Accounted() <==> r.None? || size > cfg.SizeOfLevel(cfg.L))
    {
      var level := FindSmallestBlockLevel(cfg, size);
      var height := cfg.L - level;
      PathStarts(cfg.L, live, free, level);
      NodeAt(cfg.L, tree.plain, live, 0, 0);
      RootIndex(cfg.L);
      var root := tree.Get(0);
      if root < height {
        return None;
      }
      var index, a := Descend(level);
      TakeBegins(cfg.L, tree.plain, split, live, free, a, level);
      tree.Set(index, 0);
      var block := GetAddress(cfg.L, index, a, level);
      live := live[a := level];
      free := free - Cells(cfg.L, a, level);
      ClimbFrom(index, height, a);
      TakeBytes(cfg, old(free), free, block, size);
      freeSize := freeSize - RoundUpPow2(size);
      return Some(block);
    }

    /** `get_level` without a size: the block taken at `a` starts below the lowest split node above it. */
    method GetLevel(a: nat) returns (level: nat)
      requires Valid() && a in live
      ensures level == live[a]
    {
      var i := cfg.L - 1;
      while i > 0
        invariant i < cfg.L && live[a] <= i
      {
        LevelFromSplit(cfg.L, live, a, i - 1);
        assert SplitAt(cfg.L, split, live, a, i - 1);
        if split[BlockIndex(cfg.L, a, i - 1)] {
          return i;
        }
        i := i - 1;
      }
      return 0;
    }

    /** What the code needs of the nodes, right or not. */
    ghost predicate Sound()
      reads this, tree, tree.bytes
    {
      && cfg.HasSplitBits() && cfg.L < 256
      && tree.Valid() && tree.L == cfg.L
      && NodesNow().Shape(cfg.L) && Low(cfg.L, tree.plain)
    }

    ghost function NodesNow(): Nodes
      reads this, tree
    {
      Nodes(tree.plain, split)
    }

    /** One node: full, and no longer split, if both children are. */
    method ClimbBackOnce(n: nat, ghost a: nat, k: nat)
      requires Sound() && 0 < k < cfg.L && a < RegionCells(cfg.L) && n == BlockIndex(cfg.L, a, k - 1)
      modifies this`split, tree, tree.bytes
      ensures Sound() && NodesNow() == ClimbOne(cfg.L, old(NodesNow()), a, k)
    {
      JoinedLow(cfg.L, tree.plain, a, k);
      BitBound(cfg.L, a, k);
      var left := tree.Get(2 * n + 1);
      var right := tree.Get(2 * n + 2);
      var joined := left == right && left == cfg.L - k;
      tree.Set(n, if joined then cfg.L - k + 1 else if left > right then left else right);
      if joined {
        split := split[n := false];
      }
    }

    /** Recomputes the nodes above the block returned; a node whose two children are full is no longer split. */
    method ClimbBack(index: nat, height: nat, ghost a: nat)
      requires Sound() && 0 < height <= cfg.L && IsBlock(cfg.L, a, cfg.L - height)
      requires index == BlockIndex(cfg.L, a, cfg.L - height)
      modifies this`split, tree, tree.bytes
      ensures Sound() && NodesNow() == Climbed(cfg.L, old(NodesNow()), a, cfg.L - height)
    {
      var blockIndex: int := ParentOf(index);
      var l := height;
      ghost var end := Climbed(cfg.L, NodesNow(), a, cfg.L - height);
      ParentStep(cfg.L, a, cfg.L - height);
      while l < cfg.L
        invariant height <= l <= cfg.L
        invariant Sound() && Climbed(cfg.L, NodesNow(), a, cfg.L - l) == end
        invariant l < cfg.L ==> blockIndex == BlockIndex(cfg.L, a, cfg.L - l - 1)
      {
        ClimbBackOnce(blockIndex, a, cfg.L - l);
        blockIndex := ParentOf(blockIndex);
        l := l + 1;
        ParentStep(cfg.L, a, cfg.L - l);
      }
    }

    /** `deallocate_internal`, of any block: what becomes of the nodes. */
    method DeallocateInternal(a: nat, size: nat, ghost l: nat)
      requires Sound() && IsBlock(cfg.L, a, l) && size == cfg.SizeOfLevel(l)
      modifies this`split, this`freeSize, tree, tree.bytes
      ensures Sound() && NodesNow() == PutBack(cfg.L, old(NodesNow()), a, l)
      ensures freeSize == old(freeSize) + size
    {
      BlockSizeLevel(cfg, l);
      var level := FindSmallestBlockLevel(cfg, size);
      FillAndClimb(a, level);
      freeSize := freeSize + size;
    }

    method FillAndClimb(a: nat, level: nat)
      requires Sound() && IsBlock(cfg.L, a, level)
      modifies this`split, tree, tree.bytes
      ensures Sound() && NodesNow() == PutBack(cfg.L, old(NodesNow()), a, level)
    {
      var height := cfg.L - level;
      var index := BlockIndex(cfg.L, a, level);
      Fill(index, height, a);
      ClimbBack(index, height, a);
    }

    /** The node of the block itself: all of it is free. */
    method Fill(index: nat, height: nat, ghost a: nat)
      requires Sound() && 0 < height <= cfg.L && IsBlock(cfg.L, a, cfg.L - height)
      requires index == BlockIndex(cfg.L, a, cfg.L - height)
      modifies tree, tree.bytes
      ensures Sound() && index < |old(tree.plain)|
      ensures NodesNow() == Nodes(old(tree.plain)[index := height], split)
    {
      FullFits(cfg.L, tree.plain, a, cfg.L - height);
      tree.Set(index, height);
    }

    /** Returns the block taken at `a`. */
    method Deallocate(a: nat, size: nat)
      requires Valid() && a in live && size == cfg.SizeOfLevel(live[a])
      modifies this, tree, tree.bytes
      ensures Valid()
      ensures live == old(live) - {a}
      ensures free == old(free) + Cells(cfg.L, a, old(live)[a])
      ensures freeSize == old(freeSize) + size
      ensures old(Accounted()) ==> Accounted()
    {
      ghost var m := live[a];
      ValuesLow(cfg.L, tree.plain, live, free);
      ReturnedRight(cfg.L, NodesNow(), live, free, a);
      RemoveLive(cfg.L, live, free, a);
      BytesOfBlock(cfg, free, free + Cells(cfg.L, a, m), a, m);
      DeallocateInternal(a, size, m);
      live := live - {a};
      free := free + Cells(cfg.L, a, m);
    }
  }

  /** `get_address`: the level is the position of the highest bit of `index + 1`. */
  method GetAddress(L: nat, index: nat, ghost a: nat, ghost m: nat) returns (address: nat)
    requires IsBlock(L, a, m) && index == BlockIndex(L, a, m)
    ensures address == a
  {
    var n := (index + 1) / 2;
    var level: nat := 0;
    while n != 0
      invariant n == Shr(index + 1, level + 1)
      invariant Shr(index + 1, level) >= 1
      decreases n
    {
      n := n / 2;
      level := level + 1;
    }
    ShrRange(index + 1, level, 1);
    ShlIsMul(1, level);
    BlockIndexBound(L, a, m);
    HighestBit(index + 1, level, m);
    address := Shl(index - (Pow2(level) - 1), L - 1 - level);
  }

  lemma HighestBit(n: nat, l: nat, m: nat)
    requires Pow2(l) <= n < Pow2(l + 1) && Pow2(m) <= n < Pow2(m + 1)
    ensures l == m
  {
    if l < m {
      Pow2Mono(l + 1, m);
    } else if m < l {
      Pow2Mono(m + 1, l);
    }
  }

  lemma RootIndex(L: nat)
    requires L > 0
    ensures BlockIndex(L, 0, 0) == 0 && AlignLeft(L, 0, 0) == 0
  {
    LevelZero(L, 0);
    ShlZero(L - 1);
  }

  /** Zeroing the node found: what remains is to recompute the nodes above it. */
  lemma TakeBegins(L: nat, tree: seq<nat>, split: seq<bool>, live: Blocks, free: set<nat>, a: nat, m: nat)
    requires LiveSet(L, live) && FreeCells(L, live, free) && L < 256
    requires TreeIs(L, tree, live) && SplitIs(L, split, live)
    requires OnPath(L, live, free, a, m, m)
    ensures a !in live
    ensures BlockIndex(L, a, m) < |tree| && BlockIndex(L, a, m) < Pow2(L) - 1 && FitsLevel(L, BlockIndex(L, a, m), 0)
    ensures Climbing(L, tree[BlockIndex(L, a, m) := 0], split, live[a := m], free - Cells(L, a, m), a, m)
    ensures Cells(L, a, m) <= free
  {
    PathEnds(L, live, free, a, m);
    AddLive(L, live, free, a, m);
    NodeAt(L, tree, live, a, m);
    ValueFits(L, live, free, a, m);
    TakeNode(L, tree, live, free, a, m);
    SplitWith(L, split, live, a, m);
    ServedIsFree(L, free, a, m);
  }

  lemma EmptyTree(L: nat, tree: seq<nat>, split: seq<bool>)
    requires L > 0 && |tree| == Pow2(L) && split == seq(Pow2(L - 1), i => false)
    requires forall n :: 0 <= n < Pow2(L) - 1 ==> tree[n] == L - LevelOfIndex(n)
    ensures LiveSet(L, map[]) && FreeCells(L, map[], Interval(0, RegionCells(L)))
    ensures TreeIs(L, tree, map[]) && SplitIs(L, split, map[])
  {
    forall c: nat, l: nat | c < RegionCells(L) && l < L
      ensures NodeIs(L, tree, map[], c, l)
    {
      AlignLeftIsBlock(L, c, l);
      EmptyValue(L, AlignLeft(L, c, l), l);
      BlockIndexBound(L, c, l);
      Pow2Mono(l + 1, L);
      LevelOfIndexIs(BlockIndex(L, c, l), l);
    }
    forall c: nat, l: nat | c < RegionCells(L) && l + 1 < L
      ensures SplitAt(L, split, map[], c, l)
    {
      BlockIndexBound(L, c, l);
      Pow2Mono(l + 1, L - 1);
    }
  }

  lemma EmptyValue(L: nat, a: nat, l: nat)
    requires IsBlock(L, a, l)
    ensures Value(L, map[], a, l) == L - l
  {
    FullIffFree(L, map[], Interval(0, RegionCells(L)), a, l);
  }

  /**
     Taking a block and returning it restores the tree and the split bits exactly: both are determined by the
     live blocks.
   */
  lemma ReturnRestores(
    L: nat, tree: seq<nat>, split: seq<bool>, tree': seq<nat>, split': seq<bool>, live: Blocks, a: nat,
    m: nat)
    requires LiveSet(L, live) && a !in live
    requires TreeIs(L, tree, live) && SplitIs(L, split, live)
    requires LiveSet(L, live[a := m] - {a}) && TreeIs(L, tree', live[a := m] - {a})
    requires SplitIs(L, split', live[a := m] - {a})
    ensures forall i :: 0 <= i < Pow2(L) - 1 ==> tree'[i] == tree[i]
    ensures split'[..Pow2(L - 1) - 1] == split[..Pow2(L - 1) - 1]
  {
    assert live[a := m] - {a} == live;
    TreeUnique(L, tree, tree', live);
    forall i | 0 <= i < Pow2(L - 1) - 1
      ensures split'[i] == split[i]
    {
      SplitUnique(L, split, split', live, i);
    }
  }

  lemma SplitUnique(L: nat, split: seq<bool>, split': seq<bool>, live: Blocks, i: nat)
    requires LiveSet(L, live) && SplitIs(L, split, live) && SplitIs(L, split', live)
    requires i < Pow2(L - 1) - 1
    ensures split'[i] == split[i]
  {
    assert L >= 2;
    var c, l := SomeBlock(L, i, L - 2);
    if l + 1 == L {
      BlockIndexBound(L, c, l);
    }
    assert SplitAt(L, split, live, c, l) && SplitAt(L, split', live, c, l);
  }

  /** The two regions share no state. */
  ghost predicate Unshared(r: Region, s: Region) {
    r != s && r.tree != s.tree && r.tree.bytes != s.tree.bytes
  }

  class BTBuddyAllocator {
    const cfg: Config
    const regions: seq<Region>
    /** The regions and all that belongs to them. */
    ghost const repr: set<object>
    ghost var books: Books

    ghost predicate Valid()
      reads this, repr
    {
      ValidBut(|regions|)
    }

    /** The books are right, except perhaps those of region `r`. */
    ghost predicate ValidBut(r: nat)
      reads this, repr
    {
      && cfg.Ok() && books.Cover(|regions|) && this !in repr
      && (forall i :: 0 <= i < |regions| ==>
        regions[i] in repr && regions[i].tree in repr && regions[i].tree.bytes in repr)
      && (forall i :: 0 <= i < |regions| ==> regions[i].cfg == cfg && regions[i].Valid())
      && (forall i :: 0 <= i < |regions| && i != r ==>
        && books.free[i] == regions[i].free && books.sizes[i] == regions[i].freeSize &&
          books.held[i] == regions[i].live)
      && (forall i, j :: 0 <= i < |regions| && 0 <= j < |regions| && i != j ==> Unshared(regions[i], regions[j]))
    }

    /** An allocator over the given regions, which are made of the objects in `repr`. */
    constructor (cfg: Config, regions: seq<Region>, ghost repr: set<object>)
      requires cfg.Ok()
      requires forall i :: 0 <= i < |regions| ==> regions[i].cfg == cfg && regions[i].Valid()
      requires forall i :: 0 <= i < |regions| ==>
        regions[i] in repr && regions[i].tree in repr && regions[i].tree.bytes in repr
      requires forall i, j :: 0 <= i < |regions| && 0 <= j < |regions| && i != j ==> Unshared(regions[i], regions[j])
      ensures Valid() && this.cfg == cfg && this.regions == regions && this.repr == repr
    {
      this.cfg := cfg;
      this.regions := regions;
      this.repr := repr;
      this.books := Books(
        seq(|regions|, i requires 0 <= i < |regions| reads regions => regions[i].free),
        seq(|regions|, i requires 0 <= i < |regions| reads regions => regions[i].freeSize),
        seq(|regions|, i requires 0 <= i < |regions| reads regions => regions[i].live));
    }

    /** Copies what region `r` now holds. */
    ghost method Refresh(r: nat)
      requires r < |regions| && ValidBut(r)
      modifies this`books
      ensures Valid()
      ensures books == Books(
        old(books).free[r := regions[r].free], old(books).sizes[r := regions[r].freeSize],
          old(books).held[r := regions[r].live])
    {
      books := Books(books.free[r := regions[r].free], books.sizes[r := regions[r].freeSize],
        books.held[r := regions[r].live]);
    }

    /** One region's turn. */
    method AllocateIn(r: nat, size: nat) returns (block: Option<nat>)
      requires Valid() && r < |regions| && size <= cfg.MaxSize()
      modifies this`books, regions[r], regions[r].tree, regions[r].tree.bytes
      ensures Valid()
      ensures block.None? ==> books == old(books) && !Serves(cfg.L, books.free[r], LevelFor(cfg, size))
      ensures block.Some? ==> BookedAt(cfg, ByRequest, old(books), books, size, r, block.value)
      ensures block.Some? ==> NoneBefore(cfg.L, old(books).free[r], block.value, LevelFor(cfg, size))
    {
      block := Turn(r, size);
      if block.Some? {
        Refresh(r);
      }
    }

    /** The call itself: the other regions are as they were. */
    method Turn(r: nat, size: nat) returns (block: Option<nat>)
      requires Valid() && r < |regions| && size <= cfg.MaxSize()
      modifies regions[r], regions[r].tree, regions[r].tree.bytes
      ensures ValidBut(r) && (block.None? ==> Valid())
      ensures TakenIn(cfg.L, books.free[r], regions[r].free, LevelFor(cfg, size), block)
      ensures block.Some? ==>
        && NoneBefore(cfg.L, books.free[r], block.value, LevelFor(cfg, size))
        && regions[r].freeSize == books.sizes[r] - RoundUpPow2(size)
        && regions[r].live == With(books.held[r], block.value, LevelFor(cfg, size))
    {
      block := regions[r].Allocate(size);
      forall i | 0 <= i < |regions| && i != r
        ensures regions[i].Valid() && regions[i].live == old(regions[i].live)
        ensures regions[i].free == old(regions[i].free) && regions[i].freeSize == old(regions[i].freeSize)
      {
        assert Unshared(regions[i], regions[r]);
      }
    }

    /** Asks the regions in turn, every lock being free: the lowest block of the first region that has one. */
    method AllocateInternal(size: nat) returns (result: Option<Block>)
      requires Valid() && size <= cfg.MaxSize()
      modifies this`books, repr
      ensures Valid() && Booked(cfg, ByRequest, old(books), books, size, result)
      ensures result.Some? ==>
        NoneBefore(cfg.L, old(books).free[result.value.region], result.value.start, LevelFor(cfg, size))
    {
      var r := 0;
      while r < |regions|
        invariant r <= |regions|
        invariant Valid() && books == old(books)
        invariant forall q :: 0 <= q < r ==> !Serves(cfg.L, books.free[q], LevelFor(cfg, size))
      {
        var block := AllocateIn(r, size);
        if block.Some? {
          return Some(Block(r, block.value));
        }
        r := r + 1;
      }
      return None;
    }

    /** Returns a whole block taken before. */
    method DeallocateInternal(b: Block, size: nat, ghost l: nat)
      requires Valid() && b.region < |regions| && HasBlock(books.held[b.region], b.start, l) && l < cfg.L
      requires size == cfg.SizeOfLevel(l)
      modifies this`books, repr
      ensures Valid() && Unbooked(cfg, old(books), books, b, l)
    {
      ReturnTo(b.region, b.start, size);
      Refresh(b.region);
    }

    /** The call itself: the other regions are as they were. */
    method ReturnTo(r: nat, a: nat, size: nat)
      requires Valid() && r < |regions| && a in books.held[r] && size == cfg.SizeOfLevel(books.held[r][a])
      modifies regions[r], regions[r].tree, regions[r].tree.bytes
      ensures ValidBut(r)
      ensures books.held[r][a] < cfg.L && regions[r].free == books.free[r] + Cells(cfg.L, a, books.held[r][a])
      ensures regions[r].freeSize == books.sizes[r] + size && regions[r].live == Less(books.held[r], a)
    {
      regions[r].Deallocate(a, size);
      forall i | 0 <= i < |regions| && i != r
        ensures regions[i].Valid() && regions[i].live == old(regions[i].live)
        ensures regions[i].free == old(regions[i].free) && regions[i].freeSize == old(regions[i].freeSize)
      {
        assert Unshared(regions[i], regions[r]);
      }
    }

    /** The level of a block in use, from its address alone. */
    method GetLevel(b: Block) returns (level: nat)
      requires Valid() && b.region < |regions| && b.start in books.held[b.region]
      ensures level == books.held[b.region][b.start]
    {
      level := regions[b.region].GetLevel(b.start);
    }
  }
}
