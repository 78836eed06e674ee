/**
 The base class's `allocate` and `deallocate` (buddy_allocator.cpp), with their lazy lists, over any of
 the three subclasses.  Every method is one of the steps whose runs are followed in `BuddyRuns`.
 */
module LazyBuddy {
  import opened Powers
  import opened Options
  import opened BuddyGeometry
  import opened BuddySpec
  import opened BlockSets
  import opened SplitBits
  import opened BuddyRuns
  import opened BuddyHistory
  import opened BuddyFamily

  /** Each level down the tree doubles the threshold, up to the given one; level 0 has none. */
  ghost predicate AreThresholds(L: nat, lazyThreshold: nat, thresholds: seq<nat>) {
    |thresholds| == L &&
      forall l :: 0 <= l < L ==> thresholds[l] == if l == 0 then 0 else Shr(lazyThreshold, L - 1 - l)
  }

  /** `init_lazy_lists`. */
  method InitThresholds(L: nat, lazyThreshold: nat) returns (thresholds: seq<nat>)
    requires L > 0
    ensures AreThresholds(L, lazyThreshold, thresholds)
  {
    thresholds := seq(L, l => 0);
    var threshold := lazyThreshold;
    var level := L - 1;
    while threshold > 0 && level > 0
      invariant 0 <= level < L && |thresholds| == L
      invariant threshold == Shr(lazyThreshold, L - 1 - level)
      invariant forall l :: level < l < L ==> thresholds[l] == Shr(lazyThreshold, L - 1 - l)
      invariant forall l :: 0 <= l <= level ==> thresholds[l] == 0
    {
      thresholds := thresholds[level := threshold];
      threshold := threshold / 2;
      level := level - 1;
    }
    forall l | 0 <= l < L
      ensures thresholds[l] == if l == 0 then 0 else Shr(lazyThreshold, L - 1 - l)
    {
      if 0 < l <= level {
        ShiftedOut(lazyThreshold, L - 1 - level, L - 1 - l);
      }
    }
  }

  lemma {:induction false} ShiftedOut(c: nat, k: nat, m: nat)
    requires k <= m && Shr(c, k) == 0
    ensures Shr(c, m) == 0
    decreases m
  {
    if k < m {
      ShiftedOut(c, k, m - 1);
    }
  }

  /** A heap that nobody has asked yet. */
  lemma Untouched(cfg: Config, books: Books, n: nat) returns (h: Heap)
    requires cfg.Ok() && AllEmpty(cfg, books, n)
    ensures Init(cfg, h) && Inv(cfg, h) && h.books == books && |h.live| == n
    ensures h.lazy == seq(cfg.L, l => []) && h.lazySize == 0
  {
    h := Heap(books, seq(cfg.L, l => []), 0, books.held, books.free, 0);
    forall r | 0 <= r < n
      ensures h.books.held[r] == map[] && h.live[r] == map[]
      ensures h.idle[r] == h.books.free[r] == Interval(0, RegionCells(cfg.L)) && h.books.sizes[r] == cfg.MaxSize()
    {
      assert books.held[r] == map[];
    }
    InitInv(cfg, h);
  }

  /** `deallocate` without a size: the whole live block is freed. */
  ghost predicate Freed(cfg: Config, thresholds: seq<nat>, h: Heap, h': Heap, ptr: Option<Block>)
    requires Inv(cfg, h) && |thresholds| == cfg.L
  {
    if ptr.None? || ptr.value.region >= |h.live| then h' == h else
      var b := ptr.value;
      && b.start in h.live[b.region] && h.live[b.region][b.start] < cfg.L
      && MayFree(cfg, h, ptr, cfg.SizeOfLevel(h.live[b.region][b.start]))
      && BuddyRuns.Deallocate(cfg, thresholds, h, h', ptr, cfg.SizeOfLevel(h.live[b.region][b.start]))
  }

  /** The same blocks are live, and the account is off by as much as before. */
  ghost predicate Unspent(h: Heap, h': Heap) {
    h'.live == h.live && h'.idle == h.idle && h'.drift == h.drift
  }

  lemma SameFreeSize(cfg: Config, h: Heap, h': Heap)
    requires Inv(cfg, h) && Inv(cfg, h') && Unspent(h, h')
    ensures FreeSize(h') == FreeSize(h)
  {
  }

  class BuddyAllocator {
    const cfg: Config
    const inner: Subclass
    const thresholds: seq<nat>
    var lazyList: seq<seq<Block>>
    var lazySize: int
    ghost var heap: Heap

    ghost predicate Valid()
      reads this, inner.Objects()
    {
      Mirrors(heap) && heap.lazy == lazyList && heap.lazySize == lazySize
    }

    /** The subclass holds what `h` says. */
    ghost predicate Mirrors(h: Heap)
      reads this, inner.Objects()
    {
      && inner.Valid() && inner.Config() == cfg && |thresholds| == cfg.L && this !in inner.Objects()
      && Inv(cfg, h) && h.books == inner.Books() && |h.live| == inner.Regions()
    }

    /** An allocator over a subclass that starts empty. */
    constructor (inner: Subclass, lazyThreshold: nat)
      requires inner.Valid() && inner.Config().Ok() && AllEmpty(inner.Config(), inner.Books(), inner.Regions())
      ensures Valid() && Init(cfg, heap) && this.inner == inner
      ensures AreThresholds(cfg.L, lazyThreshold, thresholds)
    {
      var cfg := inner.Config();
      var n := inner.Regions();
      this.cfg, this.inner := cfg, inner;
      var t := InitThresholds(cfg.L, lazyThreshold);
      thresholds := t;
      lazyList := seq(cfg.L, l => []);
      lazySize := 0;
      ghost var h := Untouched(cfg, inner.Books(), n);
      heap := h;
    }

    /** Takes the first block of the lazy list of the level. */
    method AllocateCached(level: nat, size: nat) returns (block: Block)
      requires Valid() && size <= cfg.MaxSize() && level == LevelFor(cfg, size) && lazyList[level] != []
      modifies this
      ensures Valid()
      ensures BuddyRuns.Allocate(cfg, inner.Charge(), old(heap), heap, size, Answer(Some(block)))
    {
      FirstCached(cfg, heap, level);
      block := lazyList[level][0];
      lazyList := lazyList[level := lazyList[level][1..]];
      lazySize := lazySize - RoundUpPow2(size);
      heap := TakeCached(cfg, heap, size);
      AllocateInv(cfg, inner.Charge(), old(heap), heap, size, Answer(Some(block)));
    }

    /** Takes a block for `size` bytes: a cached one if the level has any. */
    method Allocate(size: nat) returns (result: Outcome<Block>)
      requires Valid()
      modifies this, inner.Objects()
      ensures Valid()
      ensures BuddyRuns.Allocate(cfg, inner.Charge(), old(heap), heap, size, result)
    {
      if size > cfg.MaxSize() {
        return Answer(None);
      }
      var level := FindSmallestBlockLevel(cfg, size);
      if lazyList[level] != [] {
        var block := AllocateCached(level, size);
        return Answer(Some(block));
      }
      result := AllocateFresh(level, size);
    }

    method AllocateFresh(level: nat, size: nat) returns (result: Outcome<Block>)
      requires Valid() && size <= cfg.MaxSize() && level == LevelFor(cfg, size) && lazyList[level] == []
      modifies this`heap, inner.Objects()
      ensures Valid()
      ensures BuddyRuns.Allocate(cfg, inner.Charge(), old(heap), heap, size, result)
    {
      result := inner.AllocateInternal(size);
      heap := AfterTaking(cfg, inner.Charge(), heap, size, result, inner.Books());
    }

    /** Gives a live block back; null and foreign pointers are ignored. */
    method Deallocate(ptr: Option<Block>, bytes: nat)
      requires Valid()
      requires MayFree(cfg, heap, ptr, bytes)
      modifies this, inner.Objects()
      ensures Valid()
      ensures BuddyRuns.Deallocate(cfg, thresholds, old(heap), heap, ptr, bytes)
    {
      if ptr.None? || ptr.value.region >= inner.Regions() {
        return;
      }
      var b := ptr.value;
      var size := if bytes < cfg.MinSize() then cfg.MinSize() else bytes;
      var level := FindSmallestBlockLevel(cfg, size);
      if |lazyList[level]| < thresholds[level] {
        DeallocateLazily(b, level, size, bytes);
      } else {
        DeallocateNow(b, level, size, bytes);
      }
    }

    /** The same without a size: the level of the block is read off the split bits. */
    method DeallocateUnsized(ptr: Option<Block>)
      requires Valid() && inner.TellsLevels()
      requires ptr.Some? && ptr.value.region < inner.Regions() ==> ptr.value.start in heap.live[ptr.value.region]
      modifies this, inner.Objects()
      ensures Valid()
      ensures Freed(cfg, thresholds, old(heap), heap, ptr)
    {
      if ptr.None? || ptr.value.region >= inner.Regions() {
        return;
      }
      LiveIsHeld(cfg, heap, ptr.value);
      var level := inner.GetLevel(ptr.value);
      LevelIsFreed(cfg, heap, ptr.value, level);
      Deallocate(ptr, cfg.SizeOfLevel(level));
    }

    /** The split bits stay right all the while: set exactly above the blocks that are live or cached. */
    lemma SplitBitsRight(r: nat)
      requires Valid() && inner.TellsLevels() && r < inner.Regions()
      ensures SplitIs(cfg.L, inner.SplitBits(r), heap.books.held[r])
    {
      assert RegionOk(cfg.L, heap.books.held[r], heap.live[r], heap.books.free[r], heap.idle[r]);
      inner.SplitBitsRight(r);
    }

    method DeallocateLazily(b: Block, level: nat, size: nat, ghost bytes: nat)
      requires Valid() && MayFree(cfg, heap, Some(b), bytes) && b.region < inner.Regions()
      requires size == Clamped(cfg, bytes) && level == LevelFor(cfg, size) && |lazyList[level]| < thresholds[level]
      modifies this
      ensures Valid()
      ensures BuddyRuns.Deallocate(cfg, thresholds, old(heap), heap, Some(b), bytes)
    {
      ghost var h := heap;
      lazyList := lazyList[level := lazyList[level] + [b]];
      lazySize := lazySize + RoundUpPow2(size);
      heap := Cache(cfg, heap, b, bytes);
      DeallocateInv(cfg, thresholds, h, heap, Some(b), bytes);
    }

    method DeallocateNow(b: Block, level: nat, size: nat, ghost bytes: nat)
      requires Valid() && MayFree(cfg, heap, Some(b), bytes) && b.region < inner.Regions()
      requires size == Clamped(cfg, bytes) && level == LevelFor(cfg, size) && |lazyList[level]| >= thresholds[level]
      modifies this`heap, inner.Objects()
      ensures Valid()
      ensures BuddyRuns.Deallocate(cfg, thresholds, old(heap), heap, Some(b), bytes)
    {
      LiveNotFree(cfg, heap, b);
      ClampedIsExact(cfg, bytes);
      inner.DeallocateInternal(b, RoundUpPow2(size), level);
      heap := GivenBack(cfg, thresholds, heap, b, bytes, inner.Books());
    }

    /** Gives the first cached block of a level back to the free lists. */
    method EmptyFirst(level: nat)
      requires Valid() && level < cfg.L && lazyList[level] != []
      modifies this, inner.Objects()
      ensures Valid() && EmptyOne(cfg, old(heap), heap, level) && Unspent(old(heap), heap)
      ensures lazyList == old(lazyList)[level := old(lazyList)[level][1..]]
    {
      var block, size := lazyList[level][0], cfg.SizeOfLevel(level);
      heap := ReturnCached(level, block, size, heap);
      lazyList := lazyList[level := lazyList[level][1..]];
      lazySize := lazySize - size;
    }

    /** The part of it that concerns the subclass. */
    method ReturnCached(level: nat, block: Block, size: nat, ghost h: Heap) returns (ghost h': Heap)
      requires Mirrors(h) && level < cfg.L && h.lazy[level] != [] && block == h.lazy[level][0]
      requires size == cfg.SizeOfLevel(level)
      modifies inner.Objects()
      ensures Mirrors(h') && EmptyOne(cfg, h, h', level) && Unspent(h, h')
      ensures h'.lazy == h.lazy[level := h.lazy[level][1..]] && h'.lazySize == h.lazySize - size
    {
      CachedNotFree(cfg, h, level);
      inner.DeallocateInternal(block, size, level);
      h' := Emptied(cfg, h, level, block, size, inner.Books());
    }

    method EmptyLevel(level: nat)
      requires Valid() && level < cfg.L
      modifies this, inner.Objects()
      ensures Valid() && Unspent(old(heap), heap)
      ensures lazyList == old(lazyList)[level := []]
    {
      while lazyList[level] != []
        invariant Valid() && Unspent(old(heap), heap)
        invariant lazyList == old(lazyList)[level := lazyList[level]]
        decreases |lazyList[level]|
      {
        EmptyFirst(level);
      }
    }

    /**
     Empties the lazy lists: the free size does not change, nor what is live, and the subclass has every other
     block back.
     */
    method EmptyLazyList()
      requires Valid()
      modifies this, inner.Objects()
      ensures Valid() && Unspent(old(heap), heap) && FreeSize(heap) == FreeSize(old(heap))
      ensures forall l :: 0 <= l < cfg.L ==> lazyList[l] == []
      ensures heap.books.held == heap.live && heap.books.free == heap.idle
    {
      ghost var h := heap;
      EmptyLists();
      NothingCached(cfg, heap);
      SameFreeSize(cfg, h, heap);
    }

    method EmptyLists()
      requires Valid()
      modifies this, inner.Objects()
      ensures Valid() && Unspent(old(heap), heap)
      ensures forall l :: 0 <= l < cfg.L ==> lazyList[l] == []
    {
      var l := 0;
      while l < cfg.L
        invariant l <= cfg.L && Valid() && Unspent(old(heap), heap)
        invariant forall k :: 0 <= k < l ==> lazyList[k] == []
      {
        EmptyLevel(l);
        l := l + 1;
      }
    }

    /** `free_size`: the bytes in no live block, and what small requests have left uncounted. */
    method FreeSizeTotal() returns (total: int)
      requires Valid()
      ensures total == IdleBytes(cfg, heap.idle) + heap.drift
    {
      var sizes := inner.FreeSizes();
      var inRegions := Total(sizes);
      total := inRegions + lazySize;
    }
  }

  /** Every region is free as a whole. */
  ghost predicate AllEmpty(cfg: Config, books: Books, n: nat)
    requires cfg.Ok()
  {
    books.Cover(n) && forall r {:trigger books.held[r]} :: 0 <= r < n ==>
      books.held[r] == map[] && books.free[r] == Interval(0, RegionCells(cfg.L)) && books.sizes[r] == cfg.MaxSize()
  }

  lemma LiveIsHeld(cfg: Config, h: Heap, b: Block)
    requires Inv(cfg, h) && b.region < |h.live| && b.start in h.live[b.region]
    ensures b.region < |h.books.held| && b.start in h.books.held[b.region]
    ensures h.books.held[b.region][b.start] == h.live[b.region][b.start] < cfg.L
  {
    assert RegionOk(cfg.L, h.books.held[b.region], h.live[b.region], h.books.free[b.region], h.idle[b.region]);
  }

  lemma LevelIsFreed(cfg: Config, h: Heap, b: Block, l: nat)
    requires Inv(cfg, h) && b.region < |h.live| && HasBlock(h.live[b.region], b.start, l) && l < cfg.L
    ensures MayFree(cfg, h, Some(b), cfg.SizeOfLevel(l))
  {
    BlockSizeLevel(cfg, l);
    assert cfg.SizeOfLevel(cfg.L - 1) == cfg.MinSize();
    SizeOfLevelMono(cfg, l, cfg.L - 1);
  }

  lemma LiveNotFree(cfg: Config, h: Heap, b: Block)
    requires Inv(cfg, h) && b.region < |h.live| && b.start in h.live[b.region]
    ensures var l := h.live[b.region][b.start];
      && b.region < |h.books.free| && IsBlock(cfg.L, b.start, l) && HasBlock(h.books.held[b.region], b.start, l)
      && forall d: nat :: d in Cells(cfg.L, b.start, l) ==> d !in h.books.free[b.region]
  {
    var r := b.region;
    assert RegionOk(cfg.L, h.books.held[r], h.live[r], h.books.free[r], h.idle[r]);
    RegionReturned(cfg.L, h.books.held[r], h.live[r], h.books.free[r], h.idle[r], b.start);
  }

  /** The heap after the subclass has been asked for a block. */
  lemma AfterTaking(cfg: Config, charge: Charge, h: Heap, size: nat, result: Outcome<Block>, books: Books)
    returns (h': Heap)
    requires Inv(cfg, h) && size <= cfg.MaxSize() && h.lazy[LevelFor(cfg, size)] == []
    requires result.OutOfBounds? <==> Overruns(cfg, charge, h.books.free, size)
    requires result.OutOfBounds? ==> books == h.books
    requires result.Answer? ==> Booked(cfg, charge, h.books, books, size, result.block)
    ensures Inv(cfg, h') && BuddyRuns.Allocate(cfg, charge, h, h', size, result)
    ensures h'.books == books && h'.lazy == h.lazy && h'.lazySize == h.lazySize && |h'.live| == |h.live|
  {
    if result.OutOfBounds? || result.block.None? {
      h' := h;
    } else {
      h' := TakeFresh(cfg, charge, h, size, result.block.value, books);
    }
    AllocateInv(cfg, charge, h, h', size, result);
  }

  /** The heap after the first cached block of level `l` has been given back. */
  lemma Emptied(cfg: Config, h: Heap, l: nat, b: Block, size: nat, books: Books) returns (h': Heap)
    requires Inv(cfg, h) && l < cfg.L && h.lazy[l] != [] && b == h.lazy[l][0] && size == cfg.SizeOfLevel(l)
    requires b.region < |h.books.free| && Unbooked(cfg, h.books, books, b, l)
    ensures Inv(cfg, h') && EmptyOne(cfg, h, h', l) && Unspent(h, h') && h'.books == books
    ensures h'.lazy == h.lazy[l := h.lazy[l][1..]] && h'.lazySize == h.lazySize - size
  {
    h' := Uncache(cfg, h, l, books);
    EmptyInv(cfg, h, h', l);
  }

  /** The heap after the live block `b` has been given back. */
  lemma GivenBack(cfg: Config, thresholds: seq<nat>, h: Heap, b: Block, bytes: nat, books: Books) returns (h': Heap)
    requires Inv(cfg, h) && MayFree(cfg, h, Some(b), bytes) && |thresholds| == cfg.L && b.region < |h.live|
    requires var l := LevelFor(cfg, Clamped(cfg, bytes));
      |h.lazy[l]| >= thresholds[l] && Unbooked(cfg, h.books, books, b, l)
    ensures Inv(cfg, h') && BuddyRuns.Deallocate(cfg, thresholds, h, h', Some(b), bytes)
    ensures h'.books == books && h'.lazy == h.lazy && h'.lazySize == h.lazySize && |h'.live| == |h.live|
  {
    h' := GiveBack(cfg, h, b, bytes, books);
    DeallocateInv(cfg, thresholds, h, h', Some(b), bytes);
  }

  lemma FirstCached(cfg: Config, h: Heap, l: nat)
    requires Inv(cfg, h) && l < cfg.L && h.lazy[l] != []
    ensures h.lazy[l][0].region < |h.live| == |h.idle|
  {
    assert Cached(h, l, 0);
  }

  lemma CachedNotFree(cfg: Config, h: Heap, l: nat)
    requires Inv(cfg, h) && l < cfg.L && h.lazy[l] != []
    ensures var b := h.lazy[l][0];
      && b.region < |h.books.free| && IsBlock(cfg.L, b.start, l) && HasBlock(h.books.held[b.region], b.start, l)
      && forall d: nat :: d in Cells(cfg.L, b.start, l) ==> d !in h.books.free[b.region]
  {
    var b := h.lazy[l][0];
    var r := b.region;
    assert Cached(h, l, 0);
    assert RegionOk(cfg.L, h.books.held[r], h.live[r], h.books.free[r], h.idle[r]);
    RegionEmptied(cfg.L, h.books.held[r], h.live[r], h.books.free[r], h.idle[r], b.start);
  }
}
