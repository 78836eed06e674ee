/**
 iBuddy (ibuddy.cpp).  Every free cell is in exactly one list of its region; blocks are taken by
 popping from the topmost non-empty list and unlinking the cells of the block one by one.
 */
module IBuddy {
  import opened Powers
  import opened BuddyGeometry
  import opened BuddySpec
  import opened BlockSets
  import opened BlockBits
  import opened Options
  import opened IBuddyModel
  import opened FreeLists

  /** Bit `block_index` is set when a cell of the block is listed at exactly the level of the block. */
  ghost predicate BitsMatch(L: nat, bits: seq<bool>, lv: Listing)
    requires L > 0
  {
    |bits| == Pow2(L) &&
    forall c: nat, l: nat :: c < RegionCells(L) && 0 < l < L ==>
      BlockIndex(L, c, l) < |bits| && (bits[BlockIndex(L, c, l)] <==> Marked(L, lv, c, l))
  }

  /** The bit the freeing loop tests tells whether the buddy is wholly free. */
  lemma BuddyBit(L: nat, bits: seq<bool>, lv: Listing, c: nat, l: nat)
    requires Inv(L, lv) && BitsMatch(L, bits, lv)
    requires 0 < l < L && c < RegionCells(L) && c !in lv
    ensures BuddyIndex(L, c, l) < |bits|
    ensures bits[BuddyIndex(L, c, l)] <==> BlockFree(L, lv, BuddyCell(L, c, l), l)
  {
    Buddy(L, c, l);
    MarkedIffFree(L, lv, c, BuddyCell(L, c, l), l);
  }

  /** Freeing `c` frees the block of a level above exactly when the buddy is wholly free too. */
  lemma FreeWithBuddy(L: nat, lv: Listing, c: nat, l: nat)
    requires 0 < l < L && c < RegionCells(L)
    requires BlockFree(L, lv[c := l], c, l)
    requires c !in lv
    ensures BlockFree(L, lv[c := l - 1], c, l - 1) <==> BlockFree(L, lv, BuddyCell(L, c, l), l)
    ensures BlockFree(L, lv[c := l], c, l - 1) <==> BlockFree(L, lv, BuddyCell(L, c, l), l)
  {
    Buddy(L, c, l);
    var b := BuddyCell(L, c, l);
    if BlockFree(L, lv, b, l) {
      assert forall d: nat :: d < RegionCells(L) && SameBlock(L, c, d, l - 1) ==>
        SameBlock(L, c, d, l) || SameBlock(L, b, d, l);
    } else {
      var d: nat :| d < RegionCells(L) && SameBlock(L, b, d, l) && d !in lv;
      assert SameBlock(L, c, d, l - 1) && d != c;
    }
  }

  lemma BitsAfterFree(L: nat, bits: seq<bool>, lv: Listing, c: nat, l: nat)
    requires L > 0 && BitsMatch(L, bits, lv)
    requires c < RegionCells(L) && c !in lv && l < L
    ensures BlockIndex(L, c, l) < |bits|
    ensures BitsMatch(L, if l > 0 then bits[BlockIndex(L, c, l) := true] else bits, lv[c := l])
  {
    BlockIndexBound(L, c, l);
    var bits' := if l > 0 then bits[BlockIndex(L, c, l) := true] else bits;
    forall b: nat, m: nat | b < RegionCells(L) && 0 < m < L
      ensures BlockIndex(L, b, m) < |bits| && (bits'[BlockIndex(L, b, m)] <==> Marked(L, lv[c := l], b, m))
    {
      MarksAfterFree(L, lv, c, l, b, m);
      BlockIndexInjective(L, c, l, b, m);
    }
  }

  /** The bitmap, the top level and the free size of a region agree with its lists. */
  ghost predicate Good(cfg: Config, bits: seq<bool>, top: nat, size: nat, lv: Listing)
    requires cfg.Ok()
  {
    && Inv(cfg.L, lv)
    && BitsMatch(cfg.L, bits, lv)
    && top <= cfg.L
    && (forall c :: c in lv ==> top <= lv[c])
    && size == FreeBytes(cfg, lv.Keys)
  }

  /** Listing the freed cell `c` at the highest level that has become wholly free. */
  lemma FreeStep(cfg: Config, bits: seq<bool>, top: nat, size: nat, lv: Listing, c: nat, l: nat)
    requires cfg.Ok() && Good(cfg, bits, top, size, lv)
    requires c < RegionCells(cfg.L) && c !in lv && l < cfg.L
    requires BlockFree(cfg.L, lv[c := l], c, l)
    requires l > 0 ==> !BlockFree(cfg.L, lv[c := l], c, l - 1)
    ensures BlockIndex(cfg.L, c, l) < |bits|
    ensures var bits' := if l > 0 then bits[BlockIndex(cfg.L, c, l) := true] else bits;
      Good(cfg, bits', if l < top then l else top, size + cfg.MinSize(), lv[c := l])
    ensures lv[c := l].Keys == lv.Keys + {c}
  {
    FreeCell(cfg.L, lv, c, l);
    BitsAfterFree(cfg.L, bits, lv, c, l);
    CountOneMore(cfg, lv, c, l);
  }

  lemma CountOneMore(cfg: Config, lv: Listing, c: nat, l: nat)
    requires cfg.Ok() && c !in lv && c < RegionCells(cfg.L)
    ensures lv[c := l].Keys == lv.Keys + {c}
    ensures FreeBytes(cfg, lv[c := l].Keys) == FreeBytes(cfg, lv.Keys) + cfg.MinSize()
  {
    CountStretch(lv.Keys, lv[c := l].Keys, c, c + 1, RegionCells(cfg.L));
  }

  /** No block fits when even the topmost list is too low. */
  lemma NothingFits(cfg: Config, lv: Listing, top: nat, size: nat, l: nat)
    requires cfg.Ok() && Inv(cfg.L, lv)
    requires top <= cfg.L && forall c :: c in lv ==> top <= lv[c]
    requires cfg.SizeOfLevel(top) < size && cfg.Fits(size, l)
    ensures !Serves(cfg.L, lv.Keys, l)
  {
    if Serves(cfg.L, lv.Keys, l) {
      var a: nat :| IsBlock(cfg.L, a, l) && Cells(cfg.L, a, l) <= lv.Keys;
      ServedIsFree(cfg.L, lv.Keys, a, l);
      TopIsLargest(cfg.L, lv, top, a, l);
      SizeOfLevelMono(cfg, top, l);
    }
  }

  /** The bits after taking the block of level `bl` around `c`, which was listed at level `top`. */
  ghost predicate BitsTaken(L: nat, bits: seq<bool>, bits': seq<bool>, c: nat, top: nat, bl: nat)
    requires L > 0 && bl < L
  {
    |bits'| == |bits| &&
    forall b: nat, m: nat :: b < RegionCells(L) && 0 < m < L && BlockIndex(L, b, m) < |bits| ==>
      (bits'[BlockIndex(L, b, m)] <==>
        bits[BlockIndex(L, b, m)] && !(m == top && SameBlock(L, c, b, m)) && !(m > bl && SameBlock(L, c, b, bl)))
  }

  lemma BitsAfterTake(L: nat, bits: seq<bool>, bits': seq<bool>, lv: Listing, c: nat, bl: nat)
    requires Inv(L, lv) && BitsMatch(L, bits, lv)
    requires c in lv && lv[c] <= bl < L
    requires forall d :: d in lv ==> lv[c] <= lv[d]
    requires BitsTaken(L, bits, bits', c, lv[c], bl)
    ensures BitsMatch(L, bits', Take(L, lv, c, bl))
  {
    forall b: nat, m: nat | b < RegionCells(L) && 0 < m < L
      ensures BlockIndex(L, b, m) < |bits'| && (bits'[BlockIndex(L, b, m)] <==> Marked(L, Take(L, lv, c, bl), b, m))
    {
      MarksAfterTake(L, lv, c, bl, b, m);
      if m == bl && SameBlock(L, c, b, bl) {
        NoMarkAtTaken(L, lv, c, bl, b);
      }
    }
  }

  /** The level of the block taken has no mark of its own unless the popped cell made it. */
  lemma NoMarkAtTaken(L: nat, lv: Listing, c: nat, bl: nat, b: nat)
    requires Inv(L, lv) && c in lv && lv[c] <= bl < L && b < RegionCells(L)
    requires SameBlock(L, c, b, bl)
    ensures Marked(L, lv, b, bl) ==> lv[c] == bl
  {
    if Marked(L, lv, b, bl) {
      var d :| ListedInBlock(L, lv, b, bl, d);
      assert SameBlock(L, c, d, bl);
    }
  }

  /** What `where` holds while the cells of the taken block are being unlinked. */
  ghost function Dropped(lv: Listing, c: nat, lo: nat, hi: nat): Listing {
    map d | d in lv && d != c && !Between(lo, hi, d) :: lv[d]
  }

  lemma DropOne(lv: Listing, c: nat, lo: nat, i: nat)
    requires lo <= i
    ensures Dropped(lv, c, lo, i) - {i} == Dropped(lv, c, lo, i + 1)
    ensures i == c ==> Dropped(lv, c, lo, i) == Dropped(lv, c, lo, i + 1)
    ensures i in Dropped(lv, c, lo, i) <==> i in lv && i != c
  {
    forall d: nat
      ensures Between(lo, i + 1, d) <==> Between(lo, i, d) || d == i
    {
    }
  }

  lemma DropAll(L: nat, lv: Listing, c: nat, bl: nat)
    requires L > 0 && bl < L && c < RegionCells(L)
    ensures var a := AlignLeft(L, c, bl); Dropped(lv, c, a, a + Span(L, bl)) == Take(L, lv, c, bl)
  {
    var a := AlignLeft(L, c, bl);
    AlignLeftIsBlock(L, c, bl);
    forall d: nat
      ensures Between(a, a + Span(L, bl), d) <==> SameBlock(L, c, d, bl)
    {
      BlockCells(L, a, bl, d);
    }
  }

  lemma TakenCells(L: nat, lv: Listing, c: nat, bl: nat)
    requires L > 0 && bl < L && c < RegionCells(L) && BlockFree(L, lv, c, bl)
    ensures TakenIn(L, lv.Keys, Take(L, lv, c, bl).Keys, bl, Some(AlignLeft(L, c, bl)))
  {
    var a := AlignLeft(L, c, bl);
    AlignLeftIsBlock(L, c, bl);
    BlockInside(L, a, bl);
    forall d: nat
      ensures d in Cells(L, a, bl) <==> SameBlock(L, c, d, bl)
    {
      BlockCells(L, a, bl, d);
    }
    forall d | d in Cells(L, a, bl)
      ensures d in lv.Keys
    {
      assert SameBlock(L, c, d, bl);
    }
  }

  /** Everything the successful branch of the allocation establishes. */
  lemma TakeStep(cfg: Config, bits: seq<bool>, bits': seq<bool>, size: nat, lv: Listing, c: nat, bl: nat)
    requires cfg.Ok() && Inv(cfg.L, lv) && BitsMatch(cfg.L, bits, lv) && size == FreeBytes(cfg, lv.Keys)
    requires c in lv && lv[c] <= bl < cfg.L
    requires forall d :: d in lv ==> lv[c] <= lv[d]
    requires BitsTaken(cfg.L, bits, bits', c, lv[c], bl)
    ensures size >= cfg.SizeOfLevel(bl)
    ensures Good(cfg, bits', lv[c], size - cfg.SizeOfLevel(bl), Take(cfg.L, lv, c, bl))
    ensures TakenIn(cfg.L, lv.Keys, Take(cfg.L, lv, c, bl).Keys, bl, Some(AlignLeft(cfg.L, c, bl)))
  {
    TakeBlock(cfg.L, lv, c, bl);
    BitsAfterTake(cfg.L, bits, bits', lv, c, bl);
    PoppedBlockFree(cfg.L, lv, c, bl);
    TakenCells(cfg.L, lv, c, bl);
    BytesOfBlock(cfg, Take(cfg.L, lv, c, bl).Keys, lv.Keys, AlignLeft(cfg.L, c, bl), bl);
  }

  lemma PoppedBlockFree(L: nat, lv: Listing, c: nat, bl: nat)
    requires Inv(L, lv) && c in lv && lv[c] <= bl < L
    ensures BlockFree(L, lv, c, bl)
  {
    assert BlockFree(L, lv, c, lv[c]);
    forall d: nat | d < RegionCells(L) && SameBlock(L, c, d, bl)
      ensures d in lv
    {
      SameBlockUp(L, c, d, bl, lv[c]);
    }
  }

  class Region {
    const cfg: Config
    const links: Links
    var freeBlocks: seq<bool>
    var topLevel: nat
    var freeSize: nat
    ghost var free: set<nat>

    ghost predicate Valid()
      reads this, links
    {
      Linked() && free == links.where.Keys
    }

    /** The bitmap, the top level and the free size agree with the lists. */
    ghost predicate Linked()
      reads this, links
    {
      && cfg.Ok()
      && links.Valid() && links.cells == RegionCells(cfg.L) && links.levels == cfg.L
      && Good(cfg, freeBlocks, topLevel, freeSize, links.where)
    }

    constructor Empty(cfg: Config)
      requires cfg.Ok()
      ensures Valid() && fresh(links)
      ensures this.cfg == cfg
      ensures free == Interval(0, RegionCells(cfg.L))
    {
      var cells := RegionCells(cfg.L);
      this.cfg := cfg;
      this.links := new Links(cells, cfg.L);
      this.freeBlocks := seq(Pow2(cfg.L), i => i % 2 == 0);
      this.topLevel := 0;
      this.freeSize := cfg.MaxSize();
      this.free := Interval(0, RegionCells(cfg.L));
      new;
      ListAll();
      InitialListingInv(cfg.L);
      InitialBits(cfg.L);
      assert InitialListing(cfg.L).Keys == Interval(0, RegionCells(cfg.L));
      AllFree(cfg);
    }

    /** A region with every cell allocated. */
    constructor Full(cfg: Config)
      requires cfg.Ok()
      ensures Valid() && fresh(links)
      ensures this.cfg == cfg
      ensures free == {}
    {
      this.cfg := cfg;
      this.links := new Links(RegionCells(cfg.L), cfg.L);
      this.freeBlocks := seq(Pow2(cfg.L), i => false);
      this.topLevel := 0;
      this.freeSize := 0;
      this.free := {};
      new;
      NothingListed(cfg, freeBlocks);
    }

    /** The constructor's loop over the levels. */
    method ListAll()
      requires cfg.Ok()
      requires links.Valid() && links.cells == RegionCells(cfg.L) && links.levels == cfg.L
      requires links.where == map[]
      modifies links
      ensures links.Valid() && links.where == InitialListing(cfg.L)
    {
      var lvl: nat := cfg.L - 1;
      NothingBelow(cfg.L);
      while lvl > 0
        invariant lvl < cfg.L
        invariant links.Valid()
        invariant links.where == ListedBelow(cfg.L, lvl)
      {
        ListLevel(lvl);
        lvl := lvl - 1;
      }
      FirstCellLast(cfg.L);
      links.PushBack(0, 0);
    }

    method ListLevel(lvl: nat)
      requires 0 < lvl < cfg.L && cfg.Ok()
      requires links.Valid() && links.cells == RegionCells(cfg.L) && links.levels == cfg.L
      requires links.where == ListedBelow(cfg.L, lvl)
      modifies links
      ensures links.Valid()
      ensures links.where == ListedBelow(cfg.L, lvl - 1)
    {
      var step := 2 * Span(cfg.L, lvl);
      var i := Span(cfg.L, lvl);
      FirstListed(cfg.L, lvl);
      ghost var q := 0;
      while i < links.cells
        invariant links.Valid()
        invariant i == RightHalfStart(cfg.L, lvl, q)
        invariant links.where == ListedUpTo(cfg.L, lvl, i)
        decreases links.cells - i
      {
        NextListed(cfg.L, lvl, q);
        links.PushBack(lvl, i);
        i := i + step;
        q := q + 1;
      }
      LevelListed(cfg.L, lvl, i);
    }

    /** Climbs from cell `c` while the buddy's bit says that the buddy is wholly free. */
    method HighestFreeLevel(c: nat) returns (level: nat, blockIdx: nat)
      requires Valid() && c < RegionCells(cfg.L) && c !in free
      ensures level < cfg.L && blockIdx == BlockIndex(cfg.L, c, level)
      ensures BlockFree(cfg.L, links.where[c := level], c, level)
      ensures level > 0 ==> !BlockFree(cfg.L, links.where[c := level], c, level - 1)
    {
      var L := cfg.L;
      level := L - 1;
      blockIdx := BlockIndex(L, c, level);
      var buddyIdx := BuddyIndex(L, c, level);
      CellAlone(L, links.where, c);
      BuddyBit(L, freeBlocks, links.where, c, level);
      while level > 0 && freeBlocks[buddyIdx]
        invariant level < L
        invariant blockIdx == BlockIndex(L, c, level)
        invariant level > 0 ==> buddyIdx == BuddyIndex(L, c, level) && buddyIdx < |freeBlocks|
        invariant level > 0 ==> (freeBlocks[buddyIdx] <==> BlockFree(L, links.where, BuddyCell(L, c, level), level))
        invariant BlockFree(L, links.where[c := level], c, level)
      {
        FreeWithBuddy(L, links.where, c, level);
        level := level - 1;
        blockIdx := BlockIndex(L, c, level);
        if level > 0 {
          buddyIdx := BuddyIndex(L, c, level);
          BuddyBit(L, freeBlocks, links.where, c, level);
        }
      }
      if level > 0 {
        FreeWithBuddy(L, links.where, c, level);
      }
    }

    /** Frees the cell `c` and lists it at the highest level whose block has become wholly free. */
    method DeallocateSingle(c: nat)
      requires Valid() && c < RegionCells(cfg.L) && c !in free
      modifies this, links
      ensures Valid()
      ensures free == old(free) + {c}
    {
      var level, blockIdx := HighestFreeLevel(c);
      FreeStep(cfg, freeBlocks, topLevel, freeSize, links.where, c, level);
      links.PushBack(level, c);
      if level > 0 {
        freeBlocks := freeBlocks[blockIdx := true];
      }
      if level < topLevel {
        topLevel := level;
      }
      freeSize := freeSize + cfg.MinSize();
      free := free + {c};
    }

    /** Moves `_topLevel` down past the empty lists. */
    method LowerTop()
      requires Valid()
      modifies this`topLevel
      ensures Valid()
      ensures topLevel < cfg.L ==> links.lists[topLevel] != []
      ensures topLevel < cfg.L <==> free != {}
    {
      while topLevel < cfg.L
        invariant Valid()
      {
        var empty := links.IsEmpty(topLevel);
        if !empty {
          break;
        }
        links.NoneInList(topLevel);
        topLevel := topLevel + 1;
      }
      if topLevel < cfg.L {
        links.Listed(topLevel, 0);
      }
    }

    /** Clears the bits of all smaller blocks inside the block of level `bl` that starts at `left`. */
    method ClearSmaller(left: nat, bl: nat, newSize: nat)
      requires cfg.Ok() && IsBlock(cfg.L, left, bl) && newSize == cfg.SizeOfLevel(bl)
      requires |freeBlocks| == Pow2(cfg.L)
      modifies this`freeBlocks
      ensures ClearedBelow(cfg.L, old(freeBlocks), freeBlocks, left, bl, cfg.L)
    {
      var i := bl + 1;
      while i < cfg.L
        invariant bl < i <= cfg.L
        invariant |freeBlocks| == Pow2(cfg.L)
        invariant ClearedBelow(cfg.L, old(freeBlocks), freeBlocks, left, bl, i)
      {
        NumBlocksIs(cfg, bl, i);
        RunInside(cfg.L, left, bl, i);
        Pow2Mono(i + 1, cfg.L);
        ClearLevel(cfg.L, old(freeBlocks), freeBlocks, left, bl, i);
        ClearRun(BlockIndex(cfg.L, left, i), NumBlocks(cfg, newSize, i));
        i := i + 1;
      }
    }

    method ClearRun(start: nat, count: nat)
      requires start + count <= |freeBlocks|
      modifies this`freeBlocks
      ensures freeBlocks == Cleared(old(freeBlocks), start, start + count)
    {
      var j := start;
      while j < start + count
        invariant start <= j <= start + count
        invariant freeBlocks == Cleared(old(freeBlocks), start, j)
      {
        freeBlocks := freeBlocks[j := false];
        j := j + 1;
      }
    }

    /** Unlinks the cells of the block of level `bl` around `block`, which has been popped already. */
    method UnlinkBlock(block: nat, left: nat, bl: nat, cells: nat, ghost lv: Listing)
      requires links.Valid() && cfg.Ok() && bl < cfg.L
      requires links.where == lv - {block}
      requires block < RegionCells(cfg.L) && left == AlignLeft(cfg.L, block, bl) && cells == Span(cfg.L, bl)
      requires Cells(cfg.L, left, bl) <= lv.Keys
      modifies links
      ensures links.Valid()
      ensures links.where == Take(cfg.L, lv, block, bl)
    {
      var i := left;
      DropNone(lv, block, left);
      while i < left + cells
        invariant left <= i <= left + cells
        invariant links.Valid()
        invariant links.where == Dropped(lv, block, left, i)
      {
        DropOne(lv, block, left, i);
        if i != block {
          assert i in Cells(cfg.L, left, bl);
          links.Remove(i);
        }
        i := i + 1;
      }
      DropAll(cfg.L, lv, block, bl);
    }

    /** Takes a block for `size` bytes from the topmost list, or reports that none fits. */
    method Allocate(size: nat) returns (r: Outcome<nat>)
      requires Valid() && size <= cfg.MaxSize()
      modifies this, links
      ensures Valid()
      ensures r.OutOfBounds? <==> size <= cfg.SizeOfLevel(cfg.L) && old(free) == {}
      ensures r.OutOfBounds? || r == Answer(None) ==> free == old(free) && freeSize == old(freeSize)
      ensures r.Answer? ==> TakenIn(cfg.L, old(free), free, LevelFor(cfg, size), r.block)
      ensures r.Answer? ==>
        freeSize == old(freeSize) - if r.block.Some? then cfg.SizeOfLevel(LevelFor(cfg, size)) else 0
    {
      LowerTop();
      if cfg.SizeOfLevel(topLevel) < size {
        NothingFits(cfg, links.where, topLevel, size, LevelFor(cfg, size));
        return Answer(None);
      }
      if topLevel == cfg.L {
        return OutOfBounds;
      }
      var left := AllocateTop(size);
      free := links.where.Keys;
      TakeBytes(cfg, old(free), free, left, size);
      return Answer(Some(left));
    }

    method AllocateTop(size: nat) returns (left: nat)
      requires Valid() && size <= cfg.MaxSize()
      requires topLevel < cfg.L && links.lists[topLevel] != [] && size <= cfg.SizeOfLevel(topLevel)
      modifies this`freeBlocks, this`topLevel, this`freeSize, links
      ensures Linked()
      ensures TakenIn(cfg.L, old(links.where.Keys), links.where.Keys, LevelFor(cfg, size), Some(left))
    {
      ghost var lv := links.where;
      ghost var bits := freeBlocks;
      var level := topLevel;
      var block := links.PopFirst(level);
      var blockLevel := FindSmallestBlockLevel(cfg, size);
      TopReaches(cfg, size, level, blockLevel);
      OneBit(cfg.L, bits, block, level);
      left := AlignLeft(cfg.L, block, blockLevel);
      freeBlocks := freeBlocks[BlockIndex(cfg.L, block, level) := false];
      if size <= cfg.MinSize() {
        SmallestBlock(cfg, size, lv, block, blockLevel);
        TakeStep(cfg, bits, freeBlocks, freeSize, lv, block, blockLevel);
        freeSize := freeSize - cfg.MinSize();
        left := block;
        return;
      }
      TakeLarge(size, block, blockLevel, left, lv, bits);
    }

    /** `block` has been popped off the top list of `lv` and its bit of `bits` cleared. */
    ghost predicate Popped(block: nat, lv: Listing, bits: seq<bool>)
      reads this, links
    {
      && cfg.Ok() && links.Valid() && links.cells == RegionCells(cfg.L) && links.levels == cfg.L
      && Good(cfg, bits, topLevel, freeSize, lv)
      && block in lv && block < RegionCells(cfg.L) && lv[block] == topLevel < cfg.L && links.where == lv - {block}
      && (forall d :: d in lv ==> lv[block] <= lv[d])
      && BitsTaken(cfg.L, bits, freeBlocks, block, topLevel, cfg.L - 1)
    }

    /** The rest of the block around it is taken off the lists and the bitmap. */
    method TakeLarge(size: nat, block: nat, blockLevel: nat, left: nat, ghost lv: Listing, ghost bits: seq<bool>)
      requires Popped(block, lv, bits) && cfg.MinSize() < size <= cfg.MaxSize()
      requires topLevel <= blockLevel == LevelFor(cfg, size) && left == AlignLeft(cfg.L, block, blockLevel)
      modifies this`freeBlocks, this`freeSize, links
      ensures Linked()
      ensures TakenIn(cfg.L, lv.Keys, links.where.Keys, blockLevel, Some(left))
    {
      var newSize := RoundUpPow2(size);
      RoundUpIsBlockSize(cfg, size, blockLevel);
      NumBlocksIs(cfg, blockLevel, blockLevel);
      AlignLeftIsBlock(cfg.L, block, blockLevel);
      PoppedBlockFree(cfg.L, lv, block, blockLevel);
      TakenCells(cfg.L, lv, block, blockLevel);
      ghost var bits' := freeBlocks;
      ClearSmaller(left, blockLevel, newSize);
      UnlinkBlock(block, left, blockLevel, Quot(newSize, cfg.MinSize()), lv);
      AllBits(cfg.L, bits, bits', freeBlocks, block, topLevel, blockLevel);
      TakeStep(cfg, bits, freeBlocks, freeSize, lv, block, blockLevel);
      freeSize := freeSize - newSize;
    }
  }

  lemma OneBit(L: nat, bits: seq<bool>, c: nat, l: nat)
    requires l < L && c < RegionCells(L) && |bits| == Pow2(L)
    ensures BlockIndex(L, c, l) < |bits|
    ensures BitsTaken(L, bits, bits[BlockIndex(L, c, l) := false], c, l, L - 1)
  {
    BlockIndexBound(L, c, l);
    forall b: nat, m: nat | b < RegionCells(L) && 0 < m < L
      ensures BlockIndex(L, b, m) == BlockIndex(L, c, l) <==> m == l && SameBlock(L, c, b, m)
    {
      BlockIndexInjective(L, b, m, c, l);
    }
  }

  lemma AllBits(L: nat, bits: seq<bool>, bits': seq<bool>, bits'': seq<bool>, c: nat, l: nat, bl: nat)
    requires bl < L && c < RegionCells(L)
    requires BitsTaken(L, bits, bits', c, l, L - 1)
    requires ClearedBelow(L, bits', bits'', AlignLeft(L, c, bl), bl, L)
    ensures BitsTaken(L, bits, bits'', c, l, bl)
  {
    AlignLeftIsBlock(L, c, bl);
  }

  lemma SmallestBlock(cfg: Config, size: nat, lv: Listing, c: nat, bl: nat)
    requires cfg.Ok() && size <= cfg.MinSize() && cfg.Fits(size, bl) && c < RegionCells(cfg.L)
    ensures bl == cfg.L - 1 && AlignLeft(cfg.L, c, bl) == c && cfg.SizeOfLevel(bl) == cfg.MinSize()
    ensures Take(cfg.L, lv, c, bl) == lv - {c}
  {
    FitsUnique(cfg, size, bl, cfg.L - 1);
    forall d: nat
      ensures SameBlock(cfg.L, c, d, bl) <==> c == d
    {
      LevelLast(cfg.L, c);
      LevelLast(cfg.L, d);
    }
  }

  lemma NothingListed(cfg: Config, bits: seq<bool>)
    requires cfg.Ok() && bits == seq(Pow2(cfg.L), i => false)
    ensures Good(cfg, bits, 0, 0, map[])
  {
    var lv: Listing := map[];
    forall c: nat, m: nat | m < cfg.L && c < RegionCells(cfg.L)
      ensures !BlockFree(cfg.L, lv, c, m)
    {
      assert SameBlock(cfg.L, c, c, m);
    }
    forall c: nat, l: nat | c < RegionCells(cfg.L) && 0 < l < cfg.L
      ensures BlockIndex(cfg.L, c, l) < |bits| && !Marked(cfg.L, lv, c, l)
    {
      BlockIndexBound(cfg.L, c, l);
    }
    CountNone(RegionCells(cfg.L));
    assert lv.Keys == {};
  }

  lemma DropNone(lv: Listing, c: nat, lo: nat)
    ensures Dropped(lv, c, lo, lo) == lv - {c}
  {
    forall d: nat
      ensures !Between(lo, lo, d)
    {
    }
  }

  lemma TopReaches(cfg: Config, size: nat, top: nat, bl: nat)
    requires cfg.Ok() && top < cfg.L && size <= cfg.SizeOfLevel(top) && cfg.Fits(size, bl)
    ensures top <= bl
  {
    if bl < top {
      SizeOfLevelMono(cfg, bl + 1, top);
    }
  }

  lemma CellAlone(L: nat, lv: Listing, c: nat)
    requires L > 0
    ensures BlockFree(L, lv[c := L - 1], c, L - 1)
  {
    var lv' := lv[c := L - 1];
    LevelLast(L, c);
    forall d: nat | d < RegionCells(L) && SameBlock(L, c, d, L - 1)
      ensures d in lv'
    {
      LevelLast(L, d);
    }
  }

  /** The part of the initial listing below level `l`. */
  ghost function ListedBelow(L: nat, l: nat): Listing
    requires L > 0
  {
    map c | c in InitialListing(L) && InitialListing(L)[c] > l :: InitialListing(L)[c]
  }

  /** That part together with the cells of level `l` before `i`. */
  ghost function ListedUpTo(L: nat, l: nat, i: nat): Listing
    requires L > 0
  {
    map c | c in InitialListing(L) && (InitialListing(L)[c] > l || (InitialListing(L)[c] == l && c < i)) ::
      InitialListing(L)[c]
  }

  lemma InitialCells(L: nat)
    requires L > 0
    ensures InitialListing(L).Keys == Interval(0, RegionCells(L))
    ensures forall c :: c in InitialListing(L) ==> InitialListing(L)[c] < L
  {
    forall c: nat | c < RegionCells(L)
      ensures c in InitialListing(L) && InitialListing(L)[c] < L
    {
      InitialLevel(L, c, L - 1);
    }
  }

  lemma NothingBelow(L: nat)
    requires L > 0
    ensures ListedBelow(L, L - 1) == map[]
  {
    InitialCells(L);
  }

  /** Only the first cell is listed at the top level. */
  lemma FirstCellLast(L: nat)
    requires L > 0
    ensures 0 !in ListedBelow(L, 0) && ListedBelow(L, 0)[0 := 0] == InitialListing(L)
  {
    InitialCells(L);
    forall c: nat | c < RegionCells(L)
      ensures InitialListing(L)[c] == 0 <==> c == 0
    {
      InitialLevel(L, c, 0);
      LevelZero(L, c);
      ShlZero(L - 1);
    }
  }

  lemma LevelListed(L: nat, l: nat, i: nat)
    requires 0 < l < L && RegionCells(L) <= i
    ensures ListedUpTo(L, l, i) == ListedBelow(L, l - 1)
  {
    InitialCells(L);
  }

  /** The `q`-th right half of level `l`. */
  ghost function RightHalfStart(L: nat, l: nat, q: nat): nat
    requires l < L
  {
    Shl(2 * q + 1, L - 1 - l)
  }

  /** The cells listed at level `l > 0` in an empty region are the starts of the right halves. */
  lemma ListedAtLevel(L: nat, c: nat, l: nat)
    requires 0 < l < L && c < RegionCells(L)
    ensures c in InitialListing(L)
    ensures InitialListing(L)[c] == l <==> Aligned(L, c, l) && InLevel(L, c, l) % 2 == 1
  {
    InitialLevel(L, c, l);
    InitialLevel(L, c, l - 1);
    AlignedHalf(L, c, l);
  }

  lemma FirstListed(L: nat, l: nat)
    requires 0 < l < L
    ensures RightHalfStart(L, l, 0) == Span(L, l)
    ensures ListedUpTo(L, l, Span(L, l)) == ListedBelow(L, l)
  {
    Pow2Add(0, L - 1 - l);
    InitialCells(L);
    forall c | c in InitialListing(L) && c < Span(L, l)
      ensures InitialListing(L)[c] != l
    {
      ListedAtLevel(L, c, l);
      if InitialListing(L)[c] == l {
        ShlMono(1, InLevel(L, c, l), L - 1 - l);
      }
    }
  }

  /** Right halves of one level come one block pair apart. */
  lemma NextListed(L: nat, l: nat, q: nat)
    requires 0 < l < L && RightHalfStart(L, l, q) < RegionCells(L)
    ensures var i := RightHalfStart(L, l, q);
      && RightHalfStart(L, l, q + 1) == i + 2 * Span(L, l)
      && i !in ListedUpTo(L, l, i)
      && ListedUpTo(L, l, i)[i := l] == ListedUpTo(L, l, i + 2 * Span(L, l))
  {
    var k := L - 1 - l;
    var i := RightHalfStart(L, l, q);
    ShlMono(2 * q + 1, 2 * q + 1, k);
    ShlMono(2 * q + 2, 2 * q + 2, k);
    ShrShl(2 * q + 1, k);
    ListedAtLevel(L, i, l);
    forall c | c in InitialListing(L) && i < c < i + 2 * Span(L, l)
      ensures InitialListing(L)[c] != l
    {
      NotListedBetween(L, l, q, c);
    }
    OneMoreListed(L, l, i, i + 2 * Span(L, l));
  }

  lemma NotListedBetween(L: nat, l: nat, q: nat, c: nat)
    requires 0 < l < L && c in InitialListing(L) && RightHalfStart(L, l, q) < c < RightHalfStart(L, l, q + 1)
    ensures InitialListing(L)[c] != l
  {
    InitialCells(L);
    ListedAtLevel(L, c, l);
    if InitialListing(L)[c] == l {
      BetweenRights(InLevel(L, c, l), q, L - 1 - l);
    }
  }

  lemma OneMoreListed(L: nat, l: nat, i: nat, j: nat)
    requires L > 0 && i < j
    requires i in InitialListing(L) && InitialListing(L)[i] == l
    requires forall c :: c in InitialListing(L) && i < c < j ==> InitialListing(L)[c] != l
    ensures i !in ListedUpTo(L, l, i)
    ensures ListedUpTo(L, l, i)[i := l] == ListedUpTo(L, l, j)
  {
    var before, after := ListedUpTo(L, l, i), ListedUpTo(L, l, j);
    forall c | c in InitialListing(L)
      ensures c in after <==> c in before || c == i
    {
    }
    assert after.Keys == before.Keys + {i};
  }

  lemma BetweenRights(j: nat, q: nat, k: nat)
    requires Shl(2 * q + 1, k) < Shl(j, k) < Shl(2 * q + 3, k)
    ensures j == 2 * q + 2
  {
    if j <= 2 * q + 1 {
      ShlMono(j, 2 * q + 1, k);
    } else if j >= 2 * q + 3 {
      ShlMono(2 * q + 3, j, k);
    }
  }

  lemma InitialBits(L: nat)
    requires L > 0
    ensures BitsMatch(L, seq(Pow2(L), i => i % 2 == 0), InitialListing(L))
  {
    forall c: nat, l: nat | c < RegionCells(L) && 0 < l < L
      ensures BlockIndex(L, c, l) < Pow2(L) && (BlockIndex(L, c, l) % 2 == 0 <==> Marked(L, InitialListing(L), c, l))
    {
      BlockIndexBound(L, c, l);
      InitialMarks(L, c, l);
    }
  }

  ghost predicate SizesExact(cfg: Config, books: Books)
    requires cfg.Ok()
  {
    |books.sizes| == |books.free| && forall i :: 0 <= i < |books.free| ==>
      books.sizes[i] == FreeBytes(cfg, books.free[i])
  }

  /** Any free cell serves a request below half the smallest block. */
  lemma TinyServed(cfg: Config, size: nat, free: set<nat>)
    requires cfg.Ok() && size <= cfg.SizeOfLevel(cfg.L) && size <= cfg.MaxSize()
    requires forall c :: c in free ==> c < RegionCells(cfg.L)
    ensures free != {} ==> Serves(cfg.L, free, LevelFor(cfg, size))
  {
    RoundUpBelowBlockSize(cfg, size);
    FitsUnique(cfg, size, LevelFor(cfg, size), cfg.L - 1);
    if free != {} {
      var c :| c in free;
      LevelLast(cfg.L, c);
      assert IsBlock(cfg.L, c, cfg.L - 1) && Cells(cfg.L, c, cfg.L - 1) <= free;
    }
  }

  /** When the free sizes are exact, a block that comes back adds its size. */
  lemma ReturnedSizes(cfg: Config, pre: Books, post: Books, b: Block, l: nat)
    requires cfg.Ok() && SizesExact(cfg, pre) && SizesExact(cfg, post) && IsBlock(cfg.L, b.start, l)
    requires Returned(cfg.L, pre.free, post.free, l, b)
    requires forall d: nat :: d in Cells(cfg.L, b.start, l) ==> d !in pre.free[b.region]
    ensures post.sizes == pre.sizes[b.region := pre.sizes[b.region] + cfg.SizeOfLevel(l)]
  {
    BytesOfBlock(cfg, pre.free[b.region], post.free[b.region], b.start, l);
    forall i | 0 <= i < |pre.free|
      ensures post.sizes[i] == pre.sizes[b.region := pre.sizes[b.region] + cfg.SizeOfLevel(l)][i]
    {
      assert i != b.region ==> post.free[i] == pre.free[i];
    }
  }

  /** The two regions share no state. */
  ghost predicate Unshared(r: Region, s: Region) {
    r != s && r.links != s.links
  }

  class IBuddyAllocator {
    const cfg: Config
    const regions: seq<Region>
    /** The regions and all that belongs to them. */
    ghost const repr: set<object>
    /** Blocks in use are written down as they are taken and returned; the code does not need them. */
    ghost var books: Books

    ghost predicate Valid()
      reads this, repr
    {
      ValidBut(|regions|)
    }

    /** The books are right, except perhaps those of region `r`. */
    ghost predicate ValidBut(r: nat)
      reads this, repr
    {
      && cfg.Ok() && books.Cover(|regions|) && this !in repr
      && (forall i :: 0 <= i < |regions| ==> regions[i] in repr && regions[i].links in repr)
      && (forall i :: 0 <= i < |regions| ==> regions[i].cfg == cfg && regions[i].Valid())
      && (forall i :: 0 <= i < |regions| && i != r ==>
        books.free[i] == regions[i].free && books.sizes[i] == regions[i].freeSize)
      && (forall i, j :: 0 <= i < |regions| && 0 <= j < |regions| && i != j ==> Unshared(regions[i], regions[j]))
    }

    /** An allocator over the given regions, which are made of the objects in `repr`. */
    constructor (cfg: Config, regions: seq<Region>, ghost repr: set<object>)
      requires cfg.Ok()
      requires forall i :: 0 <= i < |regions| ==> regions[i].cfg == cfg && regions[i].Valid()
      requires forall i :: 0 <= i < |regions| ==> regions[i] in repr && regions[i].links in repr
      requires forall i, j :: 0 <= i < |regions| && 0 <= j < |regions| && i != j ==> Unshared(regions[i], regions[j])
      ensures Valid() && this.cfg == cfg && this.regions == regions && this.repr == repr
      ensures books.held == seq(|regions|, i => map[])
    {
      this.cfg := cfg;
      this.regions := regions;
      this.repr := repr;
      this.books := Books(
        seq(|regions|, i requires 0 <= i < |regions| reads regions => regions[i].free),
        seq(|regions|, i requires 0 <= i < |regions| reads regions => regions[i].freeSize),
        seq(|regions|, i => map[]));
    }

    /** Copies what region `r` now holds. */
    ghost method Refresh(r: nat, held: Blocks)
      requires r < |regions| && ValidBut(r)
      modifies this`books
      ensures Valid()
      ensures books == Books(
        old(books).free[r := regions[r].free], old(books).sizes[r := regions[r].freeSize], old(books).held[r := held])
    {
      books := Books(books.free[r := regions[r].free], books.sizes[r := regions[r].freeSize], books.held[r := held]);
    }

    /** One region's turn. */
    method AllocateIn(r: nat, size: nat) returns (block: Outcome<nat>)
      requires Valid() && r < |regions| && size <= cfg.MaxSize()
      modifies this`books, regions[r], regions[r].links
      ensures Valid()
      ensures block.OutOfBounds? <==> size <= cfg.SizeOfLevel(cfg.L) && old(books).free[r] == {}
      ensures block.OutOfBounds? ==> books == old(books)
      ensures block == Answer(None) ==> books == old(books) && !Serves(cfg.L, books.free[r], LevelFor(cfg, size))
      ensures block.Answer? && block.block.Some? ==>
        BookedAt(cfg, ByBlock, old(books), books, size, r, block.block.value)
    {
      block := Turn(r, size);
      if block.Answer? && block.block.Some? {
        Refresh(r, With(books.held[r], block.block.value, LevelFor(cfg, size)));
      }
    }

    /** The call itself: the other regions are as they were. */
    method Turn(r: nat, size: nat) returns (block: Outcome<nat>)
      requires Valid() && r < |regions| && size <= cfg.MaxSize()
      modifies regions[r], regions[r].links
      ensures ValidBut(r) && (block.OutOfBounds? || block == Answer(None) ==> Valid())
      ensures block.OutOfBounds? <==> size <= cfg.SizeOfLevel(cfg.L) && old(books).free[r] == {}
      ensures block.OutOfBounds? ==> regions[r].free == books.free[r] && regions[r].freeSize == books.sizes[r]
      ensures block.Answer? ==> TakenIn(cfg.L, books.free[r], regions[r].free, LevelFor(cfg, size), block.block)
      ensures block == Answer(None) ==> regions[r].freeSize == books.sizes[r]
      ensures block.Answer? && block.block.Some? ==>
        regions[r].freeSize == books.sizes[r] - cfg.SizeOfLevel(LevelFor(cfg, size))
    {
      block := regions[r].Allocate(size);
      forall i | 0 <= i < |regions| && i != r
        ensures regions[i].Valid() && regions[i].free == old(regions[i].free)
        ensures regions[i].freeSize == old(regions[i].freeSize)
      {
        assert Unshared(regions[i], regions[r]);
      }
    }

    /**
     Asks the regions in turn, every lock being free.  Down to half the smallest block a request is always
     answered.  For less the first region decides: if it is exhausted the request runs out of bounds.
     */
    method AllocateInternal(size: nat) returns (result: Outcome<Block>)
      requires Valid() && size <= cfg.MaxSize()
      modifies this`books, repr
      ensures Valid()
      ensures result.OutOfBounds? <==> size <= cfg.SizeOfLevel(cfg.L) && |regions| > 0 && old(books).free[0] == {}
      ensures result.OutOfBounds? ==> books == old(books)
      ensures result.Answer? ==> Booked(cfg, ByBlock, old(books), books, size, result.block)
    {
      var r := 0;
      while r < |regions|
        invariant r <= |regions|
        invariant Valid() && books == old(books)
        invariant r > 0 ==> !(size <= cfg.SizeOfLevel(cfg.L) && books.free[0] == {})
        invariant NoneUpTo(r, size)
      {
        result := Attempt(r, size);
        if result != Answer(None) {
          return;
        }
        r := r + 1;
      }
      return Answer(None);
    }

    /** No region before `r` can serve the request. */
    ghost predicate NoneUpTo(r: nat, size: nat)
      requires cfg.Ok() && size <= cfg.MaxSize() && r <= |books.free|
      reads this
    {
      forall q :: 0 <= q < r ==> !Serves(cfg.L, books.free[q], LevelFor(cfg, size))
    }

    /** One region's turn, after those before it could not serve the request. */
    method Attempt(r: nat, size: nat) returns (result: Outcome<Block>)
      requires Valid() && r < |regions| && size <= cfg.MaxSize() && NoneUpTo(r, size)
      requires r > 0 ==> !(size <= cfg.SizeOfLevel(cfg.L) && books.free[0] == {})
      modifies this`books, regions[r], regions[r].links
      ensures Valid()
      ensures result.OutOfBounds? <==> r == 0 && size <= cfg.SizeOfLevel(cfg.L) && old(books).free[r] == {}
      ensures result.OutOfBounds? || result == Answer(None) ==> books == old(books)
      ensures result == Answer(None) ==> NoneUpTo(r + 1, size)
      ensures result == Answer(None) && r == 0 ==> !(size <= cfg.SizeOfLevel(cfg.L) && books.free[0] == {})
      ensures result.Answer? && result.block.Some? ==>
        Booked(cfg, ByBlock, old(books), books, size, result.block)
    {
      if r > 0 && size <= cfg.SizeOfLevel(cfg.L) {
        TinyServed(cfg, size, books.free[0]);
      }
      var block := AllocateIn(r, size);
      if block.OutOfBounds? {
        return OutOfBounds;
      }
      if block.block.None? {
        return Answer(None);
      }
      return Answer(Some(Block(r, block.block.value)));
    }

    method DeallocateIn(r: nat, c: nat)
      requires Valid() && r < |regions| && c < RegionCells(cfg.L) && c !in books.free[r]
      modifies this`books, regions[r], regions[r].links
      ensures Valid() && books.held == old(books).held
      ensures books.free == old(books).free[r := old(books).free[r] + {c}]
    {
      regions[r].DeallocateSingle(c);
      forall i | 0 <= i < |regions| && i != r
        ensures regions[i].Valid() && regions[i].free == old(regions[i].free)
        ensures regions[i].freeSize == old(regions[i].freeSize)
      {
        assert Unshared(regions[i], regions[r]);
      }
      Refresh(r, books.held[r]);
    }

    /** Frees the whole cells of the byte range `[start, start + size)`, one by one. */
    method DeallocateRange(start: nat, size: nat)
      requires Valid()
      requires forall g: nat :: InBytes(cfg, start, size, g) ==>
        RegionOf(cfg.L, g) < |regions| && !IsFree(cfg.L, books.free, g)
      modifies this`books, repr
      ensures Valid() && books.held == old(books).held
      ensures forall g: nat :: IsFree(cfg.L, books.free, g) <==>
        IsFree(cfg.L, old(books).free, g) || InBytes(cfg, start, size, g)
    {
      var lo, hi := CeilCells(cfg, start), FloorCells(cfg, start + size);
      WholeCells(cfg, start, size);
      var i := lo;
      while i < hi
        invariant lo <= i
        invariant i <= hi || i == lo
        invariant Valid() && books.held == old(books).held
        invariant forall g: nat :: IsFree(cfg.L, books.free, g) <==> IsFree(cfg.L, old(books).free, g) || lo <= g < i
      {
        ghost var before := books.free;
        assert !IsFree(cfg.L, before, i);
        DeallocateIn(RegionOf(cfg.L, i), CellOf(cfg.L, i));
        forall g: nat
          ensures IsFree(cfg.L, books.free, g) <==> IsFree(cfg.L, before, g) || g == i
        {
          FreedOne(cfg.L, before, books.free, i, g);
        }
        i := i + 1;
      }
    }

    lemma FreeInRegions()
      requires Valid()
      ensures InRegions(cfg.L, books.free)
    {
    }

    /** Returns a block of level `l`, cell by cell. */
    method DeallocateInternal(b: Block, size: nat, ghost l: nat)
      requires Valid() && b.region < |regions| && IsBlock(cfg.L, b.start, l) && size == cfg.SizeOfLevel(l)
      requires forall d: nat :: d in Cells(cfg.L, b.start, l) ==> d !in books.free[b.region]
      modifies this`books, repr
      ensures Valid() && Unbooked(cfg, old(books), books, b, l)
    {
      ghost var pre := books;
      SizesFollow();
      ReturnCells(b, size, l);
      SizesFollow();
      ReturnedSizes(cfg, pre, books, b, l);
      books := books.(held := books.held[b.region := Less(books.held[b.region], b.start)]);
    }

    /** The free sizes are those of the free cells. */
    lemma SizesFollow()
      requires Valid()
      ensures SizesExact(cfg, books)
    {
    }

    method ReturnCells(b: Block, size: nat, ghost l: nat)
      requires Valid() && b.region < |regions| && IsBlock(cfg.L, b.start, l) && size == cfg.SizeOfLevel(l)
      requires forall d: nat :: d in Cells(cfg.L, b.start, l) ==> d !in books.free[b.region]
      modifies this`books, repr
      ensures Valid() && books.held == old(books).held
      ensures Returned(cfg.L, old(books).free, books.free, l, b)
    {
      BlockRange(cfg, b, l);
      BlockInside(cfg.L, b.start, l);
      FreeInRegions();
      forall g | HeapCell(cfg.L, b) <= g < HeapCell(cfg.L, b) + Span(cfg.L, l)
        ensures RegionOf(cfg.L, g) < |regions| && !IsFree(cfg.L, books.free, g)
      {
        HeapCellIs(cfg.L, b, g - HeapCell(cfg.L, b));
      }
      BlockSizeLevel(cfg, l);
      SizeOfLevelMono(cfg, l, cfg.L);
      RoundUpIsBlockSize(cfg, size, l);
      DeallocateRange(Address(cfg, b), RoundUpPow2(size));
      FreeInRegions();
      ReturnedByCells(cfg.L, old(books).free, books.free, l, b);
    }
  }
}
