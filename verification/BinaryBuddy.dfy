/**
 The binary buddy (bbuddy.cpp).  Free blocks are listed by level, and each pair of buddies shares one
 bit that says whether exactly one of the two is listed.
 */
module BinaryBuddy {
  import opened Powers
  import opened BuddyGeometry
  import opened BuddySpec
  import opened Options
  import opened BlockSets
  import opened BlockBits
  import opened SplitBits
  import opened BinarySplitBits
  import opened BinaryBuddyModel
  import opened FreeLists

  /** The lists, the pair bits and the free cells of a region agree. */
  ghost predicate Good(cfg: Config, bits: seq<bool>, bs: Blocks, free: set<nat>)
    requires cfg.Ok()
  {
    Inv(cfg.L, bs, free) && PairBits(cfg.L, bits, bs)
  }

  /** The state of the search: `p` is listed at level `k`, and only it and its buddy may be a listed pair. */
  ghost predicate Searching(cfg: Config, bits: seq<bool>, bs: Blocks, free: set<nat>, p: nat, k: nat)
    requires cfg.Ok()
  {
    && k < cfg.L
    && Tiles(cfg.L, bs, free)
    && PairBits(cfg.L, bits, bs)
    && p in bs && bs[p] == k
    && (Canonical(cfg.L, bs) || (k > 0 && CanonicalBut(cfg.L, bs, p, k)))
  }

  /** One split: the pair bit of the block split is flipped, that of its halves is flipped twice. */
  lemma SplitStep(cfg: Config, bits: seq<bool>, bs: Blocks, free: set<nat>, x: nat, k: nat)
    requires cfg.Ok() && k + 1 < cfg.L && Searching(cfg, bits, bs, free, x, k)
    ensures PairIndex(cfg.L, x, k) < |bits|
    ensures var y := x + Span(cfg.L, k + 1); y < RegionCells(cfg.L) && y !in bs && y != x
    ensures Searching(cfg, if k > 0 then Flip(bits, PairIndex(cfg.L, x, k)) else bits, Split(cfg.L, bs, x, k), free,
      x, k + 1)
  {
    SplitCanonical(cfg.L, bs, free, x, k, x);
    SplitTiles(cfg.L, bs, free, x, k);
    SplitPairBits(cfg.L, bits, bs, x, k);
  }

  lemma SplitPairBits(L: nat, bits: seq<bool>, bs: Blocks, x: nat, k: nat)
    requires L > 0 && PairBits(L, bits, bs) && k + 1 < L && IsBlock(L, x, k)
    requires x in bs && bs[x] == k && x + Span(L, k + 1) !in bs
    ensures PairIndex(L, x, k) < |bits| && x + Span(L, k + 1) < RegionCells(L)
    ensures PairBits(L, if k > 0 then Flip(bits, PairIndex(L, x, k)) else bits, Split(L, bs, x, k))
  {
    RightHalf(L, x, k);
    FlipPair(L, bits, bs, bs - {x}, x, k);
    var bits1 := Flip(bits, PairIndex(L, x, k));
    ListPair(L, bits1, bs - {x}, x, k + 1, x + Span(L, k + 1));
    if k == 0 {
      RootBitUnread(L, bits, Split(L, bs, x, k), x);
    }
  }

  /** Listing both halves flips their bit twice. */
  lemma ListPair(L: nat, bits: seq<bool>, bs: Blocks, x: nat, l: nat, y: nat)
    requires L > 0 && PairBits(L, bits, bs) && 0 < l && IsBlock(L, x, l) && IsBlock(L, y, l)
    requires x != y && SameBlock(L, x, y, l - 1) && x !in bs && y !in bs
    ensures PairBits(L, bits, bs[x := l][y := l])
  {
    FlipPair(L, bits, bs, bs[x := l], x, l);
    var bits1 := Flip(bits, PairIndex(L, x, l));
    FlipPair(L, bits1, bs[x := l], bs[x := l][y := l], y, l);
    PairIndexInjective(L, x, l, y, l);
    assert Flip(bits1, PairIndex(L, y, l)) == bits;
  }

  /** The root's bit is nobody's pair bit. */
  lemma RootBitUnread(L: nat, bits: seq<bool>, bs: Blocks, x: nat)
    requires L > 0 && x < RegionCells(L) && |bits| == Pow2(L) && PairIndex(L, x, 0) < |bits|
    requires PairBits(L, Flip(bits, PairIndex(L, x, 0)), bs)
    ensures PairBits(L, bits, bs)
  {
    var bits' := Flip(bits, PairIndex(L, x, 0));
    LevelZero(L, x);
    forall c: nat, l: nat | c < RegionCells(L) && 0 < l < L
      ensures PairIndex(L, c, l) < |bits| &&
        (bits[PairIndex(L, c, l)] <==> HasListed(L, bs, c, l) != HasListed(L, bs, BuddyCell(L, c, l), l))
    {
      PairIndexIs(L, c, l);
      assert bits'[PairIndex(L, c, l)] == bits[PairIndex(L, c, l)];
    }
  }

  /** Taking the first block listed at the level of the request. */
  lemma TakeStep(cfg: Config, bits: seq<bool>, bs: Blocks, free: set<nat>, a: nat, l: nat)
    requires cfg.Ok() && Searching(cfg, bits, bs, free, a, l)
    ensures PairIndex(cfg.L, a, l) < |bits|
    ensures Good(cfg, Flip(bits, PairIndex(cfg.L, a, l)), bs - {a}, free - Cells(cfg.L, a, l))
    ensures TakenIn(cfg.L, free, free - Cells(cfg.L, a, l), l, Some(a))
  {
    TakeListed(cfg.L, bs, free, a, l);
    FlipPair(cfg.L, bits, bs, bs - {a}, a, l);
  }

  lemma WholeRegion(cfg: Config, bits: seq<bool>)
    requires cfg.Ok() && bits == seq(Pow2(cfg.L), i => false)
    ensures Good(cfg, bits, map[0 := 0], Cells(cfg.L, 0, 0))
  {
    WholeIsBlock(cfg.L);
    OneBlock(cfg.L, 0, 0);
    NoPairBits(cfg.L, bits, map[0 := 0]);
  }

  /** A region in which a single block is free. */
  lemma OneBlock(L: nat, a: nat, l: nat)
    requires IsBlock(L, a, l)
    ensures Inv(L, map[a := l], Cells(L, a, l))
  {
    var bs: Blocks := map[a := l];
    BlockInside(L, a, l);
    forall d: nat
      ensures d in Cells(L, a, l) <==> SameBlock(L, a, d, l)
    {
      BlockCells(L, a, l, d);
    }
    forall d | d in Cells(L, a, l)
      ensures d < RegionCells(L) && exists c :: Covers(L, bs, c, d)
    {
      assert Covers(L, bs, a, d);
    }
    if l > 0 {
      BuddyStart(L, a, l);
    }
  }

  lemma WholeIsBlock(L: nat)
    requires L > 0
    ensures IsBlock(L, 0, 0)
  {
    LevelZero(L, 0);
    ShlZero(L - 1);
  }

  lemma NoPairBits(L: nat, bits: seq<bool>, bs: Blocks)
    requires L > 0 && bits == seq(Pow2(L), i => false)
    requires forall c :: c in bs ==> bs[c] == 0
    ensures PairBits(L, bits, bs)
  {
    forall c: nat, l: nat | c < RegionCells(L) && 0 < l < L
      ensures PairIndex(L, c, l) < |bits| &&
        (bits[PairIndex(L, c, l)] <==> HasListed(L, bs, c, l) != HasListed(L, bs, BuddyCell(L, c, l), l))
    {
      PairIndexIs(L, c, l);
    }
  }

  lemma NothingFree(cfg: Config, bits: seq<bool>)
    requires cfg.Ok() && bits == seq(Pow2(cfg.L), i => false)
    ensures Good(cfg, bits, map[], {})
    ensures FreeBytes(cfg, {}) == 0
  {
    NoPairBits(cfg.L, bits, map[]);
    CountNone(RegionCells(cfg.L));
  }

  /** The highest-numbered level up to `l` whose list is not empty, or -1. */
  ghost function LastListed(lists: seq<seq<nat>>, l: nat): (k: int)
    requires l < |lists|
    ensures -1 <= k <= l
    ensures k >= 0 ==> lists[k] != []
    ensures forall m :: k < m <= l ==> lists[m] == []
  {
    if lists[l] != [] then l else if l == 0 then -1 else LastListed(lists, l - 1)
  }

  /** The merge loop's state: `block`, at `level`, counts as listed already. */
  ghost predicate Merging(cfg: Config, bits: seq<bool>, bs: Blocks, free: set<nat>, block: nat, level: nat)
    requires cfg.Ok()
  {
    && level < cfg.L
    && Tiles(cfg.L, bs, free)
    && block in bs && bs[block] == level
    && CanonicalBut(cfg.L, bs, block, level)
    && PairBits(cfg.L, bits, bs)
  }

  lemma MergeBegins(cfg: Config, bits: seq<bool>, bs: Blocks, free: set<nat>, a: nat, l: nat)
    requires cfg.Ok() && Good(cfg, bits, bs, free) && IsBlock(cfg.L, a, l)
    requires forall d: nat :: d in Cells(cfg.L, a, l) ==> d !in free
    ensures PairIndex(cfg.L, a, l) < |bits| && a !in bs
    ensures Merging(cfg, Flip(bits, PairIndex(cfg.L, a, l)), bs[a := l], free + Cells(cfg.L, a, l), a, l)
  {
    FreeBlockStart(cfg.L, bs, free, a, l);
    FlipPair(cfg.L, bits, bs, bs[a := l], a, l);
  }

  /** The bit the loop tests is clear exactly when the buddy is listed. */
  lemma MergeTest(cfg: Config, bits: seq<bool>, bs: Blocks, free: set<nat>, x: nat, l: nat)
    requires cfg.Ok() && Merging(cfg, bits, bs, free, x, l) && l > 0
    ensures var b := BuddyCell(cfg.L, x, l);
      && b < RegionCells(cfg.L) && PairIndex(cfg.L, b, l) < |bits|
      && (!bits[PairIndex(cfg.L, b, l)] <==> HasListed(cfg.L, bs, b, l))
      && (HasListed(cfg.L, bs, b, l) ==> b in bs && b != x)
  {
    PairBit(cfg.L, bits, bs, x, l);
    BuddyStart(cfg.L, x, l);
  }

  lemma MergeOnce(cfg: Config, bits: seq<bool>, bs: Blocks, free: set<nat>, x: nat, l: nat)
    requires cfg.Ok() && Merging(cfg, bits, bs, free, x, l) && l > 0
    requires HasListed(cfg.L, bs, BuddyCell(cfg.L, x, l), l)
    ensures var b := BuddyCell(cfg.L, x, l);
      var m := if b < x then b else x;
      && PairIndex(cfg.L, m, l - 1) < |bits|
      && Merging(cfg, if l - 1 > 0 then Flip(bits, PairIndex(cfg.L, m, l - 1)) else bits, Merge(bs, x, b, l), free,
        m, l - 1)
  {
    MergeStep(cfg.L, bs, free, x, l);
    MergeBits(cfg.L, bits, bs, x, l);
  }

  lemma MergeBits(L: nat, bits: seq<bool>, bs: Blocks, x: nat, l: nat)
    requires L > 0 && PairBits(L, bits, bs) && 0 < l && IsBlock(L, x, l)
    requires x in bs && bs[x] == l && BuddyCell(L, x, l) in bs && bs[BuddyCell(L, x, l)] == l
    ensures var b := BuddyCell(L, x, l);
      var m := if b < x then b else x;
      && PairIndex(L, m, l - 1) < |bits|
      && PairBits(L, if l - 1 > 0 then Flip(bits, PairIndex(L, m, l - 1)) else bits, Merge(bs, x, b, l))
  {
    var b := BuddyCell(L, x, l);
    var m := if b < x then b else x;
    Buddy(L, x, l);
    BuddyStart(L, x, l);
    MergeStart(L, x, l);
    UnlistPair(L, bits, bs, x, l, b);
    FlipPair(L, bits, bs - {x} - {b}, Merge(bs, x, b, l), m, l - 1);
    if l == 1 {
      RootBitUnread(L, bits, Merge(bs, x, b, l), m);
    }
  }

  /** Unlisting both halves flips their bit twice. */
  lemma UnlistPair(L: nat, bits: seq<bool>, bs: Blocks, x: nat, l: nat, y: nat)
    requires L > 0 && PairBits(L, bits, bs) && 0 < l && IsBlock(L, x, l) && IsBlock(L, y, l)
    requires x != y && SameBlock(L, x, y, l - 1)
    requires x in bs && bs[x] == l && y in bs && bs[y] == l
    ensures PairBits(L, bits, bs - {x} - {y})
  {
    FlipPair(L, bits, bs, bs - {x}, x, l);
    var bits1 := Flip(bits, PairIndex(L, x, l));
    FlipPair(L, bits1, bs - {x}, bs - {x} - {y}, y, l);
    PairIndexInjective(L, x, l, y, l);
    assert Flip(bits1, PairIndex(L, y, l)) == bits;
  }

  /** What the lists hold when the merged block is not yet listed. */
  lemma MergedLists(bs: Blocks, x: nat, b: nat, l: nat)
    requires l > 0 && x in bs && b in bs && x != b
    ensures var m := if b < x then b else x; bs - {x} - {b} == Merge(bs, x, b, l) - {m}
    ensures b in bs - {x}
  {
  }

  lemma Relisted(bs: Blocks, x: nat)
    requires x in bs
    ensures x !in bs - {x} && (bs - {x})[x := bs[x]] == bs
  {
  }

  lemma MergeEnds(cfg: Config, bits: seq<bool>, bs: Blocks, free: set<nat>, x: nat, l: nat)
    requires cfg.Ok() && Merging(cfg, bits, bs, free, x, l)
    requires l > 0 ==> !HasListed(cfg.L, bs, BuddyCell(cfg.L, x, l), l)
    ensures Good(cfg, bits, bs, free)
  {
    MergeStops(cfg.L, bs, x, l);
  }

  class Region {
    const cfg: Config
    const links: Links
    var freeBlocks: seq<bool>
    var split: seq<bool>
    var freeSize: nat
    ghost var free: set<nat>
    /** The blocks taken and not returned yet, and whether every block so far came back whole. */
    ghost var held: Blocks
    ghost var tracked: bool

    ghost predicate Valid()
      reads this, links
    {
      Grounded() && freeSize >= FreeBytes(cfg, free) && (tracked ==> InUse())
    }

    /** The blocks in use cover the cells that are not free. */
    ghost predicate InUse()
      requires cfg.Ok()
      reads this
    {
      LiveSet(cfg.L, held) && FreeCells(cfg.L, held, free)
    }

    ghost predicate Grounded()
      reads this, links
    {
      && (tracked ==> Tracked())
      && cfg.Ok() && |split| == Pow2(cfg.L - 1)
      && links.Valid() && links.cells == RegionCells(cfg.L) && links.levels == cfg.L
      && Good(cfg, freeBlocks, links.where, free)
    }

    /** The split bits are right: they are as long as blocks come back whole. */
    ghost predicate Tracked()
      reads this, links
    {
      Tracks(cfg.L, split, links.where, held)
    }

    /** The free size is the size of the free cells. */
    ghost predicate Accounted()
      requires cfg.Ok()
      reads this
    {
      freeSize == FreeBytes(cfg, free)
    }

    constructor Empty(cfg: Config)
      requires cfg.Ok()
      ensures Valid() && Accounted() && tracked && fresh(links)
      ensures this.cfg == cfg
      ensures free == Interval(0, RegionCells(cfg.L)) && held == map[]
    {
      this.cfg := cfg;
      this.links := new Links(RegionCells(cfg.L), cfg.L);
      this.freeBlocks := seq(Pow2(cfg.L), i => false);
      this.split := seq(Pow2(cfg.L - 1), i => false);
      this.held, this.tracked := map[], true;
      this.freeSize := cfg.MaxSize();
      this.free := Interval(0, RegionCells(cfg.L));
      new;
      links.PushBack(0, 0);
      WholeRegion(cfg, freeBlocks);
      WholeTracked(cfg.L, split);
      AllFree(cfg);
    }

    constructor Full(cfg: Config)
      requires cfg.Ok()
      ensures Valid() && Accounted() && fresh(links)
      ensures this.cfg == cfg
      ensures free == {}
    {
      this.cfg := cfg;
      this.links := new Links(RegionCells(cfg.L), cfg.L);
      this.freeBlocks := seq(Pow2(cfg.L), i => false);
      this.split := seq(Pow2(cfg.L - 1), i => true);
      this.held, this.tracked := map[], false;
      this.freeSize := 0;
      this.free := {};
      new;
      NothingFree(cfg, freeBlocks);
    }

    /** The block at `p` of level `k` is the first that the search will split, or take. */
    ghost predicate ListsSplitting(p: nat, k: nat)
      reads this, links
    {
      && cfg.Ok()
      && links.Valid() && links.cells == RegionCells(cfg.L) && links.levels == cfg.L
      && Searching(cfg, freeBlocks, links.where, free, p, k)
    }

    ghost predicate Splitting(p: nat, k: nat)
      reads this, links
    {
      ListsSplitting(p, k) && |split| == Pow2(cfg.L - 1) && (tracked ==> Tracked())
    }

    /** Takes the first block of level `k` off its list and lists its two halves one level down. */
    method SplitLists(k: nat) returns (block: nat)
      requires |links.lists| == cfg.L && k + 1 < cfg.L && links.lists[k] != [] && links.lists[k + 1] == []
      requires ListsSplitting(links.lists[k][0], k)
      modifies this`freeBlocks, links
      ensures |links.lists| == cfg.L && links.lists[k + 1] != []
      ensures ListsSplitting(links.lists[k + 1][0], k + 1)
      ensures forall l :: 0 <= l < cfg.L && l != k && l != k + 1 ==> links.lists[l] == old(links.lists)[l]
      ensures block < RegionCells(cfg.L) && block in old(links.where) && old(links.where)[block] == k
      ensures links.where == Split(cfg.L, old(links.where), block, k)
    {
      ghost var was := links.where;
      SplitStep(cfg, freeBlocks, was, free, links.lists[k][0], k);
      block := PushHalves(links, k, Span(cfg.L, k + 1));
      if k > 0 {
        freeBlocks := Flip(freeBlocks, MapIndex(BlockIndex(cfg.L, block, k)));
      }
      assert links.where == Split(cfg.L, was, block, k);
      assert links.lists[k + 1][0] == block;
    }

    /** Marks the block as split, which `listed` still lists as one. */
    method MarkSplit(block: nat, k: nat, ghost listed: Blocks)
      requires cfg.Ok() && |split| == Pow2(cfg.L - 1) && k + 1 < cfg.L && block < RegionCells(cfg.L)
      requires block in listed && listed[block] == k
      modifies this`split
      ensures |split| == |old(split)|
      ensures Tracks(cfg.L, old(split), listed, held) ==> Tracks(cfg.L, split, Split(cfg.L, listed, block, k), held)
    {
      SplitIndex(cfg.L, block, k);
      if Tracks(cfg.L, split, listed, held) {
        TracksSplit(cfg.L, split, listed, held, block, k);
      }
      split := split[BlockIndex(cfg.L, block, k) := true];
    }

    method SplitBlock(k: nat)
      requires |links.lists| == cfg.L && k + 1 < cfg.L && links.lists[k] != [] && links.lists[k + 1] == []
      requires Splitting(links.lists[k][0], k)
      modifies this`freeBlocks, this`split, links
      ensures |links.lists| == cfg.L && links.lists[k + 1] != []
      ensures Splitting(links.lists[k + 1][0], k + 1)
      ensures forall l :: 0 <= l < cfg.L && l != k && l != k + 1 ==> links.lists[l] == old(links.lists)[l]
    {
      ghost var listed := links.where;
      var block := SplitLists(k);
      MarkSplit(block, k, listed);
    }

    /** The lists from level `k` down to `start`: only that of level `k`, if there is one, holds a block. */
    ghost predicate Topped(start: nat, k: int)
      reads this, links
    {
      && |links.lists| == cfg.L && -1 <= k <= start < cfg.L
      && (if k >= 0 then links.lists[k] != [] && Splitting(links.lists[k][0], k) else Valid())
      && forall l :: k < l <= start ==> links.lists[l] == []
    }

    lemma SearchBegins(start: nat)
      requires Valid() && start < cfg.L
      ensures |links.lists| == cfg.L && Topped(start, LastListed(links.lists, start))
    {
      var k := LastListed(links.lists, start);
      if k >= 0 {
        links.Listed(k, 0);
      }
    }

    /** One split: the next list down is now the only one that holds a block. */
    method SplitDown(start: nat, k: nat)
      requires Topped(start, k) && k < start
      modifies this`freeBlocks, this`split, links
      ensures Topped(start, k + 1)
    {
      SplitBlock(k);
    }

    /**
       Splits larger blocks until one of level `start` is listed; gives up when no list at or above it holds a
       block.
     */
    method Search(start: nat) returns (found: bool)
      requires Valid() && start < cfg.L
      modifies this`freeBlocks, this`split, links
      ensures |links.lists| == cfg.L
      ensures found ==> links.lists[start] != [] && Splitting(links.lists[start][0], start)
      ensures !found ==> Valid() && !Serves(cfg.L, free, start)
    {
      var blockLevel := start;
      found := false;
      SearchBegins(start);
      ghost var k := LastListed(links.lists, start);
      while !found
        invariant blockLevel <= start && links.Valid() && Topped(start, k)
        invariant blockLevel > k || blockLevel == start
        invariant found ==> k == start
        decreases start - k, blockLevel, !found
      {
        var empty := links.IsEmpty(blockLevel);
        if !empty {
          found := true;
        } else if blockLevel > 0 {
          blockLevel := blockLevel - 1;
          empty := links.IsEmpty(blockLevel);
          if !empty {
            SplitDown(start, blockLevel);
            blockLevel := start;
            k := k + 1;
          }
        } else {
          break;
        }
      }
      if !found {
        NoneServes(start);
      }
    }

    lemma NoneServes(start: nat)
      requires Valid() && start < cfg.L && |links.lists| == cfg.L
      requires forall l :: 0 <= l <= start ==> links.lists[l] == []
      ensures !Serves(cfg.L, free, start)
    {
      links.NoneListed(start);
      ServesIffListed(cfg.L, links.where, free, start);
    }

    /** Takes the first block listed at level `l` off its list. */
    method TakeFirst(l: nat) returns (block: nat)
      requires l < cfg.L && |links.lists| == cfg.L && links.lists[l] != [] && ListsSplitting(links.lists[l][0], l)
      modifies this`freeBlocks, this`free, links
      ensures links.Valid() && links.cells == RegionCells(cfg.L) && links.levels == cfg.L
      ensures Good(cfg, freeBlocks, links.where, free) && TakenIn(cfg.L, old(free), free, l, Some(block))
      ensures block in old(links.where) && old(links.where)[block] == l && links.where == old(links.where) - {block}
    {
      TakeStep(cfg, freeBlocks, links.where, free, links.lists[l][0], l);
      block := links.PopFirst(l);
      freeBlocks := Flip(freeBlocks, MapIndex(BlockIndex(cfg.L, block, l)));
      free := free - Cells(cfg.L, block, l);
    }

    /** The listed block `block` is now in use. */
    ghost method Hold(block: nat, l: nat, listed: Blocks)
      requires cfg.Ok() && block in listed && listed[block] == l
      modifies this`held
      ensures held == With(old(held), block, l)
      ensures Tracks(cfg.L, split, listed, old(held)) ==> Tracks(cfg.L, split, listed - {block}, held)
    {
      if Tracks(cfg.L, split, listed, held) {
        TracksTaken(cfg.L, split, listed, held, block);
      }
      held := With(held, block, l);
    }

    method TakeBlock(l: nat) returns (block: nat)
      requires l < cfg.L && |links.lists| == cfg.L && links.lists[l] != [] && Splitting(links.lists[l][0], l)
      modifies this`freeBlocks, this`free, this`held, links
      ensures Grounded() && TakenIn(cfg.L, old(free), free, l, Some(block)) && held == With(old(held), block, l)
    {
      ghost var listed := links.where;
      block := TakeFirst(l);
      Hold(block, l, listed);
    }

    /** Takes a block for `size` bytes. */
    method Allocate(size: nat) returns (r: Option<nat>)
      requires Valid() && size <= cfg.MaxSize()
      modifies this, links
      ensures Valid()
      ensures TakenIn(cfg.L, old(free), free, LevelFor(cfg, size), r)
      ensures freeSize == old(freeSize) - if r.Some? then RoundUpPow2(size) else 0
      ensures old(Accounted()) ==> (Accounted() <==> r.None? || size > cfg.SizeOfLevel(cfg.L))
      ensures held == if r.Some? then With(old(held), r.value, LevelFor(cfg, size)) else old(held)
      ensures tracked == old(tracked)
    {
      var start := FindSmallestBlockLevel(cfg, size);
      var found := Search(start);
      if !found {
        return None;
      }
      var block := TakeBlock(start);
      TakeBytes(cfg, old(free), free, block, size);
      if tracked {
        ServedIsFree(cfg.L, old(free), block, start);
        AddLive(cfg.L, old(held), old(free), block, start);
      }
      freeSize := freeSize - RoundUpPow2(size);
      return Some(block);
    }

    /** `get_level` without a size: the block in use at `a` starts below the lowest split block above it. */
    method GetLevel(a: nat) returns (level: nat)
      requires Valid() && tracked && cfg.HasSplitBits() && a in held
      ensures level == held[a]
    {
      var parts := Parts(links.where, held);
      assert a in parts && parts[a] == held[a];
      level := cfg.L - 1;
      while level > 0
        invariant level < cfg.L && held[a] <= level
      {
        LevelOfHeld(cfg.L, split, links.where, held, a, level - 1);
        if split[BlockIndex(cfg.L, a, level - 1)] {
          return level;
        }
        level := level - 1;
      }
    }

    /** The lists while the block at `block` of level `level`, which counts as listed in `bs`, is being merged. */
    ghost predicate ListsMerging(bs: Blocks, block: nat, level: nat)
      reads this, links
    {
      && cfg.Ok()
      && links.Valid() && links.cells == RegionCells(cfg.L) && links.levels == cfg.L
      && links.where == bs - {block}
      && Merging(cfg, freeBlocks, bs, free, block, level)
    }

    ghost predicate MergingAt(bs: Blocks, block: nat, level: nat)
      reads this, links
    {
      && ListsMerging(bs, block, level) && |split| == Pow2(cfg.L - 1)
      && (tracked ==> TracksSave(cfg.L, split, bs, held, block, level))
    }

    /** Merges the block with its buddies for as long as they are listed. */
    method MergeUp(start: nat, startLevel: nat, ghost whole: Blocks) returns (block: nat, level: nat, ghost bs: Blocks)
      requires MergingAt(whole, start, startLevel)
      modifies this`freeBlocks, this`split, links
      ensures MergingAt(bs, block, level)
      ensures level > 0 ==> !HasListed(cfg.L, bs, BuddyCell(cfg.L, block, level), level)
    {
      block, level, bs := start, startLevel, whole;
      var buddy := if level == 0 then block else BuddyCell(cfg.L, block, level);
      if level > 0 {
        MergeTest(cfg, freeBlocks, bs, free, block, level);
      }
      while level > 0 && !freeBlocks[MapIndex(BlockIndex(cfg.L, buddy, level))]
        invariant MergingAt(bs, block, level)
        invariant level > 0 ==> buddy == BuddyCell(cfg.L, block, level) && PairIndex(cfg.L, buddy, level) < |freeBlocks|
        invariant level > 0 ==> (!freeBlocks[PairIndex(cfg.L, buddy, level)] <==> HasListed(cfg.L, bs, buddy, level))
      {
        block, bs := MergeRound(block, level, buddy, bs);
        level := level - 1;
        if level > 0 {
          buddy := BuddyCell(cfg.L, block, level);
          MergeTest(cfg, freeBlocks, bs, free, block, level);
        }
      }
    }

    /** One round of the loop. */
    method MergeRound(left: nat, level: nat, buddy: nat, ghost bs: Blocks) returns (block: nat, ghost joined: Blocks)
      requires MergingAt(bs, left, level) && 0 < level && buddy == BuddyCell(cfg.L, left, level)
      requires HasListed(cfg.L, bs, buddy, level)
      modifies this`freeBlocks, this`split, links
      ensures MergingAt(joined, block, level - 1)
    {
      MergeTest(cfg, freeBlocks, bs, free, left, level);
      BuddyStart(cfg.L, left, level);
      ClearBelow(left, level, bs);
      block, joined := MergePair(left, level, buddy, bs);
    }

    /** Joins the block and its listed buddy. */
    method MergePair(left: nat, level: nat, buddy: nat, ghost bs: Blocks) returns (block: nat, ghost joined: Blocks)
      requires ListsMerging(bs, left, level) && 0 < level && buddy == BuddyCell(cfg.L, left, level)
      requires HasListed(cfg.L, bs, buddy, level) && buddy in bs && buddy != left
      modifies this`freeBlocks, links
      ensures ListsMerging(joined, block, level - 1)
      ensures block == (if buddy < left then buddy else left) && joined == Merge(bs, left, buddy, level)
    {
      MergeOnce(cfg, freeBlocks, bs, free, left, level);
      MergedLists(bs, left, buddy, level);
      joined := Merge(bs, left, buddy, level);
      links.Remove(buddy);
      block := if buddy < left then buddy else left;
      if level - 1 > 0 {
        freeBlocks := Flip(freeBlocks, MapIndex(BlockIndex(cfg.L, block, level - 1)));
      }
    }

    /** Clears the split bit of the block that is about to be joined with its buddy. */
    method ClearBelow(block: nat, level: nat, ghost bs: Blocks)
      requires cfg.Ok() && |split| == Pow2(cfg.L - 1) && 0 < level < cfg.L && block < RegionCells(cfg.L)
      requires block in bs && bs[block] == level
      requires var b := BuddyCell(cfg.L, block, level); b in bs && bs[b] == level && b != block
      modifies this`split
      ensures |split| == |old(split)|
      ensures var b := BuddyCell(cfg.L, block, level);
        TracksSave(cfg.L, old(split), bs, held, block, level) ==>
          TracksSave(cfg.L, split, Merge(bs, block, b, level), held, if b < block then b else block, level - 1)
    {
      SplitIndex(cfg.L, block, level);
      if TracksSave(cfg.L, split, bs, held, block, level) {
        TracksMerge(cfg.L, split, bs, held, block, level);
      }
      if level < cfg.L - 1 {
        split := split[BlockIndex(cfg.L, block, level) := false];
      }
    }

    /** Clears the split bit of the block at which the merge ends. */
    method ClearLast(block: nat, level: nat, ghost bs: Blocks)
      requires cfg.Ok() && |split| == Pow2(cfg.L - 1) && level < cfg.L && block < RegionCells(cfg.L)
      requires block in bs && bs[block] == level
      modifies this`split
      ensures |split| == |old(split)|
      ensures TracksSave(cfg.L, old(split), bs, held, block, level) ==> Tracks(cfg.L, split, bs, held)
    {
      SplitIndex(cfg.L, block, level);
      if TracksSave(cfg.L, split, bs, held, block, level) {
        TracksDone(cfg.L, split, bs, held, block, level);
      }
      if level < cfg.L - 1 {
        split := split[BlockIndex(cfg.L, block, level) := false];
      }
    }

    /** The block is no longer in use, and counts as listed in `bs`. */
    ghost method Release(start: nat, l: nat, listed: Blocks)
      requires cfg.Ok() && start !in listed
      modifies this`held
      ensures held == Less(old(held), start)
      ensures start in old(held) && old(held)[start] == l && Tracks(cfg.L, split, listed, old(held)) ==>
        TracksSave(cfg.L, split, listed[start := l], held, start, l)
    {
      if start in held && held[start] == l && Tracks(cfg.L, split, listed, held) {
        TracksGiven(cfg.L, split, listed, held, start);
      }
      held := Less(held, start);
    }

    /** Gives the block back: joins it with its buddies and lists the result. */
    method MergeBlock(start: nat, level: nat, ghost whole: Blocks)
      requires MergingAt(whole, start, level)
      modifies this`freeBlocks, this`split, links
      ensures Grounded()
    {
      var block, top, bs := MergeUp(start, level, whole);
      ClearLast(block, top, bs);
      ListMerged(block, top, bs);
    }

    /** Lists the block at which the merge has ended. */
    method ListMerged(block: nat, level: nat, ghost bs: Blocks)
      requires ListsMerging(bs, block, level)
      requires level > 0 ==> !HasListed(cfg.L, bs, BuddyCell(cfg.L, block, level), level)
      modifies links
      ensures links.Valid() && links.cells == RegionCells(cfg.L) && links.levels == cfg.L
      ensures Good(cfg, freeBlocks, links.where, free) && links.where == bs
    {
      MergeEnds(cfg, freeBlocks, bs, free, block, level);
      Relisted(bs, block);
      links.PushBack(level, block);
    }

    method ClearRun(start: nat, count: nat)
      requires start + count <= |split|
      modifies this`split
      ensures split == Cleared(old(split), start, start + count)
    {
      var j := start;
      while j < start + count
        invariant start <= j <= start + count
        invariant split == Cleared(old(split), start, j)
      {
        split := split[j := false];
        j := j + 1;
      }
    }

    /** Clears the split bits of all smaller blocks inside the block at `a`; the smallest have none. */
    method ClearSmaller(a: nat, size: nat, l: nat)
      requires cfg.Ok() && IsBlock(cfg.L, a, l) && size == cfg.SizeOfLevel(l) && |split| == Pow2(cfg.L - 1)
      modifies this`split
      ensures ClearedBelow(cfg.L, old(split), split, a, l, cfg.L - 1)
    {
      var i := l + 1;
      while i < cfg.L
        invariant l < i <= cfg.L && |split| == Pow2(cfg.L - 1)
        invariant ClearedBelow(cfg.L, old(split), split, a, l, if i < cfg.L then i else cfg.L - 1)
      {
        if i < cfg.L - 1 {
          NumBlocksIs(cfg, l, i);
          RunInside(cfg.L, a, l, i);
          Pow2Mono(i + 1, cfg.L - 1);
          ClearLevel(cfg.L, old(split), split, a, l, i);
          ClearRun(BlockIndex(cfg.L, a, i), NumBlocks(cfg, size, i));
        }
        i := i + 1;
      }
    }

    /** What `deallocate_range` does to the size map before it returns the block of level `l` at `a`. */
    method ClearInside(a: nat, size: nat, l: nat)
      requires cfg.Ok() && IsBlock(cfg.L, a, l) && size == cfg.SizeOfLevel(l) && |split| == Pow2(cfg.L - 1)
      modifies this`split
      ensures ClearedIn(cfg.L, old(split), split, a, l)
    {
      ClearSmaller(a, size, l);
      ClearsAll(cfg.L, old(split), split, a, l);
      SplitIndex(cfg.L, a, l);
      if l < cfg.L - 1 {
        split := split[BlockIndex(cfg.L, a, l) := false];
      }
    }

    /** The blocks in use inside the block at `a` count as one from here on, if none is cut. */
    ghost method Join(a: nat, l: nat, was: seq<bool>)
      requires cfg.Ok() && IsBlock(cfg.L, a, l) && ClearedIn(cfg.L, was, split, a, l)
      requires forall d: nat :: d in Cells(cfg.L, a, l) ==> d !in free
      requires Good(cfg, freeBlocks, links.where, free)
      requires tracked ==> Tracks(cfg.L, was, links.where, held) && InUse()
      modifies this`held, this`tracked
      ensures tracked ==> Tracked() && InUse()
      ensures tracked == (old(tracked) && NoneCut(cfg.L, old(held), a, l))
      ensures held == if tracked then AsOne(cfg.L, old(held), a, l) else old(held)
    {
      if tracked && NoneCut(cfg.L, held, a, l) {
        TracksAsOne(cfg.L, was, split, links.where, held, free, a, l);
        held := AsOne(cfg.L, held, a, l);
      } else {
        tracked := false;
      }
    }

    /** One piece of a range: the bits inside are cleared and it is returned, whatever blocks it is made of. */
    method DeallocatePart(a: nat, size: nat, l: nat)
      requires Valid() && IsBlock(cfg.L, a, l) && size == cfg.SizeOfLevel(l)
      requires forall d: nat :: d in Cells(cfg.L, a, l) ==> d !in free
      modifies this, links
      ensures Valid()
      ensures free == old(free) + Cells(cfg.L, a, l)
      ensures freeSize == old(freeSize) + size
      ensures old(Accounted()) ==> Accounted()
      ensures tracked == (old(tracked) && NoneCut(cfg.L, old(held), a, l))
      ensures tracked ==> held == Outside(cfg.L, old(held), a, l)
    {
      Prepare(a, size, l);
      LessOne(cfg.L, old(held), a, l);
      Deallocate(a, size, l);
    }

    method Prepare(a: nat, size: nat, l: nat)
      requires Valid() && IsBlock(cfg.L, a, l) && size == cfg.SizeOfLevel(l)
      requires forall d: nat :: d in Cells(cfg.L, a, l) ==> d !in free
      modifies this`split, this`held, this`tracked
      ensures Valid()
      ensures tracked == (old(tracked) && NoneCut(cfg.L, old(held), a, l))
      ensures held == if tracked then AsOne(cfg.L, old(held), a, l) else old(held)
    {
      ghost var was := split;
      ClearInside(a, size, l);
      Join(a, l, was);
    }

    /** Returns the block of level `l` at `start`. */
    method Deallocate(start: nat, size: nat, ghost l: nat)
      requires Valid() && IsBlock(cfg.L, start, l) && size == cfg.SizeOfLevel(l)
      requires forall d: nat :: d in Cells(cfg.L, start, l) ==> d !in free
      modifies this, links
      ensures Valid()
      ensures free == old(free) + Cells(cfg.L, start, l)
      ensures freeSize == old(freeSize) + size
      ensures old(Accounted()) ==> Accounted()
      ensures held == Less(old(held), start)
      ensures tracked == (old(tracked) && HasBlock(old(held), start, l))
    {
      BlockSizeLevel(cfg, l);
      var level := FindSmallestBlockLevel(cfg, size);
      MergeBegins(cfg, freeBlocks, links.where, free, start, level);
      freeBlocks := Flip(freeBlocks, MapIndex(BlockIndex(cfg.L, start, level)));
      BytesOfBlock(cfg, free, free + Cells(cfg.L, start, l), start, l);
      free := free + Cells(cfg.L, start, l);
      freeSize := freeSize + size;
      Unlisted(links.where, start, level);
      tracked := tracked && HasBlock(held, start, l);
      if tracked {
        RemoveLive(cfg.L, held, old(free), start);
      }
      Release(start, level, links.where);
      MergeBlock(start, level, links.where[start := level]);
    }
  }

  lemma SplitIndex(L: nat, x: nat, k: nat)
    requires k < L && x < RegionCells(L)
    ensures k + 1 < L ==> BlockIndex(L, x, k) < Pow2(L - 1)
  {
    BlockIndexBound(L, x, k);
    if k + 1 < L {
      Pow2Mono(k + 1, L - 1);
    }
  }

  /** Clearing the smaller blocks, and then the block itself. */
  lemma ClearsAll(L: nat, split: seq<bool>, split': seq<bool>, a: nat, l: nat)
    requires L > 0 && IsBlock(L, a, l) && |split| == Pow2(L - 1)
    requires ClearedBelow(L, split, split', a, l, L - 1)
    ensures l + 1 == L ==> ClearedIn(L, split, split', a, l)
    ensures l + 1 < L ==>
      BlockIndex(L, a, l) < |split| && ClearedIn(L, split, split'[BlockIndex(L, a, l) := false], a, l)
  {
    SplitIndex(L, a, l);
    var split'' := if l + 1 < L then split'[BlockIndex(L, a, l) := false] else split';
    forall c: nat, m: nat {:trigger ClearedAt(L, split, split'', a, l, c, m)} | c < RegionCells(L) && m + 1 < L
      ensures ClearedAt(L, split, split'', a, l, c, m)
    {
      SplitIndex(L, c, m);
      if l + 1 < L {
        SplitUpdate(L, split', c, m, a, l, false);
      }
    }
  }

  lemma WholeTracked(L: nat, split: seq<bool>)
    requires L > 0 && split == seq(Pow2(L - 1), i => false)
    ensures Tracks(L, split, map[0 := 0], map[])
  {
    WholeIsBlock(L);
    var parts := Parts(map[0 := 0], map[]);
    assert parts == map[0 := 0];
    forall c: nat, l: nat {:trigger SplitAt(L, split, parts, c, l)} | c < RegionCells(L) && l + 1 < L
      ensures SplitAt(L, split, parts, c, l)
    {
      SplitIndex(L, c, l);
    }
  }

  lemma Unlisted(bs: Blocks, x: nat, l: nat)
    requires x !in bs
    ensures bs == bs[x := l] - {x}
  {
  }

  class BinaryBuddyAllocator {
    const cfg: Config
    const regions: seq<Region>
    /** The regions and all that belongs to them. */
    ghost const repr: set<object>
    ghost var books: Books
    /** Whether every block so far came back whole. */
    ghost var tracked: bool

    ghost predicate Valid()
      reads this, repr
    {
      ValidBut(|regions|)
    }

    /** The books are right, except perhaps those of region `r`. */
    ghost predicate ValidBut(r: nat)
      reads this, repr
    {
      && cfg.Ok() && books.Cover(|regions|) && this !in repr
      && (forall i :: 0 <= i < |regions| ==> regions[i] in repr && regions[i].links in repr)
      && (forall i :: 0 <= i < |regions| ==>
        regions[i].cfg == cfg && regions[i].Valid() && (tracked ==> regions[i].tracked))
      && (forall i :: 0 <= i < |regions| && i != r ==>
        books.free[i] == regions[i].free && books.sizes[i] == regions[i].freeSize && books.held[i] == regions[i].held)
      && (forall i, j :: 0 <= i < j < |regions| ==> regions[i] != regions[j] && regions[i].links != regions[j].links)
    }

    /** An allocator over the given regions, which are made of the objects in `repr`. */
    constructor (cfg: Config, regions: seq<Region>, ghost repr: set<object>)
      requires cfg.Ok()
      requires forall i :: 0 <= i < |regions| ==> regions[i].cfg == cfg && regions[i].Valid() && regions[i].tracked
      requires forall i :: 0 <= i < |regions| ==> regions[i] in repr && regions[i].links in repr
      requires forall i, j ::
        0 <= i < j < |regions| ==> regions[i] != regions[j] && regions[i].links != regions[j].links
      ensures Valid() && tracked && this.cfg == cfg && this.regions == regions && this.repr == repr
    {
      this.cfg := cfg;
      this.regions := regions;
      this.repr := repr;
      this.books := Books(
        seq(|regions|, i requires 0 <= i < |regions| reads regions => regions[i].free),
        seq(|regions|, i requires 0 <= i < |regions| reads regions => regions[i].freeSize),
        seq(|regions|, i requires 0 <= i < |regions| reads regions => regions[i].held));
      this.tracked := true;
    }

    /** Copies what region `r` now holds. */
    ghost method Refresh(r: nat)
      requires r < |regions| && ValidBut(r)
      modifies this`books
      ensures Valid()
      ensures books == Books(
        old(books).free[r := regions[r].free], old(books).sizes[r := regions[r].freeSize],
          old(books).held[r := regions[r].held])
    {
      books := Books(books.free[r := regions[r].free], books.sizes[r := regions[r].freeSize],
        books.held[r := regions[r].held]);
    }

    /** One region's turn. */
    method AllocateIn(r: nat, size: nat) returns (block: Option<nat>)
      requires Valid() && r < |regions| && size <= cfg.MaxSize()
      modifies this`books, regions[r], regions[r].links
      ensures Valid()
      ensures block.None? ==> books == old(books) && !Serves(cfg.L, books.free[r], LevelFor(cfg, size))
      ensures block.Some? ==> BookedAt(cfg, ByRequest, old(books), books, size, r, block.value)
    {
      block := Turn(r, size);
      if block.Some? {
        Refresh(r);
      }
    }

    /** The call itself: the other regions are as they were. */
    method Turn(r: nat, size: nat) returns (block: Option<nat>)
      requires Valid() && r < |regions| && size <= cfg.MaxSize()
      modifies regions[r], regions[r].links
      ensures ValidBut(r) && (block.None? ==> Valid())
      ensures TakenIn(cfg.L, books.free[r], regions[r].free, LevelFor(cfg, size), block)
      ensures block.Some? ==>
        && regions[r].freeSize == books.sizes[r] - RoundUpPow2(size)
        && regions[r].held == With(books.held[r], block.value, LevelFor(cfg, size))
    {
      block := regions[r].Allocate(size);
      forall i | 0 <= i < |regions| && i != r
        ensures regions[i].Valid() && regions[i].tracked == old(regions[i].tracked)
        ensures regions[i].free == old(regions[i].free) && regions[i].freeSize == old(regions[i].freeSize)
        ensures regions[i].held == old(regions[i].held)
      {
        assert regions[i] != regions[r] && regions[i].links != regions[r].links;
      }
    }

    /** Asks the regions in turn; every lock is free. */
    method AllocateInternal(size: nat) returns (result: Option<Block>)
      requires Valid() && size <= cfg.MaxSize()
      modifies this`books, repr
      ensures Valid() && Booked(cfg, ByRequest, old(books), books, size, result)
    {
      var r := 0;
      while r < |regions|
        invariant r <= |regions|
        invariant Valid() && books == old(books)
        invariant forall q :: 0 <= q < r ==> !Serves(cfg.L, books.free[q], LevelFor(cfg, size))
      {
        var block := AllocateIn(r, size);
        if block.Some? {
          return Some(Block(r, block.value));
        }
        r := r + 1;
      }
      return None;
    }

    /** Writes down whether the block that comes back is a whole one. */
    ghost method Track(b: Block, l: nat)
      requires Valid() && b.region < |regions|
      modifies this`tracked
      ensures Valid() && tracked == (old(tracked) && HasBlock(books.held[b.region], b.start, l))
    {
      tracked := tracked && HasBlock(books.held[b.region], b.start, l);
    }

    /** Returns a block of level `l`; it may be part of a larger block taken before. */
    method DeallocateInternal(b: Block, size: nat, ghost l: nat)
      requires Valid() && b.region < |regions| && IsBlock(cfg.L, b.start, l) && size == cfg.SizeOfLevel(l)
      requires forall d: nat :: d in Cells(cfg.L, b.start, l) ==> d !in books.free[b.region]
      modifies this`books, this`tracked, repr
      ensures Valid() && Unbooked(cfg, old(books), books, b, l)
      ensures tracked == (old(tracked) && HasBlock(old(books).held[b.region], b.start, l))
    {
      Track(b, l);
      ReturnTo(b.region, b.start, size, l);
      Refresh(b.region);
    }

    /** The call itself: the other regions are as they were. */
    method ReturnTo(r: nat, a: nat, size: nat, ghost l: nat)
      requires Valid() && r < |regions| && IsBlock(cfg.L, a, l) && size == cfg.SizeOfLevel(l)
      requires forall d: nat :: d in Cells(cfg.L, a, l) ==> d !in books.free[r]
      requires tracked ==> HasBlock(books.held[r], a, l)
      modifies regions[r], regions[r].links
      ensures ValidBut(r)
      ensures regions[r].free == books.free[r] + Cells(cfg.L, a, l) && regions[r].freeSize == books.sizes[r] + size
      ensures regions[r].held == Less(books.held[r], a)
    {
      regions[r].Deallocate(a, size, l);
      forall i | 0 <= i < |regions| && i != r
        ensures regions[i].Valid() && regions[i].tracked == old(regions[i].tracked)
        ensures regions[i].free == old(regions[i].free) && regions[i].freeSize == old(regions[i].freeSize)
        ensures regions[i].held == old(regions[i].held)
      {
        assert regions[i] != regions[r] && regions[i].links != regions[r].links;
      }
    }

    lemma TrackedBlocks(r: nat)
      requires Valid() && r < |regions|
      ensures tracked ==> AreBlocks(cfg.L, books.held[r])
    {
    }

    lemma AllTracked()
      requires Valid() && tracked
      ensures forall q :: 0 <= q < |books.held| ==> AreBlocks(cfg.L, books.held[q])
    {
    }

    /** Writes down whether the piece of a range cuts no block in use. */
    ghost method TrackPart(b: Block, l: nat)
      requires Valid() && b.region < |regions| && l < cfg.L
      modifies this`tracked
      ensures Valid() && tracked == (old(tracked) && NoneCut(cfg.L, books.held[b.region], b.start, l))
    {
      tracked := tracked && NoneCut(cfg.L, books.held[b.region], b.start, l);
    }

    /** Returns one piece of a range. */
    method DeallocatePart(b: Block, size: nat, l: nat)
      requires Valid() && b.region < |regions| && IsBlock(cfg.L, b.start, l) && size == cfg.SizeOfLevel(l)
      requires forall d: nat :: d in Cells(cfg.L, b.start, l) ==> d !in books.free[b.region]
      modifies this`books, this`tracked, repr
      ensures Valid()
      ensures books.free == old(books).free[b.region := old(books).free[b.region] + Cells(cfg.L, b.start, l)]
      ensures books.sizes == old(books).sizes[b.region := old(books).sizes[b.region] + size]
      ensures tracked == (old(tracked) && NoneCut(cfg.L, old(books).held[b.region], b.start, l))
      ensures tracked ==>
        books.held == old(books).held[b.region := Outside(cfg.L, old(books).held[b.region], b.start, l)]
    {
      TrackPart(b, l);
      ReturnPart(b.region, b.start, size, l);
      Refresh(b.region);
    }

    /** The call itself: the other regions are as they were. */
    method ReturnPart(r: nat, a: nat, size: nat, l: nat)
      requires Valid() && r < |regions| && IsBlock(cfg.L, a, l) && size == cfg.SizeOfLevel(l)
      requires forall d: nat :: d in Cells(cfg.L, a, l) ==> d !in books.free[r]
      requires tracked ==> NoneCut(cfg.L, books.held[r], a, l)
      modifies regions[r], regions[r].links
      ensures ValidBut(r)
      ensures regions[r].free == books.free[r] + Cells(cfg.L, a, l) && regions[r].freeSize == books.sizes[r] + size
      ensures tracked ==> regions[r].held == Outside(cfg.L, books.held[r], a, l)
    {
      regions[r].DeallocatePart(a, size, l);
      forall i | 0 <= i < |regions| && i != r
        ensures regions[i].Valid() && regions[i].tracked == old(regions[i].tracked)
        ensures regions[i].free == old(regions[i].free) && regions[i].freeSize == old(regions[i].freeSize)
        ensures regions[i].held == old(regions[i].held)
      {
        assert regions[i] != regions[r] && regions[i].links != regions[r].links;
      }
    }

    /** The level of a block in use, from its address alone. */
    method GetLevel(b: Block) returns (level: nat)
      requires Valid() && tracked && cfg.HasSplitBits() && b.region < |regions| && b.start in books.held[b.region]
      ensures level == books.held[b.region][b.start]
    {
      level := regions[b.region].GetLevel(b.start);
    }
  }
}
