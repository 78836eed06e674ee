/**
 What every allocator of the buddy family does, seen from outside: each region is a set of free
 cells, from which aligned blocks are taken and to which they are returned.
 */
module BuddySpec {
  import opened Powers
  import opened BuddyGeometry
  import opened BlockSets
  import opened Options

  /** The template parameters: the smallest block is `2^minLog2` bytes and there are `L` levels. */
  datatype Config = Config(minLog2: nat, L: nat) {
    /** The static assertions of the base class; with three levels the pair bits fill a byte. */
    predicate Ok() {
      minLog2 >= 4 && L >= 3
    }

    /** With four levels the split bits do too; with fewer, none are stored. */
    predicate HasSplitBits() {
      Ok() && L >= 4
    }

    function MinSize(): nat {
      Pow2(minLog2)
    }

    function MaxSize(): nat
      requires Ok()
    {
      Pow2(minLog2 + L - 1)
    }

    /** `_maxSize >> level`. */
    function SizeOfLevel(l: nat): nat
      requires Ok()
    {
      if l <= minLog2 + L - 1 then Pow2(minLog2 + L - 1 - l) else 0
    }

    /** `l` is the level whose blocks are the smallest that hold `size` bytes. */
    predicate Fits(size: nat, l: nat)
      requires Ok()
    {
      l < L && size <= SizeOfLevel(l) && (l + 1 < L ==> SizeOfLevel(l + 1) < size)
    }
  }

  lemma SizeOfLevelMono(cfg: Config, l: nat, m: nat)
    requires cfg.Ok() && l <= m <= cfg.L
    ensures cfg.SizeOfLevel(m) <= cfg.SizeOfLevel(l)
    ensures l < m ==> cfg.SizeOfLevel(m) < cfg.SizeOfLevel(l)
  {
    Pow2Mono(cfg.minLog2 + cfg.L - 1 - m, cfg.minLog2 + cfg.L - 1 - l);
  }

  lemma FitsUnique(cfg: Config, size: nat, l: nat, m: nat)
    requires cfg.Ok() && cfg.Fits(size, l) && cfg.Fits(size, m)
    ensures l == m
  {
    if l < m {
      SizeOfLevelMono(cfg, l + 1, m);
    } else if m < l {
      SizeOfLevelMono(cfg, m + 1, l);
    }
  }

  /** The level of the smallest block that holds `size` bytes, among the levels up to `l`. */
  function LevelUpTo(cfg: Config, size: nat, l: nat): (m: nat)
    requires cfg.Ok() && size <= cfg.MaxSize() && l < cfg.L
    ensures m <= l && size <= cfg.SizeOfLevel(m) && (m < l ==> cfg.SizeOfLevel(m + 1) < size)
  {
    if size <= cfg.SizeOfLevel(l) then l else LevelUpTo(cfg, size, l - 1)
  }

  function LevelFor(cfg: Config, size: nat): (l: nat)
    requires cfg.Ok() && size <= cfg.MaxSize()
    ensures cfg.Fits(size, l)
  {
    LevelUpTo(cfg, size, cfg.L - 1)
  }

  /** Searches the levels from the smallest blocks up. */
  method FindSmallestBlockLevel(cfg: Config, size: nat) returns (l: nat)
    requires cfg.Ok() && size <= cfg.MaxSize()
    ensures l == LevelFor(cfg, size)
    ensures cfg.Fits(size, l)
  {
    l := cfg.L - 1;
    while size > cfg.SizeOfLevel(l)
      invariant l < cfg.L
      invariant l + 1 < cfg.L ==> cfg.SizeOfLevel(l + 1) < size
    {
      assert l != 0;
      l := l - 1;
    }
    FitsUnique(cfg, size, l, LevelFor(cfg, size));
  }

  /** The size of a block is served by blocks of its own level. */
  lemma BlockSizeLevel(cfg: Config, l: nat)
    requires cfg.Ok() && l < cfg.L
    ensures cfg.SizeOfLevel(l) <= cfg.MaxSize()
    ensures LevelFor(cfg, cfg.SizeOfLevel(l)) == l
  {
    SizeOfLevelMono(cfg, 0, l);
    if l + 1 < cfg.L {
      SizeOfLevelMono(cfg, l, l + 1);
    }
    FitsUnique(cfg, cfg.SizeOfLevel(l), l, LevelFor(cfg, cfg.SizeOfLevel(l)));
  }

  /** A block of level `l` is `Span` smallest cells. */
  lemma SizeIsSpan(cfg: Config, l: nat)
    requires cfg.Ok() && l < cfg.L
    ensures cfg.SizeOfLevel(l) == BytesOf(cfg, Span(cfg.L, l))
  {
    Pow2Add(cfg.L - 1 - l, cfg.minLog2);
    BytesAreShift(cfg, Span(cfg.L, l));
  }

  /** How many of the first `n` cells are in `free`. */
  ghost function Count(free: set<nat>, n: nat): nat {
    if n == 0 then 0 else Count(free, n - 1) + (if n - 1 in free then 1 else 0)
  }

  /** The size of a set of cells, in bytes. */
  ghost function FreeBytes(cfg: Config, free: set<nat>): nat
    requires cfg.Ok()
  {
    BytesOf(cfg, Count(free, RegionCells(cfg.L)))
  }

  lemma {:induction false} CountSame(s: set<nat>, t: set<nat>, n: nat)
    requires forall c: nat :: c < n ==> (c in s <==> c in t)
    ensures Count(s, n) == Count(t, n)
  {
    if n > 0 {
      CountSame(s, t, n - 1);
    }
  }

  /** Adding a stretch of cells that were not there. */
  lemma {:induction false} CountStretch(s: set<nat>, t: set<nat>, lo: nat, hi: nat, n: nat)
    requires lo <= hi <= n
    requires forall c: nat :: c in t <==> c in s || lo <= c < hi
    requires forall c: nat :: lo <= c < hi ==> c !in s
    ensures Count(t, n) == Count(s, n) + (hi - lo)
  {
    if hi < n {
      CountStretch(s, t, lo, hi, n - 1);
    } else if lo < hi {
      CountStretch(s, t - {hi - 1}, lo, hi - 1, n);
      CountSame(t, t - {hi - 1}, n - 1);
      CountSame(s, t - {hi - 1}, 0);
    } else {
      CountSame(s, t, n);
    }
  }

  lemma CountAll(n: nat)
    ensures Count(Interval(0, n), n) == n
  {
    CountStretch({}, Interval(0, n), 0, n, n);
    CountNone(n);
  }

  lemma {:induction false} CountNone(n: nat)
    ensures Count({}, n) == 0
  {
    if n > 0 {
      CountNone(n - 1);
    }
  }

  lemma AllFree(cfg: Config)
    requires cfg.Ok()
    ensures FreeBytes(cfg, Interval(0, RegionCells(cfg.L))) == cfg.MaxSize()
  {
    CountAll(RegionCells(cfg.L));
    Pow2Add(cfg.L - 1, cfg.minLog2);
    BytesAreShift(cfg, RegionCells(cfg.L));
  }

  /** Giving or taking a block changes the free bytes by its size. */
  lemma BytesOfBlock(cfg: Config, s: set<nat>, t: set<nat>, a: nat, l: nat)
    requires cfg.Ok() && IsBlock(cfg.L, a, l)
    requires forall c: nat :: c in t <==> c in s || c in Cells(cfg.L, a, l)
    requires forall c: nat :: c in Cells(cfg.L, a, l) ==> c !in s
    ensures FreeBytes(cfg, t) == FreeBytes(cfg, s) + cfg.SizeOfLevel(l)
  {
    BlockInside(cfg.L, a, l);
    CountStretch(s, t, a, a + Span(cfg.L, l), RegionCells(cfg.L));
    BytesWithBlock(cfg, Count(s, RegionCells(cfg.L)), l);
  }

  lemma BytesWithBlock(cfg: Config, rest: nat, l: nat)
    requires cfg.Ok() && l < cfg.L
    ensures BytesOf(cfg, rest + Span(cfg.L, l)) == BytesOf(cfg, rest) + cfg.SizeOfLevel(l)
  {
    SizeIsSpan(cfg, l);
    BytesAdd(cfg, rest, Span(cfg.L, l));
  }

  /** Above half the smallest block, rounding up to a power of two gives the size of the block that is taken. */
  lemma RoundUpIsBlockSize(cfg: Config, size: nat, l: nat)
    requires cfg.Ok() && cfg.Fits(size, l)
    requires size > cfg.SizeOfLevel(cfg.L)
    ensures RoundUpPow2(size) == cfg.SizeOfLevel(l)
  {
    assert Pow2(0) == 1;
    PowerFromReaches(0, size, cfg.minLog2 + cfg.L - 1 - l);
  }

  /** `num_blocks`: how many blocks of level `i` cover the block taken for `size` bytes. */
  function NumBlocks(cfg: Config, size: nat, i: nat): nat
    requires cfg.Ok() && i < cfg.L
  {
    Quot(RoundUpPow2(size), cfg.SizeOfLevel(i))
  }

  lemma NumBlocksIs(cfg: Config, l: nat, i: nat)
    requires cfg.Ok() && l <= i < cfg.L
    ensures NumBlocks(cfg, cfg.SizeOfLevel(l), i) == Pow2(i - l)
    ensures Quot(cfg.SizeOfLevel(l), cfg.MinSize()) == Span(cfg.L, l)
  {
    var k := cfg.minLog2 + cfg.L - 1 - l;
    assert Pow2(0) == 1;
    if k > 0 {
      Pow2Mono(k - 1, k);
    }
    PowerFromReaches(0, cfg.SizeOfLevel(l), k);
    Pow2Quotient(i - l, cfg.minLog2 + cfg.L - 1 - i);
    Pow2Quotient(cfg.L - 1 - l, cfg.minLog2);
  }

  lemma Pow2Quotient(a: nat, b: nat)
    ensures Quot(Pow2(a + b), Pow2(b)) == Pow2(a)
  {
    Pow2Add(a, b);
    ShrShl(Pow2(a), b);
    ShrIsDiv(Pow2(a + b), b);
  }

  /** At or below half the smallest block, it gives less than the block that is taken. */
  lemma RoundUpBelowBlockSize(cfg: Config, size: nat)
    requires cfg.Ok() && size <= cfg.SizeOfLevel(cfg.L)
    ensures cfg.Fits(size, cfg.L - 1)
    ensures RoundUpPow2(size) < cfg.MinSize()
  {
    var k := cfg.minLog2 - 1;
    PowerBounded(0, size, k);
  }

  lemma {:induction false} PowerBounded(e: nat, size: nat, k: nat)
    requires e <= k && size <= Pow2(k)
    ensures PowerFrom(Pow2(e), size) <= Pow2(k)
    decreases k - e
  {
    Pow2Mono(e, k);
    if e < k {
      PowerBounded(e + 1, size, k);
    }
  }

  /** The bytes of so many smallest cells. */
  function BytesOf(cfg: Config, cells: nat): nat {
    if cells == 0 then 0 else BytesOf(cfg, cells - 1) + cfg.MinSize()
  }

  lemma {:induction false} BytesAreShift(cfg: Config, cells: nat)
    ensures BytesOf(cfg, cells) == Shl(cells, cfg.minLog2)
  {
    if cells == 0 {
      ShlZero(cfg.minLog2);
    } else {
      BytesAreShift(cfg, cells - 1);
      ShlMono(cells - 1, cells, cfg.minLog2);
    }
  }

  lemma {:induction false} BytesAdd(cfg: Config, a: nat, b: nat)
    ensures BytesOf(cfg, a + b) == BytesOf(cfg, a) + BytesOf(cfg, b)
  {
    if b > 0 {
      BytesAdd(cfg, a, b - 1);
    }
  }

  /** Some block of level `l` is wholly free. */
  ghost predicate Serves(L: nat, free: set<nat>, l: nat)
    requires l < L
  {
    exists a: nat :: IsBlock(L, a, l) && Cells(L, a, l) <= free
  }

  /** The same for a single region: `r` is the start of the block taken. */
  ghost predicate TakenIn(L: nat, pre: set<nat>, post: set<nat>, l: nat, r: Option<nat>)
    requires l < L
  {
    match r
    case None => post == pre && !Serves(L, pre, l)
    case Some(a) => IsBlock(L, a, l) && Cells(L, a, l) <= pre && post == pre - Cells(L, a, l)
  }

  /** The free bytes before and after, exact when the request is above half the smallest block. */
  lemma TakeBytes(cfg: Config, free: set<nat>, post: set<nat>, a: nat, size: nat)
    requires cfg.Ok() && size <= cfg.MaxSize() && TakenIn(cfg.L, free, post, LevelFor(cfg, size), Some(a))
    ensures FreeBytes(cfg, free) == FreeBytes(cfg, post) + cfg.SizeOfLevel(LevelFor(cfg, size))
    ensures RoundUpPow2(size) <= cfg.SizeOfLevel(LevelFor(cfg, size))
    ensures RoundUpPow2(size) == cfg.SizeOfLevel(LevelFor(cfg, size)) <==> size > cfg.SizeOfLevel(cfg.L)
  {
    var l := LevelFor(cfg, size);
    BytesOfBlock(cfg, post, free, a, l);
    if size > cfg.SizeOfLevel(cfg.L) {
      RoundUpIsBlockSize(cfg, size, l);
    } else {
      RoundUpBelowBlockSize(cfg, size);
      FitsUnique(cfg, size, l, cfg.L - 1);
    }
  }

  /** The block taken from the regions, if any. */
  datatype Block = Block(region: nat, start: nat)

  /** What becomes of a request: iBuddy can run past its lists, and there the model ends. */
  datatype Outcome<T> = OutOfBounds | Answer(block: Option<T>)

  /** What an allocation takes out of the free size: iBuddy the block, the others the request rounded up. */
  datatype Charge = ByBlock | ByRequest {
    function Bytes(cfg: Config, size: nat): nat
      requires cfg.Ok() && size <= cfg.MaxSize()
    {
      if ByBlock? then cfg.SizeOfLevel(LevelFor(cfg, size)) else RoundUpPow2(size)
    }
  }

  /** iBuddy is asked for at most half the smallest block, and its first region is exhausted. */
  ghost predicate Overruns(cfg: Config, charge: Charge, free: seq<set<nat>>, size: nat)
    requires cfg.Ok()
  {
    charge.ByBlock? && size <= cfg.SizeOfLevel(cfg.L) && |free| > 0 && free[0] == {}
  }

  /**
   A request for a block of level `l` succeeds exactly when some region has one wholly free; it takes
   it from the first such region and touches nothing else.
   */
  ghost predicate Taken(L: nat, pre: seq<set<nat>>, post: seq<set<nat>>, l: nat, result: Option<Block>)
    requires l < L
  {
    match result
    case None =>
      post == pre && forall r :: 0 <= r < |pre| ==> !Serves(L, pre[r], l)
    case Some(Block(r, a)) =>
      && r < |pre|
      && IsBlock(L, a, l) && Cells(L, a, l) <= pre[r]
      && post == pre[r := pre[r] - Cells(L, a, l)]
      && forall q :: 0 <= q < r ==> !Serves(L, pre[q], l)
  }

  /** What an allocator keeps for each region: the free cells, the entry of `_freeSizes`, and the blocks in use. */
  datatype Books = Books(free: seq<set<nat>>, sizes: seq<nat>, held: seq<Blocks>) {
    ghost predicate Cover(n: nat) {
      |free| == |sizes| == |held| == n
    }
  }

  function Sum(sizes: seq<nat>): nat {
    if sizes == [] then 0 else sizes[0] + Sum(sizes[1..])
  }

  /** Region `r` gives the block at `a`, and its free size is lowered. */
  ghost predicate BookedAt(cfg: Config, charge: Charge, pre: Books, post: Books, size: nat, r: nat, a: nat)
    requires cfg.Ok() && size <= cfg.MaxSize() && pre.Cover(|pre.free|) && r < |pre.free|
  {
    var l := LevelFor(cfg, size);
    && IsBlock(cfg.L, a, l) && Cells(cfg.L, a, l) <= pre.free[r] && pre.sizes[r] >= charge.Bytes(cfg, size)
    && post == Books(
         pre.free[r := pre.free[r] - Cells(cfg.L, a, l)],
         pre.sizes[r := pre.sizes[r] - charge.Bytes(cfg, size)],
         pre.held[r := With(pre.held[r], a, l)])
  }

  /** The same over all regions: the first that can serve the request does. */
  ghost predicate Booked(cfg: Config, charge: Charge, pre: Books, post: Books, size: nat, result: Option<Block>)
    requires cfg.Ok() && size <= cfg.MaxSize() && pre.Cover(|pre.free|)
  {
    var l := LevelFor(cfg, size);
    match result
    case None => post == pre && forall q :: 0 <= q < |pre.free| ==> !Serves(cfg.L, pre.free[q], l)
    case Some(b) =>
      && b.region < |pre.free| && BookedAt(cfg, charge, pre, post, size, b.region, b.start)
      && forall q :: 0 <= q < b.region ==> !Serves(cfg.L, pre.free[q], l)
  }

  /** The block comes back with its size. */
  ghost predicate Unbooked(cfg: Config, pre: Books, post: Books, b: Block, l: nat)
    requires cfg.Ok() && l < cfg.L && pre.Cover(|pre.free|) && b.region < |pre.free|
  {
    var r := b.region;
    post == Books(
      pre.free[r := pre.free[r] + Cells(cfg.L, b.start, l)],
      pre.sizes[r := pre.sizes[r] + cfg.SizeOfLevel(l)],
      pre.held[r := Less(pre.held[r], b.start)])
  }

  lemma BookedIsTaken(cfg: Config, charge: Charge, pre: Books, post: Books, size: nat, result: Option<Block>)
    requires cfg.Ok() && size <= cfg.MaxSize() && pre.Cover(|pre.free|) && Booked(cfg, charge, pre, post, size, result)
    ensures Taken(cfg.L, pre.free, post.free, LevelFor(cfg, size), result)
  {
  }

  /** Returning a block adds its cells to the free cells of its region. */
  ghost predicate Returned(L: nat, pre: seq<set<nat>>, post: seq<set<nat>>, l: nat, b: Block)
    requires l < L
  {
    b.region < |pre| && post == pre[b.region := pre[b.region] + Cells(L, b.start, l)]
  }

  /** Returning the block just taken restores the free cells. */
  lemma TakeThenReturn(L: nat, pre: seq<set<nat>>, mid: seq<set<nat>>, post: seq<set<nat>>, l: nat, b: Block)
    requires l < L && Taken(L, pre, mid, l, Some(b)) && Returned(L, mid, post, l, b)
    ensures post == pre
  {
    assert pre[b.region] - Cells(L, b.start, l) + Cells(L, b.start, l) == pre[b.region];
  }

  /** `align_left` to the smallest level, and the same after adding `minSize - 1`: whole cells of a byte position. */
  function FloorCells(cfg: Config, x: nat): nat {
    Shr(x, cfg.minLog2)
  }

  function CeilCells(cfg: Config, x: nat): nat {
    Shr(x + cfg.MinSize() - 1, cfg.minLog2)
  }

  /** The region and the cell in it of the `g`-th smallest cell of the heap. */
  function RegionOf(L: nat, g: nat): nat
    requires L > 0
  {
    Shr(g, L - 1)
  }

  function CellOf(L: nat, g: nat): (c: nat)
    requires L > 0
    ensures c < RegionCells(L)
  {
    ShlShrBelow(g, L - 1);
    g - Shl(Shr(g, L - 1), L - 1)
  }

  ghost predicate IsFree(L: nat, free: seq<set<nat>>, g: nat)
    requires L > 0
  {
    RegionOf(L, g) < |free| && CellOf(L, g) in free[RegionOf(L, g)]
  }

  lemma CellUnique(L: nat, g: nat, h: nat)
    requires L > 0 && RegionOf(L, g) == RegionOf(L, h) && CellOf(L, g) == CellOf(L, h)
    ensures g == h
  {
  }

  /** Freeing one cell of one region frees exactly that cell of the heap. */
  lemma FreedOne(L: nat, pre: seq<set<nat>>, post: seq<set<nat>>, g: nat, h: nat)
    requires L > 0 && |pre| == |post| && RegionOf(L, g) < |pre|
    requires forall i :: 0 <= i < |pre| && i != RegionOf(L, g) ==> post[i] == pre[i]
    requires post[RegionOf(L, g)] == pre[RegionOf(L, g)] + {CellOf(L, g)}
    ensures IsFree(L, post, h) <==> IsFree(L, pre, h) || h == g
  {
    if RegionOf(L, g) == RegionOf(L, h) && CellOf(L, g) == CellOf(L, h) {
      CellUnique(L, g, h);
    }
  }

  /** The number of the first cell of a block among all cells of the heap, and its byte position. */
  function HeapCell(L: nat, b: Block): nat
    requires L > 0
  {
    Shl(b.region, L - 1) + b.start
  }

  function Address(cfg: Config, b: Block): nat
    requires cfg.L > 0
  {
    Shl(HeapCell(cfg.L, b), cfg.minLog2)
  }

  lemma HeapCellIs(L: nat, b: Block, c: nat)
    requires L > 0 && b.start + c < RegionCells(L)
    ensures RegionOf(L, HeapCell(L, b) + c) == b.region && CellOf(L, HeapCell(L, b) + c) == b.start + c
  {
    ShrRange(HeapCell(L, b) + c, L - 1, b.region);
  }

  /** The `g`-th smallest cell of the heap lies in the byte range `[start, start + size)` as a whole. */
  predicate InBytes(cfg: Config, start: nat, size: nat, g: nat) {
    start <= Shl(g, cfg.minLog2) && Shl(g + 1, cfg.minLog2) <= start + size
  }

  /** Rounding the start of a byte range up and its end down leaves exactly the cells that lie in it as a whole. */
  lemma WholeCells(cfg: Config, start: nat, size: nat)
    ensures forall g: nat ::
      CeilCells(cfg, start) <= g < FloorCells(cfg, start + size) <==> InBytes(cfg, start, size, g)
  {
    var lo, hi := CeilCells(cfg, start), FloorCells(cfg, start + size);
    ShrRange(start + cfg.MinSize() - 1, cfg.minLog2, lo);
    ShrRange(start + size, cfg.minLog2, hi);
    forall g: nat
      ensures lo <= g < hi <==> InBytes(cfg, start, size, g)
    {
      CellsApart(cfg, lo, g);
      CellsApart(cfg, hi, g);
    }
  }

  /** Smallest cells lie end to end, in the order of their numbers. */
  lemma CellsApart(cfg: Config, g: nat, h: nat)
    ensures Shl(g + 1, cfg.minLog2) == Shl(g, cfg.minLog2) + cfg.MinSize()
    ensures Shl(h + 1, cfg.minLog2) == Shl(h, cfg.minLog2) + cfg.MinSize()
    ensures if g <= h then Shl(g, cfg.minLog2) <= Shl(h, cfg.minLog2)
      else Shl(h + 1, cfg.minLog2) <= Shl(g, cfg.minLog2)
  {
    ShlMono(g, if g <= h then h else g, cfg.minLog2);
    ShlMono(h, h, cfg.minLog2);
    if h < g {
      ShlMono(h + 1, g, cfg.minLog2);
    }
  }

  /** The byte range of a block covers exactly its cells. */
  lemma BlockRange(cfg: Config, b: Block, l: nat)
    requires cfg.Ok() && IsBlock(cfg.L, b.start, l)
    ensures forall g: nat :: InBytes(cfg, Address(cfg, b), cfg.SizeOfLevel(l), g) <==>
      HeapCell(cfg.L, b) <= g < HeapCell(cfg.L, b) + Span(cfg.L, l)
  {
    var first, last := HeapCell(cfg.L, b), HeapCell(cfg.L, b) + Span(cfg.L, l);
    SizeIsSpan(cfg, l);
    BytesAreShift(cfg, Span(cfg.L, l));
    ShlAdd(first, Span(cfg.L, l), cfg.minLog2);
    forall g: nat
      ensures InBytes(cfg, Address(cfg, b), cfg.SizeOfLevel(l), g) <==> first <= g < last
    {
      CellsApart(cfg, first, g);
      CellsApart(cfg, last, g);
    }
  }

  ghost predicate InRegions(L: nat, free: seq<set<nat>>)
    requires L > 0
  {
    forall i, c :: 0 <= i < |free| && c in free[i] ==> c < RegionCells(L)
  }

  /** Freeing exactly the cells of a block, one by one, returns the block. */
  lemma ReturnedByCells(L: nat, pre: seq<set<nat>>, post: seq<set<nat>>, l: nat, b: Block)
    requires IsBlock(L, b.start, l) && b.region < |pre| && |post| == |pre|
    requires InRegions(L, pre) && InRegions(L, post)
    requires forall g: nat :: IsFree(L, post, g) <==>
      IsFree(L, pre, g) || HeapCell(L, b) <= g < HeapCell(L, b) + Span(L, l)
    ensures Returned(L, pre, post, l, b)
  {
    BlockInside(L, b.start, l);
    var want := pre[b.region := pre[b.region] + Cells(L, b.start, l)];
    forall i, c: nat | 0 <= i < |pre| && c < RegionCells(L)
      ensures c in post[i] <==> c in want[i]
    {
      var g := HeapCell(L, Block(i, c));
      HeapCellIs(L, Block(i, c), 0);
      assert IsFree(L, post, g) <==> c in post[i];
      assert IsFree(L, pre, g) <==> c in pre[i];
      SameRegion(L, b, i, c, Span(L, l));
    }
    forall i | 0 <= i < |pre|
      ensures post[i] == want[i]
    {
      assert forall c :: c in want[i] ==> c < RegionCells(L);
    }
  }

  lemma SameRegion(L: nat, b: Block, i: nat, c: nat, n: nat)
    requires L > 0 && c < RegionCells(L) && b.start + n <= RegionCells(L)
    ensures HeapCell(L, b) <= HeapCell(L, Block(i, c)) < HeapCell(L, b) + n <==>
      i == b.region && b.start <= c < b.start + n
  {
    if i < b.region {
      ShlMono(i, b.region, L - 1);
    } else if i > b.region {
      ShlMono(b.region, i, L - 1);
    }
  }
}
