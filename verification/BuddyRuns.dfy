/**
 Runs of the buddy family (buddy_allocator.cpp) over `allocate`, `deallocate` and the emptying of the
 lazy lists.  The subclass enters only through the specification that all three subclasses meet:
 `Booked` for an allocation and `Unbooked` for a deallocation.
 */
module BuddyRuns {
  import opened Powers
  import opened Options
  import opened BuddyGeometry
  import opened BuddySpec
  import opened BlockSets
  import opened BTBuddyModel

  /**
   `books` is what the subclass keeps; to it a cached block is in use.  `lazy` holds one list of cached
   blocks for each level, and `lazySize` is the last entry of `_freeSizes`.  The ghost parts: `live` are
   the blocks in use that are not cached, `idle` the cells outside them, and `drift` what the accounting
   is off by.
   */
  datatype Heap = Heap(
    books: Books, lazy: seq<seq<Block>>, lazySize: int,
    ghost live: seq<Blocks>, ghost idle: seq<set<nat>>, ghost drift: nat)

  /** `free_size`. */
  function FreeSize(h: Heap): int {
    Sum(h.books.sizes) + h.lazySize
  }

  /** The bytes that lie in no live block. */
  ghost function IdleBytes(cfg: Config, idle: seq<set<nat>>): nat
    requires cfg.Ok()
  {
    if idle == [] then 0 else FreeBytes(cfg, idle[0]) + IdleBytes(cfg, idle[1..])
  }

  ghost predicate RegionOk(L: nat, held: Blocks, live: Blocks, free: set<nat>, idle: set<nat>) {
    && LiveSet(L, held) && LiveSet(L, live)
    && (forall a :: a in live ==> a in held && held[a] == live[a])
    && FreeCells(L, held, free) && FreeCells(L, live, idle)
  }

  ghost predicate Cached(h: Heap, l: nat, i: nat)
    requires l < |h.lazy| && i < |h.lazy[l]|
  {
    var b := h.lazy[l][i];
    && b.region < |h.books.held| && b.region < |h.live|
    && b.start in h.books.held[b.region] && h.books.held[b.region][b.start] == l && b.start !in h.live[b.region]
  }

  ghost predicate IsCached(h: Heap, b: Block) {
    exists l: nat, i: nat :: InList(h, b, l, i)
  }

  ghost predicate InList(h: Heap, b: Block, l: nat, i: nat) {
    l < |h.lazy| && i < |h.lazy[l]| && h.lazy[l][i] == b
  }

  /** Live, cached and free parts of each region: every cell lies in exactly one of them. */
  ghost predicate Partition(L: nat, h: Heap) {
    L > 0 && Regions(L, h) && Lists(L, h)
  }

  ghost predicate Accounted(cfg: Config, h: Heap)
    requires cfg.Ok()
  {
    h.books.Cover(|h.books.free|) && FreeSize(h) == IdleBytes(cfg, h.idle) + h.drift
  }

  ghost predicate Inv(cfg: Config, h: Heap) {
    cfg.Ok() && Partition(cfg.L, h) && Accounted(cfg, h)
  }

  // The operations

  /**
     By how much what an allocation takes out of the count falls short of the block: by nothing if it takes
     out the block, and otherwise by nothing only above half the smallest block.
   */
  function Shortfall(cfg: Config, charge: Charge, size: nat): (d: nat)
    requires cfg.Ok() && size <= cfg.MaxSize()
    ensures d == 0 <==> charge.ByBlock? || size > cfg.SizeOfLevel(cfg.L)
  {
    RoundedFits(cfg, size);
    cfg.SizeOfLevel(LevelFor(cfg, size)) - charge.Bytes(cfg, size)
  }

  lemma RoundedFits(cfg: Config, size: nat)
    requires cfg.Ok() && size <= cfg.MaxSize()
    ensures RoundUpPow2(size) <= cfg.SizeOfLevel(LevelFor(cfg, size))
    ensures RoundUpPow2(size) == cfg.SizeOfLevel(LevelFor(cfg, size)) <==> size > cfg.SizeOfLevel(cfg.L)
  {
    var l := LevelFor(cfg, size);
    if size > cfg.SizeOfLevel(cfg.L) {
      RoundUpIsBlockSize(cfg, size, l);
    } else {
      RoundUpBelowBlockSize(cfg, size);
      FitsUnique(cfg, size, l, cfg.L - 1);
    }
  }

  ghost function Lived(h: Heap, b: Block, l: nat, L: nat): Heap
    requires b.region < |h.live| && b.region < |h.idle| && l < L
  {
    h.(live := h.live[b.region := With(h.live[b.region], b.start, l)],
       idle := h.idle[b.region := h.idle[b.region] - Cells(L, b.start, l)])
  }

  /** The first cached block of the level becomes live. */
  ghost function TakeCached(cfg: Config, h: Heap, size: nat): Heap
    requires cfg.Ok() && |h.lazy| == cfg.L && size <= cfg.MaxSize() && h.lazy[LevelFor(cfg, size)] != []
    requires h.lazy[LevelFor(cfg, size)][0].region < |h.live| == |h.idle|
  {
    var l := LevelFor(cfg, size);
    Lived(h, h.lazy[l][0], l, cfg.L).(
      lazy := h.lazy[l := h.lazy[l][1..]], lazySize := h.lazySize - RoundUpPow2(size),
        drift := h.drift + Shortfall(cfg, ByRequest, size))
  }

  /** The block `b`, which the subclass has taken, becomes live. */
  ghost function TakeFresh(cfg: Config, charge: Charge, h: Heap, size: nat, b: Block, books: Books): Heap
    requires cfg.Ok() && size <= cfg.MaxSize() && b.region < |h.live| == |h.idle|
  {
    Lived(h, b, LevelFor(cfg, size), cfg.L).(books := books, drift := h.drift + Shortfall(cfg, charge, size))
  }

  /** `allocate`: from the lazy list of the level if it holds a block, and from the subclass otherwise. */
  ghost predicate Allocate(cfg: Config, charge: Charge, h: Heap, h': Heap, size: nat, result: Outcome<Block>)
    requires cfg.Ok() && |h.lazy| == cfg.L && h.books.Cover(|h.books.free|)
  {
    if size > cfg.MaxSize() then result == Answer(None) && h' == h else
      var l := LevelFor(cfg, size);
      if h.lazy[l] != [] then
        && result == Answer(Some(h.lazy[l][0])) && h.lazy[l][0].region < |h.live| == |h.idle|
        && h' == TakeCached(cfg, h, size)
      else
        && (result.OutOfBounds? <==> Overruns(cfg, charge, h.books.free, size))
        && match result
           case OutOfBounds => h' == h
           case Answer(block) => Granted(cfg, charge, h, h', size, block)
  }

  /** What the subclass gives. */
  ghost predicate Granted(cfg: Config, charge: Charge, h: Heap, h': Heap, size: nat, block: Option<Block>)
    requires cfg.Ok() && size <= cfg.MaxSize() && h.books.Cover(|h.books.free|)
  {
    && Booked(cfg, charge, h.books, h'.books, size, block)
    && match block
       case None => h' == h
       case Some(b) => b.region < |h.live| == |h.idle| && h' == TakeFresh(cfg, charge, h, size, b, h'.books)
  }

  ghost function Died(h: Heap, b: Block, l: nat, L: nat): Heap
    requires b.region < |h.live| && b.region < |h.idle| && l < L
  {
    h.(live := h.live[b.region := Less(h.live[b.region], b.start)],
       idle := h.idle[b.region := h.idle[b.region] + Cells(L, b.start, l)])
  }

  function Clamped(cfg: Config, size: nat): nat {
    if size < cfg.MinSize() then cfg.MinSize() else size
  }

  /** The live block `b` goes to the end of the lazy list of its level. */
  ghost function Cache(cfg: Config, h: Heap, b: Block, size: nat): Heap
    requires cfg.Ok() && |h.lazy| == cfg.L && Clamped(cfg, size) <= cfg.MaxSize() && b.region < |h.live| == |h.idle|
  {
    var l := LevelFor(cfg, Clamped(cfg, size));
    Died(h, b, l, cfg.L).(lazy := h.lazy[l := h.lazy[l] + [b]],
      lazySize := h.lazySize + RoundUpPow2(Clamped(cfg, size)))
  }

  /** The live block `b` goes back to the subclass. */
  ghost function GiveBack(cfg: Config, h: Heap, b: Block, size: nat, books: Books): Heap
    requires cfg.Ok() && Clamped(cfg, size) <= cfg.MaxSize() && b.region < |h.live| == |h.idle|
  {
    Died(h, b, LevelFor(cfg, Clamped(cfg, size)), cfg.L).(books := books)
  }

  /**
     `deallocate` of a live block: into the lazy list while that is below its threshold, and back to the
     subclass otherwise.  A null or foreign pointer is ignored.
   */
  ghost predicate Deallocate(cfg: Config, thresholds: seq<nat>, h: Heap, h': Heap, ptr: Option<Block>, size: nat)
    requires cfg.Ok() && |h.lazy| == cfg.L == |thresholds| && Clamped(cfg, size) <= cfg.MaxSize()
    requires h.books.Cover(|h.books.free|)
  {
    if ptr.None? || ptr.value.region >= |h.live| || ptr.value.region >= |h.idle| then h' == h else
      var b := ptr.value;
      var l := LevelFor(cfg, Clamped(cfg, size));
      && |h.live| == |h.idle| == |h.books.free|
      && if |h.lazy[l]| < thresholds[l] then h' == Cache(cfg, h, b, size)
         else Unbooked(cfg, h.books, h'.books, b, l) && h' == GiveBack(cfg, h, b, size, h'.books)
  }

  /** The first cached block of level `l` goes back to the subclass. */
  ghost function Uncache(cfg: Config, h: Heap, l: nat, books: Books): Heap
    requires cfg.Ok() && l < |h.lazy| && h.lazy[l] != []
  {
    h.(books := books, lazy := h.lazy[l := h.lazy[l][1..]], lazySize := h.lazySize - cfg.SizeOfLevel(l))
  }

  /** One round of `empty_lazy_list`. */
  ghost predicate EmptyOne(cfg: Config, h: Heap, h': Heap, l: nat)
    requires cfg.Ok() && |h.lazy| == cfg.L && h.books.Cover(|h.books.free|)
  {
    && l < cfg.L && h.lazy[l] != [] && h.lazy[l][0].region < |h.books.free|
    && Unbooked(cfg, h.books, h'.books, h.lazy[l][0], l)
    && h' == Uncache(cfg, h, l, h'.books)
  }

  // The accounting

  lemma {:induction false} SumUpdate(sizes: seq<nat>, r: nat, v: nat)
    requires r < |sizes|
    ensures Sum(sizes[r := v]) == Sum(sizes) - sizes[r] + v
  {
    if r == 0 {
      assert sizes[r := v][1..] == sizes[1..];
    } else {
      assert sizes[r := v][1..] == sizes[1..][r - 1 := v];
      SumUpdate(sizes[1..], r - 1, v);
    }
  }

  lemma {:induction false} IdleUpdate(cfg: Config, idle: seq<set<nat>>, r: nat, s: set<nat>)
    requires cfg.Ok() && r < |idle|
    ensures IdleBytes(cfg, idle[r := s]) == IdleBytes(cfg, idle) - FreeBytes(cfg, idle[r]) + FreeBytes(cfg, s)
  {
    if r == 0 {
      assert idle[r := s][1..] == idle[1..];
    } else {
      assert idle[r := s][1..] == idle[1..][r - 1 := s];
      IdleUpdate(cfg, idle[1..], r - 1, s);
    }
  }

  lemma IdleTaken(cfg: Config, idle: seq<set<nat>>, b: Block, l: nat)
    requires cfg.Ok() && b.region < |idle| && IsBlock(cfg.L, b.start, l) && Cells(cfg.L, b.start, l) <= idle[b.region]
    ensures IdleBytes(cfg, idle[b.region := idle[b.region] - Cells(cfg.L, b.start, l)]) ==
      IdleBytes(cfg, idle) - cfg.SizeOfLevel(l)
  {
    var s := idle[b.region] - Cells(cfg.L, b.start, l);
    BytesOfBlock(cfg, s, idle[b.region], b.start, l);
    IdleUpdate(cfg, idle, b.region, s);
  }

  lemma IdleGiven(cfg: Config, idle: seq<set<nat>>, b: Block, l: nat)
    requires cfg.Ok() && b.region < |idle| && IsBlock(cfg.L, b.start, l)
    requires forall d: nat :: d in Cells(cfg.L, b.start, l) ==> d !in idle[b.region]
    ensures IdleBytes(cfg, idle[b.region := idle[b.region] + Cells(cfg.L, b.start, l)]) ==
      IdleBytes(cfg, idle) + cfg.SizeOfLevel(l)
  {
    var s := idle[b.region] + Cells(cfg.L, b.start, l);
    BytesOfBlock(cfg, idle[b.region], s, b.start, l);
    IdleUpdate(cfg, idle, b.region, s);
  }

  // One region

  /** A held block that is not live is idle as a whole. */
  lemma CachedIsIdle(L: nat, held: Blocks, live: Blocks, free: set<nat>, idle: set<nat>, a: nat)
    requires RegionOk(L, held, live, free, idle) && a in held && a !in live
    ensures WhollyFree(L, idle, a, held[a])
  {
    forall d: nat | d < RegionCells(L) && SameBlock(L, a, d, held[a])
      ensures d in idle
    {
      assert Covers(L, held, a, d);
      if Occupied(L, live, d) {
        var c :| Covers(L, live, c, d);
        assert Covers(L, held, c, d);
        CoverOnce(L, held, a, c, d);
      }
    }
  }

  lemma FreeIsIdle(L: nat, held: Blocks, live: Blocks, free: set<nat>, idle: set<nat>, d: nat)
    requires RegionOk(L, held, live, free, idle) && d in free
    ensures d in idle
  {
    if Occupied(L, live, d) {
      var c :| Covers(L, live, c, d);
      assert Covers(L, held, c, d);
    }
  }

  lemma RegionAllocated(L: nat, held: Blocks, live: Blocks, free: set<nat>, idle: set<nat>, a: nat, l: nat)
    requires RegionOk(L, held, live, free, idle) && IsBlock(L, a, l) && Cells(L, a, l) <= free
    ensures a !in held && a !in live && Cells(L, a, l) <= idle
    ensures RegionOk(L, With(held, a, l), With(live, a, l), free - Cells(L, a, l), idle - Cells(L, a, l))
  {
    forall d | d in Cells(L, a, l)
      ensures d in idle
    {
      FreeIsIdle(L, held, live, free, idle, d);
    }
    ServedIsFree(L, free, a, l);
    ServedIsFree(L, idle, a, l);
    AddLive(L, held, free, a, l);
    AddLive(L, live, idle, a, l);
  }

  lemma RegionReused(L: nat, held: Blocks, live: Blocks, free: set<nat>, idle: set<nat>, a: nat)
    requires RegionOk(L, held, live, free, idle) && a in held && a !in live
    ensures IsBlock(L, a, held[a]) && Cells(L, a, held[a]) <= idle
    ensures RegionOk(L, held, With(live, a, held[a]), free, idle - Cells(L, a, held[a]))
  {
    CachedIsIdle(L, held, live, free, idle, a);
    ServedIsFree(L, idle, a, held[a]);
    AddLive(L, live, idle, a, held[a]);
  }

  lemma RegionKept(L: nat, held: Blocks, live: Blocks, free: set<nat>, idle: set<nat>, a: nat)
    requires RegionOk(L, held, live, free, idle) && a in live
    ensures RegionOk(L, held, Less(live, a), free, idle + Cells(L, a, live[a]))
    ensures forall d: nat :: d in Cells(L, a, live[a]) ==> d !in idle
  {
    RemoveLive(L, live, idle, a);
  }

  lemma RegionReturned(L: nat, held: Blocks, live: Blocks, free: set<nat>, idle: set<nat>, a: nat)
    requires RegionOk(L, held, live, free, idle) && a in live
    ensures RegionOk(L, Less(held, a), Less(live, a), free + Cells(L, a, live[a]), idle + Cells(L, a, live[a]))
    ensures forall d: nat :: d in Cells(L, a, live[a]) ==> d !in idle && d !in free
  {
    RemoveLive(L, live, idle, a);
    RemoveLive(L, held, free, a);
  }

  lemma RegionEmptied(L: nat, held: Blocks, live: Blocks, free: set<nat>, idle: set<nat>, a: nat)
    requires RegionOk(L, held, live, free, idle) && a in held && a !in live
    ensures RegionOk(L, Less(held, a), live, free + Cells(L, a, held[a]), idle)
    ensures forall d: nat :: d in Cells(L, a, held[a]) ==> d !in free
  {
    RemoveLive(L, held, free, a);
  }

  // The whole heap

  /** The regions other than `r` are as they were. */
  ghost predicate SameElsewhere(h: Heap, h': Heap, r: nat) {
    && r < |h.books.held|
    && |h'.books.free| == |h.books.free| && |h'.books.held| == |h.books.held| && |h'.live| == |h.live| &&
      |h'.idle| == |h.idle|
    && |h.books.free| == |h.books.held| == |h.live| == |h.idle|
    && forall q {:trigger h'.books.held[q]} :: 0 <= q < |h.books.held| && q != r ==>
         h'.books.held[q] == h.books.held[q] && h'.live[q] == h.live[q] && h'.books.free[q] == h.books.free[q] &&
           h'.idle[q] == h.idle[q]
  }

  ghost predicate Regions(L: nat, h: Heap) {
    && |h.books.free| == |h.books.held| == |h.live| == |h.idle|
    && forall r {:trigger h.books.held[r]} :: 0 <= r < |h.books.held| ==>
      RegionOk(L, h.books.held[r], h.live[r], h.books.free[r], h.idle[r])
  }

  lemma RegionsAfter(L: nat, h: Heap, h': Heap, r: nat)
    requires Regions(L, h) && SameElsewhere(h, h', r)
    requires RegionOk(L, h'.books.held[r], h'.live[r], h'.books.free[r], h'.idle[r])
    ensures Regions(L, h')
  {
  }

  /** The lazy lists hold exactly the held blocks that are not live, each once and at its own level. */
  ghost predicate Lists(L: nat, h: Heap) {
    && |h.lazy| == L && |h.books.held| == |h.live|
    && (forall l: nat, i: nat {:trigger Cached(h, l, i)} :: l < |h.lazy| && i < |h.lazy[l]| ==> Cached(h, l, i))
    && (forall l: nat, i: nat, j: nat {:trigger SamePlace(h, l, i, j)} :: SamePlace(h, l, i, j) ==> i == j)
    && (forall b {:trigger Waiting(h, b)} :: Waiting(h, b) ==> IsCached(h, b))
  }

  ghost predicate SamePlace(h: Heap, l: nat, i: nat, j: nat) {
    l < |h.lazy| && i < |h.lazy[l]| && j < |h.lazy[l]| && h.lazy[l][i] == h.lazy[l][j]
  }

  ghost predicate Waiting(h: Heap, b: Block)
    requires |h.books.held| == |h.live|
  {
    b.region < |h.books.held| && b.start in h.books.held[b.region] && b.start !in h.live[b.region]
  }

  /** A new live block changes nothing about the lists. */
  lemma ListsAllocated(L: nat, h: Heap, h': Heap, b: Block, l: nat)
    requires Lists(L, h) && b.region < |h.books.held| && b.start !in h.books.held[b.region] && h'.lazy == h.lazy
    requires h'.books.held == h.books.held[b.region := With(h.books.held[b.region], b.start, l)]
    requires h'.live == h.live[b.region := With(h.live[b.region], b.start, l)]
    ensures Lists(L, h')
  {
    forall m: nat, i: nat | m < |h'.lazy| && i < |h'.lazy[m]|
      ensures Cached(h', m, i)
    {
      assert Cached(h, m, i);
    }
    forall m: nat, i: nat, j: nat | SamePlace(h', m, i, j)
      ensures i == j
    {
      assert SamePlace(h, m, i, j);
    }
    forall c | Waiting(h', c)
      ensures IsCached(h', c)
    {
      assert Waiting(h, c);
      var m: nat, i: nat :| InList(h, c, m, i);
      assert InList(h', c, m, i);
    }
  }

  /** The first block of a lazy list leaves it, and is live or gone. */
  lemma ListsPopped(L: nat, h: Heap, h': Heap, l: nat)
    requires Lists(L, h) && l < L && h.lazy[l] != [] && h'.lazy == h.lazy[l := h.lazy[l][1..]]
    requires var b := h.lazy[l][0];
      && b.region < |h.books.held|
      && ((h'.books.held == h.books.held && h'.live == h.live[b.region := With(h.live[b.region], b.start, l)]) ||
          (h'.live == h.live && h'.books.held == h.books.held[b.region := Less(h.books.held[b.region], b.start)]))
    ensures Lists(L, h')
  {
    var b := h.lazy[l][0];
    assert Cached(h, l, 0);
    forall m: nat, i: nat | m < |h'.lazy| && i < |h'.lazy[m]|
      ensures Cached(h', m, i)
    {
      var k: nat := if m == l then i + 1 else i;
      assert h'.lazy[m][i] == h.lazy[m][k];
      assert Cached(h, m, k);
      if h.lazy[m][k] == b && m == l {
        assert SamePlace(h, l, 0, k);
      }
    }
    forall m: nat, i: nat, j: nat | SamePlace(h', m, i, j)
      ensures i == j
    {
      if m == l {
        assert SamePlace(h, m, i + 1, j + 1);
      } else {
        assert SamePlace(h, m, i, j);
      }
    }
    forall c | Waiting(h', c)
      ensures IsCached(h', c)
    {
      assert Waiting(h, c) && c != b;
      var m: nat, i: nat :| InList(h, c, m, i);
      assert InList(h', c, m, if m == l then i - 1 else i);
    }
  }

  /** A live block goes to the end of the lazy list of its level. */
  lemma ListsPushed(L: nat, h: Heap, h': Heap, b: Block, l: nat)
    requires Lists(L, h) && l < L && b.region < |h.books.held| && h'.lazy == h.lazy[l := h.lazy[l] + [b]]
    requires b.start in h.live[b.region] && b.start in h.books.held[b.region] && h.books.held[b.region][b.start] == l
    requires h'.books.held == h.books.held && h'.live == h.live[b.region := Less(h.live[b.region], b.start)]
    ensures Lists(L, h')
  {
    forall m: nat, i: nat | m < |h'.lazy| && i < |h'.lazy[m]|
      ensures Cached(h', m, i)
    {
      if i < |h.lazy[m]| {
        assert Cached(h, m, i);
        assert h'.lazy[m][i] == h.lazy[m][i];
      }
    }
    forall m: nat, i: nat, j: nat | SamePlace(h', m, i, j)
      ensures i == j
    {
      if i < |h.lazy[m]| {
        assert Cached(h, m, i);
      }
      if j < |h.lazy[m]| {
        assert Cached(h, m, j);
      }
      if i < |h.lazy[m]| && j < |h.lazy[m]| {
        assert SamePlace(h, m, i, j);
      }
    }
    forall c | Waiting(h', c)
      ensures IsCached(h', c)
    {
      if c == b {
        assert InList(h', b, l, |h.lazy[l]|);
      } else {
        assert Waiting(h, c);
        var m: nat, i: nat :| InList(h, c, m, i);
        assert InList(h', c, m, i);
      }
    }
  }

  /** A live block is given back to the subclass. */
  lemma ListsReturned(L: nat, h: Heap, h': Heap, b: Block)
    requires Lists(L, h) && b.region < |h.books.held| && h'.lazy == h.lazy && b.start in h.live[b.region]
    requires h'.books.held == h.books.held[b.region := Less(h.books.held[b.region], b.start)]
    requires h'.live == h.live[b.region := Less(h.live[b.region], b.start)]
    ensures Lists(L, h')
  {
    forall m: nat, i: nat | m < |h'.lazy| && i < |h'.lazy[m]|
      ensures Cached(h', m, i)
    {
      assert Cached(h, m, i);
    }
    forall m: nat, i: nat, j: nat | SamePlace(h', m, i, j)
      ensures i == j
    {
      assert SamePlace(h, m, i, j);
    }
    forall c | Waiting(h', c)
      ensures IsCached(h', c)
    {
      assert Waiting(h, c);
      var m: nat, i: nat :| InList(h, c, m, i);
      assert InList(h', c, m, i);
    }
  }

  // Every operation keeps the partition and the account

  lemma AllocateFresh(cfg: Config, charge: Charge, h: Heap, h': Heap, size: nat, b: Block)
    requires Inv(cfg, h) && size <= cfg.MaxSize() && Granted(cfg, charge, h, h', size, Some(b))
    ensures Inv(cfg, h')
    ensures b.start !in h.live[b.region]
  {
    var l := LevelFor(cfg, size);
    assert RegionOk(cfg.L, h.books.held[b.region], h.live[b.region], h.books.free[b.region], h.idle[b.region]);
    RegionAllocated(cfg.L, h.books.held[b.region], h.live[b.region], h.books.free[b.region], h.idle[b.region],
      b.start, l);
    RegionsAfter(cfg.L, h, h', b.region);
    ListsAllocated(cfg.L, h, h', b, l);
    IdleTaken(cfg, h.idle, b, l);
    SumUpdate(h.books.sizes, b.region, h'.books.sizes[b.region]);
  }

  lemma AllocateLazy(cfg: Config, charge: Charge, h: Heap, h': Heap, size: nat, b: Block)
    requires Inv(cfg, h) && size <= cfg.MaxSize() && Allocate(cfg, charge, h, h', size, Answer(Some(b)))
    requires h.lazy[LevelFor(cfg, size)] != []
    ensures Inv(cfg, h')
    ensures b.start !in h.live[b.region] && IsBlock(cfg.L, b.start, LevelFor(cfg, size))
  {
    var l := LevelFor(cfg, size);
    assert Cached(h, l, 0);
    assert RegionOk(cfg.L, h.books.held[b.region], h.live[b.region], h.books.free[b.region], h.idle[b.region]);
    RegionReused(cfg.L, h.books.held[b.region], h.live[b.region], h.books.free[b.region], h.idle[b.region], b.start);
    RegionsAfter(cfg.L, h, h', b.region);
    ListsPopped(cfg.L, h, h', l);
    IdleTaken(cfg, h.idle, b, l);
  }

  /** An allocation hands out an aligned block of which no cell was in a live block. */
  lemma AllocateInv(cfg: Config, charge: Charge, h: Heap, h': Heap, size: nat, result: Outcome<Block>)
    requires Inv(cfg, h) && Allocate(cfg, charge, h, h', size, result)
    ensures Inv(cfg, h')
    ensures result.OutOfBounds? || result == Answer(None) ==> h' == h
    ensures h'.drift == h.drift + Due(cfg, charge, h, Alloc(size, result))
  {
    if result.Answer? && result.block.Some? {
      if h.lazy[LevelFor(cfg, size)] == [] {
        AllocateFresh(cfg, charge, h, h', size, result.block.value);
      } else {
        AllocateLazy(cfg, charge, h, h', size, result.block.value);
      }
    }
  }

  /** What the action leaves uncounted: a cached block is always charged by the request. */
  ghost function Due(cfg: Config, charge: Charge, h: Heap, a: Action): nat
    requires cfg.Ok() && |h.lazy| == cfg.L
  {
    match a
    case Alloc(size, Answer(Some(_))) =>
      if size > cfg.MaxSize() then 0
      else if h.lazy[LevelFor(cfg, size)] != [] then Shortfall(cfg, ByRequest, size)
      else Shortfall(cfg, charge, size)
    case _ => 0
  }

  /** What the caller owes: a null or foreign pointer, or a live block with a size of its level. */
  ghost predicate MayFree(cfg: Config, h: Heap, ptr: Option<Block>, size: nat)
    requires cfg.Ok() && |h.live| == |h.idle|
  {
    && Clamped(cfg, size) <= cfg.MaxSize()
    && (ptr.Some? && ptr.value.region < |h.live| ==>
          ptr.value.start in h.live[ptr.value.region] &&
            h.live[ptr.value.region][ptr.value.start] == LevelFor(cfg, Clamped(cfg, size)))
  }

  lemma ClampedIsExact(cfg: Config, size: nat)
    requires cfg.Ok() && Clamped(cfg, size) <= cfg.MaxSize()
    ensures RoundUpPow2(Clamped(cfg, size)) == cfg.SizeOfLevel(LevelFor(cfg, Clamped(cfg, size)))
  {
    assert cfg.SizeOfLevel(cfg.L - 1) == cfg.MinSize();
    SizeOfLevelMono(cfg, cfg.L - 1, cfg.L);
    RoundUpIsBlockSize(cfg, Clamped(cfg, size), LevelFor(cfg, Clamped(cfg, size)));
  }

  lemma DeallocateInv(cfg: Config, thresholds: seq<nat>, h: Heap, h': Heap, ptr: Option<Block>, size: nat)
    requires Inv(cfg, h) && |thresholds| == cfg.L && MayFree(cfg, h, ptr, size)
    requires Deallocate(cfg, thresholds, h, h', ptr, size)
    ensures Inv(cfg, h') && h'.drift == h.drift
  {
    if ptr.Some? && ptr.value.region < |h.live| {
      var b := ptr.value;
      var l := h.live[b.region][b.start];
      assert RegionOk(cfg.L, h.books.held[b.region], h.live[b.region], h.books.free[b.region], h.idle[b.region]);
      ClampedIsExact(cfg, size);
      RegionKept(cfg.L, h.books.held[b.region], h.live[b.region], h.books.free[b.region], h.idle[b.region], b.start);
      IdleGiven(cfg, h.idle, b, l);
      if |h.lazy[l]| < thresholds[l] {
        RegionsAfter(cfg.L, h, h', b.region);
        ListsPushed(cfg.L, h, h', b, l);
      } else {
        RegionReturned(cfg.L, h.books.held[b.region], h.live[b.region], h.books.free[b.region], h.idle[b.region],
          b.start);
        RegionsAfter(cfg.L, h, h', b.region);
        ListsReturned(cfg.L, h, h', b);
        SumUpdate(h.books.sizes, b.region, h'.books.sizes[b.region]);
      }
    }
  }

  /** Emptying the lazy lists moves blocks to the subclass and counts nothing twice. */
  lemma EmptyInv(cfg: Config, h: Heap, h': Heap, l: nat)
    requires Inv(cfg, h) && EmptyOne(cfg, h, h', l)
    ensures Inv(cfg, h') && h'.idle == h.idle && h'.live == h.live && h'.drift == h.drift
    ensures FreeSize(h') == FreeSize(h)
  {
    var b := h.lazy[l][0];
    assert Cached(h, l, 0);
    assert RegionOk(cfg.L, h.books.held[b.region], h.live[b.region], h.books.free[b.region], h.idle[b.region]);
    RegionEmptied(cfg.L, h.books.held[b.region], h.live[b.region], h.books.free[b.region], h.idle[b.region], b.start);
    RegionsAfter(cfg.L, h, h', b.region);
    ListsPopped(cfg.L, h, h', l);
    SumUpdate(h.books.sizes, b.region, h'.books.sizes[b.region]);
  }

  // Runs

  datatype Action = Alloc(size: nat, result: Outcome<Block>) | Dealloc(ptr: Option<Block>, bytes: nat)
    | Empty(level: nat)

  /** A run goes on as long as requests are answered. */
  ghost predicate Step(cfg: Config, charge: Charge, thresholds: seq<nat>, h: Heap, h': Heap, a: Action)
    requires cfg.Ok() && |h.lazy| == cfg.L == |thresholds| && h.books.Cover(|h.books.free|)
  {
    match a
    case Alloc(size, result) => result.Answer? && Allocate(cfg, charge, h, h', size, result)
    case Dealloc(ptr, size) => |h.live| == |h.idle| && MayFree(cfg, h, ptr, size) &&
      Deallocate(cfg, thresholds, h, h', ptr, size)
    case Empty(l) => EmptyOne(cfg, h, h', l)
  }

  /** A heap that starts with everything free. */
  ghost predicate Init(cfg: Config, h: Heap) {
    && cfg.Ok() && |h.books.free| == |h.books.sizes| == |h.books.held| == |h.live| == |h.idle|
    && h.lazySize == 0 && h.drift == 0 && h.lazy == seq(cfg.L, i => [])
    && forall r {:trigger h.books.held[r]} :: 0 <= r < |h.books.free| ==>
         && h.books.held[r] == map[] && h.live[r] == map[]
         && h.idle[r] == h.books.free[r] == Interval(0, RegionCells(cfg.L)) && h.books.sizes[r] == cfg.MaxSize()
  }

  lemma {:induction false} InitAccount(cfg: Config, sizes: seq<nat>, idle: seq<set<nat>>)
    requires cfg.Ok() && |sizes| == |idle|
    requires forall r :: 0 <= r < |idle| ==> idle[r] == Interval(0, RegionCells(cfg.L)) && sizes[r] == cfg.MaxSize()
    ensures Sum(sizes) == IdleBytes(cfg, idle)
  {
    if idle != [] {
      AllFree(cfg);
      InitAccount(cfg, sizes[1..], idle[1..]);
    }
  }

  lemma InitInv(cfg: Config, h: Heap)
    requires Init(cfg, h)
    ensures Inv(cfg, h)
  {
    forall r | 0 <= r < |h.idle|
      ensures h.idle[r] == Interval(0, RegionCells(cfg.L)) && h.books.sizes[r] == cfg.MaxSize()
    {
      assert h.books.held[r] == map[];
    }
    InitAccount(cfg, h.books.sizes, h.idle);
  }

  ghost predicate StepAt(
    cfg: Config, charge: Charge, thresholds: seq<nat>, run: seq<Heap>, acts: seq<Action>, i: nat)
    requires cfg.Ok() && |thresholds| == cfg.L
  {
    && i + 1 < |run| && i < |acts| && |run[i].lazy| == cfg.L && run[i].books.Cover(|run[i].books.free|)
    && Step(cfg, charge, thresholds, run[i], run[i + 1], acts[i])
  }

  ghost predicate Run(cfg: Config, charge: Charge, thresholds: seq<nat>, run: seq<Heap>, acts: seq<Action>) {
    && cfg.Ok() && |thresholds| == cfg.L && |run| > 0 && Init(cfg, run[0])
    && forall i: nat {:trigger StepAt(cfg, charge, thresholds, run, acts, i)} :: i + 1 < |run| ==>
      StepAt(cfg, charge, thresholds, run, acts, i)
  }

  /** What the allocations so far have been short by. */
  ghost function Drift(
    cfg: Config, charge: Charge, thresholds: seq<nat>, run: seq<Heap>, acts: seq<Action>, n: nat): nat
    requires Run(cfg, charge, thresholds, run, acts) && n < |run|
  {
    if n == 0 then 0 else
      assert StepAt(cfg, charge, thresholds, run, acts, n - 1);
      Drift(cfg, charge, thresholds, run, acts, n - 1) + Due(cfg, charge, run[n - 1], acts[n - 1])
  }

  /**
     Over any run, live, cached and free blocks partition the regions, and `free_size` is the number of
     bytes in no live block plus what requests of at most half the smallest block have left uncounted.
   */
  lemma {:induction false} RunInv(
    cfg: Config, charge: Charge, thresholds: seq<nat>, run: seq<Heap>, acts: seq<Action>, i: nat)
    requires Run(cfg, charge, thresholds, run, acts) && i < |run|
    ensures Inv(cfg, run[i])
    ensures FreeSize(run[i]) == IdleBytes(cfg, run[i].idle) + Drift(cfg, charge, thresholds, run, acts, i)
  {
    if i == 0 {
      InitInv(cfg, run[0]);
    } else {
      RunInv(cfg, charge, thresholds, run, acts, i - 1);
      assert StepAt(cfg, charge, thresholds, run, acts, i - 1);
      StepInv(cfg, charge, thresholds, run[i - 1], run[i], acts[i - 1]);
    }
  }

  lemma StepInv(cfg: Config, charge: Charge, thresholds: seq<nat>, h: Heap, h': Heap, a: Action)
    requires Inv(cfg, h) && |thresholds| == cfg.L && Step(cfg, charge, thresholds, h, h', a)
    ensures Inv(cfg, h')
    ensures h'.drift == h.drift + Due(cfg, charge, h, a)
  {
    match a
    case Alloc(size, result) => AllocateInv(cfg, charge, h, h', size, result);
    case Dealloc(ptr, size) => DeallocateInv(cfg, thresholds, h, h', ptr, size);
    case Empty(l) => EmptyInv(cfg, h, h', l);
  }
}
