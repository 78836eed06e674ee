/**
 How `deallocate_range` of the base class (buddy_allocator.cpp) cuts a range of memory into blocks:
 from left to right, always the largest aligned block that fits; no other cut has fewer blocks.
 */
module BuddyRange {
  import opened Powers
  import opened Options
  import opened BuddyGeometry
  import opened BuddySpec
  import opened BlockSets
  import opened SplitBits
  import opened BinarySplitBits
  import opened BinaryBuddy

  datatype Piece = Piece(start: nat, level: nat)

  /** A block of level `l` can start at `lo` and takes at most `n` cells. */
  predicate Fitting(L: nat, lo: nat, n: nat, l: nat)
    requires l < L
  {
    IsBlock(L, lo, l) && Span(L, l) <= n
  }

  lemma CellFits(L: nat, lo: nat, n: nat)
    requires L > 0 && lo < RegionCells(L) && n > 0
    ensures Fitting(L, lo, n, L - 1)
  {
    LevelLast(L, lo);
    assert AlignLeft(L, lo, L - 1) == lo;
  }

  /** The level of the largest fitting block, searched from level `l` on. */
  function LargestFrom(L: nat, lo: nat, n: nat, l: nat): (m: nat)
    requires L > 0 && lo < RegionCells(L) && n > 0 && l < L
    ensures l <= m < L && Fitting(L, lo, n, m)
    ensures forall k :: l <= k < m ==> !Fitting(L, lo, n, k)
    decreases L - l
  {
    CellFits(L, lo, n);
    if Fitting(L, lo, n, l) then l else LargestFrom(L, lo, n, l + 1)
  }

  function Largest(L: nat, lo: nat, n: nat): (m: nat)
    requires L > 0 && lo < RegionCells(L) && n > 0
    ensures m < L && Fitting(L, lo, n, m)
    ensures forall k :: 0 <= k < m ==> !Fitting(L, lo, n, k)
  {
    LargestFrom(L, lo, n, 0)
  }

  /** The pieces of the cells from `lo` up to `hi` of one region. */
  function Pieces(L: nat, lo: nat, hi: nat): seq<Piece>
    requires L > 0 && hi <= RegionCells(L)
    decreases hi - lo
  {
    if lo >= hi then [] else
      var l := Largest(L, lo, hi - lo);
      [Piece(lo, l)] + Pieces(L, lo + Span(L, l), hi)
  }

  /** The pieces are aligned blocks and lie end to end from `lo` to `hi`. */
  predicate Tiling(L: nat, s: seq<Piece>, lo: nat, hi: nat)
    decreases |s|
  {
    if s == [] then lo == hi else
      && s[0].start == lo && lo < hi && s[0].level < L && Fitting(L, lo, hi - lo, s[0].level)
      && Tiling(L, s[1..], lo + Span(L, s[0].level), hi)
  }

  lemma {:induction false} PiecesTile(L: nat, lo: nat, hi: nat)
    requires L > 0 && lo <= hi <= RegionCells(L)
    ensures Tiling(L, Pieces(L, lo, hi), lo, hi)
    decreases hi - lo
  {
    if lo < hi {
      var l := Largest(L, lo, hi - lo);
      PiecesTile(L, lo + Span(L, l), hi);
      assert Pieces(L, lo, hi)[1..] == Pieces(L, lo + Span(L, l), hi);
    }
  }

  /** A block that starts inside the largest fitting one ends inside it, or it would fit at `lo` and be larger. */
  lemma EndsInside(L: nat, lo: nat, hi: nat, x: nat, k: nat)
    requires L > 0 && lo < hi <= RegionCells(L) && k < L && x < hi && Fitting(L, x, hi - x, k)
    requires lo <= x < lo + Span(L, Largest(L, lo, hi - lo))
    ensures x + Span(L, k) <= lo + Span(L, Largest(L, lo, hi - lo))
  {
    var j := Largest(L, lo, hi - lo);
    BlockCells(L, lo, j, x);
    if k < j {
      SameBlockUp(L, lo, x, j, k);
      BlockCells(L, x, k, lo);
    } else {
      var last := x + Span(L, k) - 1;
      BlockCells(L, x, k, last);
      SameBlockUp(L, x, last, k, j);
      BlockCells(L, lo, j, last);
    }
  }

  /** Any tiling has a boundary where the first greedy piece ends. */
  lemma {:induction false} After(L: nat, s: seq<Piece>, x: nat, lo: nat, hi: nat) returns (rest: seq<Piece>)
    requires L > 0 && lo < hi <= RegionCells(L) && lo <= x <= lo + Span(L, Largest(L, lo, hi - lo))
    requires Tiling(L, s, x, hi)
    ensures Tiling(L, rest, lo + Span(L, Largest(L, lo, hi - lo)), hi)
    ensures |rest| <= |s| - if x < lo + Span(L, Largest(L, lo, hi - lo)) then 1 else 0
    decreases |s|
  {
    if x == lo + Span(L, Largest(L, lo, hi - lo)) {
      rest := s;
    } else {
      EndsInside(L, lo, hi, x, s[0].level);
      rest := After(L, s[1..], x + Span(L, s[0].level), lo, hi);
    }
  }

  /** No way to cut the range into aligned blocks uses fewer of them. */
  lemma {:induction false} Fewest(L: nat, s: seq<Piece>, lo: nat, hi: nat)
    requires L > 0 && lo <= hi <= RegionCells(L) && Tiling(L, s, lo, hi)
    ensures |Pieces(L, lo, hi)| <= |s|
    decreases hi - lo
  {
    if lo < hi {
      var rest := After(L, s, lo, lo, hi);
      Fewest(L, rest, lo + Span(L, Largest(L, lo, hi - lo)), hi);
    }
  }

  /** How many pieces have level `m`. */
  function Uses(s: seq<Piece>, m: nat): nat {
    if s == [] then 0 else (if s[0].level == m then 1 else 0) + Uses(s[1..], m)
  }

  lemma UsesFirst(L: nat, lo: nat, hi: nat, m: nat)
    requires L > 0 && lo < hi <= RegionCells(L)
    ensures var l := Largest(L, lo, hi - lo);
      Uses(Pieces(L, lo, hi), m) == (if l == m then 1 else 0) + Uses(Pieces(L, lo + Span(L, l), hi), m)
  {
    var l := Largest(L, lo, hi - lo);
    assert Pieces(L, lo, hi)[1..] == Pieces(L, lo + Span(L, l), hi);
  }

  /** The end of a block is aligned to its level, and to the next if the block is a right half. */
  lemma AfterBlock(L: nat, lo: nat, l: nat)
    requires IsBlock(L, lo, l) && lo + Span(L, l) < RegionCells(L)
    ensures IsBlock(L, lo + Span(L, l), l)
    ensures l > 0 && !IsBlock(L, lo, l - 1) ==> IsBlock(L, lo + Span(L, l), l - 1)
  {
    var k := L - 1 - l;
    var j := InLevel(L, lo, l);
    ShlMono(j, j, k);
    ShrShl(j + 1, k);
    if l > 0 {
      Parent(L, lo, l - 1);
      Parent(L, lo + Span(L, l), l - 1);
      HalfShift(j / 2, k);
      HalfShift((j + 1) / 2, k);
    }
  }

  lemma HalfShift(h: nat, k: nat)
    ensures Shl(2 * h, k) == Shl(h, k + 1)
  {
    ShlShl(h, 1, k);
    assert Shl(h, 1) == 2 * h;
    ShlShl(h, k, 1);
  }

  /** From a start aligned to a block larger than what is left, the pieces get strictly smaller. */
  lemma {:induction false} Tail(L: nat, lo: nat, hi: nat, l: nat, m: nat)
    requires L > 0 && lo <= hi <= RegionCells(L) && l < L && m < L
    requires lo < hi ==> IsBlock(L, lo, l)
    requires hi - lo < Span(L, l)
    ensures Uses(Pieces(L, lo, hi), m) <= if m > l then 1 else 0
    decreases hi - lo
  {
    if lo < hi {
      var n := hi - lo;
      var j := Largest(L, lo, n);
      SpanMono(L, l, j);
      assert j > l;
      FirstBelow(L, lo, l, j - 1);
      assert !Fitting(L, lo, n, j - 1);
      SpanMono(L, j - 1, j);
      var next := lo + Span(L, j);
      if next < hi {
        AfterBlock(L, lo, j);
      }
      Tail(L, next, hi, j, m);
      UsesFirst(L, lo, hi, m);
    }
  }

  lemma SpanMono(L: nat, l: nat, m: nat)
    requires l < L && m < L
    ensures l <= m ==> Span(L, m) <= Span(L, l)
    ensures l < m ==> 2 * Span(L, m) <= Span(L, l)
    ensures m < l ==> 2 * Span(L, l) <= Span(L, m)
    ensures m == l + 1 ==> 2 * Span(L, m) == Span(L, l)
  {
    if l <= m {
      Pow2Mono(L - 1 - m, L - 1 - l);
    } else {
      Pow2Mono(L - 1 - l, L - 1 - m);
    }
  }

  /** Up to there they get strictly larger; so each size is used at most twice. */
  lemma {:induction false} Head(L: nat, lo: nat, hi: nat, l: nat, m: nat)
    requires L > 0 && lo <= hi <= RegionCells(L) && l < L && m < L
    requires lo < hi ==> IsBlock(L, lo, l)
    ensures Uses(Pieces(L, lo, hi), m) <= if m > l then 1 else 2
    decreases hi - lo
  {
    if lo < hi {
      var n := hi - lo;
      var j := Largest(L, lo, n);
      var next := lo + Span(L, j);
      UsesFirst(L, lo, hi, m);
      if next == hi {
        assert Pieces(L, next, hi) == [];
      } else {
        assert j > 0;
        AfterBlock(L, lo, j);
        if IsBlock(L, lo, j - 1) {
          assert !Fitting(L, lo, n, j - 1);
          Tail(L, lo, hi, j - 1, m);
        } else {
          if l <= j - 1 {
            FirstBelow(L, lo, l, j - 1);
          }
          Head(L, next, hi, j - 1, m);
        }
      }
    }
  }

  /** No size is used more than twice in a region. */
  lemma AtMostTwice(L: nat, lo: nat, hi: nat, m: nat)
    requires L > 0 && lo <= hi <= RegionCells(L) && m < L
    ensures Uses(Pieces(L, lo, hi), m) <= 2
  {
    if lo < hi {
      LevelLast(L, lo);
      assert AlignLeft(L, lo, L - 1) == lo;
    }
    Head(L, lo, hi, L - 1, m);
  }

  // The code

  /** `level_alignment`: the largest level from `start` on to which the cell is aligned. */
  method LevelAlignment(L: nat, c: nat, start: nat) returns (level: nat)
    requires L > 0 && c < RegionCells(L)
    ensures start >= L ==> level == L - 1
    ensures start < L ==> start <= level < L && IsBlock(L, c, level)
    ensures start < L ==> forall k :: start <= k < level ==> !IsBlock(L, c, k)
  {
    if start >= L {
      return L - 1;
    }
    CellFits(L, c, 1);
    level := start;
    while AlignLeft(L, c, level) != c
      invariant start <= level < L
      invariant forall k :: start <= k < level ==> !IsBlock(L, c, k)
      decreases L - level
    {
      level := level + 1;
    }
  }

  lemma BytesMono(cfg: Config, a: nat, b: nat)
    ensures BytesOf(cfg, a) <= BytesOf(cfg, b) <==> a <= b
  {
    if a <= b {
      BytesAdd(cfg, a, b - a);
    } else {
      BytesAdd(cfg, b, a - b);
      assert BytesOf(cfg, a - b) > 0;
    }
  }

  /** What the level chosen for the whole rest of the range says in cells. */
  lemma LevelInCells(cfg: Config, n: nat, l: nat, k: nat)
    requires cfg.Ok() && cfg.Fits(BytesOf(cfg, n), l) && k < cfg.L
    ensures cfg.SizeOfLevel(l) == BytesOf(cfg, n) <==> Span(cfg.L, l) == n
    ensures n <= Span(cfg.L, l)
    ensures k < l ==> Span(cfg.L, k) > n
    ensures k > l ==> Span(cfg.L, k) < n
  {
    SizeIsSpan(cfg, l);
    BytesMono(cfg, n, Span(cfg.L, l));
    BytesMono(cfg, Span(cfg.L, l), n);
    SpanMono(cfg.L, k, l);
    if k > l {
      SizeIsSpan(cfg, l + 1);
      BytesMono(cfg, n, Span(cfg.L, l + 1));
      SpanMono(cfg.L, l + 1, k);
    }
  }

  /** The level the code chooses is that of the largest fitting block. */
  method ChooseLevel(cfg: Config, c: nat, n: nat, size: nat) returns (level: nat, blockSize: nat)
    requires cfg.Ok() && n > 0 && c + n <= RegionCells(cfg.L) && size == BytesOf(cfg, n) && size <= cfg.MaxSize()
    ensures level == Largest(cfg.L, c, n) && blockSize == cfg.SizeOfLevel(level)
  {
    var maxLevel := FindSmallestBlockLevel(cfg, size);
    var aligned := LevelAlignment(cfg.L, c, maxLevel);
    ghost var best := Largest(cfg.L, c, n);
    LevelInCells(cfg, n, maxLevel, best);
    if cfg.SizeOfLevel(maxLevel) == size && maxLevel == aligned {
      assert Fitting(cfg.L, c, n, maxLevel);
      return maxLevel, size;
    }
    level := LevelAlignment(cfg.L, c, maxLevel + 1);
    assert best > maxLevel;
    LevelInCells(cfg, n, maxLevel, level);
    assert Fitting(cfg.L, c, n, level);
    blockSize := cfg.SizeOfLevel(level);
  }

  ghost predicate NoneFree(free: set<nat>, lo: nat, hi: nat) {
    forall c: nat :: lo <= c < hi ==> c !in free
  }

  /** The blocks in use that do not start in the range. */
  function Kept(held: Blocks, lo: nat, hi: nat): Blocks {
    map x | x in held && !(lo <= x < hi) :: held[x]
  }

  /** No piece cuts a block in use. */
  ghost predicate AllUncut(L: nat, held: Blocks, s: seq<Piece>) {
    forall i :: 0 <= i < |s| ==> s[i].level < L && NoneCut(L, held, s[i].start, s[i].level)
  }

  /** The blocks in use that start in the range end in it. */
  ghost predicate EndsBy(L: nat, held: Blocks, lo: nat, hi: nat) {
    forall x :: x in held && lo <= x < hi ==> held[x] < L && x + Span(L, held[x]) <= hi
  }

  /**
     The cells from `lo` up to `c` of region `r` have been freed in the pieces `done`, and nothing else; as
     long as no piece has cut a block in use, the split bits still tell the blocks that are left.
   */
  ghost predicate FreedTo(
    cfg: Config, before: Books, wasTracked: bool, now: Books, tracked: bool, r: nat, lo: nat, c: nat, done: seq<Piece>)
  {
    && cfg.Ok() && before.Cover(|before.free|) && now.Cover(|before.free|) && r < |before.free| && lo <= c
    && now.free == before.free[r := before.free[r] + Interval(lo, c)]
    && now.sizes == before.sizes[r := before.sizes[r] + BytesOf(cfg, c - lo)]
    && (tracked <==> wasTracked && AllUncut(cfg.L, before.held[r], done))
    && (tracked ==>
        now.held == before.held[r := Kept(before.held[r], lo, c)] && EndsBy(cfg.L, before.held[r], lo, c))
  }

  lemma NothingYet(cfg: Config, before: Books, tracked: bool, r: nat, lo: nat)
    requires cfg.Ok() && before.Cover(|before.free|) && r < |before.free|
    ensures FreedTo(cfg, before, tracked, before, tracked, r, lo, lo, [])
  {
    assert before.free[r] + Interval(lo, lo) == before.free[r];
    assert Kept(before.held[r], lo, lo) == before.held[r];
  }

  /** One more piece. */
  lemma Longer(
    cfg: Config, before: Books, wasTracked: bool, mid: Books, midTracked: bool, now: Books, tracked: bool,
    r: nat, lo: nat, c: nat, l: nat, next: nat, done: seq<Piece>)
    returns (more: seq<Piece>)
    requires FreedTo(cfg, before, wasTracked, mid, midTracked, r, lo, c, done) && IsBlock(cfg.L, c, l)
    requires wasTracked ==> AreBlocks(cfg.L, before.held[r])
    requires now.Cover(|mid.free|)
    requires now.free == mid.free[r := mid.free[r] + Cells(cfg.L, c, l)]
    requires now.sizes == mid.sizes[r := mid.sizes[r] + cfg.SizeOfLevel(l)]
    requires tracked == (midTracked && NoneCut(cfg.L, mid.held[r], c, l))
    requires tracked ==> now.held == mid.held[r := Outside(cfg.L, mid.held[r], c, l)]
    requires next == c + Span(cfg.L, l)
    ensures FreedTo(cfg, before, wasTracked, now, tracked, r, lo, next, more) && more == done + [Piece(c, l)]
  {
    more := done + [Piece(c, l)];
    assert before.free[r] + Interval(lo, c) + Cells(cfg.L, c, l) == before.free[r] + Interval(lo, next);
    SizeIsSpan(cfg, l);
    BytesAdd(cfg, c - lo, Span(cfg.L, l));
    var held := before.held[r];
    if midTracked {
      CutOrNot(cfg.L, held, lo, c, l);
      MoreUncut(cfg.L, held, done, c, l);
      if tracked {
        KeptOutside(cfg.L, held, lo, c, l);
      }
    } else {
      assert wasTracked ==> !AllUncut(cfg.L, held, done);
      FewerUncut(cfg.L, held, done, Piece(c, l));
    }
  }

  lemma MoreUncut(L: nat, held: Blocks, done: seq<Piece>, c: nat, l: nat)
    requires l < L && AllUncut(L, held, done)
    ensures AllUncut(L, held, done + [Piece(c, l)]) <==> NoneCut(L, held, c, l)
  {
    var more := done + [Piece(c, l)];
    assert more[|done|] == Piece(c, l);
    assert forall i :: 0 <= i < |done| ==> more[i] == done[i];
  }

  lemma FewerUncut(L: nat, held: Blocks, done: seq<Piece>, p: Piece)
    ensures AllUncut(L, held, done + [p]) ==> AllUncut(L, held, done)
  {
    assert forall i :: 0 <= i < |done| ==> (done + [p])[i] == done[i];
  }

  /** Blocks that ended before are not cut either. */
  lemma CutOrNot(L: nat, held: Blocks, lo: nat, c: nat, l: nat)
    requires AreBlocks(L, held) && IsBlock(L, c, l) && EndsBy(L, held, lo, c)
    ensures NoneCut(L, Kept(held, lo, c), c, l) <==> NoneCut(L, held, c, l)
  {
    forall x | x in held && x !in Kept(held, lo, c)
      ensures !SameBlock(L, x, c, held[x])
    {
      BlockCells(L, x, held[x], c);
    }
    assert forall x :: x in Kept(held, lo, c) ==> x in held && Kept(held, lo, c)[x] == held[x];
  }

  lemma KeptOutside(L: nat, held: Blocks, lo: nat, c: nat, l: nat)
    requires AreBlocks(L, held) && IsBlock(L, c, l) && EndsBy(L, held, lo, c) && lo <= c && NoneCut(L, held, c, l)
    ensures Outside(L, Kept(held, lo, c), c, l) == Kept(held, lo, c + Span(L, l))
    ensures EndsBy(L, held, lo, c + Span(L, l))
  {
    forall x | x in held
      ensures SameBlock(L, c, x, l) <==> c <= x < c + Span(L, l)
    {
      BlockCells(L, c, l, x);
    }
    forall x | x in held && lo <= x < c + Span(L, l)
      ensures held[x] < L && x + Span(L, held[x]) <= c + Span(L, l)
    {
      if x >= c {
        PieceEnds(L, held, c, l, x);
      }
    }
  }

  lemma PieceEnds(L: nat, held: Blocks, c: nat, l: nat, x: nat)
    requires AreBlocks(L, held) && IsBlock(L, c, l) && NoneCut(L, held, c, l) && x in held && SameBlock(L, c, x, l)
    ensures x + Span(L, held[x]) <= c + Span(L, l)
  {
    var k := held[x];
    if k < l {
      SameBlockUp(L, c, x, l, k);
    } else {
      var last := x + Span(L, k) - 1;
      BlockCells(L, x, k, last);
      SameBlockUp(L, x, last, k, l);
      BlockCells(L, c, l, last);
    }
  }

  /** The largest block that starts at `c` and fits is returned. */
  method ReturnPiece(
    a: BinaryBuddyAllocator, r: nat, c: nat, hi: nat, size: nat, ghost books: Books, ghost tracked: bool)
    returns (next: nat, rest: nat, ghost level: nat)
    requires a.Valid() && r < |a.regions| && c < hi <= RegionCells(a.cfg.L)
    requires NoneFree(a.books.free[r], c, hi) && size == BytesOf(a.cfg, hi - c)
    requires books == a.books && tracked == a.tracked
    modifies a`books, a`tracked, a.repr
    ensures a.Valid() && a.books.Cover(|books.free|) && level == Largest(a.cfg.L, c, hi - c)
    ensures next == c + Span(a.cfg.L, level) <= hi && rest == BytesOf(a.cfg, hi - next)
    ensures a.books.free == books.free[r := books.free[r] + Cells(a.cfg.L, c, level)]
    ensures a.books.sizes == books.sizes[r := books.sizes[r] + a.cfg.SizeOfLevel(level)]
    ensures a.tracked == (tracked && NoneCut(a.cfg.L, books.held[r], c, level))
    ensures a.tracked ==> a.books.held == books.held[r := Outside(a.cfg.L, books.held[r], c, level)]
  {
    WholeRange(a.cfg, hi - c);
    var top, blockSize := ChooseLevel(a.cfg, c, hi - c, size);
    PieceBytes(a.cfg, a.books.free[r], c, hi, top);
    a.DeallocatePart(Block(r, c), blockSize, top);
    next, rest, level := c + Span(a.cfg.L, top), size - blockSize, top;
  }

  /** One round of the loop: the piece that starts at `c`. */
  method DeallocatePiece(
    a: BinaryBuddyAllocator, r: nat, c: nat, hi: nat, size: nat,
    ghost before: Books, ghost wasTracked: bool, ghost lo: nat, ghost done: seq<Piece>)
    returns (next: nat, rest: nat, ghost more: seq<Piece>)
    requires a.Valid() && r < |a.regions| == |before.free| && c < hi <= RegionCells(a.cfg.L)
    requires FreedTo(a.cfg, before, wasTracked, a.books, a.tracked, r, lo, c, done)
    requires NoneFree(before.free[r], lo, hi) && size == BytesOf(a.cfg, hi - c)
    requires wasTracked ==> AreBlocks(a.cfg.L, before.held[r])
    modifies a`books, a`tracked, a.repr
    ensures a.Valid()
    ensures next == c + Span(a.cfg.L, Largest(a.cfg.L, c, hi - c)) <= hi && rest == BytesOf(a.cfg, hi - next)
    ensures FreedTo(a.cfg, before, wasTracked, a.books, a.tracked, r, lo, next, more)
    ensures more + Pieces(a.cfg.L, next, hi) == done + Pieces(a.cfg.L, c, hi)
  {
    ghost var mid, midTracked := a.books, a.tracked;
    ghost var level;
    next, rest, level := ReturnPiece(a, r, c, hi, size, mid, midTracked);
    more := Longer(a.cfg, before, wasTracked, mid, midTracked, a.books, a.tracked, r, lo, c, level, next, done);
    NextPiece(a.cfg.L, done, c, hi);
  }

  lemma PieceBytes(cfg: Config, free: set<nat>, c: nat, hi: nat, level: nat)
    requires cfg.Ok() && level < cfg.L && c + Span(cfg.L, level) <= hi && NoneFree(free, c, hi)
    ensures BytesOf(cfg, hi - c) == BytesOf(cfg, hi - (c + Span(cfg.L, level))) + cfg.SizeOfLevel(level)
    ensures forall d: nat :: d in Cells(cfg.L, c, level) ==> d !in free
  {
    SizeIsSpan(cfg, level);
    BytesAdd(cfg, hi - c - Span(cfg.L, level), Span(cfg.L, level));
  }

  /** The cells from `lo` up to `hi` of region `r` are freed piece by piece. */
  method DeallocateRegion(a: BinaryBuddyAllocator, r: nat, lo: nat, hi: nat) returns (ghost pieces: seq<Piece>)
    requires a.Valid() && r < |a.regions| && lo <= hi <= RegionCells(a.cfg.L)
    requires NoneFree(a.books.free[r], lo, hi)
    modifies a`books, a`tracked, a.repr
    ensures a.Valid() && pieces == Pieces(a.cfg.L, lo, hi)
    ensures FreedTo(a.cfg, old(a.books), old(a.tracked), a.books, a.tracked, r, lo, hi, pieces)
  {
    ghost var before, wasTracked := a.books, a.tracked;
    var c := lo;
    var size := BytesOf(a.cfg, hi - lo);
    pieces := [];
    a.TrackedBlocks(r);
    NothingYet(a.cfg, before, wasTracked, r, lo);
    while c < hi
      invariant c <= hi && size == BytesOf(a.cfg, hi - c)
      invariant a.Valid()
      invariant FreedTo(a.cfg, before, wasTracked, a.books, a.tracked, r, lo, c, pieces)
      invariant pieces + Pieces(a.cfg.L, c, hi) == Pieces(a.cfg.L, lo, hi)
      decreases hi - c
    {
      c, size, pieces := DeallocatePiece(a, r, c, hi, size, before, wasTracked, lo, pieces);
    }
  }

  lemma NextPiece(L: nat, pieces: seq<Piece>, c: nat, hi: nat)
    requires L > 0 && c < hi <= RegionCells(L)
    ensures var l := Largest(L, c, hi - c);
      pieces + Pieces(L, c, hi) == pieces + [Piece(c, l)] + Pieces(L, c + Span(L, l), hi)
  {
  }

  lemma WholeRange(cfg: Config, n: nat)
    requires cfg.Ok() && n <= RegionCells(cfg.L)
    ensures BytesOf(cfg, n) <= cfg.MaxSize()
  {
    SizeIsSpan(cfg, 0);
    BytesMono(cfg, n, RegionCells(cfg.L));
  }

  /** The part of the heap cells from `lo` up to `hi` that lies in region `r`. */
  lemma InRegion(L: nat, r: nat, g: nat)
    requires L > 0
    ensures RegionOf(L, g) == r <==> Shl(r, L - 1) <= g < Shl(r + 1, L - 1)
    ensures Shl(r + 1, L - 1) == Shl(r, L - 1) + RegionCells(L)
    ensures RegionOf(L, g) == r ==> CellOf(L, g) == g - Shl(r, L - 1)
    ensures RegionOf(L, g) < r <==> g < Shl(r, L - 1)
  {
    ShrRange(g, L - 1, r);
    ShlMono(r, r, L - 1);
    ShlShrBelow(g, L - 1);
    if RegionOf(L, g) < r {
      ShlMono(RegionOf(L, g), r, L - 1);
    } else {
      ShlMono(r, RegionOf(L, g), L - 1);
    }
  }

  /** Freeing the cells of one region frees those cells of the heap. */
  lemma RegionFreed(L: nat, pre: seq<set<nat>>, post: seq<set<nat>>, r: nat, lo: nat, hi: nat, g: nat)
    requires L > 0 && r < |pre| && lo <= hi <= RegionCells(L)
    requires post == pre[r := pre[r] + Interval(lo, hi)]
    ensures IsFree(L, post, g) <==> IsFree(L, pre, g) || Shl(r, L - 1) + lo <= g < Shl(r, L - 1) + hi
  {
    InRegion(L, r, g);
  }

  /**
     Frees the whole cells of the byte range `[start, start + size)`: region by region, each cut into
     as few blocks as its part of the range can be.
   */
  method DeallocateRange(a: BinaryBuddyAllocator, start: nat, size: nat)
    requires a.Valid()
    requires forall g: nat :: InBytes(a.cfg, start, size, g) ==>
      RegionOf(a.cfg.L, g) < |a.regions| && !IsFree(a.cfg.L, a.books.free, g)
    modifies a`books, a`tracked, a.repr
    ensures a.Valid()
    ensures forall g: nat :: IsFree(a.cfg.L, a.books.free, g) <==>
      IsFree(a.cfg.L, old(a.books.free), g) || InBytes(a.cfg, start, size, g)
    ensures a.tracked ==> old(a.tracked) && forall q :: 0 <= q < |a.regions| ==>
      a.books.held[q] == KeptOf(a.cfg, old(a.books.held)[q], q, start, size)
  {
    var lo, hi := CeilCells(a.cfg, start), FloorCells(a.cfg, start + size);
    WholeCells(a.cfg, start, size);
    DeallocateCells(a, lo, hi);
    forall q | 0 <= q < |a.regions|
      ensures KeptIn(a.cfg.L, old(a.books.held)[q], q, lo, hi) == KeptOf(a.cfg, old(a.books.held)[q], q, start, size)
    {
      KeptIsOf(a.cfg, old(a.books.held)[q], q, start, size);
    }
  }

  /** The blocks in use of region `q` whose first cell lies outside the byte range. */
  function KeptOf(cfg: Config, held: Blocks, q: nat, start: nat, size: nat): Blocks
    requires cfg.L > 0
  {
    map x | x in held && !InBytes(cfg, start, size, HeapCell(cfg.L, Block(q, x))) :: held[x]
  }

  lemma KeptIsOf(cfg: Config, held: Blocks, q: nat, start: nat, size: nat)
    requires cfg.L > 0
    ensures KeptIn(cfg.L, held, q, CeilCells(cfg, start), FloorCells(cfg, start + size)) ==
      KeptOf(cfg, held, q, start, size)
  {
    WholeCells(cfg, start, size);
    assert forall x :: x in held ==> HeapCell(cfg.L, Block(q, x)) == Shl(q, cfg.L - 1) + x;
  }

  /** The same for the cells from `lo` up to `hi` of the heap. */
  method DeallocateCells(a: BinaryBuddyAllocator, lo: nat, hi: nat)
    requires a.Valid()
    requires forall g :: lo <= g < hi ==> RegionOf(a.cfg.L, g) < |a.regions| && !IsFree(a.cfg.L, a.books.free, g)
    modifies a`books, a`tracked, a.repr
    ensures a.Valid()
    ensures forall g: nat ::
      IsFree(a.cfg.L, a.books.free, g) <==> IsFree(a.cfg.L, old(a.books.free), g) || lo <= g < hi
    ensures a.tracked ==> old(a.tracked) && forall q :: 0 <= q < |a.regions| ==>
      a.books.held[q] == KeptIn(a.cfg.L, old(a.books.held)[q], q, lo, hi)
  {
    var L := a.cfg.L;
    if lo >= hi {
      forall q | 0 <= q < |a.regions|
        ensures a.books.held[q] == KeptIn(L, a.books.held[q], q, lo, hi)
      {
      }
      return;
    }
    var r, endRegion := RegionOf(L, lo), RegionOf(L, hi - 1);
    Regions(L, lo, hi, a.books.free);
    if a.tracked {
      a.AllTracked();
      NoneEarlier(L, a.books.held, lo, hi);
    }
    while r <= endRegion
      invariant RegionOf(L, lo) <= r <= endRegion + 1
      invariant a.Valid()
      invariant FreedBefore(L, old(a.books.free), a.books.free, lo, hi, r)
      invariant a.tracked ==> old(a.tracked) && KeptBefore(L, old(a.books.held), a.books.held, lo, hi, r)
    {
      r := DeallocateInRegion(a, r, lo, hi, old(a.books));
    }
    if a.tracked {
      NoneLater(L, old(a.books.held), a.books.held, lo, hi, r);
    }
  }

  /** The blocks in use of region `q` that do not start in the range. */
  function KeptIn(L: nat, held: Blocks, q: nat, lo: nat, hi: nat): Blocks
    requires L > 0
  {
    map x | x in held && !(lo <= Shl(q, L - 1) + x < hi) :: held[x]
  }

  /** In the regions before `r` only those are left; all blocks lie in their regions. */
  ghost predicate KeptBefore(L: nat, pre: seq<Blocks>, now: seq<Blocks>, lo: nat, hi: nat, r: nat)
    requires L > 0
  {
    && |now| == |pre|
    && (forall q {:trigger pre[q]} :: 0 <= q < |pre| ==> AreBlocks(L, pre[q]))
    && (forall q {:trigger now[q]} :: 0 <= q < |pre| ==>
        now[q] == if q < r then KeptIn(L, pre[q], q, lo, hi) else pre[q])
  }

  lemma KeptOther(L: nat, held: Blocks, q: nat, lo: nat, hi: nat)
    requires L > 0 && lo < hi && AreBlocks(L, held) && (q < RegionOf(L, lo) || q > RegionOf(L, hi - 1))
    ensures KeptIn(L, held, q, lo, hi) == held
  {
    InRegion(L, q, lo);
    InRegion(L, q, hi - 1);
    InRegion(L, q + 1, lo);
    InRegion(L, q + 1, hi - 1);
  }

  lemma NoneLater(L: nat, pre: seq<Blocks>, now: seq<Blocks>, lo: nat, hi: nat, r: nat)
    requires L > 0 && lo < hi && r == RegionOf(L, hi - 1) + 1 && KeptBefore(L, pre, now, lo, hi, r)
    ensures forall q :: 0 <= q < |pre| ==> now[q] == KeptIn(L, pre[q], q, lo, hi)
  {
    forall q | 0 <= q < |pre|
      ensures now[q] == KeptIn(L, pre[q], q, lo, hi)
    {
      if q >= r {
        KeptOther(L, pre[q], q, lo, hi);
      }
    }
  }

  lemma NoneEarlier(L: nat, held: seq<Blocks>, lo: nat, hi: nat)
    requires L > 0 && lo < hi && forall q :: 0 <= q < |held| ==> AreBlocks(L, held[q])
    ensures KeptBefore(L, held, held, lo, hi, RegionOf(L, lo))
  {
    forall q | 0 <= q < RegionOf(L, lo) && q < |held|
      ensures KeptIn(L, held[q], q, lo, hi) == held[q]
    {
      KeptOther(L, held[q], q, lo, hi);
    }
  }

  lemma KeptPart(L: nat, pre: seq<Blocks>, mid: seq<Blocks>, lo: nat, hi: nat, r: nat, first: nat, last: nat)
    requires L > 0 && r < |pre| && KeptBefore(L, pre, mid, lo, hi, r) && first <= last
    requires first == PartStart(L, r, lo) && last == PartEnd(L, r, hi)
    ensures KeptBefore(L, pre, mid[r := Kept(mid[r], first, last)], lo, hi, r + 1)
  {
    assert AreBlocks(L, pre[r]);
    InRegion(L, r, lo);
    forall x | x in pre[r]
      ensures first <= x < last <==> lo <= Shl(r, L - 1) + x < hi
    {
      assert x < RegionCells(L);
    }
    assert mid[r] == pre[r];
    assert Kept(mid[r], first, last) == KeptIn(L, pre[r], r, lo, hi);
  }

  /** The part of the range that lies before region `r` has been freed. */
  ghost predicate FreedBefore(L: nat, pre: seq<set<nat>>, now: seq<set<nat>>, lo: nat, hi: nat, r: nat)
    requires L > 0
  {
    forall g: nat :: IsFree(L, now, g) <==> IsFree(L, pre, g) || (lo <= g < hi && RegionOf(L, g) < r)
  }

  lemma Regions(L: nat, lo: nat, hi: nat, free: seq<set<nat>>)
    requires L > 0 && lo < hi
    ensures RegionOf(L, lo) <= RegionOf(L, hi - 1)
    ensures forall g: nat :: lo <= g < hi ==> RegionOf(L, lo) <= RegionOf(L, g) <= RegionOf(L, hi - 1)
    ensures FreedBefore(L, free, free, lo, hi, RegionOf(L, lo))
  {
    forall g: nat | lo <= g < hi
      ensures RegionOf(L, lo) <= RegionOf(L, g) <= RegionOf(L, hi - 1)
    {
      InRegion(L, RegionOf(L, lo), lo);
      InRegion(L, RegionOf(L, lo), g);
      InRegion(L, RegionOf(L, g), g);
      InRegion(L, RegionOf(L, g), hi - 1);
    }
    assert lo <= lo < hi;
  }

  /** Where the part of the range that lies in region `r` starts and ends, from the start of the region. */
  function PartStart(L: nat, r: nat, lo: nat): nat
    requires L > 0
  {
    if Shl(r, L - 1) < lo then lo - Shl(r, L - 1) else 0
  }

  function PartEnd(L: nat, r: nat, hi: nat): int
    requires L > 0
  {
    (if Shl(r + 1, L - 1) < hi then Shl(r + 1, L - 1) else hi) - Shl(r, L - 1)
  }

  /** The part of the range that lies in region `r`. */
  method DeallocateInRegion(
    a: BinaryBuddyAllocator, r: nat, lo: nat, hi: nat, ghost pre: Books) returns (next: nat)
    requires a.Valid() && r < |a.regions| && lo < hi && RegionOf(a.cfg.L, lo) <= r <= RegionOf(a.cfg.L, hi - 1)
    requires forall g: nat :: lo <= g < hi ==> !IsFree(a.cfg.L, pre.free, g)
    requires FreedBefore(a.cfg.L, pre.free, a.books.free, lo, hi, r)
    requires a.tracked ==> KeptBefore(a.cfg.L, pre.held, a.books.held, lo, hi, r)
    modifies a`books, a`tracked, a.repr
    ensures a.Valid() && next == r + 1
    ensures FreedBefore(a.cfg.L, pre.free, a.books.free, lo, hi, next)
    ensures a.tracked ==> old(a.tracked) && KeptBefore(a.cfg.L, pre.held, a.books.held, lo, hi, next)
  {
    var L := a.cfg.L;
    ghost var before, wasTracked := a.books, a.tracked;
    Part(L, r, lo, hi, before.free, pre.free);
    var first: nat, last: nat := PartStart(L, r, lo), PartEnd(L, r, hi);
    ghost var pieces := DeallocateRegion(a, r, first, last);
    RegionDone(a.cfg, r, lo, hi, pre, before, wasTracked, a.books, a.tracked, first, last, pieces);
    return r + 1;
  }

  /** The part lies in the region and is not free yet. */
  lemma Part(L: nat, r: nat, lo: nat, hi: nat, before: seq<set<nat>>, pre: seq<set<nat>>)
    requires L > 0 && r < |before| && lo < hi && RegionOf(L, lo) <= r <= RegionOf(L, hi - 1)
    requires forall g: nat :: lo <= g < hi ==> !IsFree(L, pre, g)
    requires FreedBefore(L, pre, before, lo, hi, r)
    ensures PartStart(L, r, lo) <= PartEnd(L, r, hi) <= RegionCells(L)
    ensures NoneFree(before[r], PartStart(L, r, lo), PartEnd(L, r, hi))
  {
    InRegion(L, r, lo);
    InRegion(L, r, hi - 1);
    InRegion(L, r + 1, hi - 1);
    InRegion(L, r + 1, lo);
    var regionStart, regionEnd := Shl(r, L - 1), Shl(r + 1, L - 1);
    forall c: nat | regionStart + c < regionEnd && lo <= regionStart + c < hi
      ensures c !in before[r]
    {
      InRegion(L, r, regionStart + c);
      assert !IsFree(L, before, regionStart + c);
    }
  }

  lemma RegionDone(
    cfg: Config, r: nat, lo: nat, hi: nat, pre: Books, before: Books, wasTracked: bool, now: Books, tracked: bool,
    first: nat, last: nat, pieces: seq<Piece>)
    requires FreedTo(cfg, before, wasTracked, now, tracked, r, first, last, pieces)
    requires first <= last <= RegionCells(cfg.L)
    requires first == PartStart(cfg.L, r, lo) && last == PartEnd(cfg.L, r, hi)
    requires FreedBefore(cfg.L, pre.free, before.free, lo, hi, r)
    requires wasTracked ==> KeptBefore(cfg.L, pre.held, before.held, lo, hi, r)
    ensures FreedBefore(cfg.L, pre.free, now.free, lo, hi, r + 1)
    ensures tracked ==> wasTracked && KeptBefore(cfg.L, pre.held, now.held, lo, hi, r + 1)
  {
    PartFreed(cfg.L, r, lo, hi, pre.free, before.free, now.free, first, last);
    if tracked {
      KeptPart(cfg.L, pre.held, before.held, lo, hi, r, first, last);
    }
  }

  lemma PartFreed(
    L: nat, r: nat, lo: nat, hi: nat, pre: seq<set<nat>>, before: seq<set<nat>>, after: seq<set<nat>>,
    first: nat, last: nat)
    requires L > 0 && r < |before| && first <= last <= RegionCells(L)
    requires first == PartStart(L, r, lo) && last == PartEnd(L, r, hi)
    requires FreedBefore(L, pre, before, lo, hi, r) && after == before[r := before[r] + Interval(first, last)]
    ensures FreedBefore(L, pre, after, lo, hi, r + 1)
  {
    forall g: nat
      ensures IsFree(L, after, g) <==> IsFree(L, pre, g) || (lo <= g < hi && RegionOf(L, g) < r + 1)
    {
      RegionFreed(L, before, after, r, first, last, g);
      InRegion(L, r, g);
      assert IsFree(L, before, g) <==> IsFree(L, pre, g) || (lo <= g < hi && RegionOf(L, g) < r);
    }
  }
}
