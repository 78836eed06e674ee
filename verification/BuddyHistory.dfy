/**
 What a caller of the buddy family sees over a run: which blocks are live follows from the answers and the
 frees alone, a freed block that is cached is handed out again, and no lazy list outgrows its threshold.
 */
module BuddyHistory {
  import opened Options
  import opened BuddyGeometry
  import opened BuddySpec
  import opened BlockSets
  import opened BuddyRuns

  /** What one call does to the blocks that the caller owns, each with its level, in a heap of `n` regions. */
  function Owning(cfg: Config, n: nat, owned: map<Block, nat>, a: Action): map<Block, nat>
    requires cfg.Ok()
  {
    match a
    case Alloc(size, Answer(Some(b))) => if size <= cfg.MaxSize() then owned[b := LevelFor(cfg, size)] else owned
    case Dealloc(Some(b), _) => if b.region < n then owned - {b} else owned
    case _ => owned
  }

  /** The blocks answered and not freed in the first `i` calls. */
  function Owned(cfg: Config, n: nat, acts: seq<Action>, i: nat): map<Block, nat>
    requires cfg.Ok() && i <= |acts|
  {
    if i == 0 then map[] else Owning(cfg, n, Owned(cfg, n, acts, i - 1), acts[i - 1])
  }

  ghost predicate IsLive(h: Heap, b: Block, l: nat) {
    b.region < |h.live| && HasBlock(h.live[b.region], b.start, l)
  }

  ghost predicate Owns(owned: map<Block, nat>, b: Block, l: nat) {
    b in owned && owned[b] == l
  }

  /** The live blocks are those that the caller owns. */
  ghost predicate Agrees(h: Heap, owned: map<Block, nat>) {
    forall b, l {:trigger Owns(owned, b, l)} {:trigger IsLive(h, b, l)} :: IsLive(h, b, l) <==> Owns(owned, b, l)
  }

  lemma OwnsMore(h: Heap, h': Heap, owned: map<Block, nat>, c: Block, k: nat)
    requires Agrees(h, owned) && c.region < |h.live|
    requires h'.live == h.live[c.region := With(h.live[c.region], c.start, k)]
    ensures Agrees(h', owned[c := k])
  {
    forall b, l
      ensures IsLive(h', b, l) <==> Owns(owned[c := k], b, l)
    {
      assert IsLive(h, b, l) <==> Owns(owned, b, l);
    }
  }

  lemma OwnsLess(h: Heap, h': Heap, owned: map<Block, nat>, c: Block)
    requires Agrees(h, owned) && c.region < |h.live|
    requires h'.live == h.live[c.region := Less(h.live[c.region], c.start)]
    ensures Agrees(h', owned - {c})
  {
    forall b, l
      ensures IsLive(h', b, l) <==> Owns(owned - {c}, b, l)
    {
      assert IsLive(h, b, l) <==> Owns(owned, b, l);
    }
  }

  lemma SameLive(h: Heap, h': Heap, owned: map<Block, nat>)
    requires Agrees(h, owned) && h'.live == h.live
    ensures Agrees(h', owned)
  {
    forall b, l
      ensures IsLive(h', b, l) <==> Owns(owned, b, l)
    {
      assert IsLive(h, b, l) <==> Owns(owned, b, l);
    }
  }

  lemma OwnedStep(
    cfg: Config, charge: Charge, thresholds: seq<nat>, h: Heap, h': Heap, a: Action, owned: map<Block, nat>)
    requires Inv(cfg, h) && |thresholds| == cfg.L && Step(cfg, charge, thresholds, h, h', a) && Agrees(h, owned)
    ensures Agrees(h', Owning(cfg, |h.live|, owned, a)) && |h'.live| == |h.live|
  {
    match a
    case Alloc(size, Answer(Some(b))) => OwnsMore(h, h', owned, b, LevelFor(cfg, size));
    case Dealloc(Some(b), _) =>
      if b.region < |h.live| {
        OwnsLess(h, h', owned, b);
      }
    case _ => SameLive(h, h', owned);
  }

  lemma NoneOwned(cfg: Config, h: Heap)
    requires Init(cfg, h)
    ensures Agrees(h, map[])
  {
    forall b, l
      ensures IsLive(h, b, l) <==> Owns(map[], b, l)
    {
      if b.region < |h.live| {
        assert h.books.held[b.region] == map[];
      }
    }
  }

  /**
     Over any run the live blocks are exactly those that have been answered and not been freed since, each of the
     level of its request; so (`RunInv`) no two of them overlap.
   */
  lemma {:induction false} RunOwned(
    cfg: Config, charge: Charge, thresholds: seq<nat>, run: seq<Heap>, acts: seq<Action>, i: nat)
    requires Run(cfg, charge, thresholds, run, acts) && i < |run| && i <= |acts|
    ensures |run[i].live| == |run[0].live| && Agrees(run[i], Owned(cfg, |run[0].live|, acts, i))
  {
    if i == 0 {
      NoneOwned(cfg, run[0]);
    } else {
      RunOwned(cfg, charge, thresholds, run, acts, i - 1);
      RunInv(cfg, charge, thresholds, run, acts, i - 1);
      assert StepAt(cfg, charge, thresholds, run, acts, i - 1);
      OwnedStep(cfg, charge, thresholds, run[i - 1], run[i], acts[i - 1],
        Owned(cfg, |run[0].live|, acts, i - 1));
    }
  }

  ghost predicate NoneLeft(cfg: Config, h: Heap, l: nat)
    requires l < cfg.L == |h.lazy|
  {
    h.lazy[l] == [] && forall r :: 0 <= r < |h.books.free| ==> !Serves(cfg.L, h.books.free[r], l)
  }

  /** A request is answered with null exactly if it is too large, or no block of its level is cached or free. */
  lemma NullExactly(cfg: Config, charge: Charge, h: Heap, h': Heap, size: nat, result: Outcome<Block>)
    requires Inv(cfg, h) && Allocate(cfg, charge, h, h', size, result) && result.Answer?
    ensures result.block.None? <==> size > cfg.MaxSize() || NoneLeft(cfg, h, LevelFor(cfg, size))
  {
    if size <= cfg.MaxSize() && h.lazy[LevelFor(cfg, size)] == [] && result.block.Some? {
      var b, l := result.block.value, LevelFor(cfg, size);
      assert IsBlock(cfg.L, b.start, l) && Cells(cfg.L, b.start, l) <= h.books.free[b.region];
      assert Serves(cfg.L, h.books.free[b.region], l);
    }
  }

  /**
     A block freed while its lazy list is empty and below its threshold is the answer to the next request for its
     level, without the subclass being asked, and the heap is then as it was but for what the request is short by.
   */
  lemma ReusedNext(
    cfg: Config, charge: Charge, thresholds: seq<nat>, h: Heap, mid: Heap, h': Heap,
    b: Block, bytes: nat, size: nat, result: Outcome<Block>)
    requires Inv(cfg, h) && |thresholds| == cfg.L && b.region < |h.live| && MayFree(cfg, h, Some(b), bytes)
    requires Deallocate(cfg, thresholds, h, mid, Some(b), bytes)
    requires var l := LevelFor(cfg, Clamped(cfg, bytes));
      h.lazy[l] == [] && thresholds[l] > 0 && size <= cfg.MaxSize() && LevelFor(cfg, size) == l
    requires Allocate(cfg, charge, mid, h', size, result)
    ensures result == Answer(Some(b))
    ensures h'.books == h.books && h'.lazy == h.lazy && h'.live == h.live && h'.idle == h.idle
    ensures FreeSize(h') == FreeSize(h) + Shortfall(cfg, ByRequest, size)
  {
    DeallocateInv(cfg, thresholds, h, mid, Some(b), bytes);
    ClampedIsExact(cfg, bytes);
    RoundedFits(cfg, size);
    assert RegionOk(cfg.L, h.books.held[b.region], h.live[b.region], h.books.free[b.region], h.idle[b.region]);
    RegionKept(cfg.L, h.books.held[b.region], h.live[b.region], h.books.free[b.region], h.idle[b.region], b.start);
    TakenAgain(cfg, h, b, bytes, size);
  }

  lemma TakenAgain(cfg: Config, h: Heap, b: Block, bytes: nat, size: nat)
    requires cfg.Ok() && |h.lazy| == cfg.L && b.region < |h.live| == |h.idle|
    requires Clamped(cfg, bytes) <= cfg.MaxSize() && size <= cfg.MaxSize()
    requires var l := LevelFor(cfg, Clamped(cfg, bytes));
      && LevelFor(cfg, size) == l && h.lazy[l] == [] && HasBlock(h.live[b.region], b.start, l)
      && forall d: nat :: d in Cells(cfg.L, b.start, l) ==> d !in h.idle[b.region]
    ensures var mid := Cache(cfg, h, b, bytes);
      && mid.lazy[LevelFor(cfg, size)] == [b]
      && var h' := TakeCached(cfg, mid, size);
         h'.live == h.live && h'.idle == h.idle && h'.lazy == h.lazy && h'.books == h.books
  {
    var l := LevelFor(cfg, size);
    assert With(Less(h.live[b.region], b.start), b.start, l) == h.live[b.region];
    assert h.idle[b.region] + Cells(cfg.L, b.start, l) - Cells(cfg.L, b.start, l) == h.idle[b.region];
    assert [b][1..] == [];
    assert h.lazy[l := [] + [b]][l := []] == h.lazy;
  }

  /** No lazy list is longer than its threshold. */
  ghost predicate Bounded(thresholds: seq<nat>, h: Heap) {
    |h.lazy| == |thresholds| && forall l :: 0 <= l < |h.lazy| ==> |h.lazy[l]| <= thresholds[l]
  }

  lemma BoundedStep(cfg: Config, charge: Charge, thresholds: seq<nat>, h: Heap, h': Heap, a: Action)
    requires Inv(cfg, h) && |thresholds| == cfg.L && Step(cfg, charge, thresholds, h, h', a) && Bounded(thresholds, h)
    ensures Bounded(thresholds, h')
  {
  }

  lemma {:induction false} RunBounded(
    cfg: Config, charge: Charge, thresholds: seq<nat>, run: seq<Heap>, acts: seq<Action>, i: nat)
    requires Run(cfg, charge, thresholds, run, acts) && i < |run|
    ensures Bounded(thresholds, run[i])
  {
    if i > 0 {
      RunBounded(cfg, charge, thresholds, run, acts, i - 1);
      RunInv(cfg, charge, thresholds, run, acts, i - 1);
      assert StepAt(cfg, charge, thresholds, run, acts, i - 1);
      BoundedStep(cfg, charge, thresholds, run[i - 1], run[i], acts[i - 1]);
    }
  }

  // The order of the lazy lists

  /** The blocks that have come into the lazy list of level `l` in the first `i` calls, in the order of their frees. */
  ghost function Came(run: seq<Heap>, acts: seq<Action>, l: nat, i: nat): seq<Block>
    requires i < |run| && i <= |acts|
  {
    if i == 0 then [] else
      var came, a := Came(run, acts, l, i - 1), acts[i - 1];
      if a.Dealloc? && a.ptr.Some? && Length(run[i], l) > Length(run[i - 1], l) then came + [a.ptr.value] else came
  }

  /** How many have left it. */
  ghost function Left(run: seq<Heap>, l: nat, i: nat): nat
    requires i < |run|
  {
    if i == 0 then 0 else Left(run, l, i - 1) + if Length(run[i], l) < Length(run[i - 1], l) then 1 else 0
  }

  ghost function Length(h: Heap, l: nat): nat {
    if l < |h.lazy| then |h.lazy[l]| else 0
  }

  /** What one call does to one lazy list. */
  ghost predicate ListStep(h: Heap, h': Heap, a: Action, l: nat)
    requires l < |h.lazy| && l < |h'.lazy|
  {
    || h'.lazy[l] == h.lazy[l]
    || (a.Dealloc? && a.ptr.Some? && h'.lazy[l] == h.lazy[l] + [a.ptr.value])
    || (!a.Dealloc? && h.lazy[l] != [] && h'.lazy[l] == h.lazy[l][1..] &&
        (a.Alloc? ==> a.result == Answer(Some(h.lazy[l][0]))))
  }

  lemma OneList(cfg: Config, charge: Charge, thresholds: seq<nat>, h: Heap, h': Heap, a: Action, l: nat)
    requires Inv(cfg, h) && |thresholds| == cfg.L && Step(cfg, charge, thresholds, h, h', a) && l < cfg.L
    ensures |h'.lazy| == cfg.L && ListStep(h, h', a, l)
  {
  }

  lemma ListAt(cfg: Config, charge: Charge, thresholds: seq<nat>, run: seq<Heap>, acts: seq<Action>, l: nat, i: nat)
    requires Run(cfg, charge, thresholds, run, acts) && i + 1 < |run| && l < cfg.L
    ensures i < |acts| && |run[i].lazy| == |run[i + 1].lazy| == cfg.L && ListStep(run[i], run[i + 1], acts[i], l)
  {
    RunInv(cfg, charge, thresholds, run, acts, i);
    assert StepAt(cfg, charge, thresholds, run, acts, i);
    OneList(cfg, charge, thresholds, run[i], run[i + 1], acts[i], l);
  }

  /** The list holds the blocks freed into it that have not left it, in the order of their frees. */
  ghost predicate InOrder(run: seq<Heap>, acts: seq<Action>, l: nat, i: nat)
    requires i < |run| && i <= |acts|
  {
    l < |run[i].lazy| && Left(run, l, i) <= |Came(run, acts, l, i)| &&
      run[i].lazy[l] == Came(run, acts, l, i)[Left(run, l, i)..]
  }

  lemma OrderStep(run: seq<Heap>, acts: seq<Action>, l: nat, i: nat)
    requires i + 1 < |run| && i < |acts| && InOrder(run, acts, l, i)
    requires l < |run[i + 1].lazy| && ListStep(run[i], run[i + 1], acts[i], l)
    ensures InOrder(run, acts, l, i + 1)
  {
    var came, left := Came(run, acts, l, i), Left(run, l, i);
    if Length(run[i + 1], l) < Length(run[i], l) {
      assert came[left..][1..] == came[left + 1..];
    } else if Length(run[i + 1], l) > Length(run[i], l) {
      assert (came + [acts[i].ptr.value])[left..] == came[left..] + [acts[i].ptr.value];
    }
  }

  lemma {:induction false} ListsInOrder(
    cfg: Config, charge: Charge, thresholds: seq<nat>, run: seq<Heap>, acts: seq<Action>, l: nat, i: nat)
    requires Run(cfg, charge, thresholds, run, acts) && i < |run| && i <= |acts| && l < cfg.L
    ensures InOrder(run, acts, l, i)
  {
    if i > 0 {
      ListsInOrder(cfg, charge, thresholds, run, acts, l, i - 1);
      ListAt(cfg, charge, thresholds, run, acts, l, i - 1);
      OrderStep(run, acts, l, i - 1);
    }
  }

  /** A request served from a lazy list is given the block that was freed into it first of those it holds. */
  lemma FirstInFirstOut(
    cfg: Config, charge: Charge, thresholds: seq<nat>, run: seq<Heap>, acts: seq<Action>, l: nat, i: nat)
    requires Run(cfg, charge, thresholds, run, acts) && i + 1 < |run| && i < |acts| && l < cfg.L
    requires acts[i].Alloc? && Length(run[i + 1], l) < Length(run[i], l)
    ensures InOrder(run, acts, l, i) && Left(run, l, i) < |Came(run, acts, l, i)|
    ensures acts[i].result == Answer(Some(Came(run, acts, l, i)[Left(run, l, i)]))
  {
    ListsInOrder(cfg, charge, thresholds, run, acts, l, i);
    ListAt(cfg, charge, thresholds, run, acts, l, i);
  }

  /** When the lazy lists are empty the subclass has all blocks back but the live ones. */
  lemma NothingCached(cfg: Config, h: Heap)
    requires Inv(cfg, h) && forall l :: 0 <= l < cfg.L ==> h.lazy[l] == []
    ensures h.books.held == h.live && h.books.free == h.idle
  {
    forall r | 0 <= r < |h.live|
      ensures h.books.held[r] == h.live[r] && h.books.free[r] == h.idle[r]
    {
      assert RegionOk(cfg.L, h.books.held[r], h.live[r], h.books.free[r], h.idle[r]);
      forall a | a in h.books.held[r]
        ensures a in h.live[r]
      {
        assert Waiting(h, Block(r, a)) <==> a !in h.live[r];
      }
      assert h.books.held[r] == h.live[r];
    }
  }
}
