/** JSMalloc in its base configuration (JSMalloc.cpp): two-level segregated fit with immediate coalescing. */
module JSMalloc {
  import opened Powers
  import opened TlsfClasses
  import opened JSMallocModel
  import opened JSMallocBits

  const ALIGNMENT: nat := 8

  /** `align_down`: masking off the low bits takes off the remainder. */
  function AlignDown(n: nat, a: nat): (r: nat)
    requires a > 0
    ensures r <= n < r + a && r % a == 0
  {
    DivUnique(n - n % a, a, n / a, 0);
    n - n % a
  }

  function AlignUp(n: nat, a: nat): (r: nat)
    requires a > 0
    ensures n <= r < n + a && r % a == 0
  {
    AlignDown(n + a - 1, a)
  }

  /** The block before, or after, `b` is in use, if there is one. */
  ghost predicate LeftUsed(p: Pool, mem: Mem, b: nat)
    requires b in mem
  {
    b != p.start ==> mem[b].before in mem && !mem[mem[b].before].free
  }

  ghost predicate RightUsed(mem: Mem, b: nat)
    requires b in mem
  {
    !mem[b].last ==> After(mem, b) in mem && !mem[After(mem, b)].free
  }

  ghost predicate Alone(p: Pool, mem: Mem, b: nat)
    requires b in mem
  {
    LeftUsed(p, mem, b) && RightUsed(mem, b)
  }

  lemma FreeIsAlone(p: Pool, mem: Mem, b: nat)
    requires Phys(p, mem) && Quiet(mem) && b in mem && mem[b].free
    ensures Alone(p, mem, b)
  {
    assert BlockOk(p, mem, b) && QuietAt(mem, b);
    if b != p.start {
      assert BlockOk(p, mem, mem[b].before) && QuietAt(mem, mem[b].before);
    }
  }

  /** Only the flag of `b`, and links, may differ. */
  ghost predicate Flagged(mem: Mem, mem': Mem, b: nat, free: bool) {
    && SameShape(mem, mem') && b in mem' && mem'[b].free == free
    && forall x :: x in mem && x != b ==> mem'[x].free == mem[x].free
  }

  lemma FlaggedUsed(p: Pool, mem: Mem, mem': Mem, b: nat, x: nat)
    requires Phys(p, mem) && Flagged(mem, mem', b, false) && x in mem
    ensures LeftUsed(p, mem, x) ==> LeftUsed(p, mem', x)
    ensures RightUsed(mem, x) ==> RightUsed(mem', x)
  {
    assert BlockOk(p, mem, x);
    assert mem'[x].size == mem[x].size;
  }

  lemma SizeMapped(p: Pool, mem: Mem, b: nat)
    requires Phys(p, mem) && b in mem
    ensures b > 0 && mem[b].size >= MIN_BLOCK && GetMapping(mem[b].size).InRange()
  {
    assert BlockOk(p, mem, b);
    MappingInRange(mem[b].size);
  }

  /** One block changes hands. */
  lemma UsedSet(mem: Mem, mem': Mem, b: nat)
    requires b in mem && (Flagged(mem, mem', b, true) || Flagged(mem, mem', b, false))
    ensures Used(mem') == if mem'[b].free then Used(mem) - {b} else Used(mem)[b := mem[b].size]
  {
  }

  lemma UsedSplit(p: Pool, mem: Mem, mem': Mem, b: nat, size: nat)
    requires Splits(p, mem, mem', b, size) && !mem[b].free
    ensures var r := b + HEADER + size;
      r !in Used(mem) && r in mem' && Used(mem') == Used(mem)[b := size][r := mem'[r].size]
  {
    var r := b + HEADER + size;
    assert SplitView(mem, mem', b, size, r);
    forall x: nat
      ensures x in Used(mem') <==> x in Used(mem)[b := size][r := mem'[r].size]
      ensures x in Used(mem') ==> Used(mem')[x] == Used(mem)[b := size][r := mem'[r].size][x]
    {
      assert SplitView(mem, mem', b, size, x);
    }
  }

  lemma UsedMerge(p: Pool, mem: Mem, mem': Mem, b: nat, c: nat)
    requires Merges(p, mem, mem', b, c) && !mem[b].free && !mem[c].free
    ensures b in mem' && b != c && Used(mem') == Used(mem)[b := mem'[b].size] - {c}
  {
    assert MergeView(mem, mem', b, c, b);
    forall x: nat
      ensures x in Used(mem') <==> x in Used(mem)[b := mem'[b].size] - {c}
      ensures x in Used(mem') ==> Used(mem')[x] == (Used(mem)[b := mem'[b].size] - {c})[x]
    {
      assert MergeView(mem, mem', b, c, x);
    }
  }

  /** Listing the block of `b`: the class's bit is set and names it. */
  lemma InsertOk(p: Pool, mem: Mem, heads: seq<nat>, bits: Bitmaps, stamp: map<nat, nat>, clock: nat, b: nat)
    requires HeapOk(p, mem, heads, bits, stamp, clock) && b in mem && !mem[b].free && Alone(p, mem, b)
    ensures mem[b].size >= MIN_BLOCK && GetMapping(mem[b].size).InRange()
    ensures var m := GetMapping(mem[b].size);
      && m.Flat() < |heads| && (heads[m.Flat()] != 0 ==> heads[m.Flat()] in mem && heads[m.Flat()] != b)
      && var mem' := InsertMem(mem, b, heads[m.Flat()]);
      && HeapOk(p, mem', heads[m.Flat() := b], bits.Update(m, true), stamp[b := clock], clock + 1)
      && Flagged(mem, mem', b, true) && Used(mem') == Used(mem) - {b}
  {
    SizeMapped(p, mem, b);
    var m := GetMapping(mem[b].size);
    InsertLists(mem, heads, stamp, clock, b);
    var mem' := InsertMem(mem, b, heads[m.Flat()]);
    InsertShape(mem, b, heads[m.Flat()]);
    PhysSame(p, mem, mem');
    QuietSet(p, mem, mem', b);
    SetBits(heads, bits, m, b);
    UsedSet(mem, mem', b);
  }

  lemma SetBits(heads: seq<nat>, bits: Bitmaps, m: Mapping, b: nat)
    requires BitsSound(heads, bits) && m.InRange() && b != 0
    ensures m.Flat() < |heads| && BitsSound(heads[m.Flat() := b], bits.Update(m, true))
  {
    UpdateOk(bits, m, true);
    forall k: Mapping | bits.Update(m, true).IsSet(k)
      ensures heads[m.Flat() := b][k.Flat()] != 0
    {
      assert k != m ==> bits.IsSet(k);
    }
  }

  lemma RemoveOk(
    p: Pool, mem: Mem, heads: seq<nat>, bits: Bitmaps, stamp: map<nat, nat>, clock: nat, b: nat, m: Mapping)
    requires HeapOk(p, mem, heads, bits, stamp, clock) && Listed(mem, b)
    requires mem[b].size >= MIN_BLOCK && m == GetMapping(mem[b].size)
    ensures m.InRange() && m.Flat() < |heads|
    ensures (mem[b].next != 0 ==> mem[b].next in mem && mem[b].next != b) && (mem[b].prev != 0 ==> mem[b].prev in mem)
    ensures var mem' := RemoveMem(mem, b);
      && HeapOk(p, mem', RemoveHeads(mem, heads, b, m.Flat()),
          if mem[b].next == 0 then bits.Update(m, false) else bits, stamp, clock)
      && Flagged(mem, mem', b, false) && Used(mem') == Used(mem)[b := mem[b].size]
  {
    SizeMapped(p, mem, b);
    assert NodeOk(mem, heads, stamp, b);
    RemoveLists(mem, heads, stamp, clock, b, m);
    RemoveBits(mem, heads, bits, b, m);
    RemoveShape(mem, b);
    var mem' := RemoveMem(mem, b);
    PhysSame(p, mem, mem');
    QuietSet(p, mem, mem', b);
    UsedSet(mem, mem', b);
  }

  /** Cutting a block in use in two; the new block may then be listed if the old one stood alone. */
  lemma SplitOk(p: Pool, mem: Mem, heads: seq<nat>, bits: Bitmaps, stamp: map<nat, nat>, clock: nat, b: nat, size: nat)
    requires HeapOk(p, mem, heads, bits, stamp, clock) && b in mem && !mem[b].free && Alone(p, mem, b)
    requires size % 32 == 0 && MIN_BLOCK <= size && mem[b].size >= HEADER + size + MIN_BLOCK
    ensures var mem', r := SplitMem(mem, b, size), b + HEADER + size;
      && HeapOk(p, mem', heads, bits, stamp, clock)
      && (!mem[b].last ==> After(mem, b) in mem && After(mem, b) != r) && r != b
      && b in mem' && mem'[b].size == size && r in mem' && !mem'[r].free && Alone(p, mem', r)
      && r !in Used(mem) && Used(mem') == Used(mem)[b := size][r := mem'[r].size]
  {
    var mem', r := SplitMem(mem, b, size), b + HEADER + size;
    SplitFits(p, mem, b, size);
    SplitPhys(p, mem, mem', b, size);
    SplitFree(p, mem, mem', b, size);
    ListsSame(mem, mem', heads, stamp, clock);
    UsedSplit(p, mem, mem', b, size);
    assert SplitView(mem, mem', b, size, r) && SplitView(mem, mem', b, size, b) &&
      SplitView(mem, mem', b, size, After(mem, b));
  }

  lemma SplitSame(p: Pool, mem: Mem, b: nat, size: nat)
    requires Phys(p, mem) && Quiet(mem) && b in mem && !mem[b].free
    requires size % 32 == 0 && MIN_BLOCK <= size && mem[b].size >= HEADER + size + MIN_BLOCK
    ensures SameFree(mem, SplitMem(mem, b, size))
    ensures var r := b + HEADER + size;
      r in SplitMem(mem, b, size) && SplitMem(mem, b, size)[r].size == mem[b].size - HEADER - size
  {
    SplitFits(p, mem, b, size);
    SplitFree(p, mem, SplitMem(mem, b, size), b, size);
    assert SplitView(mem, SplitMem(mem, b, size), b, size, b + HEADER + size);
  }

  /** Joining two neighbours that are both in use. */
  lemma MergeOk(p: Pool, mem: Mem, heads: seq<nat>, bits: Bitmaps, stamp: map<nat, nat>, clock: nat, b: nat, c: nat)
    requires HeapOk(p, mem, heads, bits, stamp, clock) && Neighbours(mem, b, c) && !mem[b].free && !mem[c].free
    ensures !mem[c].last ==> After(mem, c) in mem && After(mem, c) != b
    ensures b != c
    ensures var mem' := MergeMem(mem, b, c);
      && HeapOk(p, mem', heads, bits, stamp, clock)
      && b in mem' && !mem'[b].free && mem'[b].last == mem[c].last && After(mem', b) == After(mem, c)
      && Used(mem') == Used(mem)[b := mem'[b].size] - {c}
      && (LeftUsed(p, mem, b) ==> LeftUsed(p, mem', b))
      && (RightUsed(mem, c) ==> RightUsed(mem', b))
      && SameFree(mem, mem')
    ensures !mem[c].last ==> After(mem, c) in MergeMem(mem, b, c)
    ensures !mem[c].last ==> MergeMem(mem, b, c)[After(mem, c)].free == mem[After(mem, c)].free
  {
    var mem' := MergeMem(mem, b, c);
    MergeFits(p, mem, b, c);
    MergePhys(p, mem, mem', b, c);
    MergeFree(p, mem, mem', b, c);
    ListsSame(mem, mem', heads, stamp, clock);
    UsedMerge(p, mem, mem', b, c);
    assert BlockOk(p, mem, b) && BlockOk(p, mem, c);
    assert MergeView(mem, mem', b, c, b) && MergeView(mem, mem', b, c, mem[b].before) &&
      MergeView(mem, mem', b, c, After(mem, c));
  }

  /** The pool starts at the first aligned address and takes as many smallest blocks as fit. */
  ghost predicate PoolOf(p: Pool, start: nat, size: nat) {
    && start <= p.start < start + ALIGNMENT && p.start % ALIGNMENT == 0
    && p.start <= p.end && (p.end - p.start) % MIN_BLOCK == 0
    && p.end <= start + size < p.end + MIN_BLOCK
  }

  /** So every block of it, and with it every pointer handed out, is aligned. */
  lemma BlocksAligned(p: Pool, start: nat, size: nat, mem: Mem, b: nat)
    requires PoolOf(p, start, size) && Phys(p, mem) && b in mem
    ensures b % ALIGNMENT == 0 && (b + HEADER) % ALIGNMENT == 0
  {
    WholeBlocks(p, mem, b);
  }

  /** The pool that `initialize` cuts out of the memory it is given. */
  method AlignedPool(start: nat, size: nat) returns (p: Pool)
    requires start > 0 && AlignUp(start, ALIGNMENT) - start + HEADER + MIN_BLOCK <= size
    ensures PoolOf(p, start, size) && 0 < p.start && p.start + HEADER + MIN_BLOCK <= p.end && p.end - p.start <= size
  {
    var first := AlignUp(start, ALIGNMENT);
    var length := AlignDown(size - (first - start), MIN_BLOCK);
    p := Pool(first, first + length);
    PoolBounds(p, start, size);
  }

  /** A pool of one block, in use. */
  lemma FreshPool(p: Pool, size: nat, mem: Mem, heads: seq<nat>, bits: Bitmaps)
    requires size < Pow2(LEVELS) && 0 < p.start && p.start + HEADER + MIN_BLOCK <= p.end && p.end - p.start <= size
    requires (p.end - p.start) % MIN_BLOCK == 0 && mem == WholePool(p)
    requires |heads| == LEVELS * LEVELS + 1 && forall i :: 0 <= i < |heads| ==> heads[i] == 0
    requires bits == NoBits()
    ensures HeapOk(p, mem, heads, bits, map[], 0) && Alone(p, mem, p.start)
  {
    OneBlock(p, mem);
    assert forall m: Mapping :: m.InRange() ==> HeadOk(mem, heads, m);
    NoneSet(bits);
  }

  lemma PoolBounds(p: Pool, start: nat, size: nat)
    requires start > 0 && AlignUp(start, ALIGNMENT) - start + HEADER + MIN_BLOCK <= size && PoolOf(p, start, size)
    ensures 0 < p.start && p.start + HEADER + MIN_BLOCK <= p.end && p.end - p.start <= size
  {
    TwoBlocks(p.end - p.start);
  }

  lemma TwoBlocks(n: nat)
    requires n % MIN_BLOCK == 0 && n > MIN_BLOCK
    ensures n >= 2 * MIN_BLOCK
  {
  }

  lemma FirstBlock(p: Pool, mem: Mem, bits: Bitmaps, mem': Mem, bits': Bitmaps)
    requires p.start + HEADER <= p.end && mem == WholePool(p) && bits.Shape() && bits'.Shape()
    requires Hooked(mem, mem', bits, bits', p.start)
    ensures Complete(mem', bits') && FreeAre(mem', map[p.start := p.end - p.start - HEADER])
  {
    assert forall x :: !Listed(mem, x);
    forall x, m | InClass(mem', x, m)
      ensures bits'.IsSet(m)
    {
      assert Listed(mem', x);
    }
  }

  function NoBits(): Bitmaps {
    Bitmaps(seq(LEVELS, i => false), seq(LEVELS, i => seq(LEVELS, j => false)))
  }

  /** A single block over the whole pool, in use. */
  function WholePool(p: Pool): Mem
    requires p.start + HEADER <= p.end
  {
    map[p.start := Header(p.end - p.start - HEADER, false, true, 0, 0, 0)]
  }

  lemma OneBlock(p: Pool, mem: Mem)
    requires 0 < p.start && p.start + HEADER + MIN_BLOCK <= p.end && p.end - p.start < Pow2(LEVELS)
    requires (p.end - p.start) % 32 == 0
    requires mem == WholePool(p)
    ensures Phys(p, mem) && Quiet(mem)
  {
    OneBlockOk(p, mem);
  }

  lemma OneBlockOk(p: Pool, mem: Mem)
    requires 0 < p.start && p.start + HEADER + MIN_BLOCK <= p.end && (p.end - p.start) % 32 == 0
    requires mem == WholePool(p)
    ensures p.start in mem && BlockOk(p, mem, p.start) && QuietAt(mem, p.start)
  {
  }

  /** Two blocks in use never overlap, and every block in use lies in the pool. */
  lemma UsedApart(p: Pool, mem: Mem, b: nat, c: nat)
    requires Phys(p, mem) && b in Used(mem) && c in Used(mem) && b < c
    ensures p.start <= b && b + HEADER + Used(mem)[b] <= c && c + HEADER + Used(mem)[c] <= p.end
  {
    assert Clear(mem, b, c) && BlockOk(p, mem, b) && BlockOk(p, mem, c);
  }

  /** Taking a block and giving it back restores every block, size, flag and physical link. */
  lemma AllocateThenFree(p: Pool, before: Mem, during: Mem, after: Mem, b: nat, size: nat)
    requires Phys(p, before) && Quiet(before) && Phys(p, after) && Quiet(after)
    requires b !in Used(before) && Used(during) == Used(before)[b := size] && Used(after) == Used(during) - {b}
    ensures SameShape(before, after) && forall x :: x in before ==> after[x].free == before[x].free
  {
    assert Used(after) == Used(before);
    Canonical(p, before, after);
  }

  lemma MergedUse(u: map<nat, nat>, v: map<nat, nat>, b: nat, c: nat, i: nat, j: nat, k: nat)
    requires b != c && v == u[b := i][c := j][b := k] - {c}
    ensures v == u[b := k] - {c}
  {
  }

  lemma SplitUse(u: map<nat, nat>, b: nat, r: nat, i: nat, j: nat, k: nat)
    requires r !in u[b := i]
    ensures u[b := i][b := j][r := k] - {r} == u[b := j]
  {
  }

  /** The blocks around a block in use. */
  lemma Surroundings(p: Pool, mem: Mem, b: nat)
    requires Phys(p, mem) && Quiet(mem) && b in mem
    ensures var prev := mem[b].before;
      && (if prev == 0 then b == p.start
          else Neighbours(mem, prev, b) && if mem[prev].free then LeftUsed(p, mem, prev) else LeftUsed(p, mem, b))
    ensures var next := After(mem, b);
      mem[b].last || (next > 0 && Neighbours(mem, b, next) &&
        if mem[next].free then RightUsed(mem, next) else RightUsed(mem, b))
  {
    assert BlockOk(p, mem, b);
    LastIff(p, mem, b);
    if b != p.start {
      assert BlockOk(p, mem, mem[b].before);
      LastIff(p, mem, mem[b].before);
      if mem[mem[b].before].free {
        FreeIsAlone(p, mem, mem[b].before);
      }
    }
    if !mem[b].last && mem[After(mem, b)].free {
      FreeIsAlone(p, mem, After(mem, b));
    }
  }

  lemma NoneSet(b: Bitmaps)
    requires b == NoBits()
    ensures b.Ok() && forall m: Mapping :: !b.IsSet(m)
  {
    assert forall f :: 0 <= f < LEVELS ==> b.sl[f] == seq(LEVELS, j => false);
  }

  lemma BeforeBelow(p: Pool, mem: Mem, b: nat)
    requires Phys(p, mem) && b in mem
    ensures mem[b].before < b
  {
    assert BlockOk(p, mem, b);
  }

  /** The least class whose blocks are all large enough. */
  function SearchFrom(size: nat): (m: Mapping)
    ensures m.sl < LEVELS
  {
    GetMapping(Target(AlignSize(size)))
  }

  class JSMalloc {
    const pool: Pool
    const blocks: array<nat>
    var mem: Mem
    var bits: Bitmaps
    ghost var stamp: map<nat, nat>
    ghost var clock: nat

    ghost predicate Valid()
      reads this, blocks
    {
      HeapOk(pool, mem, blocks[..], bits, stamp, clock)
    }

    /** `initialize` with an empty start: one free block over the aligned pool. */
    constructor (start: nat, size: nat)
      requires start > 0 && size < Pow2(LEVELS)
      requires AlignUp(start, ALIGNMENT) - start + HEADER + MIN_BLOCK <= size
      ensures Valid() && fresh(blocks)
      ensures PoolOf(pool, start, size)
      ensures Used(mem) == map[] && Complete(mem, bits)
      ensures FreeAre(mem, map[pool.start := pool.end - pool.start - HEADER])
    {
      var p := AlignedPool(start, size);
      pool := p;
      blocks := new nat[LEVELS * LEVELS + 1](i => 0);
      bits := NoBits();
      mem := WholePool(p);
      stamp, clock := map[], 0;
      new;
      Start(size);
    }

    /** The state before the first block is inserted. */
    ghost predicate Blank(size: nat)
      reads this, blocks
    {
      && size < Pow2(LEVELS) && 0 < pool.start && pool.start + HEADER + MIN_BLOCK <= pool.end
      && pool.end - pool.start <= size && (pool.end - pool.start) % MIN_BLOCK == 0
      && mem == WholePool(pool) && bits == NoBits() && stamp == map[] && clock == 0
      && blocks.Length == LEVELS * LEVELS + 1 && forall i :: 0 <= i < blocks.Length ==> blocks[i] == 0
    }

    lemma FreshHeap(size: nat)
      requires Blank(size)
      ensures Valid() && Alone(pool, mem, pool.start)
    {
      FreshPool(pool, size, mem, blocks[..], bits);
    }

    method Start(ghost size: nat)
      requires Blank(size)
      modifies this, blocks
      ensures Valid() && Used(mem) == map[] && Complete(mem, bits)
      ensures FreeAre(mem, map[pool.start := pool.end - pool.start - HEADER])
    {
      FreshHeap(size);
      InsertFirst();
    }

    method InsertFirst()
      requires Valid() && pool.start + HEADER <= pool.end && mem == WholePool(pool) && Alone(pool, mem, pool.start)
      modifies this, blocks
      ensures Valid() && Used(mem) == map[] && Complete(mem, bits)
      ensures FreeAre(mem, map[pool.start := pool.end - pool.start - HEADER])
    {
      InsertBlock(pool.start);
      FirstBlock(pool, old(mem), old(bits), mem, bits);
    }

    /** Puts the block of `b` at the head of its class's list. */
    method InsertBlock(b: nat)
      requires Valid() && b in mem && !mem[b].free && Alone(pool, mem, b)
      modifies this, blocks
      ensures Valid()
      ensures Flagged(old(mem), mem, b, true) && Used(mem) == Used(old(mem)) - {b}
      ensures Hooked(old(mem), mem, old(bits), bits, b)
    {
      InsertOk(pool, mem, blocks[..], bits, stamp, clock, b);
      var m := GetMapping(mem[b].size);
      InsertHooks(mem, blocks[..], bits, b, m);
      var head := blocks[m.Flat()];
      if head != 0 {
        mem := mem[head := mem[head].(prev := b)];
      }
      mem := mem[b := mem[b].(next := head, prev := 0, free := true)];
      assert mem == InsertMem(old(mem), b, head);
      blocks[m.Flat()] := b;
      bits := bits.Update(m, true);
      stamp, clock := stamp[b := clock], clock + 1;
      assert blocks[..] == old(blocks[..])[m.Flat() := b];
    }

    /** Takes `block`, or the head of the class's list when `block` is null, off its list. */
    method RemoveBlock(block: nat, m: Mapping) returns (target: nat)
      requires Valid() && m.InRange()
      requires block != 0 ==> Listed(mem, block) && mem[block].size >= MIN_BLOCK && m == GetMapping(mem[block].size)
      modifies this, blocks
      ensures Valid()
      ensures block != 0 ==> target == block
      ensures block == 0 ==> target == old(blocks[m.Flat()])
      ensures target == 0 ==> mem == old(mem) && bits == old(bits) && blocks[..] == old(blocks[..])
      ensures target != 0 ==>
        && InClass(old(mem), target, m) && (block == 0 ==> old(mem)[target].prev == 0)
        && Flagged(old(mem), mem, target, false) && Alone(pool, mem, target)
        && Used(mem) == Used(old(mem))[target := mem[target].size]
        && Unhooked(old(mem), mem, old(bits), bits, target)
    {
      assert HeadOk(mem, blocks[..], m);
      target := if block == 0 then blocks[m.Flat()] else block;
      if target == 0 {
        return;
      }
      FreeIsAlone(pool, mem, target);
      SizeMapped(pool, mem, target);
      RemoveOk(pool, mem, blocks[..], bits, stamp, clock, target, m);
      RemoveUnhooks(mem, blocks[..], stamp, clock, bits, target, m);
      var next, prev := mem[target].next, mem[target].prev;
      if blocks[m.Flat()] == target {
        blocks[m.Flat()] := next;
      }
      if next != 0 {
        mem := mem[next := mem[next].(prev := prev)];
      } else {
        bits := bits.Update(m, false);
      }
      if prev != 0 {
        mem := mem[prev := mem[prev].(next := next)];
      }
      mem := mem[target := mem[target].(free := false)];
      assert blocks[..] == RemoveHeads(old(mem), old(blocks[..]), target, m.Flat());
      FlaggedUsed(pool, old(mem), mem, target, target);
    }

    /** Shrinks the block of `b` to `size` and makes a block of the rest. */
    method SplitBlock(b: nat, size: nat) returns (r: nat)
      requires Valid() && b in mem && !mem[b].free && Alone(pool, mem, b)
      requires size % 32 == 0 && MIN_BLOCK <= size && mem[b].size >= HEADER + size + MIN_BLOCK
      modifies this`mem
      ensures Valid()
      ensures b in mem && mem[b].size == size && r in mem && !mem[r].free && Alone(pool, mem, r)
      ensures r !in Used(old(mem)) && Used(mem) == Used(old(mem))[b := size][r := mem[r].size]
      ensures mem == SplitMem(old(mem), b, size) && r == b + HEADER + size
    {
      SplitOk(pool, mem, blocks[..], bits, stamp, clock, b, size);
      var h := mem[b];
      var rest := h.size - HEADER - size;
      var following := After(mem, b);
      mem := mem[b := h.(size := size, free := false, last := false)];
      r := b + HEADER + mem[b].size;
      mem := mem[r := Header(rest, false, h.last, 0, 0, b)];
      if !h.last {
        mem := mem[following := mem[following].(before := r)];
      }
      assert mem == SplitMem(old(mem), b, size);
    }

    /** Takes the block of `b` off its list if it is on one. */
    method Unlist(b: nat)
      requires Valid() && b in mem
      modifies this, blocks
      ensures Valid()
      ensures Flagged(old(mem), mem, b, false) && Used(mem) == Used(old(mem))[b := mem[b].size]
      ensures Unhooked(old(mem), mem, old(bits), bits, b)
      ensures !old(mem)[b].free ==> mem == old(mem) && bits == old(bits)
    {
      SizeMapped(pool, mem, b);
      if mem[b].free {
        var _ := RemoveBlock(b, GetMapping(mem[b].size));
      } else {
        UsedSet(mem, mem, b);
        NothingUnhooked(mem, bits, b);
      }
    }

    /** Joins two neighbouring blocks in use. */
    method Join(b: nat, c: nat, size: nat)
      requires Valid() && Neighbours(mem, b, c) && !mem[b].free && !mem[c].free && size == mem[c].size
      modifies this`mem
      ensures Valid()
      ensures b in mem && !mem[b].free && mem[b].size == old(mem)[b].size + HEADER + size
      ensures SameFree(old(mem), mem)
      ensures mem[b].last == old(mem)[c].last && After(mem, b) == After(old(mem), c)
      ensures Used(mem) == Used(old(mem))[b := mem[b].size] - {c}
      ensures LeftUsed(pool, old(mem), b) ==> LeftUsed(pool, mem, b)
      ensures RightUsed(old(mem), c) ==> RightUsed(mem, b)
      ensures !mem[b].last ==> After(mem, b) in old(mem) && After(mem, b) in mem
      ensures !mem[b].last ==> mem[After(mem, b)].free == old(mem)[After(mem, b)].free
    {
      MergeOk(pool, mem, blocks[..], bits, stamp, clock, b, c);
      var following := After(mem, c);
      var last := mem[c].last;
      mem := mem[b := mem[b].(size := mem[b].size + HEADER + size, last := mem[b].last || last)];
      if !last {
        mem := mem[following := mem[following].(before := b)];
      }
      mem := mem - {c};
      assert mem == MergeMem(old(mem), b, c);
    }

    /** Joins two neighbouring blocks, after taking them off their lists. */
    method CoalesceBlocks(b: nat, c: nat)
      requires Valid() && Neighbours(mem, b, c)
      modifies this, blocks
      ensures Valid()
      ensures b in mem && !mem[b].free && mem[b].size == old(mem)[b].size + HEADER + old(mem)[c].size
      ensures !old(mem)[c].free ==> Unhooked(old(mem), mem, old(bits), bits, b)
      ensures !old(mem)[b].free ==> Unhooked(old(mem), mem, old(bits), bits, c)
      ensures mem[b].last == old(mem)[c].last && After(mem, b) == After(old(mem), c)
      ensures Used(mem) == Used(old(mem))[b := mem[b].size] - {c}
      ensures LeftUsed(pool, old(mem), b) ==> LeftUsed(pool, mem, b)
      ensures RightUsed(old(mem), c) ==> RightUsed(mem, b)
      ensures !mem[b].last && !old(mem)[c].free ==>
        After(mem, b) in old(mem) && After(mem, b) in mem && mem[After(mem, b)].free == old(mem)[After(mem, b)].free
    {
      var size := mem[c].size;
      ghost var mem0 := mem;
      Unlist(b);
      FlaggedUsed(pool, mem0, mem, b, b);
      FlaggedUsed(pool, mem0, mem, b, c);
      ghost var mem1, bits1 := mem, bits;
      Unlist(c);
      ghost var mem2 := mem;
      FlaggedUsed(pool, mem1, mem, c, b);
      FlaggedUsed(pool, mem1, mem, c, c);
      ghost var i := mem1[b].size;
      LastIff(pool, mem0, c);
      Join(b, c, size);
      UnhookedThenSame(mem1, mem2, mem, bits1, bits, c);
      if mem2 == mem1 && bits == bits1 {
        UnhookedThenSame(mem0, mem2, mem, old(bits), bits, b);
      }
      MergedUse(Used(mem0), Used(mem), b, c, i, size, mem[b].size);
    }

    /** `get_next_phys_block`. */
    function NextPhysBlock(b: nat): (n: nat)
      requires Valid() && b in mem
      reads this, blocks
      ensures n == if mem[b].last then 0 else After(mem, b)
    {
      LastIff(pool, mem, b);
      assert BlockOk(pool, mem, b);
      assert After(mem, b) in mem ==> BlockOk(pool, mem, After(mem, b));
      if pool.start <= After(mem, b) < pool.end then After(mem, b) else 0
    }

    /** What is left over beyond `aligned` bytes becomes a free block, if it is large enough for one. */
    method Trim(b: nat, aligned: nat)
      requires Valid() && b in mem && !mem[b].free && Alone(pool, mem, b)
      requires aligned % 32 == 0 && MIN_BLOCK <= aligned <= mem[b].size
      modifies this, blocks
      ensures Valid() && b in mem && aligned <= mem[b].size < aligned + MIN_BLOCK + HEADER
      ensures Used(mem) == Used(old(mem))[b := mem[b].size]
      ensures Trimmed(old(mem), mem, old(bits), bits, b, aligned)
    {
      if mem[b].size - aligned >= MIN_BLOCK + HEADER {
        SplitSame(pool, mem, b, aligned);
        ghost var u := Used(mem);
        assert u == u[b := mem[b].size];
        ghost var was := mem[b].size;
        var r := SplitBlock(b, aligned);
        SplitUse(u, b, r, was, aligned, mem[r].size);
        ghost var split := mem;
        InsertBlock(r);
        SplitThenInserted(old(mem), split, mem, old(bits), bits, b, aligned);
      }
    }

    /**
     Finds a block for `size` bytes in the least class that is known to hold large enough blocks only;
     a set bit names a list that is not empty, so one round of the loop is enough.
     */
    method FindBlock(size: nat) returns (b: nat)
      requires Valid()
      modifies this, blocks
      ensures Valid()
      ensures b == 0 <==> old(bits).Adjust(SearchFrom(size)).UnableToFind?
      ensures b == 0 ==> mem == old(mem) && bits == old(bits) && blocks[..] == old(blocks[..])
      ensures b != 0 ==>
        && Served(old(mem), mem, old(bits), bits, b, AlignSize(size))
        && InClass(old(mem), b, old(bits).Adjust(SearchFrom(size)).m) && old(mem)[b].prev == 0
        && Used(mem) == Used(old(mem))[b := mem[b].size]
    {
      var aligned := AlignSize(size);
      b := TakeBlock(aligned, SearchFrom(size));
      if b == 0 {
        return;
      }
      ghost var mem1, bits1 := mem, bits;
      Trim(b, aligned);
      TakenThenTrimmed(old(mem), mem1, mem, old(bits), bits1, bits, b, aligned);
    }

    method TakeBlock(aligned: nat, mapping: Mapping) returns (b: nat)
      requires Valid() && aligned >= MIN_BLOCK && mapping == GetMapping(Target(aligned))
      modifies this, blocks
      ensures Valid()
      ensures b == 0 <==> old(bits).Adjust(mapping).UnableToFind?
      ensures b == 0 ==> mem == old(mem) && bits == old(bits) && blocks[..] == old(blocks[..])
      ensures b != 0 ==>
        && InClass(old(mem), b, old(bits).Adjust(mapping).m) && old(mem)[b].prev == 0
        && b in mem && !mem[b].free && Alone(pool, mem, b) && mem[b].size == old(mem)[b].size >= aligned
        && Unhooked(old(mem), mem, old(bits), bits, b) && Used(mem) == Used(old(mem))[b := mem[b].size]
    {
      b := 0;
      while b == 0
        invariant Valid()
        invariant b == 0 ==> mem == old(mem) && bits == old(bits) && blocks[..] == old(blocks[..])
        invariant b != 0 ==> old(bits).Adjust(mapping).Found? && InClass(old(mem), b, old(bits).Adjust(mapping).m)
        invariant b != 0 ==> b in mem && !mem[b].free && Alone(pool, mem, b)
        invariant b != 0 ==> mem[b].size == old(mem)[b].size >= aligned && old(mem)[b].prev == 0
        invariant b != 0 ==> Unhooked(old(mem), mem, old(bits), bits, b)
        invariant b != 0 ==> Used(mem) == Used(old(mem))[b := mem[b].size]
        decreases if b == 0 then 1 else 0
      {
        var adjusted := bits.Adjust(mapping);
        if adjusted.UnableToFind? {
          return 0;
        }
        AdjustIsLeast(bits, mapping);
        b := RemoveBlock(0, adjusted.m);
        FitsClass(aligned, mem[b].size);
      }
    }

    /** Returns the start of the usable part of a block of at least `size` bytes, or null. */
    method Allocate(size: nat) returns (ptr: nat)
      requires Valid()
      modifies this, blocks
      ensures Valid()
      ensures ptr == 0 ==> mem == old(mem) && blocks[..] == old(blocks[..]) && bits == old(bits)
      ensures ptr == 0 <==> NoneKnown(old(bits), SearchFrom(size))
      ensures ptr != 0 ==>
        && ptr >= HEADER && ptr - HEADER !in Used(old(mem))
        && Served(old(mem), mem, old(bits), bits, ptr - HEADER, AlignSize(size))
        && old(mem)[ptr - HEADER].prev == 0
        && Used(mem) == Used(old(mem))[ptr - HEADER := mem[ptr - HEADER].size]
      ensures ptr != 0 ==> OfLeastKnown(old(mem), old(bits), SearchFrom(size), ptr - HEADER)
      ensures Complete(old(mem), old(bits)) ==>
        Complete(mem, bits) && (ptr == 0 <==> NoneFree(old(mem), SearchFrom(size)))
    {
      FailsIffNone(mem, blocks[..], stamp, clock, bits, SearchFrom(size));
      ghost var heads, stamp0, clock0 := blocks[..], stamp, clock;
      var b := FindBlock(size);
      if b == 0 {
        return 0;
      }
      AdjustedIsLeast(old(mem), old(bits), SearchFrom(size), b);
      if Complete(old(mem), old(bits)) {
        ServedKeeps(old(mem), heads, stamp0, clock0, old(bits), mem, bits, b, AlignSize(size));
      }
      return b + HEADER;
    }

    /** Merges the block of `b` into the free one before it, if there is one. */
    method MergeBefore(b: nat, prev: nat) returns (start: nat)
      requires Valid() && b in mem && !mem[b].free && prev == mem[b].before
      modifies this, blocks
      ensures Valid() && start == MergedStart(old(mem), b) && start in mem && !mem[start].free
      ensures LeftUsed(pool, mem, start)
      ensures Unhooked(old(mem), mem, old(bits), bits, prev)
      ensures mem[start].size == old(mem)[b].size + if BeforeFree(old(mem), b) then old(mem)[prev].size + HEADER else 0
      ensures mem[start].last == old(mem)[b].last && After(mem, start) == After(old(mem), b)
      ensures Used(mem) - {start} == Used(old(mem)) - {b}
    {
      Surroundings(pool, mem, b);
      NullNotListed(mem, blocks[..], stamp, clock);
      start := b;
      if prev != 0 && mem[prev].free {
        CoalesceBlocks(prev, b);
        start := prev;
      } else {
        NothingUnhooked(mem, bits, prev);
      }
    }

    /** Merges the free block after that of `b` into it, if there is one. */
    method MergeAfter(b: nat, next: nat)
      requires Valid() && b in mem && !mem[b].free && LeftUsed(pool, mem, b)
      requires next == if mem[b].last then 0 else After(mem, b)
      modifies this, blocks
      ensures Valid() && b in mem && !mem[b].free && Alone(pool, mem, b)
      ensures Unhooked(old(mem), mem, old(bits), bits, next)
      ensures mem[b].size == old(mem)[b].size + if AfterFree(old(mem), b) then old(mem)[next].size + HEADER else 0
      ensures Used(mem) - {b} == Used(old(mem)) - {b}
    {
      Surroundings(pool, mem, b);
      NullNotListed(mem, blocks[..], stamp, clock);
      if next != 0 && mem[next].free {
        FreeIsAlone(pool, mem, next);
        CoalesceBlocks(b, next);
      } else {
        NothingUnhooked(mem, bits, next);
      }
    }

    /** Returns the block in use at `ptr`; null and addresses outside the pool are ignored. */
    method Free(ptr: nat)
      requires Valid()
      requires pool.start <= ptr < pool.end ==> ptr >= HEADER && ptr - HEADER in Used(mem)
      modifies this, blocks
      ensures Valid()
      ensures !(pool.start <= ptr < pool.end) ==> mem == old(mem) && bits == old(bits) && blocks[..] == old(blocks[..])
      ensures pool.start <= ptr < pool.end ==>
        && Used(mem) == Used(old(mem)) - {ptr - HEADER}
        && Freed(old(mem), mem, old(bits), bits, ptr - HEADER)
        && (Complete(old(mem), old(bits)) ==>
            (Complete(mem, bits) <==> !HidesSome(old(mem), ptr - HEADER)))
    {
      if ptr == 0 {
        return;
      }
      if !(pool.start <= ptr < pool.end) {
        return;
      }
      SizeMapped(pool, mem, ptr - HEADER);
      FreeBlock(ptr - HEADER);
      if Complete(old(mem), old(bits)) {
        FreeHides(old(mem), mem, old(bits), bits, ptr - HEADER);
      }
    }

    method FreeBlock(b: nat)
      requires Valid() && b in Used(mem)
      modifies this, blocks
      ensures Valid()
      ensures Used(mem) == Used(old(mem)) - {b}
      ensures Freed(old(mem), mem, old(bits), bits, b)
    {
      var prev := mem[b].before;
      var next := NextPhysBlock(b);
      BeforeBelow(pool, mem, b);
      ghost var heads, stamp0, clock0 := blocks[..], stamp, clock;
      var start := MergeBefore(b, prev);
      ghost var mem1, bits1 := mem, bits;
      MergeAfter(start, next);
      ghost var mem2, bits2 := mem, bits;
      InsertBlock(start);
      FreedIs(old(mem), heads, stamp0, clock0, old(bits), b, prev, next, mem1, bits1, mem2, bits2, mem, bits);
    }
  }
}
