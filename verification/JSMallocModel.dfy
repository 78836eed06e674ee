/**
 The heap of JSMalloc's base configuration on values: block headers in memory, one list of free blocks
 for each size class, and the bitmaps that point at them.  Address 0 is the null pointer.
 */
module JSMallocModel {
  import opened Powers
  import opened TlsfClasses

  const HEADER: nat := 32

  /** The word `size` of a header also holds the two flags, in bits that every size leaves clear. */
  datatype Header = Header(size: nat, free: bool, last: bool, next: nat, prev: nat, before: nat)

  type Mem = map<nat, Header>

  datatype Pool = Pool(start: nat, end: nat)

  function After(mem: Mem, b: nat): nat
    requires b in mem
  {
    b + HEADER + mem[b].size
  }

  // The physical blocks

  ghost predicate BlockOk(p: Pool, mem: Mem, b: nat)
    requires b in mem
  {
    && p.start <= b && After(mem, b) <= p.end
    && mem[b].size % 32 == 0 && mem[b].size >= MIN_BLOCK
    && (if mem[b].last then After(mem, b) == p.end
        else After(mem, b) in mem && mem[After(mem, b)].before == b)
    && (if b == p.start then mem[b].before == 0
        else mem[b].before in mem && After(mem, mem[b].before) == b)
  }

  /** Of two blocks, the lower ends before the higher begins. */
  ghost predicate Clear(mem: Mem, b: nat, c: nat) {
    b in mem && c in mem && b < c ==> After(mem, b) <= c
  }

  ghost predicate Phys(p: Pool, mem: Mem) {
    && 0 < p.start && p.start in mem && p.end - p.start < Pow2(LEVELS)
    && (forall b {:trigger BlockOk(p, mem, b)} :: b in mem ==> BlockOk(p, mem, b))
    && (forall b, c {:trigger Clear(mem, b, c)} :: Clear(mem, b, c))
  }

  /** Blocks whose sizes, places and physical links agree. */
  ghost predicate SameShape(mem: Mem, mem': Mem) {
    mem.Keys == mem'.Keys && forall b {:trigger mem'[b]} :: b in mem' ==>
      mem'[b].size == mem[b].size && mem'[b].last == mem[b].last && mem'[b].before == mem[b].before
  }

  lemma PhysSame(p: Pool, mem: Mem, mem': Mem)
    requires Phys(p, mem) && SameShape(mem, mem')
    ensures Phys(p, mem')
  {
    forall b | b in mem'
      ensures BlockOk(p, mem', b)
    {
      assert BlockOk(p, mem, b);
      assert b != p.start ==> mem'[mem[b].before].size == mem[mem[b].before].size;
    }
    forall b, c
      ensures Clear(mem', b, c)
    {
      assert Clear(mem, b, c);
    }
  }

  /** No two neighbouring blocks are both free. */
  ghost predicate QuietAt(mem: Mem, b: nat)
    requires b in mem
  {
    mem[b].free && !mem[b].last && After(mem, b) in mem ==> !mem[After(mem, b)].free
  }

  ghost predicate Quiet(mem: Mem) {
    forall b {:trigger QuietAt(mem, b)} :: b in mem ==> QuietAt(mem, b)
  }

  // The lists

  ghost predicate Listed(mem: Mem, b: nat) {
    b in mem && mem[b].free
  }

  ghost predicate SameClass(mem: Mem, b: nat, c: nat)
    requires b in mem && c in mem && mem[b].size >= MIN_BLOCK && mem[c].size >= MIN_BLOCK
  {
    GetMapping(mem[b].size) == GetMapping(mem[c].size)
  }

  /** A free block and its neighbours in its list; `stamp` is when it was listed, and lists run from new to old. */
  ghost predicate NodeOk(mem: Mem, heads: seq<nat>, stamp: map<nat, nat>, b: nat)
    requires b in mem
  {
    && b != 0 && mem[b].size >= MIN_BLOCK && GetMapping(mem[b].size).InRange() && b in stamp
    && GetMapping(mem[b].size).Flat() < |heads|
    && (var n := mem[b].next; n != 0 ==>
        Listed(mem, n) && mem[n].size >= MIN_BLOCK && SameClass(mem, b, n) && mem[n].prev == b && n in stamp &&
          stamp[n] < stamp[b])
    && (var q := mem[b].prev;
        if q == 0 then heads[GetMapping(mem[b].size).Flat()] == b
        else Listed(mem, q) && mem[q].size >= MIN_BLOCK && SameClass(mem, q, b) && mem[q].next == b)
  }

  ghost predicate HeadOk(mem: Mem, heads: seq<nat>, m: Mapping)
    requires m.InRange() && m.Flat() < |heads|
  {
    var h := heads[m.Flat()];
    h != 0 ==> Listed(mem, h) && mem[h].size >= MIN_BLOCK && GetMapping(mem[h].size) == m && mem[h].prev == 0
  }

  /** All stamps so far are below `clock`. */
  ghost predicate Stamped(mem: Mem, stamp: map<nat, nat>, clock: nat) {
    forall b :: Listed(mem, b) ==> b in stamp && stamp[b] < clock
  }

  ghost predicate Lists(mem: Mem, heads: seq<nat>, stamp: map<nat, nat>, clock: nat) {
    && |heads| == LEVELS * LEVELS + 1
    && (forall b {:trigger NodeOk(mem, heads, stamp, b)} :: Listed(mem, b) ==> NodeOk(mem, heads, stamp, b))
    && (forall m: Mapping {:trigger HeadOk(mem, heads, m)} :: m.InRange() ==> HeadOk(mem, heads, m))
    && Stamped(mem, stamp, clock)
  }

  /** A set bit names a list that is not empty. */
  ghost predicate BitsSound(heads: seq<nat>, bits: Bitmaps) {
    && bits.Ok() && |heads| == LEVELS * LEVELS + 1
    && forall m: Mapping {:trigger bits.IsSet(m)} :: bits.IsSet(m) ==> heads[m.Flat()] != 0
  }

  ghost predicate HeapOk(p: Pool, mem: Mem, heads: seq<nat>, bits: Bitmaps, stamp: map<nat, nat>, clock: nat) {
    && Phys(p, mem) && Quiet(mem)
    && Lists(mem, heads, stamp, clock)
    && BitsSound(heads, bits)
  }

  // Inserting

  /** What `insert_block` does to the headers. */
  function InsertMem(mem: Mem, b: nat, head: nat): Mem
    requires b in mem && (head != 0 ==> head in mem)
  {
    var mem1 := if head != 0 then mem[head := mem[head].(prev := b)] else mem;
    mem1[b := mem1[b].(next := head, prev := 0, free := true)]
  }

  lemma InsertLists(mem: Mem, heads: seq<nat>, stamp: map<nat, nat>, clock: nat, b: nat)
    requires Lists(mem, heads, stamp, clock)
    requires b in mem && b != 0 && !mem[b].free && mem[b].size >= MIN_BLOCK && GetMapping(mem[b].size).InRange()
    ensures var c := GetMapping(mem[b].size).Flat();
      && c < |heads| && (heads[c] != 0 ==> Listed(mem, heads[c]))
      && Lists(InsertMem(mem, b, heads[c]), heads[c := b], stamp[b := clock], clock + 1)
  {
    var m := GetMapping(mem[b].size);
    var c := m.Flat();
    var head := heads[c];
    assert HeadOk(mem, heads, m);
    var mem' := InsertMem(mem, b, head);
    var heads', stamp' := heads[c := b], stamp[b := clock];
    forall x | Listed(mem', x)
      ensures NodeOk(mem', heads', stamp', x)
      ensures x in stamp' && stamp'[x] < clock + 1
    {
      if x != b {
        assert NodeOk(mem, heads, stamp, x);
      }
    }
    forall n: Mapping | n.InRange()
      ensures HeadOk(mem', heads', n)
    {
      assert HeadOk(mem, heads, n);
    }
  }

  // Removing

  /** What `remove_block` does to the headers. */
  function RemoveMem(mem: Mem, b: nat): (mem': Mem)
    requires b in mem && (mem[b].next != 0 ==> mem[b].next in mem) && (mem[b].prev != 0 ==> mem[b].prev in mem)
    ensures mem'.Keys == mem.Keys
  {
    var n, q := mem[b].next, mem[b].prev;
    var mem1 := if n != 0 then mem[n := mem[n].(prev := q)] else mem;
    var mem2 := if q != 0 then mem1[q := mem1[q].(next := n)] else mem1;
    mem2[b := mem2[b].(free := false)]
  }

  function RemoveHeads(mem: Mem, heads: seq<nat>, b: nat, c: nat): seq<nat>
    requires b in mem && c < |heads|
  {
    if heads[c] == b then heads[c := mem[b].next] else heads
  }

  /** A listed block and its neighbours in its list. */
  ghost predicate Around(mem: Mem, heads: seq<nat>, stamp: map<nat, nat>, b: nat) {
    && Listed(mem, b) && NodeOk(mem, heads, stamp, b)
    && (mem[b].next != 0 ==> NodeOk(mem, heads, stamp, mem[b].next))
    && (mem[b].prev != 0 ==> NodeOk(mem, heads, stamp, mem[b].prev))
  }

  lemma RemoveLists(mem: Mem, heads: seq<nat>, stamp: map<nat, nat>, clock: nat, b: nat, m: Mapping)
    requires Lists(mem, heads, stamp, clock) && Listed(mem, b)
    requires mem[b].size >= MIN_BLOCK && m == GetMapping(mem[b].size)
    ensures m.InRange() && m.Flat() < |heads|
    ensures (mem[b].next != 0 ==> Listed(mem, mem[b].next)) && (mem[b].prev != 0 ==> Listed(mem, mem[b].prev))
    ensures Lists(RemoveMem(mem, b), RemoveHeads(mem, heads, b, m.Flat()), stamp, clock)
  {
    assert NodeOk(mem, heads, stamp, b);
    assert Around(mem, heads, stamp, b);
    var mem', heads' := RemoveMem(mem, b), RemoveHeads(mem, heads, b, m.Flat());
    forall x | Listed(mem', x)
      ensures NodeOk(mem', heads', stamp, x)
    {
      assert Listed(mem, x);
      assert NodeOk(mem, heads, stamp, x);
      RemovedNode(mem, heads, stamp, b, m, x);
    }
    forall k: Mapping | k.InRange()
      ensures HeadOk(mem', heads', k)
    {
      assert HeadOk(mem, heads, k);
      RemovedHead(mem, heads, stamp, b, m, k);
    }
    assert forall x :: Listed(mem', x) ==> Listed(mem, x);
  }

  lemma RemovedNode(mem: Mem, heads: seq<nat>, stamp: map<nat, nat>, b: nat, m: Mapping, x: nat)
    requires Around(mem, heads, stamp, b) && m == GetMapping(mem[b].size)
    requires x != b && Listed(mem, x) && NodeOk(mem, heads, stamp, x)
    ensures NodeOk(RemoveMem(mem, b), RemoveHeads(mem, heads, b, m.Flat()), stamp, x)
  {
  }

  lemma RemovedHead(mem: Mem, heads: seq<nat>, stamp: map<nat, nat>, b: nat, m: Mapping, k: Mapping)
    requires Around(mem, heads, stamp, b) && m == GetMapping(mem[b].size)
    requires k.InRange() && k.Flat() < |heads| && HeadOk(mem, heads, k)
    ensures HeadOk(RemoveMem(mem, b), RemoveHeads(mem, heads, b, m.Flat()), k)
  {
  }

  lemma RemoveBits(mem: Mem, heads: seq<nat>, bits: Bitmaps, b: nat, m: Mapping)
    requires BitsSound(heads, bits) && m.InRange() && b in mem
    ensures m.Flat() < |heads|
    ensures BitsSound(RemoveHeads(mem, heads, b, m.Flat()), if mem[b].next == 0 then bits.Update(m, false) else bits)
  {
    UpdateOk(bits, m, false);
    var bits' := if mem[b].next == 0 then bits.Update(m, false) else bits;
    forall k: Mapping | bits'.IsSet(k)
      ensures RemoveHeads(mem, heads, b, m.Flat())[k.Flat()] != 0
    {
      assert bits.IsSet(k);
    }
  }

  /** Memories whose free blocks agree. */
  ghost predicate SameFree(mem: Mem, mem': Mem) {
    forall b :: (Listed(mem', b) <==> Listed(mem, b)) &&
      (Listed(mem, b) ==> mem'[b].size == mem[b].size && mem'[b].next == mem[b].next && mem'[b].prev == mem[b].prev)
  }

  lemma ListsSame(mem: Mem, mem': Mem, heads: seq<nat>, stamp: map<nat, nat>, clock: nat)
    requires Lists(mem, heads, stamp, clock) && SameFree(mem, mem')
    ensures Lists(mem', heads, stamp, clock)
  {
    forall b | Listed(mem', b)
      ensures NodeOk(mem', heads, stamp, b)
    {
      assert NodeOk(mem, heads, stamp, b);
      assert Listed(mem, b);
      assert Listed(mem', mem[b].next) <==> Listed(mem, mem[b].next);
      assert Listed(mem', mem[b].prev) <==> Listed(mem, mem[b].prev);
    }
    forall m: Mapping | m.InRange()
      ensures HeadOk(mem', heads, m)
    {
      assert HeadOk(mem, heads, m);
      assert Listed(mem', heads[m.Flat()]) <==> Listed(mem, heads[m.Flat()]);
    }
  }

  /** Listing or unlisting touches only the links and the flag of one block. */
  lemma InsertShape(mem: Mem, b: nat, head: nat)
    requires b in mem && (head != 0 ==> head in mem)
    ensures SameShape(mem, InsertMem(mem, b, head))
    ensures forall x :: x in mem && x != b ==> InsertMem(mem, b, head)[x].free == mem[x].free
  {
  }

  lemma RemoveShape(mem: Mem, b: nat)
    requires b in mem && (mem[b].next != 0 ==> mem[b].next in mem) && (mem[b].prev != 0 ==> mem[b].prev in mem)
    ensures SameShape(mem, RemoveMem(mem, b))
    ensures forall x :: x in mem ==> RemoveMem(mem, b)[x].free == (mem[x].free && x != b)
  {
  }

  /** Freeing a block whose neighbours are both in use, or using a block, leaves no free neighbours. */
  lemma QuietSet(p: Pool, mem: Mem, mem': Mem, b: nat)
    requires Phys(p, mem) && Quiet(mem) && SameShape(mem, mem') && b in mem
    requires forall x :: x in mem && x != b ==> mem'[x].free == mem[x].free
    requires mem'[b].free ==>
      (b != p.start ==> mem[b].before in mem && !mem[mem[b].before].free) &&
      (!mem[b].last ==> After(mem, b) in mem && !mem[After(mem, b)].free)
    ensures Quiet(mem')
  {
    forall x | x in mem'
      ensures QuietAt(mem', x)
    {
      assert BlockOk(p, mem, x) && QuietAt(mem, x);
      assert mem'[x].size == mem[x].size;
    }
  }

  // Splitting

  /** What `split_block` does to the headers; the links of the new block hold nothing yet. */
  function SplitMem(mem: Mem, b: nat, size: nat): Mem
    requires b in mem && mem[b].size >= HEADER + size
  {
    var h := mem[b];
    var r := b + HEADER + size;
    var mem1 := mem[b := h.(size := size, free := false, last := false)]
                   [r := Header(h.size - HEADER - size, false, h.last, 0, 0, b)];
    if h.last || After(mem, b) !in mem then mem1
    else mem1[After(mem, b) := mem1[After(mem, b)].(before := r)]
  }

  /** What splitting leaves at `x`. */
  ghost predicate SplitView(mem: Mem, mem': Mem, b: nat, size: nat, x: nat)
    requires b in mem && mem[b].size >= HEADER + size
  {
    var r := b + HEADER + size;
    && (x in mem' <==> x in mem || x == r)
    && (x == b ==>
        x in mem' && mem'[x].size == size && !mem'[x].last && !mem'[x].free && mem'[x].before == mem[x].before)
    && (x == r ==>
        && x in mem' && mem'[x].size == mem[b].size - HEADER - size && mem'[x].last == mem[b].last
        && !mem'[x].free && mem'[x].before == b)
    && (x != b && x != r && x in mem && x in mem' ==>
        && mem'[x].size == mem[x].size && mem'[x].last == mem[x].last && mem'[x].free == mem[x].free
        && mem'[x].next == mem[x].next && mem'[x].prev == mem[x].prev
        && mem'[x].before == if x == After(mem, b) && !mem[b].last then r else mem[x].before)
  }

  lemma SplitViewAt(mem: Mem, b: nat, size: nat, x: nat)
    requires b in mem && mem[b].size >= HEADER + size && b + HEADER + size !in mem
    ensures SplitView(mem, SplitMem(mem, b, size), b, size, x)
  {
  }

  ghost predicate Splits(p: Pool, mem: Mem, mem': Mem, b: nat, size: nat) {
    && Phys(p, mem) && b in mem && size % 32 == 0 && MIN_BLOCK <= size
    && mem[b].size >= HEADER + size + MIN_BLOCK && b + HEADER + size !in mem
    && forall x {:trigger SplitView(mem, mem', b, size, x)} :: SplitView(mem, mem', b, size, x)
  }

  lemma SplitFits(p: Pool, mem: Mem, b: nat, size: nat)
    requires Phys(p, mem) && b in mem && size % 32 == 0 && MIN_BLOCK <= size
    requires mem[b].size >= HEADER + size + MIN_BLOCK
    ensures Splits(p, mem, SplitMem(mem, b, size), b, size)
    ensures !mem[b].last ==> After(mem, b) in mem
  {
    var r := b + HEADER + size;
    assert BlockOk(p, mem, b);
    assert Clear(mem, b, r);
    forall x
      ensures SplitView(mem, SplitMem(mem, b, size), b, size, x)
    {
      SplitViewAt(mem, b, size, x);
    }
  }

  /** The block of `b` is cut into two. */
  lemma SplitPhys(p: Pool, mem: Mem, mem': Mem, b: nat, size: nat)
    requires Splits(p, mem, mem', b, size)
    ensures Phys(p, mem')
  {
    assert SplitView(mem, mem', b, size, p.start);
    forall x | x in mem'
      ensures BlockOk(p, mem', x)
    {
      SplitBlockOk(p, mem, mem', b, size, x);
    }
    forall x, y
      ensures Clear(mem', x, y)
    {
      SplitClear(p, mem, mem', b, size, x, y);
    }
  }

  lemma SplitBlockOk(p: Pool, mem: Mem, mem': Mem, b: nat, size: nat, x: nat)
    requires Splits(p, mem, mem', b, size) && x in mem'
    ensures BlockOk(p, mem', x)
  {
    if x == b || x == b + HEADER + size {
      SplitPartsOk(p, mem, mem', b, size);
    } else {
      assert SplitView(mem, mem', b, size, x);
      assert SplitView(mem, mem', b, size, b);
      assert SplitView(mem, mem', b, size, b + HEADER + size);
      assert BlockOk(p, mem, b) && BlockOk(p, mem, x);
      assert SplitView(mem, mem', b, size, After(mem, x));
      assert SplitView(mem, mem', b, size, mem[x].before);
    }
  }

  lemma SplitPartsOk(p: Pool, mem: Mem, mem': Mem, b: nat, size: nat)
    requires Splits(p, mem, mem', b, size)
    ensures b in mem' && BlockOk(p, mem', b) && b + HEADER + size in mem' && BlockOk(p, mem', b + HEADER + size)
  {
    assert BlockOk(p, mem, b);
    assert SplitView(mem, mem', b, size, b);
    assert SplitView(mem, mem', b, size, b + HEADER + size);
    assert SplitView(mem, mem', b, size, After(mem, b));
    assert SplitView(mem, mem', b, size, mem[b].before);
  }

  lemma SplitClear(p: Pool, mem: Mem, mem': Mem, b: nat, size: nat, x: nat, y: nat)
    requires Splits(p, mem, mem', b, size)
    ensures Clear(mem', x, y)
  {
    assert SplitView(mem, mem', b, size, x) && SplitView(mem, mem', b, size, y);
    assert Clear(mem, x, y) && Clear(mem, b, y) && Clear(mem, x, b);
    if y == b + HEADER + size && x != b {
      assert x < b || Clear(mem, b, x);
    }
  }

  lemma SplitFree(p: Pool, mem: Mem, mem': Mem, b: nat, size: nat)
    requires Splits(p, mem, mem', b, size) && Quiet(mem) && !mem[b].free
    ensures SameFree(mem, mem') && Quiet(mem')
  {
    forall x
      ensures (Listed(mem', x) <==> Listed(mem, x)) &&
        (Listed(mem, x) ==> mem'[x].size == mem[x].size && mem'[x].next == mem[x].next && mem'[x].prev == mem[x].prev)
    {
      assert SplitView(mem, mem', b, size, x);
    }
    forall x | x in mem'
      ensures QuietAt(mem', x)
    {
      assert SplitView(mem, mem', b, size, x);
      if x in mem {
        assert QuietAt(mem, x) && BlockOk(p, mem, x);
        assert SplitView(mem, mem', b, size, After(mem, x));
      }
    }
  }

  // Merging

  /**
     What `coalesce_blocks` does to the headers once both blocks are off their lists; the second header is no
     longer one.
   */
  function MergeMem(mem: Mem, b: nat, c: nat): Mem
    requires b in mem && c in mem
  {
    var mem1 := mem[b := mem[b].(size := mem[b].size + HEADER + mem[c].size, last := mem[b].last || mem[c].last)];
    (if mem[c].last || After(mem, c) !in mem then mem1
     else mem1[After(mem, c) := mem1[After(mem, c)].(before := b)]) - {c}
  }

  ghost predicate Neighbours(mem: Mem, b: nat, c: nat) {
    b in mem && c in mem && !mem[b].last && After(mem, b) == c
  }

  /** What merging leaves at `x`. */
  ghost predicate MergeView(mem: Mem, mem': Mem, b: nat, c: nat, x: nat)
    requires b in mem && c in mem
  {
    && (x in mem' <==> x in mem && x != c)
    && (x == b ==> x in mem' && mem'[x].size == mem[b].size + HEADER + mem[c].size)
    && (x == b ==> x in mem' && mem'[x].last == (mem[b].last || mem[c].last))
    && (x == b ==> x in mem' && mem'[x].free == mem[b].free && mem'[x].before == mem[b].before)
    && (x != b && x in mem && x in mem' ==>
        && mem'[x].size == mem[x].size && mem'[x].last == mem[x].last && mem'[x].free == mem[x].free
        && mem'[x].next == mem[x].next && mem'[x].prev == mem[x].prev
        && mem'[x].before == if x == After(mem, c) && !mem[c].last then b else mem[x].before)
  }

  lemma MergeViewAt(mem: Mem, b: nat, c: nat, x: nat)
    requires b in mem && c in mem && b != c && (!mem[c].last ==> After(mem, c) in mem) && After(mem, c) != b
    ensures MergeView(mem, MergeMem(mem, b, c), b, c, x)
  {
  }

  ghost predicate Merges(p: Pool, mem: Mem, mem': Mem, b: nat, c: nat) {
    && Phys(p, mem) && Neighbours(mem, b, c)
    && forall x {:trigger MergeView(mem, mem', b, c, x)} :: MergeView(mem, mem', b, c, x)
  }

  lemma MergeFits(p: Pool, mem: Mem, b: nat, c: nat)
    requires Phys(p, mem) && Neighbours(mem, b, c)
    ensures Merges(p, mem, MergeMem(mem, b, c), b, c)
    ensures !mem[c].last ==> After(mem, c) in mem
  {
    assert BlockOk(p, mem, b) && BlockOk(p, mem, c);
    forall x
      ensures MergeView(mem, MergeMem(mem, b, c), b, c, x)
    {
      MergeViewAt(mem, b, c, x);
    }
  }

  lemma MergePhys(p: Pool, mem: Mem, mem': Mem, b: nat, c: nat)
    requires Merges(p, mem, mem', b, c)
    ensures Phys(p, mem')
  {
    assert BlockOk(p, mem, b) && BlockOk(p, mem, c);
    assert MergeView(mem, mem', b, c, p.start);
    forall x | x in mem'
      ensures BlockOk(p, mem', x)
    {
      MergeBlockOk(p, mem, mem', b, c, x);
    }
    forall x, y
      ensures Clear(mem', x, y)
    {
      MergeClear(p, mem, mem', b, c, x, y);
    }
  }

  lemma MergeBlockOk(p: Pool, mem: Mem, mem': Mem, b: nat, c: nat, x: nat)
    requires Merges(p, mem, mem', b, c) && x in mem'
    ensures BlockOk(p, mem', x)
  {
    assert BlockOk(p, mem, b) && BlockOk(p, mem, c);
    assert MergeView(mem, mem', b, c, x);
    assert MergeView(mem, mem', b, c, b);
    assert BlockOk(p, mem, x);
    if x == b {
      assert MergeView(mem, mem', b, c, After(mem, c));
    } else {
      assert MergeView(mem, mem', b, c, After(mem, x));
    }
    if x != p.start {
      assert BlockOk(p, mem, mem[x].before);
      assert MergeView(mem, mem', b, c, mem[x].before);
    }
  }

  lemma MergeClear(p: Pool, mem: Mem, mem': Mem, b: nat, c: nat, x: nat, y: nat)
    requires Merges(p, mem, mem', b, c)
    ensures Clear(mem', x, y)
  {
    assert MergeView(mem, mem', b, c, x) && MergeView(mem, mem', b, c, y);
    assert Clear(mem, x, y) && Clear(mem, c, y) && Clear(mem, b, y);
  }

  lemma MergeFree(p: Pool, mem: Mem, mem': Mem, b: nat, c: nat)
    requires Merges(p, mem, mem', b, c) && Quiet(mem) && !mem[b].free && !mem[c].free
    ensures SameFree(mem, mem') && Quiet(mem')
  {
    forall x
      ensures (Listed(mem', x) <==> Listed(mem, x)) &&
        (Listed(mem, x) ==> mem'[x].size == mem[x].size && mem'[x].next == mem[x].next && mem'[x].prev == mem[x].prev)
    {
      assert MergeView(mem, mem', b, c, x);
    }
    forall x | x in mem'
      ensures QuietAt(mem', x)
    {
      assert MergeView(mem, mem', b, c, x);
      assert QuietAt(mem, x) && BlockOk(p, mem, x);
      assert MergeView(mem, mem', b, c, After(mem, x));
    }
  }

  // The blocks in use determine everything else

  /** The blocks in use, with their sizes. */
  function Used(mem: Mem): map<nat, nat> {
    map b | b in mem && !mem[b].free :: mem[b].size
  }

  /** Two heaps with the same blocks in use are cut into the same blocks: between them, each gap is one free block. */
  lemma UsedDetermines(p: Pool, mem: Mem, mem': Mem, b: nat)
    requires Phys(p, mem) && Quiet(mem) && Phys(p, mem') && Quiet(mem') && Used(mem) == Used(mem')
    requires b in mem && b in mem'
    ensures mem'[b].size == mem[b].size && mem'[b].free == mem[b].free
    ensures mem'[b].last == mem[b].last
  {
    assert BlockOk(p, mem, b) && BlockOk(p, mem', b);
    FreeAgrees(mem, mem', b);
    if mem[b].free {
      GapEnds(p, mem, mem', b);
      GapEnds(p, mem', mem, b);
    } else {
      assert Used(mem)[b] == Used(mem')[b];
    }
    LastIff(p, mem, b);
    LastIff(p, mem', b);
  }

  lemma FreeAgrees(mem: Mem, mem': Mem, b: nat)
    requires b in mem && b in mem' && Used(mem) == Used(mem')
    ensures mem[b].free == mem'[b].free
  {
    assert b in Used(mem) <==> !mem[b].free;
    assert b in Used(mem') <==> !mem'[b].free;
  }

  lemma LastIff(p: Pool, mem: Mem, b: nat)
    requires Phys(p, mem) && b in mem
    ensures mem[b].last <==> After(mem, b) == p.end
    ensures !mem[b].last ==> After(mem, b) in mem
  {
    assert BlockOk(p, mem, b);
    if !mem[b].last {
      assert BlockOk(p, mem, After(mem, b));
    }
  }

  lemma GapEnds(p: Pool, mem: Mem, mem': Mem, b: nat)
    requires Phys(p, mem) && Quiet(mem) && Phys(p, mem') && Quiet(mem') && Used(mem) == Used(mem')
    requires b in mem && b in mem' && mem[b].free && mem'[b].free
    ensures mem'[b].size <= mem[b].size
  {
    LastIff(p, mem, b);
    assert BlockOk(p, mem, b) && BlockOk(p, mem', b);
    if !mem[b].last {
      var n := After(mem, b);
      assert QuietAt(mem, b);
      assert n in Used(mem);
      assert n in mem';
      assert Clear(mem', b, n);
    }
  }

  lemma {:induction false} SameBlocks(p: Pool, mem: Mem, mem': Mem, b: nat)
    requires Phys(p, mem) && Quiet(mem) && Phys(p, mem') && Quiet(mem') && Used(mem) == Used(mem')
    requires b in mem
    ensures b in mem' && mem'[b].size == mem[b].size && mem'[b].free == mem[b].free
    ensures mem'[b].last == mem[b].last && mem'[b].before == mem[b].before
    decreases b
  {
    assert BlockOk(p, mem, b);
    if b != p.start {
      var a := mem[b].before;
      assert BlockOk(p, mem, a);
      SameBlocks(p, mem, mem', a);
      LastIff(p, mem, a);
      LastIff(p, mem', a);
      assert BlockOk(p, mem', a);
      assert BlockOk(p, mem, b);
      assert BlockOk(p, mem', b);
      BeforeIs(p, mem', b, a);
    } else {
      assert BlockOk(p, mem', b);
    }
    UsedDetermines(p, mem, mem', b);
  }

  lemma BeforeIs(p: Pool, mem: Mem, b: nat, a: nat)
    requires Phys(p, mem) && b in mem && a in mem && After(mem, a) == b
    ensures mem[b].before == a
  {
    assert BlockOk(p, mem, a) && BlockOk(p, mem, b);
    LastIff(p, mem, a);
  }

  /** A heap is canonical: blocks, sizes, flags and physical links follow from the blocks in use. */
  lemma Canonical(p: Pool, mem: Mem, mem': Mem)
    requires Phys(p, mem) && Quiet(mem) && Phys(p, mem') && Quiet(mem') && Used(mem) == Used(mem')
    ensures SameShape(mem, mem') && forall b :: b in mem ==> mem'[b].free == mem[b].free
  {
    forall b
      ensures b in mem ==> b in mem'
      ensures b in mem' ==> b in mem && mem'[b].size == mem[b].size && mem'[b].last == mem[b].last
      ensures b in mem' ==> b in mem && mem'[b].before == mem[b].before && mem'[b].free == mem[b].free
    {
      if b in mem {
        SameBlocks(p, mem, mem', b);
      }
      if b in mem' {
        SameBlocks(p, mem', mem, b);
      }
    }
  }

  /** The blocks tile the pool: every address lies in exactly one block, its header included. */
  ghost predicate Holds(mem: Mem, b: nat, x: nat) {
    b in mem && b <= x < After(mem, b)
  }

  lemma Tiles(p: Pool, mem: Mem, x: nat)
    requires Phys(p, mem) && p.start <= x < p.end
    ensures exists b :: Holds(mem, b, x) && forall c :: Holds(mem, c, x) ==> c == b
  {
    var b := Walk(p, mem, p.start, x);
    forall c | Holds(mem, c, x)
      ensures c == b
    {
      assert Clear(mem, b, c) && Clear(mem, c, b);
    }
  }

  /** The blocks lie at multiples of the smallest block from the start of the pool. */
  lemma {:induction false} WholeBlocks(p: Pool, mem: Mem, b: nat)
    requires Phys(p, mem) && b in mem
    ensures (b - p.start) % MIN_BLOCK == 0
    decreases b
  {
    assert BlockOk(p, mem, b);
    if b != p.start {
      WholeBlocks(p, mem, mem[b].before);
      assert BlockOk(p, mem, mem[b].before);
    }
  }

  lemma {:induction false} Walk(p: Pool, mem: Mem, a: nat, x: nat) returns (b: nat)
    requires Phys(p, mem) && a in mem && a <= x < p.end
    ensures Holds(mem, b, x)
    decreases x - a
  {
    LastIff(p, mem, a);
    assert BlockOk(p, mem, a);
    if x < After(mem, a) {
      b := a;
    } else {
      b := Walk(p, mem, After(mem, a), x);
    }
  }

  // What the lists hold

  /** The blocks of the list that starts at `b`, in order. */
  ghost function ListFrom(mem: Mem, heads: seq<nat>, stamp: map<nat, nat>, clock: nat, b: nat): seq<nat>
    requires Lists(mem, heads, stamp, clock) && (b != 0 ==> Listed(mem, b))
    decreases if b == 0 then 0 else stamp[b] + 1
  {
    if b == 0 then [] else
      assert NodeOk(mem, heads, stamp, b);
      [b] + ListFrom(mem, heads, stamp, clock, mem[b].next)
  }

  /** `x` is no younger than the listed block `b` and of the same class. */
  ghost predicate NoYounger(mem: Mem, stamp: map<nat, nat>, b: nat, x: nat) {
    && Listed(mem, b) && Listed(mem, x) && b in stamp && x in stamp && stamp[x] <= stamp[b]
    && mem[b].size >= MIN_BLOCK && mem[x].size >= MIN_BLOCK && SameClass(mem, b, x)
  }

  ghost predicate Younger(stamp: map<nat, nat>, b: nat, x: nat) {
    b in stamp && x in stamp && stamp[x] < stamp[b]
  }

  ghost predicate Ordered(mem: Mem, stamp: map<nat, nat>, b: nat, s: seq<nat>) {
    && (b == 0 ==> s == [])
    && (forall x :: x in s ==> NoYounger(mem, stamp, b, x))
    && (forall i, j :: 0 <= i < j < |s| ==> Younger(stamp, s[i], s[j]))
  }

  lemma OrderedNext(mem: Mem, heads: seq<nat>, stamp: map<nat, nat>, b: nat, t: seq<nat>)
    requires Listed(mem, b) && NodeOk(mem, heads, stamp, b)
    requires Ordered(mem, stamp, mem[b].next, t)
    ensures Ordered(mem, stamp, b, [b] + t)
  {
    var s := [b] + t;
    forall x | x in t
      ensures NoYounger(mem, stamp, b, x) && Younger(stamp, b, x)
    {
      assert NoYounger(mem, stamp, mem[b].next, x);
    }
    forall i, j | 0 <= i < j < |s|
      ensures Younger(stamp, s[i], s[j])
    {
      assert s[j] == t[j - 1] && t[j - 1] in t;
      assert i > 0 ==> Younger(stamp, t[i - 1], t[j - 1]);
    }
  }

  /** A list runs from new to old, so it holds no block twice. */
  lemma {:induction false} ListOrdered(mem: Mem, heads: seq<nat>, stamp: map<nat, nat>, clock: nat, b: nat)
    requires Lists(mem, heads, stamp, clock) && (b != 0 ==> Listed(mem, b))
    ensures Ordered(mem, stamp, b, ListFrom(mem, heads, stamp, clock, b))
    decreases if b == 0 then 0 else stamp[b] + 1
  {
    if b != 0 {
      assert NodeOk(mem, heads, stamp, b);
      ListOrdered(mem, heads, stamp, clock, mem[b].next);
      OrderedNext(mem, heads, stamp, b, ListFrom(mem, heads, stamp, clock, mem[b].next));
    }
  }

  /** Following `prev` from a free block leads to the head of its class's list. */
  lemma {:induction false} Reached(mem: Mem, heads: seq<nat>, stamp: map<nat, nat>, clock: nat, h: nat, b: nat)
    requires Lists(mem, heads, stamp, clock) && Listed(mem, b) && mem[b].size >= MIN_BLOCK
    requires GetMapping(mem[b].size).Flat() < |heads|
    requires h == heads[GetMapping(mem[b].size).Flat()] && (h != 0 ==> Listed(mem, h))
    requires b in stamp
    ensures b in ListFrom(mem, heads, stamp, clock, h)
    decreases clock - stamp[b]
  {
    assert NodeOk(mem, heads, stamp, b);
    var q := mem[b].prev;
    if q != 0 {
      assert NodeOk(mem, heads, stamp, q);
      Reached(mem, heads, stamp, clock, h, q);
      NextReached(mem, heads, stamp, clock, h, q);
    }
  }

  lemma {:induction false} NextReached(mem: Mem, heads: seq<nat>, stamp: map<nat, nat>, clock: nat, h: nat, q: nat)
    requires Lists(mem, heads, stamp, clock) && (h != 0 ==> Listed(mem, h))
    requires q in ListFrom(mem, heads, stamp, clock, h) && q in mem && mem[q].next != 0
    ensures mem[q].next in ListFrom(mem, heads, stamp, clock, h)
    decreases if h == 0 then 0 else stamp[h] + 1
  {
    if h != 0 {
      assert NodeOk(mem, heads, stamp, h);
      if q != h {
        NextReached(mem, heads, stamp, clock, mem[h].next, q);
      }
    }
  }

  /** The list of a class holds exactly the free blocks of that class, each once. */
  lemma ListExact(mem: Mem, heads: seq<nat>, stamp: map<nat, nat>, clock: nat, m: Mapping)
    requires Lists(mem, heads, stamp, clock) && m.InRange()
    ensures m.Flat() < |heads| && (heads[m.Flat()] != 0 ==> Listed(mem, heads[m.Flat()]))
    ensures var s := ListFrom(mem, heads, stamp, clock, heads[m.Flat()]);
      && (forall b :: b in s <==> Listed(mem, b) && mem[b].size >= MIN_BLOCK && GetMapping(mem[b].size) == m)
      && (forall i, j :: 0 <= i < j < |s| ==> s[i] != s[j])
  {
    var h := heads[m.Flat()];
    assert HeadOk(mem, heads, m);
    ListOrdered(mem, heads, stamp, clock, h);
    var s := ListFrom(mem, heads, stamp, clock, h);
    forall i, j | 0 <= i < j < |s|
      ensures s[i] != s[j]
    {
      assert Younger(stamp, s[i], s[j]);
    }
    assert forall b :: b in s ==> NoYounger(mem, stamp, h, b);
    forall b | Listed(mem, b) && mem[b].size >= MIN_BLOCK && GetMapping(mem[b].size) == m
      ensures b in ListFrom(mem, heads, stamp, clock, h)
    {
      assert NodeOk(mem, heads, stamp, b);
      Reached(mem, heads, stamp, clock, h, b);
    }
  }
}
