/**
 What the bitmaps of JSMalloc know of the free blocks.  A set bit always names a list that is not
 empty; the converse, on which a search relies to find a block, is kept by every allocation but not
 by every free.
 */
module JSMallocBits {
  import opened TlsfClasses
  import opened JSMallocModel

  /** A free block of the class. */
  ghost predicate InClass(mem: Mem, b: nat, m: Mapping) {
    Listed(mem, b) && mem[b].size >= MIN_BLOCK && GetMapping(mem[b].size) == m
  }

  /** The free blocks are those of `f`, with their sizes. */
  ghost predicate FreeAre(mem: Mem, f: map<nat, nat>) {
    forall b: nat {:trigger Listed(mem, b)} :: (Listed(mem, b) <==> b in f) && (b in f ==> mem[b].size == f[b])
  }

  /** The bit of every free block's class is set. */
  ghost predicate Complete(mem: Mem, bits: Bitmaps)
    requires bits.Shape()
  {
    forall b, m {:trigger InClass(mem, b, m)} :: InClass(mem, b, m) ==> bits.IsSet(m)
  }

  /** The bit of the class is set, so its list has a head. */
  lemma SetHasHead(mem: Mem, heads: seq<nat>, stamp: map<nat, nat>, clock: nat, bits: Bitmaps, m: Mapping)
    requires Lists(mem, heads, stamp, clock) && BitsSound(heads, bits) && bits.IsSet(m)
    ensures InClass(mem, heads[m.Flat()], m)
  {
    assert HeadOk(mem, heads, m);
  }

  /** With complete bitmaps, the classes that are set are those of the free blocks. */
  lemma CompleteIsExact(mem: Mem, heads: seq<nat>, stamp: map<nat, nat>, clock: nat, bits: Bitmaps)
    requires Lists(mem, heads, stamp, clock) && BitsSound(heads, bits) && Complete(mem, bits)
    ensures forall m: Mapping :: bits.IsSet(m) <==> exists b :: InClass(mem, b, m)
  {
    forall m: Mapping | bits.IsSet(m)
      ensures exists b :: InClass(mem, b, m)
    {
      SetHasHead(mem, heads, stamp, clock, bits, m);
    }
  }

  /** The bitmaps know of no block whose class is `target` or above; there is none. */
  ghost predicate NoneKnown(bits: Bitmaps, target: Mapping)
    requires bits.Shape()
  {
    forall m: Mapping :: bits.IsSet(m) ==> m.Flat() < target.Flat()
  }

  ghost predicate NoneFree(mem: Mem, target: Mapping) {
    forall b, m {:trigger InClass(mem, b, m)} :: InClass(mem, b, m) ==> m.Flat() < target.Flat()
  }

  /** So with complete bitmaps a search fails exactly when no free block is of a class that is large enough. */
  lemma FailsIffNone(mem: Mem, heads: seq<nat>, stamp: map<nat, nat>, clock: nat, bits: Bitmaps, target: Mapping)
    requires Lists(mem, heads, stamp, clock) && BitsSound(heads, bits) && target.sl < LEVELS
    ensures bits.Adjust(target).UnableToFind? <==> NoneKnown(bits, target)
    ensures Complete(mem, bits) ==> (NoneKnown(bits, target) <==> NoneFree(mem, target))
  {
    AdjustIsLeast(bits, target);
    if Complete(mem, bits) {
      CompleteIsExact(mem, heads, stamp, clock, bits);
      assert NoneFree(mem, target) ==> NoneKnown(bits, target);
    }
  }

  /** `m` is the least class from `target` on that the bitmaps know to hold a block. */
  ghost predicate LeastKnown(bits: Bitmaps, target: Mapping, m: Mapping)
    requires bits.Shape()
  {
    && bits.IsSet(m) && target.Flat() <= m.Flat()
    && forall n: Mapping :: bits.IsSet(n) && target.Flat() <= n.Flat() ==> m.Flat() <= n.Flat()
  }

  /** The free block `b` is of that class. */
  ghost predicate OfLeastKnown(mem: Mem, bits: Bitmaps, target: Mapping, b: nat)
    requires bits.Shape()
  {
    exists m :: InClass(mem, b, m) && LeastKnown(bits, target, m)
  }

  lemma AdjustedIsLeast(mem: Mem, bits: Bitmaps, target: Mapping, b: nat)
    requires bits.Ok() && target.sl < LEVELS && bits.Adjust(target).Found? && InClass(mem, b, bits.Adjust(target).m)
    ensures OfLeastKnown(mem, bits, target, b)
  {
    AdjustIsLeast(bits, target);
    assert LeastKnown(bits, target, bits.Adjust(target).m);
  }

  /** `r` is the last block of the list of class `m`. */
  ghost predicate Ends(mem: Mem, r: nat, m: Mapping) {
    InClass(mem, r, m) && mem[r].next == 0
  }

  /** A head without a successor is alone in its list. */
  lemma Sole(mem: Mem, heads: seq<nat>, stamp: map<nat, nat>, clock: nat, b: nat, x: nat, m: Mapping)
    requires Lists(mem, heads, stamp, clock) && Ends(mem, b, m) && mem[b].prev == 0 && InClass(mem, x, m)
    ensures x == b
  {
    assert NodeOk(mem, heads, stamp, b);
    ListExact(mem, heads, stamp, clock, m);
    var list := ListFrom(mem, heads, stamp, clock, b);
    assert heads[m.Flat()] == b && list == [b];
    assert x in list;
  }

  lemma NullNotListed(mem: Mem, heads: seq<nat>, stamp: map<nat, nat>, clock: nat)
    requires Lists(mem, heads, stamp, clock)
    ensures !Listed(mem, 0)
  {
    assert Listed(mem, 0) ==> NodeOk(mem, heads, stamp, 0);
  }

  // One block on or off its list

  /** `r` is taken off its list if it is on one; when it is the last there, the bit of its class is cleared. */
  ghost predicate Unhooked(mem: Mem, mem': Mem, bits: Bitmaps, bits': Bitmaps, r: nat)
    requires bits.Shape() && bits'.Shape()
  {
    && (forall m: Mapping {:trigger bits'.IsSet(m)} :: bits'.IsSet(m) <==> bits.IsSet(m) && !Ends(mem, r, m))
    && (forall x: nat {:trigger Listed(mem', x)} {:trigger Listed(mem, x)} ::
        Listed(mem', x) <==> Listed(mem, x) && x != r)
    && (forall x: nat {:trigger Listed(mem', x)} {:trigger Listed(mem, x)} :: Listed(mem, x) && x in mem' && x != r ==>
        && mem'[x].size == mem[x].size
        && mem'[x].next == if mem[x].next == r && Listed(mem, r) then mem[r].next else mem[x].next)
  }

  lemma NothingUnhooked(mem: Mem, bits: Bitmaps, r: nat)
    requires bits.Shape() && !Listed(mem, r)
    ensures Unhooked(mem, mem, bits, bits, r)
  {
  }

  lemma RemoveUnhooks(mem: Mem, heads: seq<nat>, stamp: map<nat, nat>, clock: nat, bits: Bitmaps, b: nat, m: Mapping)
    requires Lists(mem, heads, stamp, clock) && BitsSound(heads, bits) && InClass(mem, b, m)
    ensures m.InRange()
    ensures (mem[b].next != 0 ==> mem[b].next in mem) && (mem[b].prev != 0 ==> mem[b].prev in mem)
    ensures Unhooked(mem, RemoveMem(mem, b), bits, if mem[b].next == 0 then bits.Update(m, false) else bits, b)
  {
    assert NodeOk(mem, heads, stamp, b);
    UpdateOk(bits, m, false);
    RemoveShape(mem, b);
    var mem' := RemoveMem(mem, b);
    forall x: nat | Listed(mem, x) && x != b
      ensures mem'[x].next == if mem[x].next == b then mem[b].next else mem[x].next
    {
      assert NodeOk(mem, heads, stamp, x);
    }
  }

  lemma UnhookedThenSame(mem: Mem, mem1: Mem, mem': Mem, bits: Bitmaps, bits': Bitmaps, r: nat)
    requires bits.Shape() && bits'.Shape() && Unhooked(mem, mem1, bits, bits', r) && SameFree(mem1, mem')
    ensures Unhooked(mem, mem', bits, bits', r)
  {
    forall x: nat
      ensures Listed(mem', x) <==> Listed(mem, x) && x != r
      ensures Listed(mem, x) && x in mem' && x != r ==>
        && mem'[x].size == mem[x].size
        && mem'[x].next == if mem[x].next == r && Listed(mem, r) then mem[r].next else mem[x].next
    {
      assert Listed(mem1, x) <==> Listed(mem', x);
    }
  }

  /** `b` is listed, at the head of the list of its class, whose bit is set. */
  ghost predicate Hooked(mem: Mem, mem': Mem, bits: Bitmaps, bits': Bitmaps, b: nat)
    requires bits.Shape() && bits'.Shape()
  {
    && b in mem && b in mem' && mem'[b].size == mem[b].size && mem'[b].prev == 0
    && (forall m: Mapping {:trigger bits'.IsSet(m)} :: bits'.IsSet(m) <==> bits.IsSet(m) || InClass(mem', b, m))
    && (forall x: nat {:trigger Listed(mem', x)} {:trigger Listed(mem, x)} ::
        Listed(mem', x) <==> Listed(mem, x) || x == b)
    && (forall x: nat {:trigger Listed(mem', x)} {:trigger Listed(mem, x)} :: Listed(mem, x) && x in mem' && x != b ==>
        mem'[x].size == mem[x].size && mem'[x].next == mem[x].next)
  }

  lemma InsertHooks(mem: Mem, heads: seq<nat>, bits: Bitmaps, b: nat, m: Mapping)
    requires bits.Ok() && m.InRange() && m.Flat() < |heads|
    requires b in mem && mem[b].size >= MIN_BLOCK && m == GetMapping(mem[b].size)
    requires heads[m.Flat()] != 0 ==> heads[m.Flat()] in mem
    ensures Hooked(mem, InsertMem(mem, b, heads[m.Flat()]), bits, bits.Update(m, true), b)
  {
    UpdateOk(bits, m, true);
    InsertShape(mem, b, heads[m.Flat()]);
  }

  // Allocating

  /** What is left of a block beyond `aligned` bytes is large enough for a block. */
  predicate Cut(mem: Mem, b: nat, aligned: nat)
    requires b in mem
  {
    mem[b].size >= aligned + MIN_BLOCK + HEADER
  }

  /** The block `b`, which is in use, is cut down to `aligned` bytes, and the rest is listed, if it can be a block. */
  ghost predicate Trimmed(mem: Mem, mem': Mem, bits: Bitmaps, bits': Bitmaps, b: nat, aligned: nat)
    requires bits.Shape() && bits'.Shape()
  {
    var rest := b + HEADER + aligned;
    && b in mem && b in mem' && mem'[b].size == (if Cut(mem, b, aligned) then aligned else mem[b].size)
    && (Cut(mem, b, aligned) ==> rest in mem' && mem'[rest].size == mem[b].size - HEADER - aligned)
    && (forall x: nat {:trigger Listed(mem', x)} {:trigger Listed(mem, x)} ::
        Listed(mem', x) <==> Listed(mem, x) || (Cut(mem, b, aligned) && x == rest))
    && (forall x: nat {:trigger Listed(mem', x)} {:trigger Listed(mem, x)} :: Listed(mem, x) && x in mem' ==>
        (Cut(mem, b, aligned) ==> x != rest) && mem'[x].size == mem[x].size)
    && (forall m: Mapping {:trigger bits'.IsSet(m)} :: bits'.IsSet(m) <==>
        bits.IsSet(m) || (Cut(mem, b, aligned) && InClass(mem', rest, m)))
  }

  lemma SplitThenInserted(
    mem: Mem, mem1: Mem, mem': Mem, bits: Bitmaps, bits': Bitmaps, b: nat, aligned: nat)
    requires bits.Shape() && bits'.Shape() && b in mem && b in mem1 && b in mem' && Cut(mem, b, aligned)
    requires SameFree(mem, mem1) && Hooked(mem1, mem', bits, bits', b + HEADER + aligned)
    requires !mem[b].free && !Listed(mem1, b + HEADER + aligned)
    requires mem1[b].size == aligned == mem'[b].size
    requires mem1[b + HEADER + aligned].size == mem[b].size - HEADER - aligned
    ensures Trimmed(mem, mem', bits, bits', b, aligned)
  {
    forall x: nat
      ensures Listed(mem', x) <==> Listed(mem, x) || x == b + HEADER + aligned
      ensures Listed(mem, x) && x in mem' ==> x != b + HEADER + aligned && mem'[x].size == mem[x].size
    {
      assert Listed(mem1, x) <==> Listed(mem, x);
    }
  }

  lemma TakenThenTrimmed(
    mem: Mem, mem1: Mem, mem': Mem, bits: Bitmaps, bits1: Bitmaps, bits': Bitmaps, b: nat, aligned: nat)
    requires bits.Shape() && bits1.Shape() && bits'.Shape()
    requires Listed(mem, b) && b in mem1 && mem1[b].size == mem[b].size >= aligned
    requires Unhooked(mem, mem1, bits, bits1, b) && Trimmed(mem1, mem', bits1, bits', b, aligned)
    ensures Served(mem, mem', bits, bits', b, aligned)
  {
    forall x: nat
      ensures Listed(mem', x) <==> (Listed(mem, x) && x != b) || (Cut(mem, b, aligned) && x == b + HEADER + aligned)
      ensures Listed(mem, x) && x in mem' && x != b ==>
        (Cut(mem, b, aligned) ==> x != b + HEADER + aligned) && mem'[x].size == mem[x].size
    {
      assert Listed(mem1, x) <==> Listed(mem, x) && x != b;
    }
  }

  /** The free block `b` is taken for `aligned` bytes, and what is left becomes a free block if it can. */
  ghost predicate Served(mem: Mem, mem': Mem, bits: Bitmaps, bits': Bitmaps, b: nat, aligned: nat)
    requires bits.Shape() && bits'.Shape()
  {
    var rest := b + HEADER + aligned;
    && Listed(mem, b) && b in mem' && aligned <= mem[b].size
    && mem'[b].size == (if Cut(mem, b, aligned) then aligned else mem[b].size)
    && (Cut(mem, b, aligned) ==> rest in mem' && mem'[rest].size == mem[b].size - HEADER - aligned)
    && (forall x: nat {:trigger Listed(mem', x)} {:trigger Listed(mem, x)} ::
        Listed(mem', x) <==> (Listed(mem, x) && x != b) || (Cut(mem, b, aligned) && x == rest))
    && (forall x: nat {:trigger Listed(mem', x)} {:trigger Listed(mem, x)} :: Listed(mem, x) && x in mem' && x != b ==>
        (Cut(mem, b, aligned) ==> x != rest) && mem'[x].size == mem[x].size)
    && (forall m: Mapping {:trigger bits'.IsSet(m)} :: bits'.IsSet(m) <==>
        (bits.IsSet(m) && !Ends(mem, b, m)) || (Cut(mem, b, aligned) && InClass(mem', rest, m)))
  }

  /** An allocation takes the head of a list, so complete bitmaps stay complete. */
  lemma ServedKeeps(
    mem: Mem, heads: seq<nat>, stamp: map<nat, nat>, clock: nat, bits: Bitmaps, mem': Mem, bits': Bitmaps, b: nat,
      aligned: nat)
    requires Lists(mem, heads, stamp, clock) && BitsSound(heads, bits) && bits'.Shape()
    requires Served(mem, mem', bits, bits', b, aligned) && mem[b].prev == 0
    requires Complete(mem, bits)
    ensures Complete(mem', bits')
  {
    forall x, m | InClass(mem', x, m)
      ensures bits'.IsSet(m)
    {
      if Listed(mem, x) && x != b {
        assert InClass(mem, x, m);
        if Ends(mem, b, m) {
          Sole(mem, heads, stamp, clock, b, x, m);
        }
      }
    }
  }

  // Freeing

  /** A free neighbour of `b`: it is merged into the block that is freed. */
  ghost predicate Merged(mem: Mem, b: nat, r: nat)
    requires b in mem
  {
    Listed(mem, r) && (r == mem[b].before || (!mem[b].last && r == After(mem, b)))
  }

  ghost predicate BeforeFree(mem: Mem, b: nat)
    requires b in mem
  {
    Listed(mem, mem[b].before)
  }

  ghost predicate AfterFree(mem: Mem, b: nat)
    requires b in mem
  {
    !mem[b].last && Listed(mem, After(mem, b))
  }

  /** Where the block starts that freeing `b` makes, and its size. */
  ghost function MergedStart(mem: Mem, b: nat): nat
    requires b in mem
  {
    if BeforeFree(mem, b) then mem[b].before else b
  }

  ghost function MergedSize(mem: Mem, b: nat): (n: nat)
    requires b in mem
    ensures n >= mem[b].size
  {
    (if BeforeFree(mem, b) then mem[mem[b].before].size + HEADER else 0) + mem[b].size +
    (if AfterFree(mem, b) then mem[After(mem, b)].size + HEADER else 0)
  }

  /** Freeing `b` clears the bit of the class: the last block of its list is merged. */
  ghost predicate Cleared(mem: Mem, b: nat, m: Mapping)
    requires b in mem
  {
    exists r :: Merged(mem, b, r) && Ends(mem, r, m)
  }

  /** All that freeing `b` does to the free blocks and the bitmaps. */
  ghost predicate Freed(mem: Mem, mem': Mem, bits: Bitmaps, bits': Bitmaps, b: nat)
    requires bits.Shape() && bits'.Shape() && b in mem
  {
    var start := MergedStart(mem, b);
    && start in mem' && mem'[start].size == MergedSize(mem, b)
    && (forall x: nat {:trigger Listed(mem', x)} {:trigger Listed(mem, x)} ::
        Listed(mem', x) <==> x == start || (Listed(mem, x) && !Merged(mem, b, x)))
    && (forall x: nat {:trigger Listed(mem', x)} {:trigger Listed(mem, x)} ::
        Listed(mem, x) && x in mem' && !Merged(mem, b, x) ==>
          x != start && mem'[x].size == mem[x].size &&
          (mem[x].next == 0 || !Merged(mem, b, mem[x].next) ==> mem'[x].next == mem[x].next))
    && (forall m: Mapping {:trigger bits'.IsSet(m)} ::
        bits'.IsSet(m) <==> InClass(mem', start, m) || (bits.IsSet(m) && !Cleared(mem, b, m)))
  }

  /** The bits that the two removals clear, one after the other. */
  lemma ClearedIs(
    mem: Mem, heads: seq<nat>, stamp: map<nat, nat>, clock: nat, bits: Bitmaps, b: nat, prev: nat, next: nat,
    mem1: Mem, bits1: Bitmaps, m: Mapping)
    requires Lists(mem, heads, stamp, clock) && b in mem && !mem[b].free && bits.Shape() && bits1.Shape()
    requires prev == mem[b].before && next == (if mem[b].last then 0 else After(mem, b))
    requires prev < b && (next == 0 || next > b)
    requires Unhooked(mem, mem1, bits, bits1, prev)
    ensures Cleared(mem, b, m) <==> Ends(mem, prev, m) || Ends(mem1, next, m)
  {
    assert Listed(mem, next) ==> NodeOk(mem, heads, stamp, next);
    assert Listed(mem, prev) ==> NodeOk(mem, heads, stamp, prev);
    assert Listed(mem1, next) <==> Listed(mem, next);
    assert Ends(mem1, next, m) ==> Ends(mem, next, m) || Ends(mem, prev, m);
    assert Ends(mem, next, m) ==> Ends(mem1, next, m);
    assert Ends(mem, prev, m) ==> Merged(mem, b, prev);
    assert Ends(mem, next, m) ==> Merged(mem, b, next);
  }

  lemma FreedIs(
    mem: Mem, heads: seq<nat>, stamp: map<nat, nat>, clock: nat, bits: Bitmaps, b: nat, prev: nat, next: nat,
    mem1: Mem, bits1: Bitmaps, mem2: Mem, bits2: Bitmaps, mem': Mem, bits': Bitmaps)
    requires Lists(mem, heads, stamp, clock) && b in mem && !mem[b].free
    requires bits.Shape() && bits1.Shape() && bits2.Shape() && bits'.Shape()
    requires prev == mem[b].before && next == (if mem[b].last then 0 else After(mem, b))
    requires prev < b && (next == 0 || next > b)
    requires Unhooked(mem, mem1, bits, bits1, prev) && Unhooked(mem1, mem2, bits1, bits2, next)
    requires MergedStart(mem, b) in mem2 && mem2[MergedStart(mem, b)].size == MergedSize(mem, b)
    requires Hooked(mem2, mem', bits2, bits', MergedStart(mem, b))
    ensures Freed(mem, mem', bits, bits', b)
  {
    assert Listed(mem, next) ==> NodeOk(mem, heads, stamp, next);
    assert Listed(mem, prev) ==> NodeOk(mem, heads, stamp, prev);
    forall m: Mapping
      ensures Cleared(mem, b, m) <==> Ends(mem, prev, m) || Ends(mem1, next, m)
    {
      ClearedIs(mem, heads, stamp, clock, bits, b, prev, next, mem1, bits1, m);
    }
  }

  /** Freeing `b` leaves a free block whose class has lost its bit. */
  ghost predicate Hides(mem: Mem, b: nat, x: nat, m: Mapping)
    requires b in mem
  {
    && MergedSize(mem, b) >= MIN_BLOCK && InClass(mem, x, m) && !Merged(mem, b, x)
    && Cleared(mem, b, m) && m != GetMapping(MergedSize(mem, b))
  }

  ghost predicate HidesSome(mem: Mem, b: nat)
    requires b in mem
  {
    exists x, m :: Hides(mem, b, x, m)
  }

  /**
     A free loses track of blocks exactly when it merges the last block of a list that holds other
     blocks, and the merged block belongs to another list.
   */
  lemma FreeHides(mem: Mem, mem': Mem, bits: Bitmaps, bits': Bitmaps, b: nat)
    requires bits.Shape() && bits'.Shape() && b in mem && mem[b].size >= MIN_BLOCK
    requires Freed(mem, mem', bits, bits', b) && Complete(mem, bits)
    ensures Complete(mem', bits') <==> !HidesSome(mem, b)
  {
    var start := MergedStart(mem, b);
    assert Listed(mem', start);
    forall x, m | Hides(mem, b, x, m)
      ensures InClass(mem', x, m) && !bits'.IsSet(m)
    {
      assert Listed(mem, x);
      assert InClass(mem', start, m) <==> m == GetMapping(MergedSize(mem, b));
    }
    forall x, m | InClass(mem', x, m) && !bits'.IsSet(m)
      ensures Hides(mem, b, x, m)
    {
      assert Listed(mem', x);
      assert InClass(mem, x, m);
    }
  }
}
