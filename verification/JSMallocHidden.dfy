/**
 How JSMalloc loses a block: `remove_block` clears the bit of a class whenever the block it removes has
 no successor (JSMalloc.cpp:297-302), which is right for the head of a list but not for the last of several.
 A run of nine calls on a fresh heap ends with a request that fails although a block of the
 size is free.
 */
module JSMallocHidden {
  import opened Powers
  import opened TlsfClasses
  import opened JSMallocModel
  import opened JSMallocBits
  import opened JSMalloc

  /** A free neighbour, seen from the addresses alone. */
  lemma MergedIs(p: Pool, mem: Mem, b: nat, r: nat)
    requires Phys(p, mem) && b in mem
    ensures Merged(mem, b, r) <==> Listed(mem, r) && (After(mem, r) == b || After(mem, b) == r)
  {
    assert BlockOk(p, mem, b);
    LastIff(p, mem, b);
    if Listed(mem, r) {
      assert BlockOk(p, mem, r);
      if After(mem, r) == b {
        BeforeIs(p, mem, b, r);
      }
    }
  }

  /** The smallest block size, 32; it stays a parameter so that no proof computes with it. */
  predicate Smallest(s: nat) {
    MIN_BLOCK <= s < 64 && s % 32 == 0
  }

  lemma SmallSearch(s: nat)
    requires Smallest(s)
    ensures SearchFrom(s) == GetMapping(s)
  {
    SmallAligned(s);
    SmallTarget(s);
  }

  lemma SmallAligned(s: nat)
    requires s % 32 == 0 && 0 < s
    ensures AlignSize(s) == s
  {
  }

  lemma EveryBlockServes(s: nat, n: nat)
    requires Smallest(s) && n >= s
    ensures SearchFrom(s).Flat() <= GetMapping(n).Flat()
  {
    SmallSearch(s);
    ClassMono(s, n);
    MappingIsClass(s);
    MappingIsClass(n);
  }

  /** A block of 96 bytes serves a request for as many, and is not of the class of the smallest. */
  lemma TripleSearch(s: nat, t: nat)
    requires Smallest(s) && t == 3 * s
    ensures AlignSize(t) == t && SearchFrom(t).Flat() == GetMapping(t).Flat() && GetMapping(s) != GetMapping(t)
  {
    MappingIsClass(s);
    MappingIsClass(t);
    TargetIsStep(t);
    TripleStep(s, t);
    MappingIsClass(t + 1);
  }

  lemma TripleStep(s: nat, t: nat)
    requires Smallest(s) && t == 3 * s
    ensures Step(t) == 2 && ClassOf(t + 1) == ClassOf(t) > ClassOf(s)
  {
    var h := t / 2;
    assert h == (t + 1) / 2 && h < 64;
    assert Step(h) == 1 && ClassOf(h) == 128 + h;
  }

  /** A heap on the memory from 64 up to 320, with these blocks in use and free, and no block lost. */
  ghost predicate Has(j: JSMalloc, used: map<nat, nat>, free: map<nat, nat>)
    reads j, j.blocks
  {
    && j.Valid() && j.pool == Pool(64, 320)
    && Used(j.mem) == used && FreeAre(j.mem, free) && Complete(j.mem, j.bits)
  }

  lemma OnlyFree(mem: Mem, s: nat, b: nat, n: nat)
    requires Smallest(s) && FreeAre(mem, map[b := n]) && n >= s
    ensures !NoneFree(mem, SearchFrom(s))
  {
    EveryBlockServes(s, n);
    assert Listed(mem, b);
    assert InClass(mem, b, GetMapping(n));
  }

  lemma OnlyServed(mem: Mem, mem': Mem, bits: Bitmaps, bits': Bitmaps, s: nat, b: nat, n: nat, c: nat)
    requires bits.Shape() && bits'.Shape() && Smallest(s) && FreeAre(mem, map[b := n])
    requires Served(mem, mem', bits, bits', c, AlignSize(s))
    ensures c == b && b in mem'
    ensures n >= s + 64 ==> mem'[b].size == s && FreeAre(mem', map[b + 32 + s := n - 32 - s])
    ensures n < s + 64 ==> mem'[b].size == n && FreeAre(mem', map[])
  {
    SmallAligned(s);
    assert Listed(mem, c);
  }

  /** Any free block serves a request for `s` bytes, and none is lost. */
  method Serve(j: JSMalloc, s: nat, ghost b: nat, ghost n: nat) returns (ptr: nat)
    requires Smallest(s) && s <= n && j.Valid() && FreeAre(j.mem, map[b := n]) && Complete(j.mem, j.bits)
    modifies j, j.blocks
    ensures j.Valid() && Complete(j.mem, j.bits)
    ensures ptr >= HEADER && Served(old(j.mem), j.mem, old(j.bits), j.bits, ptr - HEADER, AlignSize(s))
    ensures ptr - HEADER in j.mem && Used(j.mem) == Used(old(j.mem))[ptr - HEADER := j.mem[ptr - HEADER].size]
  {
    OnlyFree(j.mem, s, b, n);
    ptr := j.Allocate(s);
  }

  /** The only free block is taken; it is cut if it is large enough. */
  method CutOnly(j: JSMalloc, s: nat, b: nat, n: nat, ghost used: map<nat, nat>)
    requires Smallest(s) && n >= s + 64 && Has(j, used, map[b := n])
    modifies j, j.blocks
    ensures Has(j, used[b := s], map[b + 32 + s := n - 32 - s])
  {
    var ptr := Serve(j, s, b, n);
    OnlyServed(old(j.mem), j.mem, old(j.bits), j.bits, s, b, n, ptr - HEADER);
  }

  method TakeOnly(j: JSMalloc, s: nat, b: nat, n: nat, ghost used: map<nat, nat>)
    requires Smallest(s) && s <= n < s + 64 && Has(j, used, map[b := n])
    modifies j, j.blocks
    ensures Has(j, used[b := n], map[])
  {
    var ptr := Serve(j, s, b, n);
    OnlyServed(old(j.mem), j.mem, old(j.bits), j.bits, s, b, n, ptr - HEADER);
  }

  /** The last block of a list. */
  ghost predicate LastInList(mem: Mem, r: nat) {
    Listed(mem, r) && mem[r].next == 0
  }

  /** A block in use that no free block touches is listed as it is. */
  lemma LoneFreed(p: Pool, mem: Mem, mem': Mem, bits: Bitmaps, bits': Bitmaps, b: nat, free: map<nat, nat>)
    requires bits.Shape() && bits'.Shape() && Phys(p, mem) && FreeAre(mem, free) && Complete(mem, bits)
    requires b in Used(mem) && Freed(mem, mem', bits, bits', b)
    requires forall r :: r in free ==> r + HEADER + free[r] != b && b + HEADER + Used(mem)[b] != r
    ensures !HidesSome(mem, b)
    ensures FreeAre(mem', free[b := Used(mem)[b]])
    ensures forall r {:trigger LastInList(mem', r)} :: LastInList(mem, r) ==> LastInList(mem', r)
  {
    forall r
      ensures !Merged(mem, b, r)
    {
      MergedIs(p, mem, b, r);
      assert Listed(mem, r) <==> r in free;
    }
  }

  method FreeLone(j: JSMalloc, b: nat, ghost used: map<nat, nat>, ghost free: map<nat, nat>)
    requires Has(j, used, free) && b in used && 64 <= b < 288
    requires forall r :: r in free ==> r + HEADER + free[r] != b && b + HEADER + used[b] != r
    modifies j, j.blocks
    ensures Has(j, used - {b}, free[b := used[b]])
    ensures forall r {:trigger LastInList(j.mem, r)} :: LastInList(old(j.mem), r) ==> LastInList(j.mem, r)
  {
    j.Free(b + HEADER);
    LoneFreed(j.pool, old(j.mem), j.mem, old(j.bits), j.bits, b, free);
  }

  lemma Fits256(n: nat)
    requires n == 256
    ensures n < Pow2(LEVELS)
  {
    Pow2Mono(9, LEVELS);
  }

  method OneFree(s: nat) returns (j: JSMalloc)
    ensures fresh(j) && fresh(j.blocks) && Has(j, map[], map[64 := 224])
  {
    Fits256(256);
    j := new JSMalloc(64, 256);
  }

  /** Four blocks of 32 bytes in use, which fill the pool. */
  method FourUsed(s: nat) returns (j: JSMalloc)
    requires Smallest(s)
    ensures fresh(j) && fresh(j.blocks)
    ensures Has(j, map[64 := s][128 := s][192 := s][256 := s], map[])
  {
    j := OneFree(s);
    CutOnly(j, s, 64, 224, map[]);
    CutOnly(j, s, 128, 160, map[64 := s]);
    CutOnly(j, s, 192, 96, map[64 := s][128 := s]);
    TakeOnly(j, s, 256, s, map[64 := s][128 := s][192 := s]);
  }

  /** Freeing the first puts it on a list of its own. */
  method FirstFreed(s: nat) returns (j: JSMalloc, ghost used: map<nat, nat>)
    requires Smallest(s)
    ensures fresh(j) && fresh(j.blocks) && used == map[128 := s][192 := s][256 := s]
    ensures Has(j, used, map[64 := s]) && LastInList(j.mem, 64)
  {
    j := FourUsed(s);
    used := map[64 := s][128 := s][192 := s][256 := s];
    FreeLone(j, 64, used, map[]);
    used := used - {64};
    LoneIsLast(j, 64, s);
  }

  lemma LoneIsLast(j: JSMalloc, b: nat, n: nat)
    requires j.Valid() && FreeAre(j.mem, map[b := n])
    ensures LastInList(j.mem, b)
  {
    assert Listed(j.mem, b);
    assert NodeOk(j.mem, j.blocks[..], j.stamp, b);
  }

  /** Two free blocks of 32 bytes, of which that at 64 is the older and so the last of its list. */
  method TwoFreed(s: nat) returns (j: JSMalloc, ghost used: map<nat, nat>)
    requires Smallest(s)
    ensures fresh(j) && fresh(j.blocks) && used == map[128 := s][192 := s]
    ensures Has(j, used, map[64 := s][256 := s]) && LastInList(j.mem, 64)
  {
    j, used := FirstFreed(s);
    FreeLone(j, 256, used, map[64 := s]);
    used := used - {256};
  }

  /** A bit names a class that some free block is of. */
  lemma SetIsOfBlock(
    mem: Mem, heads: seq<nat>, stamp: map<nat, nat>, clock: nat, bits: Bitmaps, m: Mapping,
    free: map<nat, nat>)
    returns (b: nat)
    requires Lists(mem, heads, stamp, clock) && BitsSound(heads, bits) && bits.IsSet(m) && FreeAre(mem, free)
    ensures b in free && InClass(mem, b, m)
  {
    SetHasHead(mem, heads, stamp, clock, bits, m);
    b := heads[m.Flat()];
    assert Listed(mem, b);
  }

  /** Only the free block at 64 touches the block in use at 128. */
  lemma TailMerged(p: Pool, mem: Mem, s: nat)
    requires Phys(p, mem) && Smallest(s)
    requires FreeAre(mem, map[64 := s][256 := s]) && Used(mem) == map[128 := s][192 := s]
    ensures 128 in mem && MergedStart(mem, 128) == 64 && MergedSize(mem, 128) == 3 * s
    ensures forall r :: Merged(mem, 128, r) <==> r == 64
  {
    assert 128 in Used(mem) && Used(mem)[128] == s;
    assert Listed(mem, 64);
    forall r
      ensures Merged(mem, 128, r) <==> r == 64
    {
      MergedIs(p, mem, 128, r);
      assert Listed(mem, r) <==> r in map[64 := s][256 := s];
    }
    assert Merged(mem, 128, 64);
    assert mem[128].before == 64;
    assert !Listed(mem, After(mem, 128));
  }

  /** They are merged, and the bit of the smallest class is cleared. */
  lemma TailFreed(
    p: Pool, mem: Mem, heads: seq<nat>, stamp: map<nat, nat>, clock: nat, bits: Bitmaps, mem': Mem, bits': Bitmaps,
      s: nat)
    requires Phys(p, mem) && Lists(mem, heads, stamp, clock) && BitsSound(heads, bits) && bits'.Shape() && Smallest(s)
    requires FreeAre(mem, map[64 := s][256 := s]) && LastInList(mem, 64) && Used(mem) == map[128 := s][192 := s]
    requires 128 in mem && Freed(mem, mem', bits, bits', 128)
    ensures FreeAre(mem', map[64 := 3 * s][256 := s])
    ensures forall m: Mapping :: bits'.IsSet(m) <==> InClass(mem', 64, m)
  {
    TailMerged(p, mem, s);
    forall m: Mapping | bits.IsSet(m)
      ensures Cleared(mem, 128, m)
    {
      var b := SetIsOfBlock(mem, heads, stamp, clock, bits, m, map[64 := s][256 := s]);
      assert InClass(mem, 64, m);
      assert Merged(mem, 128, 64) && Ends(mem, 64, m);
    }
  }

  /** Only the class of the merged block is known: that block serves a request for its size, and then none is known. */
  lemma LastKnownTaken(
    mem: Mem, heads: seq<nat>, stamp: map<nat, nat>, clock: nat, bits: Bitmaps, mem': Mem, bits': Bitmaps, s: nat,
      c: nat)
    requires Lists(mem, heads, stamp, clock) && bits.Shape() && bits'.Shape() && Smallest(s)
    requires FreeAre(mem, map[64 := 3 * s][256 := s])
    requires forall m: Mapping :: bits.IsSet(m) <==> InClass(mem, 64, m)
    requires Served(mem, mem', bits, bits', c, AlignSize(3 * s)) && OfLeastKnown(mem, bits, SearchFrom(3 * s), c)
    ensures FreeAre(mem', map[256 := s])
    ensures forall m: Mapping :: !bits'.IsSet(m)
  {
    TripleSearch(s, 3 * s);
    assert Listed(mem, c) && Listed(mem, 256);
    assert c == 64;
    assert NodeOk(mem, heads, stamp, 64);
    assert mem[64].next == 0;
  }

  /** Freeing the block between the one at 64 and one in use loses the block at 256. */
  method TailLost(s: nat) returns (j: JSMalloc)
    requires Smallest(s)
    ensures fresh(j) && fresh(j.blocks) && j.Valid() && FreeAre(j.mem, map[64 := 3 * s][256 := s])
    ensures forall m: Mapping :: j.bits.IsSet(m) <==> InClass(j.mem, 64, m)
  {
    ghost var used;
    j, used := TwoFreed(s);
    assert 128 in used;
    ghost var mem, heads, bits := j.mem, j.blocks[..], j.bits;
    ghost var stamp, clock := j.stamp, j.clock;
    j.Free(128 + HEADER);
    TailFreed(j.pool, mem, heads, stamp, clock, bits, j.mem, j.bits, s);
  }

  /** The merged block is taken: no bit is set any more. */
  method NothingKnown(s: nat) returns (j: JSMalloc)
    requires Smallest(s)
    ensures fresh(j) && fresh(j.blocks) && j.Valid() && FreeAre(j.mem, map[256 := s])
    ensures forall m: Mapping :: !j.bits.IsSet(m)
  {
    j := TailLost(s);
    TripleSearch(s, 3 * s);
    assert Listed(j.mem, 64);
    assert InClass(j.mem, 64, GetMapping(3 * s));
    ghost var mem, heads, bits := j.mem, j.blocks[..], j.bits;
    ghost var stamp, clock := j.stamp, j.clock;
    var ptr := j.Allocate(3 * s);
    LastKnownTaken(mem, heads, stamp, clock, bits, j.mem, j.bits, s, ptr - HEADER);
  }

  /** A request for 32 bytes fails, although a block of 32 bytes is free. */
  method LoseBlock(s: nat) returns (j: JSMalloc, ptr: nat)
    requires Smallest(s)
    ensures j.Valid() && Listed(j.mem, 256) && j.mem[256].size == s == AlignSize(s)
    ensures ptr == 0
  {
    j := NothingKnown(s);
    assert Listed(j.mem, 256);
    SmallAligned(s);
    ptr := j.Allocate(s);
  }
}
