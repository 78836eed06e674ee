/**
 The split bits of the binary buddy (bbuddy.cpp) while blocks are given back whole: the listed blocks
 and those in use cut the region up, and a search or a merge keeps the bits right.
 */
module BinarySplitBits {
  import opened Powers
  import opened BuddyGeometry
  import opened BlockSets
  import opened SplitBits
  import opened BinaryBuddyModel

  /** The listed blocks and the blocks in use. */
  function Parts(listed: Blocks, held: Blocks): Blocks {
    listed + held
  }

  ghost predicate Cut(L: nat, listed: Blocks, held: Blocks) {
    listed.Keys !! held.Keys && LiveSet(L, Parts(listed, held))
  }

  /** The split bits are right. */
  ghost predicate Tracks(L: nat, split: seq<bool>, listed: Blocks, held: Blocks) {
    Cut(L, listed, held) && SplitIs(L, split, Parts(listed, held))
  }

  /** The split bits are right, except perhaps that of the block of level `k` around `x`. */
  ghost predicate SplitSave(L: nat, split: seq<bool>, parts: Blocks, x: nat, k: nat)
    requires L > 0
  {
    |split| == Pow2(L - 1) &&
    forall c: nat, l: nat {:trigger SplitAt(L, split, parts, c, l)} ::
      c < RegionCells(L) && l + 1 < L && !(l == k && SameBlock(L, c, x, l)) ==> SplitAt(L, split, parts, c, l)
  }

  ghost predicate TracksSave(L: nat, split: seq<bool>, listed: Blocks, held: Blocks, x: nat, k: nat) {
    Cut(L, listed, held) && SplitSave(L, split, Parts(listed, held), x, k)
  }

  /** Cutting a block in two puts parts below it and changes nothing else. */
  lemma BelowSplit(L: nat, parts: Blocks, x: nat, k: nat, c: nat, m: nat)
    requires LiveSet(L, parts) && x in parts && parts[x] == k && k + 1 < L && m < L && x + Span(L, k + 1) !in parts
    ensures LiveBelow(L, Split(L, parts, x, k), c, m) <==>
      LiveBelow(L, parts, c, m) || (m == k && SameBlock(L, c, x, k))
  {
    var y := x + Span(L, k + 1);
    var parts' := Split(L, parts, x, k);
    RightHalf(L, x, k);
    if LiveBelow(L, parts', c, m) {
      var d :| BelowOf(L, parts', c, m, d);
      if d == x || d == y {
        if m < k {
          SameBlockUp(L, x, y, k, m);
          assert BelowOf(L, parts, c, m, x);
        }
      } else {
        assert BelowOf(L, parts, c, m, d);
      }
    }
    if LiveBelow(L, parts, c, m) {
      var d :| BelowOf(L, parts, c, m, d);
      assert BelowOf(L, parts', c, m, d);
    }
    if m == k && SameBlock(L, c, x, k) {
      assert BelowOf(L, parts', c, m, x);
    }
  }

  /** The right half of a part is not a part itself. */
  lemma HalfNotPart(L: nat, parts: Blocks, x: nat, k: nat)
    requires LiveSet(L, parts) && x in parts && parts[x] == k && k + 1 < L
    ensures x + Span(L, k + 1) !in parts
  {
    var y := x + Span(L, k + 1);
    RightHalf(L, x, k);
    if y in parts {
      Separate(L, parts, x, y);
      if parts[y] <= k {
        SameBlockUp(L, x, y, k, parts[y]);
      }
    }
  }

  lemma SplitParts(L: nat, split: seq<bool>, parts: Blocks, x: nat, k: nat)
    requires LiveSet(L, parts) && SplitIs(L, split, parts) && x in parts && parts[x] == k && k + 1 < L
    ensures BlockIndex(L, x, k) < |split| && LiveSet(L, Split(L, parts, x, k))
    ensures SplitIs(L, split[BlockIndex(L, x, k) := true], Split(L, parts, x, k))
  {
    HalfNotPart(L, parts, x, k);
    SplitApart(L, parts, x, k);
    SplitUpdate(L, split, x, k, x, k, true);
    var split', parts' := split[BlockIndex(L, x, k) := true], Split(L, parts, x, k);
    forall c: nat, m: nat {:trigger SplitAt(L, split', parts', c, m)} | c < RegionCells(L) && m + 1 < L
      ensures SplitAt(L, split', parts', c, m)
    {
      assert SplitAt(L, split, parts, c, m);
      SplitUpdate(L, split, c, m, x, k, true);
      BelowSplit(L, parts, x, k, c, m);
    }
  }

  /** One split of the search: the block is marked split. */
  lemma TracksSplit(L: nat, split: seq<bool>, listed: Blocks, held: Blocks, x: nat, k: nat)
    requires Tracks(L, split, listed, held) && x in listed && listed[x] == k && k + 1 < L
    ensures BlockIndex(L, x, k) < |split|
    ensures Tracks(L, split[BlockIndex(L, x, k) := true], Split(L, listed, x, k), held)
  {
    var parts := Parts(listed, held);
    HalfNotPart(L, parts, x, k);
    SplitParts(L, split, parts, x, k);
    SplitOfParts(L, listed, held, x, k);
  }

  lemma SplitOfParts(L: nat, listed: Blocks, held: Blocks, x: nat, k: nat)
    requires k + 1 < L && listed.Keys !! held.Keys && x in listed && x + Span(L, k + 1) !in Parts(listed, held)
    ensures Split(L, Parts(listed, held), x, k) == Parts(Split(L, listed, x, k), held)
  {
  }

  /** A block that is taken, or given back whole, stays a part. */
  lemma TracksTaken(L: nat, split: seq<bool>, listed: Blocks, held: Blocks, a: nat)
    requires Tracks(L, split, listed, held) && a in listed
    ensures Tracks(L, split, listed - {a}, held[a := listed[a]])
  {
    assert Parts(listed - {a}, held[a := listed[a]]) == Parts(listed, held);
  }

  lemma TracksGiven(L: nat, split: seq<bool>, listed: Blocks, held: Blocks, a: nat)
    requires Tracks(L, split, listed, held) && a in held
    ensures TracksSave(L, split, listed[a := held[a]], held - {a}, a, held[a])
  {
    assert Parts(listed[a := held[a]], held - {a}) == Parts(listed, held);
    var parts := Parts(listed, held);
    assert forall c: nat, l: nat :: c < RegionCells(L) && l + 1 < L ==> SplitAt(L, split, parts, c, l);
  }

  /** What the code clears before it merges, and at the end. */
  function Unsplit(L: nat, split: seq<bool>, x: nat, l: nat): seq<bool>
    requires l < L && (l + 1 < L ==> BlockIndex(L, x, l) < |split|)
  {
    if l + 1 < L then split[BlockIndex(L, x, l) := false] else split
  }

  lemma UnsplitParts(L: nat, split: seq<bool>, parts: Blocks, x: nat, l: nat)
    requires LiveSet(L, parts) && x in parts && parts[x] == l && SplitSave(L, split, parts, x, l)
    ensures l + 1 < L ==> BlockIndex(L, x, l) < |split|
    ensures SplitIs(L, Unsplit(L, split, x, l), parts)
  {
    if l + 1 < L {
      SplitUpdate(L, split, x, l, x, l, false);
    }
    var split' := Unsplit(L, split, x, l);
    forall c: nat, m: nat {:trigger SplitAt(L, split', parts, c, m)} | c < RegionCells(L) && m + 1 < L
      ensures SplitAt(L, split', parts, c, m)
    {
      if m == l && SameBlock(L, c, x, l) {
        SplitUpdate(L, split, c, m, x, l, false);
        LevelFromSplit(L, parts, x, l);
        BelowSame(L, parts, x, c, m);
      } else {
        assert SplitAt(L, split, parts, c, m);
        if l + 1 < L {
          SplitUpdate(L, split, c, m, x, l, false);
        }
      }
    }
  }

  /** The merge ends with every bit right. */
  lemma TracksDone(L: nat, split: seq<bool>, listed: Blocks, held: Blocks, x: nat, l: nat)
    requires TracksSave(L, split, listed, held, x, l) && x in listed && listed[x] == l
    ensures l < L && (l + 1 < L ==> BlockIndex(L, x, l) < |split|)
    ensures Tracks(L, Unsplit(L, split, x, l), listed, held)
  {
    UnsplitParts(L, split, Parts(listed, held), x, l);
  }

  /** Joining two halves: the bit of the block above is left to the next round. */
  lemma MergeParts(L: nat, split: seq<bool>, parts: Blocks, x: nat, l: nat)
    requires LiveSet(L, parts) && 0 < l && x in parts && parts[x] == l && SplitIs(L, split, parts)
    requires BuddyCell(L, x, l) in parts && parts[BuddyCell(L, x, l)] == l
    ensures var b := BuddyCell(L, x, l);
      var m := if b < x then b else x;
      LiveSet(L, Merge(parts, x, b, l)) && SplitSave(L, split, Merge(parts, x, b, l), m, l - 1)
  {
    var b := BuddyCell(L, x, l);
    var m := if b < x then b else x;
    var parts' := Merge(parts, x, b, l);
    BuddyStart(L, x, l);
    Buddy(L, x, l);
    MergeStart(L, x, l);
    MergeApart(L, parts, x, b, l);
    SplitBack(L, parts, x, l);
    forall c: nat, i: nat {:trigger SplitAt(L, split, parts', c, i)} |
      c < RegionCells(L) && i + 1 < L && !(i == l - 1 && SameBlock(L, c, m, i))
      ensures SplitAt(L, split, parts', c, i)
    {
      assert SplitAt(L, split, parts, c, i);
      BelowSplit(L, parts', m, l - 1, c, i);
    }
  }

  /** Splitting undoes merging. */
  lemma SplitBack(L: nat, parts: Blocks, x: nat, l: nat)
    requires LiveSet(L, parts) && 0 < l && x in parts && parts[x] == l
    requires BuddyCell(L, x, l) in parts && parts[BuddyCell(L, x, l)] == l
    ensures var b := BuddyCell(L, x, l);
      var m := if b < x then b else x;
      && m + Span(L, l) !in Merge(parts, x, b, l)
      && Split(L, Merge(parts, x, b, l), m, l - 1) == parts
  {
    var b := BuddyCell(L, x, l);
    var m := if b < x then b else x;
    BuddyStart(L, x, l);
    Buddy(L, x, l);
    MergeStart(L, x, l);
    RightHalf(L, m, l - 1);
  }

  /** One round of the merge loop. */
  lemma TracksMerge(L: nat, split: seq<bool>, listed: Blocks, held: Blocks, x: nat, l: nat)
    requires TracksSave(L, split, listed, held, x, l) && 0 < l && x in listed && listed[x] == l
    requires l < L && BuddyCell(L, x, l) in listed && listed[BuddyCell(L, x, l)] == l && x != BuddyCell(L, x, l)
    ensures l + 1 < L ==> BlockIndex(L, x, l) < |split|
    ensures var b := BuddyCell(L, x, l);
      var m := if b < x then b else x;
      TracksSave(L, Unsplit(L, split, x, l), Merge(listed, x, b, l), held, m, l - 1)
  {
    var b := BuddyCell(L, x, l);
    var parts := Parts(listed, held);
    UnsplitParts(L, split, parts, x, l);
    MergeParts(L, Unsplit(L, split, x, l), parts, x, l);
    assert Merge(parts, x, b, l) == Parts(Merge(listed, x, b, l), held);
  }

  /** The level of a block in use is the lowest one at which the bit above it is set. */
  lemma LevelOfHeld(L: nat, split: seq<bool>, listed: Blocks, held: Blocks, a: nat, m: nat)
    requires Tracks(L, split, listed, held) && a in held && m + 1 < L
    ensures BlockIndex(L, a, m) < |split| && (split[BlockIndex(L, a, m)] <==> m < held[a])
  {
    var parts := Parts(listed, held);
    assert parts[a] == held[a];
    LevelFromSplit(L, parts, a, m);
    assert SplitAt(L, split, parts, a, m);
  }

  /** A wholly free block lies inside a listed block. */
  lemma FreeInsideListed(L: nat, listed: Blocks, free: set<nat>, a: nat, m: nat) returns (c: nat)
    requires Inv(L, listed, free) && IsBlock(L, a, m) && WhollyFree(L, free, a, m)
    ensures c in listed && listed[c] <= m && SameBlock(L, c, a, listed[c])
  {
    if NoneAbove(L, listed, a, m) {
      Merged(L, listed, free, a, m);
      c := a;
    } else {
      c :| c in listed && listed[c] < m && SameBlock(L, c, a, listed[c]);
    }
  }

  /**
     No listed block below a block makes it split: a listed block is there because some of its neighbours are
     in use.
   */
  lemma HeldBelow(L: nat, listed: Blocks, held: Blocks, free: set<nat>, c: nat, m: nat)
    requires Cut(L, listed, held) && Inv(L, listed, free) && LiveSet(L, held) && FreeCells(L, held, free)
    requires c < RegionCells(L) && m < L
    ensures LiveBelow(L, Parts(listed, held), c, m) <==> LiveBelow(L, held, c, m)
  {
    var parts := Parts(listed, held);
    if LiveBelow(L, held, c, m) {
      var d :| BelowOf(L, held, c, m, d);
      assert BelowOf(L, parts, c, m, d);
    }
    if LiveBelow(L, parts, c, m) {
      var d :| BelowOf(L, parts, c, m, d);
      if d in listed {
        PartlyHeld(L, listed, held, free, c, m, d);
        SomeHeldBelow(L, listed, held, free, c, m, d);
      } else {
        assert BelowOf(L, held, c, m, d);
      }
    }
  }

  /** The block around a smaller listed block is not wholly free. */
  lemma PartlyHeld(L: nat, listed: Blocks, held: Blocks, free: set<nat>, c: nat, m: nat, d: nat)
    requires Inv(L, listed, free) && c < RegionCells(L) && m < L && BelowOf(L, listed, c, m, d)
    ensures !WhollyFree(L, free, c, m)
  {
    if WhollyFree(L, free, c, m) {
      AlignLeftIsBlock(L, c, m);
      var e := FreeInsideListed(L, listed, free, AlignLeft(L, c, m), m);
      SameBlockUp(L, AlignLeft(L, c, m), d, m, listed[e]);
      Separate(L, listed, e, d);
    }
  }

  lemma SomeHeldBelow(L: nat, listed: Blocks, held: Blocks, free: set<nat>, c: nat, m: nat, d: nat)
    requires Cut(L, listed, held) && Inv(L, listed, free) && LiveSet(L, held) && FreeCells(L, held, free)
    requires c < RegionCells(L) && m < L && BelowOf(L, listed, c, m, d) && !WhollyFree(L, free, c, m)
    ensures LiveBelow(L, held, c, m)
  {
    var x: nat :| x < RegionCells(L) && SameBlock(L, c, x, m) && x !in free;
    var h :| Covers(L, held, h, x);
    if held[h] > m {
      SameBlockUp(L, h, x, held[h], m);
      assert BelowOf(L, held, c, m, h);
    } else {
      var parts := Parts(listed, held);
      SameBlockUp(L, c, x, m, held[h]);
      SameBlockUp(L, c, d, m, held[h]);
      Separate(L, parts, h, d);
    }
  }

  /** So the bits say of each block whether it lies strictly above one in use, as those of the binary-tree buddy do. */
  lemma SplitByHeld(L: nat, split: seq<bool>, listed: Blocks, held: Blocks, free: set<nat>)
    requires Tracks(L, split, listed, held) && Inv(L, listed, free) && LiveSet(L, held) && FreeCells(L, held, free)
    ensures SplitIs(L, split, held)
  {
    forall c: nat, m: nat {:trigger SplitAt(L, split, held, c, m)} | c < RegionCells(L) && m + 1 < L
      ensures SplitAt(L, split, held, c, m)
    {
      assert SplitAt(L, split, Parts(listed, held), c, m);
      HeldBelow(L, listed, held, free, c, m);
    }
  }

  // Freeing a range

  /** Every block in use that meets the block of level `l` at `a` lies inside it. */
  ghost predicate NoneCut(L: nat, held: Blocks, a: nat, l: nat)
    requires l < L
  {
    forall c :: c in held && held[c] < l ==> !SameBlock(L, c, a, held[c])
  }

  /** The blocks in use outside the block of level `l` at `a`. */
  function Outside(L: nat, held: Blocks, a: nat, l: nat): Blocks
    requires l < L
  {
    map c | c in held && !SameBlock(L, a, c, l) :: held[c]
  }

  /** The blocks in use inside it count as one. */
  function AsOne(L: nat, held: Blocks, a: nat, l: nat): Blocks
    requires l < L
  {
    Outside(L, held, a, l)[a := l]
  }

  lemma LessOne(L: nat, held: Blocks, a: nat, l: nat)
    requires l < L
    ensures Less(AsOne(L, held, a, l), a) == Outside(L, held, a, l) && HasBlock(AsOne(L, held, a, l), a, l)
  {
    assert a !in Outside(L, held, a, l);
  }

  /** The split bit of the block of level `m` around `c`, once those inside the block at `a` have been cleared. */
  ghost predicate ClearedAt(L: nat, split: seq<bool>, split': seq<bool>, a: nat, l: nat, c: nat, m: nat)
    requires l < L && m < L
  {
    && BlockIndex(L, c, m) < |split| == |split'|
    && (split'[BlockIndex(L, c, m)] <==> split[BlockIndex(L, c, m)] && !(l <= m && SameBlock(L, a, c, l)))
  }

  ghost predicate ClearedIn(L: nat, split: seq<bool>, split': seq<bool>, a: nat, l: nat)
    requires l < L
  {
    && |split| == |split'| == Pow2(L - 1)
    && forall c: nat, m: nat {:trigger ClearedAt(L, split, split', a, l, c, m)} ::
      c < RegionCells(L) && m + 1 < L ==> ClearedAt(L, split, split', a, l, c, m)
  }

  /** No listed block meets a block without free cells. */
  lemma NoneListed(L: nat, listed: Blocks, free: set<nat>, a: nat, l: nat, c: nat)
    requires Inv(L, listed, free) && IsBlock(L, a, l) && c in listed
    requires forall d: nat :: d in Cells(L, a, l) ==> d !in free
    ensures !SameBlock(L, a, c, l) && !SameBlock(L, c, a, listed[c])
  {
    ListedIsFree(L, listed, free, c);
    BlockCells(L, a, l, a);
    BlockCells(L, a, l, c);
    assert SameBlock(L, c, c, listed[c]);
  }

  /** What is left beside the block. */
  lemma RestApart(L: nat, listed: Blocks, held: Blocks, free: set<nat>, a: nat, l: nat)
    requires Cut(L, listed, held) && Inv(L, listed, free) && LiveSet(L, held)
    requires IsBlock(L, a, l) && NoneCut(L, held, a, l) && forall d: nat :: d in Cells(L, a, l) ==> d !in free
    ensures var rest := Parts(listed, Outside(L, held, a, l));
      && LiveSet(L, rest) && a !in rest
      && forall c :: c in rest ==>
        !(rest[c] <= l && SameBlock(L, c, a, rest[c])) && !(l <= rest[c] && SameBlock(L, a, c, l))
  {
    var rest := Parts(listed, Outside(L, held, a, l));
    ApartFewer(L, Parts(listed, held), rest);
    if a in listed {
      NoneListed(L, listed, free, a, l, a);
    }
    forall c | c in rest
      ensures !(rest[c] <= l && SameBlock(L, c, a, rest[c])) && !(l <= rest[c] && SameBlock(L, a, c, l))
    {
      if c !in Outside(L, held, a, l) {
        NoneListed(L, listed, free, a, l, c);
      }
    }
  }

  lemma PartsAsOne(L: nat, listed: Blocks, held: Blocks, free: set<nat>, a: nat, l: nat)
    requires Cut(L, listed, held) && Inv(L, listed, free) && LiveSet(L, held)
    requires IsBlock(L, a, l) && NoneCut(L, held, a, l) && forall d: nat :: d in Cells(L, a, l) ==> d !in free
    ensures Cut(L, listed, AsOne(L, held, a, l)) && LiveSet(L, AsOne(L, held, a, l))
  {
    var rest := Parts(listed, Outside(L, held, a, l));
    RestApart(L, listed, held, free, a, l);
    ApartAdd(L, rest, a, l);
    OneMorePart(listed, Outside(L, held, a, l), a, l);
    ApartFewer(L, rest[a := l], AsOne(L, held, a, l));
  }

  lemma OneMorePart(listed: Blocks, held: Blocks, a: nat, l: nat)
    requires a !in Parts(listed, held)
    ensures Parts(listed, held[a := l]) == Parts(listed, held)[a := l]
  {
  }

  /** The block in use that covers `a` lies inside. */
  lemma FirstInside(L: nat, held: Blocks, free: set<nat>, a: nat, l: nat) returns (h: nat)
    requires LiveSet(L, held) && FreeCells(L, held, free)
    requires IsBlock(L, a, l) && a !in free && NoneCut(L, held, a, l)
    ensures h in held && held[h] >= l && SameBlock(L, a, h, l)
  {
    h :| Covers(L, held, h, a);
    SameBlockUp(L, h, a, held[h], l);
  }

  /** A node that is not inside lies above the same blocks as before. */
  lemma BelowAsOne(
    L: nat, listed: Blocks, held: Blocks, free: set<nat>, a: nat, l: nat, c: nat, m: nat)
    requires Cut(L, listed, held) && Inv(L, listed, free) && LiveSet(L, held) && FreeCells(L, held, free)
    requires IsBlock(L, a, l) && NoneCut(L, held, a, l) && forall d: nat :: d in Cells(L, a, l) ==> d !in free
    requires c < RegionCells(L) && m < L && !(l <= m && SameBlock(L, a, c, l))
    ensures LiveBelow(L, Parts(listed, AsOne(L, held, a, l)), c, m) <==> LiveBelow(L, Parts(listed, held), c, m)
  {
    var parts, parts' := Parts(listed, held), Parts(listed, AsOne(L, held, a, l));
    PartsAsOne(L, listed, held, free, a, l);
    BlockCells(L, a, l, a);
    if LiveBelow(L, parts, c, m) {
      var d :| BelowOf(L, parts, c, m, d);
      if d in held && SameBlock(L, a, d, l) {
        InsideBelow(L, a, l, c, m, d);
        assert BelowOf(L, parts', c, m, a);
      } else {
        assert d != a;
        assert BelowOf(L, parts', c, m, d);
      }
    }
    if LiveBelow(L, parts', c, m) {
      var d :| BelowOf(L, parts', c, m, d);
      if d == a {
        var h := FirstInside(L, held, free, a, l);
        SameBlockUp(L, a, h, l, m);
        assert BelowOf(L, parts, c, m, h);
      } else {
        assert BelowOf(L, parts, c, m, d);
      }
    }
  }

  lemma InsideBelow(L: nat, a: nat, l: nat, c: nat, m: nat, d: nat)
    requires l < L && m < L && !(l <= m && SameBlock(L, a, c, l)) && SameBlock(L, a, d, l) && SameBlock(L, c, d, m)
    ensures m < l && SameBlock(L, c, a, m)
  {
    if l <= m {
      SameBlockUp(L, c, d, m, l);
    } else {
      SameBlockUp(L, a, d, l, m);
    }
  }

  /** Inside, no part is left below a node. */
  lemma NoneBelowInside(L: nat, listed: Blocks, held: Blocks, free: set<nat>, a: nat, l: nat, c: nat, m: nat)
    requires Cut(L, listed, held) && Inv(L, listed, free)
    requires IsBlock(L, a, l) && forall d: nat :: d in Cells(L, a, l) ==> d !in free
    requires l <= m < L && SameBlock(L, a, c, l)
    ensures !LiveBelow(L, Parts(listed, AsOne(L, held, a, l)), c, m)
  {
    if LiveBelow(L, Parts(listed, AsOne(L, held, a, l)), c, m) {
      var d :| BelowOf(L, Parts(listed, AsOne(L, held, a, l)), c, m, d);
      SameBlockUp(L, c, d, m, l);
      assert d != a;
      if d !in AsOne(L, held, a, l) {
        NoneListed(L, listed, free, a, l, d);
      }
    }
  }

  /** Clearing the bits inside keeps all bits right when the blocks inside count as one. */
  lemma TracksAsOne(
    L: nat, split: seq<bool>, split': seq<bool>, listed: Blocks, held: Blocks, free: set<nat>, a: nat, l: nat)
    requires Tracks(L, split, listed, held) && Inv(L, listed, free) && LiveSet(L, held) && FreeCells(L, held, free)
    requires IsBlock(L, a, l) && NoneCut(L, held, a, l) && ClearedIn(L, split, split', a, l)
    requires forall d: nat :: d in Cells(L, a, l) ==> d !in free
    ensures Tracks(L, split', listed, AsOne(L, held, a, l))
    ensures LiveSet(L, AsOne(L, held, a, l)) && FreeCells(L, AsOne(L, held, a, l), free)
  {
    var parts' := Parts(listed, AsOne(L, held, a, l));
    PartsAsOne(L, listed, held, free, a, l);
    forall c: nat, m: nat {:trigger SplitAt(L, split', parts', c, m)} | c < RegionCells(L) && m + 1 < L
      ensures SplitAt(L, split', parts', c, m)
    {
      assert ClearedAt(L, split, split', a, l, c, m);
      assert SplitAt(L, split, Parts(listed, held), c, m);
      if l <= m && SameBlock(L, a, c, l) {
        NoneBelowInside(L, listed, held, free, a, l, c, m);
      } else {
        BelowAsOne(L, listed, held, free, a, l, c, m);
      }
    }
    SameFreeAsOne(L, held, free, a, l);
  }

  lemma SameFreeAsOne(L: nat, held: Blocks, free: set<nat>, a: nat, l: nat)
    requires LiveSet(L, held) && FreeCells(L, held, free)
    requires IsBlock(L, a, l) && NoneCut(L, held, a, l) && LiveSet(L, AsOne(L, held, a, l))
    requires forall d: nat :: d in Cells(L, a, l) ==> d !in free
    ensures FreeCells(L, AsOne(L, held, a, l), free)
  {
    var held' := AsOne(L, held, a, l);
    forall d: nat | d < RegionCells(L)
      ensures Occupied(L, held', d) <==> Occupied(L, held, d)
    {
      BlockCells(L, a, l, d);
      if SameBlock(L, a, d, l) {
        assert Covers(L, held', a, d);
      } else {
        CoverOutside(L, held, a, l, d);
      }
    }
  }

  lemma CoverOutside(L: nat, held: Blocks, a: nat, l: nat, d: nat)
    requires LiveSet(L, held) && IsBlock(L, a, l) && !SameBlock(L, a, d, l) && LiveSet(L, AsOne(L, held, a, l))
    requires NoneCut(L, held, a, l)
    ensures Occupied(L, AsOne(L, held, a, l), d) <==> Occupied(L, held, d)
  {
    var held' := AsOne(L, held, a, l);
    if Occupied(L, held, d) {
      var h :| Covers(L, held, h, d);
      if SameBlock(L, a, h, l) {
        if held[h] >= l {
          SameBlockUp(L, h, d, held[h], l);
        } else {
          SameBlockUp(L, a, h, l, held[h]);
        }
      }
      assert h != a;
      assert Covers(L, held', h, d);
    }
    if Occupied(L, held', d) {
      var h :| Covers(L, held', h, d);
      assert h != a;
      assert Covers(L, held, h, d);
    }
  }
}
