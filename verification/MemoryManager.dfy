/**
 The manager of a range of offsets (zMemory.cpp, zMemory.inline.hpp): an address-ordered list of free
 areas, which are merged whenever they come to touch.
 */
module MemoryManager {
  import opened Options

  datatype Run = Run(start: nat, end: nat)

  /** The free offsets as runs: none empty, in order, and no two of them touching. */
  ghost predicate Canonical(runs: seq<Run>) {
    (forall i :: 0 <= i < |runs| ==> runs[i].start < runs[i].end) &&
    (forall i, j :: 0 <= i < j < |runs| ==> runs[i].end < runs[j].start)
  }

  predicate Within(r: Run, x: nat) {
    r.start <= x < r.end
  }

  ghost predicate IsFree(runs: seq<Run>, x: nat) {
    exists i :: 0 <= i < |runs| && Within(runs[i], x)
  }

  ghost predicate RangeFree(runs: seq<Run>, start: nat, size: nat) {
    forall x: nat :: start <= x < start + size ==> IsFree(runs, x)
  }

  /** `[start, end)` is no longer free, or newly free, and nothing else changes. */
  ghost predicate Removed(runs: seq<Run>, runs': seq<Run>, start: nat, end: nat) {
    forall x: nat :: IsFree(runs', x) <==> IsFree(runs, x) && !(start <= x < end)
  }

  ghost predicate Added(runs: seq<Run>, runs': seq<Run>, start: nat, end: nat) {
    forall x: nat :: IsFree(runs', x) <==> IsFree(runs, x) || start <= x < end
  }

  lemma FreeTail(runs: seq<Run>, x: nat)
    requires runs != []
    ensures IsFree(runs, x) <==> Within(runs[0], x) || IsFree(runs[1..], x)
  {
    if IsFree(runs, x) {
      var i :| 0 <= i < |runs| && Within(runs[i], x);
      assert i > 0 ==> Within(runs[1..][i - 1], x);
    }
    if IsFree(runs[1..], x) {
      var i :| 0 <= i < |runs[1..]| && Within(runs[1..][i], x);
      assert Within(runs[i + 1], x);
    }
  }

  /** The offset right after a run is not free, and neither is the one right before. */
  lemma RunEnds(runs: seq<Run>, i: nat)
    requires Canonical(runs) && i < |runs|
    ensures !IsFree(runs, runs[i].end)
    ensures runs[i].start > 0 ==> !IsFree(runs, runs[i].start - 1)
  {
    forall j | 0 <= j < |runs|
      ensures !Within(runs[j], runs[i].end)
      ensures runs[i].start > 0 ==> !Within(runs[j], runs[i].start - 1)
    {
      if j < i {
        assert runs[j].end < runs[i].start;
      } else if i < j {
        assert runs[i].end < runs[j].start;
      }
    }
  }

  /** A range that is free as a whole lies in a single run. */
  lemma RangeInRun(runs: seq<Run>, start: nat, size: nat) returns (i: nat)
    requires Canonical(runs) && size > 0 && RangeFree(runs, start, size)
    ensures i < |runs| && runs[i].start <= start && start + size <= runs[i].end
  {
    assert IsFree(runs, start);
    i :| 0 <= i < |runs| && Within(runs[i], start);
    RunEnds(runs, i);
    var e: nat := runs[i].end;
    assert e < start + size ==> IsFree(runs, e);
  }

  lemma RunIsFree(runs: seq<Run>, i: nat, start: nat, size: nat)
    requires i < |runs| && runs[i].start <= start && start + size <= runs[i].end
    ensures RangeFree(runs, start, size)
  {
    forall x: nat | start <= x < start + size
      ensures IsFree(runs, x)
    {
      assert Within(runs[i], x);
    }
  }

  // The list is determined by the set

  lemma FirstFree(a: seq<Run>, b: seq<Run>)
    requires Canonical(a) && Canonical(b) && a != []
    requires forall x: nat :: IsFree(a, x) <==> IsFree(b, x)
    ensures b != [] && b[0].start <= a[0].start
    ensures b[0].start == a[0].start ==> b[0].end <= a[0].end
  {
    assert Within(a[0], a[0].start);
    assert IsFree(b, a[0].start);
    RunEnds(a, 0);
    assert b[0].start == a[0].start ==> (Within(b[0], a[0].end) <==> a[0].end < b[0].end);
  }

  /** Equal free sets have equal lists. */
  lemma {:induction false} Unique(a: seq<Run>, b: seq<Run>)
    requires Canonical(a) && Canonical(b)
    requires forall x: nat :: IsFree(a, x) <==> IsFree(b, x)
    ensures a == b
    decreases |a| + |b|
  {
    if a != [] || b != [] {
      if a == [] {
        FirstFree(b, a);
      }
      FirstFree(a, b);
      FirstFree(b, a);
      assert a[0] == b[0];
      forall x: nat
        ensures IsFree(a[1..], x) <==> IsFree(b[1..], x)
      {
        FreeTail(a, x);
        FreeTail(b, x);
        NotInTail(a, x);
        NotInTail(b, x);
      }
      Unique(a[1..], b[1..]);
      assert a == [a[0]] + a[1..] && b == [b[0]] + b[1..];
    }
  }

  lemma NotInTail(runs: seq<Run>, x: nat)
    requires Canonical(runs) && runs != []
    ensures Within(runs[0], x) ==> !IsFree(runs[1..], x)
  {
    forall i | 0 <= i < |runs[1..]|
      ensures Within(runs[0], x) ==> !Within(runs[1..][i], x)
    {
      assert runs[0].end < runs[i + 1].start;
    }
  }

  // Changes at one place of the list

  /** Replacing run `i`. */
  lemma Replaced(runs: seq<Run>, i: nat, r: Run, x: nat)
    requires i < |runs|
    ensures IsFree(runs[i := r], x) <==> Within(r, x) || exists j :: 0 <= j < |runs| && j != i && Within(runs[j], x)
  {
    var runs' := runs[i := r];
    if IsFree(runs', x) {
      var j :| 0 <= j < |runs'| && Within(runs'[j], x);
      assert j != i ==> Within(runs[j], x);
    }
    if Within(r, x) {
      assert Within(runs'[i], x);
    }
    if j :| 0 <= j < |runs| && j != i && Within(runs[j], x) {
      assert Within(runs'[j], x);
    }
  }

  /** No other run holds an offset of run `i`. */
  lemma OnlyRun(runs: seq<Run>, i: nat, j: nat, x: nat)
    requires Canonical(runs) && i < |runs| && j < |runs|
    ensures Within(runs[i], x) && Within(runs[j], x) ==> i == j
  {
    if i < j {
      assert runs[i].end < runs[j].start;
    } else if j < i {
      assert runs[j].end < runs[i].start;
    }
  }

  lemma Shrink(runs: seq<Run>, i: nat, r: Run)
    requires Canonical(runs) && i < |runs| && r.start < r.end
    requires (r.start == runs[i].start && r.end < runs[i].end) || (r.end == runs[i].end && r.start > runs[i].start)
    ensures Canonical(runs[i := r])
    ensures Removed(runs, runs[i := r], if r.start == runs[i].start then r.end else runs[i].start,
      if r.start == runs[i].start then runs[i].end else r.start)
  {
    forall x: nat
      ensures IsFree(runs[i := r], x) <==> IsFree(runs, x) && !(Within(runs[i], x) && !Within(r, x))
    {
      Replaced(runs, i, r, x);
      if IsFree(runs, x) {
        var j :| 0 <= j < |runs| && Within(runs[j], x);
        OnlyRun(runs, i, j, x);
      }
      if j :| 0 <= j < |runs| && j != i && Within(runs[j], x) {
        assert IsFree(runs, x);
        OnlyRun(runs, i, j, x);
      }
    }
  }

  lemma Grow(runs: seq<Run>, i: nat, r: Run)
    requires Canonical(runs) && i < |runs| && r.start <= runs[i].start && runs[i].end <= r.end
    requires i > 0 ==> runs[i - 1].end < r.start
    requires i + 1 < |runs| ==> r.end < runs[i + 1].start
    ensures Canonical(runs[i := r])
    ensures forall x: nat :: IsFree(runs[i := r], x) <==> IsFree(runs, x) || Within(r, x)
  {
    forall x: nat
      ensures IsFree(runs[i := r], x) <==> IsFree(runs, x) || Within(r, x)
    {
      Replaced(runs, i, r, x);
      if IsFree(runs, x) {
        var j :| 0 <= j < |runs| && Within(runs[j], x);
      }
    }
    var runs' := runs[i := r];
    forall j, k | 0 <= j < k < |runs'|
      ensures runs'[j].end < runs'[k].start
    {
      assert runs[j].end < runs[k].start;
      assert j < i - 1 ==> runs[j].end < runs[i - 1].start;
      assert i + 1 < k ==> runs[i + 1].end < runs[k].start;
    }
  }

  function Without(runs: seq<Run>, i: nat): seq<Run>
    requires i < |runs|
  {
    runs[..i] + runs[i + 1..]
  }

  lemma Drop(runs: seq<Run>, i: nat)
    requires Canonical(runs) && i < |runs|
    ensures Canonical(Without(runs, i))
    ensures Removed(runs, Without(runs, i), runs[i].start, runs[i].end)
  {
    forall x: nat
      ensures IsFree(Without(runs, i), x) <==> IsFree(runs, x) && !Within(runs[i], x)
    {
      DropMember(runs, i, x);
    }
  }

  lemma DropMember(runs: seq<Run>, i: nat, x: nat)
    requires Canonical(runs) && i < |runs|
    ensures IsFree(Without(runs, i), x) <==> IsFree(runs, x) && !Within(runs[i], x)
  {
    if IsFree(Without(runs, i), x) {
      var j :| 0 <= j < |Without(runs, i)| && Within(Without(runs, i)[j], x);
      WithoutAt(runs, i, j);
      OnlyRun(runs, i, if j < i then j else j + 1, x);
    }
    if IsFree(runs, x) && !Within(runs[i], x) {
      var j :| 0 <= j < |runs| && Within(runs[j], x);
      WithoutAt(runs, i, if j < i then j else j - 1);
    }
  }

  lemma WithoutAt(runs: seq<Run>, i: nat, j: nat)
    requires i < |runs| && j < |runs| - 1
    ensures Without(runs, i)[j] == runs[if j < i then j else j + 1]
  {
  }

  function Inserted(runs: seq<Run>, i: nat, r: Run): seq<Run>
    requires i <= |runs|
  {
    runs[..i] + [r] + runs[i..]
  }

  lemma Insert(runs: seq<Run>, i: nat, r: Run)
    requires Canonical(runs) && i <= |runs| && r.start < r.end
    requires i > 0 ==> runs[i - 1].end < r.start
    requires i < |runs| ==> r.end < runs[i].start
    ensures Canonical(Inserted(runs, i, r))
    ensures forall x: nat :: IsFree(Inserted(runs, i, r), x) <==> IsFree(runs, x) || Within(r, x)
  {
    forall x: nat
      ensures IsFree(Inserted(runs, i, r), x) <==> IsFree(runs, x) || Within(r, x)
    {
      InsertMember(runs, i, r, x);
    }
    InsertOrder(runs, i, r);
  }

  lemma InsertMember(runs: seq<Run>, i: nat, r: Run, x: nat)
    requires i <= |runs|
    ensures IsFree(Inserted(runs, i, r), x) <==> IsFree(runs, x) || Within(r, x)
  {
    var runs' := Inserted(runs, i, r);
    if IsFree(runs', x) {
      var j :| 0 <= j < |runs'| && Within(runs'[j], x);
      if j < i {
        assert Within(runs[j], x);
      } else if j > i {
        assert Within(runs[j - 1], x);
      }
    }
    if IsFree(runs, x) {
      var j :| 0 <= j < |runs| && Within(runs[j], x);
      assert runs'[if j < i then j else j + 1] == runs[j];
    }
    if Within(r, x) {
      assert Within(runs'[i], x);
    }
  }

  lemma InsertOrder(runs: seq<Run>, i: nat, r: Run)
    requires Canonical(runs) && i <= |runs| && r.start < r.end
    requires i > 0 ==> runs[i - 1].end < r.start
    requires i < |runs| ==> r.end < runs[i].start
    ensures Canonical(Inserted(runs, i, r))
  {
    var runs' := Inserted(runs, i, r);
    forall j, k | 0 <= j < k < |runs'|
      ensures runs'[j].end < runs'[k].start
    {
      assert j < i - 1 ==> runs[j].end < runs[i - 1].start;
      assert i < k - 1 ==> runs[i].end < runs[k - 1].start;
    }
  }

  // Where allocation takes its range from

  ghost predicate LowestFit(runs: seq<Run>, start: nat, size: nat) {
    RangeFree(runs, start, size) && forall t: nat :: RangeFree(runs, t, size) ==> start <= t
  }

  ghost predicate HighestFit(runs: seq<Run>, start: nat, size: nat) {
    RangeFree(runs, start, size) && forall t: nat :: RangeFree(runs, t, size) ==> t <= start
  }

  ghost predicate NoFit(runs: seq<Run>, size: nat) {
    forall t: nat :: !RangeFree(runs, t, size)
  }

  predicate TooSmall(r: Run, size: nat) {
    r.end - r.start < size
  }

  /** The first run that is large enough starts the lowest range of the size. */
  lemma FirstFits(runs: seq<Run>, i: nat, size: nat)
    requires Canonical(runs) && size > 0 && i < |runs| && !TooSmall(runs[i], size)
    requires forall j :: 0 <= j < i ==> TooSmall(runs[j], size)
    ensures LowestFit(runs, runs[i].start, size)
  {
    RunIsFree(runs, i, runs[i].start, size);
    forall t: nat | RangeFree(runs, t, size)
      ensures runs[i].start <= t
    {
      var k := RangeInRun(runs, t, size);
      assert k > i ==> runs[i].end < runs[k].start;
    }
  }

  /** The last one ends the highest. */
  lemma LastFits(runs: seq<Run>, i: nat, size: nat)
    requires Canonical(runs) && size > 0 && i < |runs| && !TooSmall(runs[i], size)
    requires forall j :: i < j < |runs| ==> TooSmall(runs[j], size)
    ensures runs[i].end >= size && HighestFit(runs, runs[i].end - size, size)
  {
    RunIsFree(runs, i, runs[i].end - size, size);
    forall t: nat | RangeFree(runs, t, size)
      ensures t <= runs[i].end - size
    {
      var k := RangeInRun(runs, t, size);
      assert k < i ==> runs[k].end < runs[i].start;
    }
  }

  lemma NoneFits(runs: seq<Run>, size: nat)
    requires Canonical(runs) && size > 0
    requires forall j :: 0 <= j < |runs| ==> TooSmall(runs[j], size)
    ensures NoFit(runs, size)
  {
    forall t: nat
      ensures !RangeFree(runs, t, size)
    {
      LargeEnough(runs, t, size);
    }
  }

  lemma LargeEnough(runs: seq<Run>, t: nat, size: nat)
    requires Canonical(runs) && size > 0
    ensures RangeFree(runs, t, size) ==> exists k :: 0 <= k < |runs| && !TooSmall(runs[k], size)
  {
    if RangeFree(runs, t, size) {
      var k := RangeInRun(runs, t, size);
      assert !TooSmall(runs[k], size);
    }
  }

  // What freeing does to the list

  /** A range that is not free lies between two runs. */
  lemma Between(runs: seq<Run>, j: nat, start: nat, end: nat)
    requires Canonical(runs) && j < |runs| && start < end
    requires forall x: nat :: start <= x < end ==> !IsFree(runs, x)
    ensures runs[j].start <= start ==> runs[j].end <= start
    ensures start < runs[j].start ==> end <= runs[j].start
  {
    assert IsFree(runs, start) <==> exists i :: 0 <= i < |runs| && Within(runs[i], start);
    assert Within(runs[j], runs[j].start);
    assert IsFree(runs, runs[j].start);
  }

  /** The range fills the gap between two runs. */
  lemma Bridge(runs: seq<Run>, i: nat)
    requires Canonical(runs) && 0 < i < |runs|
    ensures var r := Run(runs[i - 1].start, runs[i].end);
      Canonical(Without(runs[i - 1 := r], i)) &&
        Added(runs, Without(runs[i - 1 := r], i), runs[i - 1].end, runs[i].start)
  {
    var r := Run(runs[i - 1].start, runs[i].end);
    var rest := Without(runs, i);
    Drop(runs, i);
    assert i < |rest| ==> rest[i] == runs[i + 1];
    Grow(rest, i - 1, r);
    var runs' := rest[i - 1 := r];
    assert runs' == Without(runs[i - 1 := r], i);
    assert runs[i - 1].end < runs[i].start;
    forall x: nat
      ensures IsFree(runs', x) <==> IsFree(runs, x) || runs[i - 1].end <= x < runs[i].start
    {
      assert IsFree(runs', x) <==> IsFree(rest, x) || Within(r, x);
      assert Within(runs[i - 1], x) ==> IsFree(runs, x);
      assert Within(runs[i], x) ==> IsFree(runs, x);
      assert Within(r, x) <==> Within(runs[i - 1], x) || Within(runs[i], x) || runs[i - 1].end <= x < runs[i].start;
    }
  }

  lemma Extend(runs: seq<Run>, i: nat, r: Run, start: nat, end: nat)
    requires Canonical(runs) && i < |runs| && start < end
    requires (r == Run(runs[i].start, end) && start == runs[i].end) ||
      (r == Run(start, runs[i].end) && end == runs[i].start)
    requires i > 0 ==> runs[i - 1].end < r.start
    requires i + 1 < |runs| ==> r.end < runs[i + 1].start
    ensures Canonical(runs[i := r]) && Added(runs, runs[i := r], start, end)
  {
    Grow(runs, i, r);
    var runs' := runs[i := r];
    forall x: nat
      ensures IsFree(runs', x) <==> IsFree(runs, x) || start <= x < end
    {
      assert IsFree(runs', x) <==> IsFree(runs, x) || Within(r, x);
      assert Within(runs[i], x) ==> IsFree(runs, x);
      assert Within(r, x) <==> Within(runs[i], x) || start <= x < end;
    }
  }

  /** The four ways in which a range can meet the runs on either side of it. */
  lemma Gap(runs: seq<Run>, i: nat, start: nat, end: nat)
    requires Canonical(runs) && i < |runs| && start < end && start < runs[i].start
    requires forall x: nat :: start <= x < end ==> !IsFree(runs, x)
    requires i > 0 ==> runs[i - 1].start <= start
    ensures i > 0 && start == runs[i - 1].end && end == runs[i].start ==>
      var runs' := Without(runs[i - 1 := Run(runs[i - 1].start, runs[i].end)], i);
      Canonical(runs') && Added(runs, runs', start, end)
    ensures i > 0 && start == runs[i - 1].end && end != runs[i].start ==>
      var runs' := runs[i - 1 := Run(runs[i - 1].start, end)]; Canonical(runs') && Added(runs, runs', start, end)
    ensures (i == 0 || start != runs[i - 1].end) && end == runs[i].start ==>
      var runs' := runs[i := Run(start, runs[i].end)]; Canonical(runs') && Added(runs, runs', start, end)
    ensures (i == 0 || start != runs[i - 1].end) && end != runs[i].start ==>
      var runs' := Inserted(runs, i, Run(start, end)); Canonical(runs') && Added(runs, runs', start, end)
  {
    Between(runs, i, start, end);
    if i > 0 {
      Between(runs, i - 1, start, end);
    }
    if i > 0 && start == runs[i - 1].end {
      if end == runs[i].start {
        Bridge(runs, i);
      } else {
        Extend(runs, i - 1, Run(runs[i - 1].start, end), start, end);
      }
    } else if end == runs[i].start {
      Extend(runs, i, Run(start, runs[i].end), start, end);
    } else {
      Insert(runs, i, Run(start, end));
    }
  }

  /** Freeing exactly what was allocated restores the list itself. */
  lemma AllocateThenFree(before: seq<Run>, during: seq<Run>, after: seq<Run>, start: nat, size: nat)
    requires Canonical(before) && Canonical(after)
    requires RangeFree(before, start, size) && Removed(before, during, start, start + size)
    requires Added(during, after, start, start + size)
    ensures after == before
  {
    Unique(after, before);
  }

  // The areas

  class Area {
    var start: nat
    var end: nat

    constructor (start: nat, size: nat)
      ensures this.start == start && this.end == start + size
    {
      this.start := start;
      this.end := start + size;
    }

    function Size(): int
      reads this
    {
      end - start
    }

    method ShrinkFromFront(size: nat)
      requires Size() > size
      modifies this`start
      ensures start == old(start) + size
    {
      start := start + size;
    }

    method ShrinkFromBack(size: nat)
      requires Size() > size
      modifies this`end
      ensures end == old(end) - size
    {
      end := end - size;
    }

    method GrowFromFront(size: nat)
      requires start >= size
      modifies this`start
      ensures start == old(start) - size
    {
      start := start - size;
    }

    method GrowFromBack(size: int)
      requires size >= 0
      modifies this`end
      ensures end == old(end) + size
    {
      end := end + size;
    }
  }

  class MemoryManager {
    var freelist: seq<Area>

    ghost predicate Valid()
      reads this, freelist
    {
      && (forall i, j :: 0 <= i < j < |freelist| ==> freelist[i] != freelist[j])
      && Canonical(Runs())
    }

    ghost function Runs(): (runs: seq<Run>)
      reads this, freelist
      ensures |runs| == |freelist|
    {
      seq(|freelist|, i requires 0 <= i < |freelist| reads this, freelist => Run(freelist[i].start, freelist[i].end))
    }

    constructor ()
      ensures Valid() && Runs() == []
    {
      freelist := [];
    }

    /** Takes area `i` off the list. */
    method RemoveArea(i: nat)
      requires Valid() && i < |freelist|
      modifies this
      ensures Valid() && Runs() == Without(old(Runs()), i)
    {
      Drop(Runs(), i);
      freelist := freelist[..i] + freelist[i + 1..];
      assert Runs() == Without(old(Runs()), i);
    }

    method AllocLowAddress(size: nat) returns (result: Option<nat>)
      requires Valid() && size > 0
      modifies this, freelist
      ensures Valid()
      ensures match result
        case None => Runs() == old(Runs()) && NoFit(old(Runs()), size)
        case Some(start) => LowestFit(old(Runs()), start, size) && Removed(old(Runs()), Runs(), start, start + size)
    {
      var i := 0;
      while i < |freelist|
        invariant i <= |freelist|
        invariant forall j :: 0 <= j < i ==> TooSmall(Runs()[j], size)
      {
        var area := freelist[i];
        if area.Size() >= size {
          FirstFits(Runs(), i, size);
          var start := area.start;
          TakeFront(i, size);
          return Some(start);
        }
        i := i + 1;
      }
      NoneFits(Runs(), size);
      return None;
    }

    /** Takes `size` offsets from the front of area `i`, or the whole area if that is its size. */
    method TakeFront(i: nat, size: nat)
      requires Valid() && i < |freelist| && 0 < size <= freelist[i].Size()
      modifies this, freelist
      ensures Valid()
      ensures Removed(old(Runs()), Runs(), old(freelist[i].start), old(freelist[i].start) + size)
    {
      var area := freelist[i];
      if area.Size() == size {
        Drop(Runs(), i);
        RemoveArea(i);
      } else {
        ghost var r := Run(area.start + size, area.end);
        Shrink(Runs(), i, r);
        area.ShrinkFromFront(size);
        assert Runs() == old(Runs())[i := r];
      }
    }

    /** Takes the first area, or as much of it as `size` says. */
    method AllocLowAddressAtMost(size: nat) returns (result: Option<nat>, taken: nat)
      requires Valid() && size > 0
      modifies this, freelist
      ensures Valid()
      ensures result.None? ==> taken == 0 && Runs() == old(Runs()) == []
      ensures result.Some? ==>
        && 0 < taken <= size && LowestFit(old(Runs()), result.value, taken)
        && Removed(old(Runs()), Runs(), result.value, result.value + taken)
        && (taken < size ==> !IsFree(old(Runs()), result.value + taken))
    {
      if freelist == [] {
        return None, 0;
      }
      var area := freelist[0];
      var start := area.start;
      RunEnds(Runs(), 0);
      assert Runs()[0] == Run(area.start, area.end);
      taken := if area.Size() <= size then area.Size() else size;
      FirstFits(Runs(), 0, taken);
      TakeFront(0, taken);
      return Some(start), taken;
    }

    method AllocHighAddress(size: nat) returns (result: Option<nat>)
      requires Valid() && size > 0
      modifies this, freelist
      ensures Valid()
      ensures match result
        case None => Runs() == old(Runs()) && NoFit(old(Runs()), size)
        case Some(start) => HighestFit(old(Runs()), start, size) && Removed(old(Runs()), Runs(), start, start + size)
    {
      var i := |freelist|;
      while i > 0
        invariant 0 <= i <= |freelist|
        invariant forall j :: i <= j < |freelist| ==> TooSmall(Runs()[j], size)
      {
        i := i - 1;
        var area := freelist[i];
        if area.Size() >= size {
          LastFits(Runs(), i, size);
          if area.Size() == size {
            var start := area.start;
            Drop(Runs(), i);
            RemoveArea(i);
            return Some(start);
          } else {
            ghost var r := Run(area.start, area.end - size);
            Shrink(Runs(), i, r);
            area.ShrinkFromBack(size);
            assert Runs() == old(Runs())[i := r];
            return Some(area.end);
          }
        }
      }
      NoneFits(Runs(), size);
      return None;
    }

    /** Returns a range that is not free, merging it with the areas it touches. */
    method Free(start: nat, size: nat)
      requires Valid() && size > 0
      requires forall x: nat :: start <= x < start + size ==> !IsFree(Runs(), x)
      modifies this, freelist
      ensures Valid()
      ensures Added(old(Runs()), Runs(), start, start + size)
    {
      var end := start + size;
      var i := 0;
      while i < |freelist|
        invariant i <= |freelist|
        invariant forall j :: 0 <= j < i ==> Runs()[j].start <= start
      {
        var area := freelist[i];
        if start < area.start {
          assert i > 0 ==> Runs()[i - 1].start <= start;
          FreeBefore(i, start, size);
          return;
        }
        i := i + 1;
      }
      FreeLast(start, size);
    }

    /** The range lies before area `i` and after the one before it. */
    method FreeBefore(i: nat, start: nat, size: nat)
      requires Valid() && size > 0 && i < |freelist| && start < freelist[i].start
      requires forall x: nat :: start <= x < start + size ==> !IsFree(Runs(), x)
      requires i > 0 ==> freelist[i - 1].start <= start
      modifies this, freelist
      ensures Valid()
      ensures Added(old(Runs()), Runs(), start, start + size)
    {
      var end := start + size;
      var area := freelist[i];
      ghost var runs := Runs();
      assert runs[i] == Run(area.start, area.end);
      assert i > 0 ==> runs[i - 1] == Run(freelist[i - 1].start, freelist[i - 1].end);
      Gap(runs, i, start, end);
      if i > 0 && start == freelist[i - 1].end {
        if end == area.start {
          MergeBoth(i, size);
        } else {
          GrowBack(i - 1, size);
        }
      } else if end == area.start {
        GrowFront(i, size);
      } else {
        InsertArea(i, start, size);
      }
    }

    /** The range fills the gap between areas `i - 1` and `i`. */
    method MergeBoth(i: nat, size: nat)
      requires Valid() && 0 < i < |freelist| && freelist[i - 1].end + size == freelist[i].start
      requires Canonical(Without(Runs()[i - 1 := Run(freelist[i - 1].start, freelist[i].end)], i))
      modifies this, freelist
      ensures Valid()
      ensures Runs() == old(Without(Runs()[i - 1 := Run(freelist[i - 1].start, freelist[i].end)], i))
    {
      var prev, area := freelist[i - 1], freelist[i];
      assert Runs()[i] == Run(area.start, area.end);
      ghost var runs := Runs()[i - 1 := Run(prev.start, area.end)];
      prev.GrowFromBack(size + area.Size());
      assert Runs() == runs;
      freelist := freelist[..i] + freelist[i + 1..];
      assert Runs() == Without(runs, i);
    }

    method GrowBack(i: nat, size: nat)
      requires Valid() && i < |freelist|
      requires Canonical(Runs()[i := Run(freelist[i].start, freelist[i].end + size)])
      modifies freelist
      ensures Valid() && Runs() == old(Runs()[i := Run(freelist[i].start, freelist[i].end + size)])
    {
      ghost var runs := Runs()[i := Run(freelist[i].start, freelist[i].end + size)];
      freelist[i].GrowFromBack(size);
      assert Runs() == runs;
    }

    method GrowFront(i: nat, size: nat)
      requires Valid() && i < |freelist| && freelist[i].start >= size
      requires Canonical(Runs()[i := Run(freelist[i].start - size, freelist[i].end)])
      modifies freelist
      ensures Valid() && Runs() == old(Runs()[i := Run(freelist[i].start - size, freelist[i].end)])
    {
      ghost var runs := Runs()[i := Run(freelist[i].start - size, freelist[i].end)];
      freelist[i].GrowFromFront(size);
      assert Runs() == runs;
    }

    method InsertArea(i: nat, start: nat, size: nat)
      requires Valid() && i <= |freelist| && Canonical(Inserted(Runs(), i, Run(start, start + size)))
      modifies this
      ensures Valid() && Runs() == Inserted(old(Runs()), i, Run(start, start + size))
    {
      ghost var runs := Inserted(Runs(), i, Run(start, start + size));
      var newArea := new Area(start, size);
      freelist := freelist[..i] + [newArea] + freelist[i..];
      assert Runs() == runs;
    }

    /** The range lies after every area. */
    method FreeLast(start: nat, size: nat)
      requires Valid() && size > 0
      requires forall x: nat :: start <= x < start + size ==> !IsFree(Runs(), x)
      requires forall j :: 0 <= j < |freelist| ==> Runs()[j].start <= start
      modifies this, freelist
      ensures Valid()
      ensures Added(old(Runs()), Runs(), start, start + size)
    {
      var end := start + size;
      var n := |freelist|;
      ghost var runs := Runs();
      if n > 0 {
        Between(runs, n - 1, start, end);
      }
      if n > 0 && start == freelist[n - 1].end {
        Extend(runs, n - 1, Run(freelist[n - 1].start, end), start, end);
        GrowBack(n - 1, size);
      } else {
        Insert(runs, n, Run(start, end));
        InsertArea(n, start, size);
      }
    }
  }
}
