/**
 The two-level size classes of JSMalloc's base configuration: 32 first levels, one for each power of
 two, each cut into 32 second levels.
 */
module TlsfClasses {
  import opened Powers

  const MIN_BLOCK: nat := 32
  const LEVELS: nat := 32

  datatype Mapping = Mapping(fl: nat, sl: nat) {
    predicate InRange() {
      fl < LEVELS && sl < LEVELS
    }

    /** `flatten_mapping`. */
    function Flat(): nat {
      fl * 32 + sl
    }
  }

  function ILog2(n: nat): (k: nat)
    requires n >= 1
  {
    if n == 1 then 0 else ILog2(n / 2) + 1
  }

  lemma SmallLog(size: nat)
    requires MIN_BLOCK <= size < 64
    ensures ILog2(size) == 5
  {
    var a, b, c, d := size / 2, size / 4, size / 8, size / 16;
    assert 2 <= d < 4 && ILog2(d) == 1 by {
      assert ILog2(d / 2) == 0;
    }
    assert ILog2(c) == 2 && ILog2(b) == 3 && ILog2(a) == 4;
  }

  lemma {:induction false} AtLeastFive(size: nat)
    requires size >= MIN_BLOCK
    ensures ILog2(size) >= 5
  {
    if size >= 64 {
      AtLeastFive(size / 2);
    } else {
      SmallLog(size);
    }
  }

  /** The leading six bits of a size. */
  function Leading(size: nat): nat
    requires size >= MIN_BLOCK
  {
    AtLeastFive(size);
    Shr(size, ILog2(size) - 5)
  }

  lemma {:induction false} LeadingHalf(size: nat)
    requires size >= MIN_BLOCK
    ensures 32 <= Leading(size) < 64
    ensures size < 64 ==> ILog2(size) == 5 && Leading(size) == size
    ensures size >= 64 ==> Leading(size) == Leading(size / 2)
  {
    AtLeastFive(size);
    if size < 64 {
      SmallLog(size);
    } else {
      LeadingHalf(size / 2);
      var k := ILog2(size / 2) - 5;
      AtLeastFive(size / 2);
      ShrShr(size, 1, k);
      assert Shr(size, 1) == size / 2;
    }
  }

  /** `get_mapping`: the exclusive or takes the leading bit off. */
  function GetMapping(size: nat): (m: Mapping)
    requires size >= MIN_BLOCK
    ensures m.sl < LEVELS
  {
    LeadingHalf(size);
    Mapping(ILog2(size), Leading(size) - 32)
  }

  lemma HalfMapping(size: nat)
    requires size >= 64
    ensures GetMapping(size) == Mapping(GetMapping(size / 2).fl + 1, GetMapping(size / 2).sl)
    ensures GetMapping(size).fl > 5
  {
    LeadingHalf(size);
    AtLeastFive(size / 2);
  }

  lemma HalfRange(a: nat, b: nat, k: nat, size: nat)
    requires k > 0
    ensures Shl(a, k) <= size < Shl(b, k) <==> Shl(a, k - 1) <= size / 2 < Shl(b, k - 1)
  {
  }

  lemma ShlAtLeast(a: nat, k: nat)
    requires k > 0
    ensures Shl(a, k) >= 2 * a
  {
    ShlIsMul(a, k - 1);
    MulMono(1, Pow2(k - 1), a);
  }

  /** Class `(fl, sl)` holds the sizes of step `sl` of the 32 equal steps from `2^fl` to `2^(fl + 1)`. */
  lemma {:induction false} ClassBounds(size: nat, m: Mapping)
    requires size >= MIN_BLOCK && 5 <= m.fl && m.sl < LEVELS
    ensures GetMapping(size) == m <==> Shl(32 + m.sl, m.fl - 5) <= size < Shl(33 + m.sl, m.fl - 5)
    decreases m.fl
  {
    if size < 64 {
      LeadingHalf(size);
      if m.fl > 5 {
        ShlAtLeast(32 + m.sl, m.fl - 5);
      }
    } else {
      HalfMapping(size);
      if m.fl > 5 {
        ClassBounds(size / 2, Mapping(m.fl - 1, m.sl));
        HalfRange(32 + m.sl, 33 + m.sl, m.fl - 5, size);
      }
    }
  }

  /** The classes in order: halving a size leads 32 classes down. */
  function ClassOf(size: nat): nat
    requires size >= MIN_BLOCK
  {
    if size < 64 then 128 + size else ClassOf(size / 2) + 32
  }

  lemma {:induction false} MappingIsClass(size: nat)
    requires size >= MIN_BLOCK
    ensures GetMapping(size).Flat() == ClassOf(size)
  {
    LeadingHalf(size);
    if size >= 64 {
      MappingIsClass(size / 2);
    }
  }

  lemma MappingInRange(size: nat)
    requires MIN_BLOCK <= size < Pow2(LEVELS)
    ensures GetMapping(size).InRange()
  {
    ILog2Below(size, LEVELS);
  }

  lemma {:induction false} ILog2Below(n: nat, k: nat)
    requires 1 <= n < Pow2(k)
    ensures ILog2(n) < k
  {
    if n > 1 {
      ILog2Below(n / 2, k - 1);
    }
  }

  /** Larger sizes have the same or a larger class. */
  lemma {:induction false} ClassMono(s: nat, t: nat)
    requires MIN_BLOCK <= s <= t
    ensures ClassOf(s) <= ClassOf(t)
  {
    if s >= 64 {
      ClassMono(s / 2, t / 2);
    } else {
      ClassAbove(t);
    }
  }

  lemma {:induction false} ClassAbove(t: nat)
    requires t >= MIN_BLOCK
    ensures ClassOf(t) >= 160 && (t >= 64 ==> ClassOf(t) >= 192)
  {
    if t >= 64 {
      ClassAbove(t / 2);
    }
  }

  /** `align_size`. */
  function AlignSize(size: nat): (a: nat)
    ensures a >= size && a >= MIN_BLOCK && a < size + MIN_BLOCK + (if size == 0 then 1 else 0)
    ensures a % MIN_BLOCK == 0
  {
    ((if size == 0 then 1 else size) + 31) / 32 * 32
  }

  /** The size whose class the search starts from. */
  function Target(aligned: nat): (t: nat)
    requires aligned >= MIN_BLOCK
    ensures t >= aligned
  {
    AtLeastFive(aligned);
    aligned + Pow2(ILog2(aligned) - 5) - 1
  }

  lemma SmallTarget(size: nat)
    requires MIN_BLOCK <= size < 64
    ensures Target(size) == size
  {
    TargetIsStep(size);
  }

  /** How far apart the classes are around `size`. */
  function Step(size: nat): (s: nat)
    requires size >= MIN_BLOCK
    ensures s >= 1
  {
    if size < 64 then 1 else 2 * Step(size / 2)
  }

  lemma {:induction false} TargetIsStep(aligned: nat)
    requires aligned >= MIN_BLOCK
    ensures Target(aligned) == aligned + Step(aligned) - 1
  {
    AtLeastFive(aligned);
    LeadingHalf(aligned);
    if aligned >= 64 {
      TargetIsStep(aligned / 2);
      AtLeastFive(aligned / 2);
    }
  }

  /** One step up is one class up, across the carry into the next first level too. */
  lemma {:induction false} StepIsNextClass(size: nat)
    requires size >= MIN_BLOCK
    ensures ClassOf(size + Step(size)) == ClassOf(size) + 1
  {
    if size >= 64 {
      StepIsNextClass(size / 2);
      assert (size + 2 * Step(size / 2)) / 2 == size / 2 + Step(size / 2);
    }
  }

  lemma {:induction false} RoundedIsNextClass(aligned: nat)
    requires aligned > MIN_BLOCK
    ensures ClassOf(aligned + Step(aligned) - 1) == ClassOf(aligned - 1) + 1
  {
    if aligned > 64 {
      var h := aligned / 2;
      if aligned % 2 == 0 {
        RoundedIsNextClass(h);
        assert (aligned + 2 * Step(h) - 1) / 2 == h + Step(h) - 1;
        assert (aligned - 1) / 2 == h - 1;
      } else {
        StepIsNextClass(h);
        assert (aligned + 2 * Step(h) - 1) / 2 == h + Step(h);
        assert (aligned - 1) / 2 == h;
      }
    }
  }

  /** The search starts exactly one class above that of the largest size that is too small. */
  lemma TargetIsNextClass(aligned: nat)
    requires aligned > MIN_BLOCK
    ensures GetMapping(Target(aligned)).Flat() == GetMapping(aligned - 1).Flat() + 1
  {
    TargetIsStep(aligned);
    RoundedIsNextClass(aligned);
    MappingIsClass(Target(aligned));
    MappingIsClass(aligned - 1);
  }

  /** The class the search starts from is the least whose every size, and every size above, is large enough. */
  lemma GoodFit(aligned: nat, m: Mapping)
    requires aligned > MIN_BLOCK
    ensures m.Flat() >= GetMapping(Target(aligned)).Flat() <==>
      forall size: nat :: size >= MIN_BLOCK && GetMapping(size).Flat() >= m.Flat() ==> size >= aligned
  {
    TargetIsNextClass(aligned);
    if m.Flat() >= GetMapping(Target(aligned)).Flat() {
      forall size: nat | size >= MIN_BLOCK && GetMapping(size).Flat() >= m.Flat()
        ensures size >= aligned
      {
        FitsClass(aligned, size);
      }
    } else {
      assert GetMapping(aligned - 1).Flat() >= m.Flat();
    }
  }

  /** A block found by the search is never too small. */
  lemma FitsClass(aligned: nat, size: nat)
    requires aligned >= MIN_BLOCK && size >= MIN_BLOCK
    requires GetMapping(size).Flat() >= GetMapping(Target(aligned)).Flat()
    ensures size >= aligned
  {
    if aligned > MIN_BLOCK && size < aligned {
      TargetIsNextClass(aligned);
      ClassMono(size, aligned - 1);
      MappingIsClass(size);
      MappingIsClass(aligned - 1);
    }
  }

  // The bitmaps, least bit first

  /** `ffs` of the bits from `k` on, or the number of bits if none is set. */
  function FirstSet(bits: seq<bool>, k: nat): (i: nat)
    requires k <= |bits|
    ensures k <= i <= |bits|
    ensures i < |bits| ==> bits[i]
    ensures forall j :: k <= j < i ==> !bits[j]
    decreases |bits| - k
  {
    if k == |bits| || bits[k] then k else FirstSet(bits, k + 1)
  }

  datatype Bitmaps = Bitmaps(fl: seq<bool>, sl: seq<seq<bool>>) {
    ghost predicate Ok() {
      && |fl| == LEVELS && |sl| == LEVELS
      && (forall f :: 0 <= f < LEVELS ==> |sl[f]| == LEVELS)
      && (forall f :: 0 <= f < LEVELS ==> (fl[f] <==> exists s :: 0 <= s < LEVELS && sl[f][s]))
    }

    predicate Shape() {
      |fl| == LEVELS && |sl| == LEVELS && forall f :: 0 <= f < LEVELS ==> |sl[f]| == LEVELS
    }

    predicate IsSet(m: Mapping)
      requires Shape()
    {
      m.InRange() && sl[m.fl][m.sl]
    }

    /** `update_bitmap`. */
    function Update(m: Mapping, on: bool): (b: Bitmaps)
      requires Shape() && m.InRange()
      ensures b.Shape()
    {
      var sl' := sl[m.fl := sl[m.fl][m.sl := on]];
      if on then Bitmaps(fl[m.fl := true], sl')
      else if FirstSet(sl'[m.fl], 0) == LEVELS then Bitmaps(fl[m.fl := false], sl')
      else Bitmaps(fl, sl')
    }

    /** `adjust_available_mapping`; shifting by the last level leaves no bit of 32. */
    function Adjust(m: Mapping): (r: Search)
      requires Shape() && m.sl < LEVELS
    {
      if m.fl >= LEVELS then UnableToFind
      else
        var s := FirstSet(sl[m.fl], m.sl);
        if s < LEVELS then Found(Mapping(m.fl, s))
        else
          var f := FirstSet(fl, m.fl + 1);
          if f == LEVELS then UnableToFind
          else Found(Mapping(f, FirstSet(sl[f], 0)))
    }
  }

  datatype Search = UnableToFind | Found(m: Mapping)

  /** Updating changes one class's bit, and the first level follows. */
  lemma UpdateOk(b: Bitmaps, m: Mapping, on: bool)
    requires b.Ok() && m.InRange()
    ensures b.Update(m, on).Ok()
    ensures forall n: Mapping :: n.InRange() ==> (b.Update(m, on).IsSet(n) <==> if n == m then on else b.IsSet(n))
  {
    var b' := b.Update(m, on);
    forall f | 0 <= f < LEVELS
      ensures b'.fl[f] <==> exists s :: 0 <= s < LEVELS && b'.sl[f][s]
    {
      if f == m.fl {
        if on {
          assert b'.sl[f][m.sl];
        } else if b.fl[f] {
          assert FirstSet(b'.sl[f], 0) < LEVELS ==> b'.sl[f][FirstSet(b'.sl[f], 0)];
        } else {
          assert forall s :: 0 <= s < LEVELS ==> !b.sl[f][s];
        }
      } else {
        assert b'.sl[f] == b.sl[f];
      }
    }
  }

  /** The two-level search returns the least class at or above the one asked for whose bit is set. */
  lemma AdjustIsLeast(b: Bitmaps, m: Mapping)
    requires b.Ok() && m.sl < LEVELS
    ensures match b.Adjust(m)
      case Found(r) => b.IsSet(r) && r.Flat() >= m.Flat() &&
        forall n: Mapping :: b.IsSet(n) && n.Flat() >= m.Flat() ==> n.Flat() >= r.Flat()
      case UnableToFind =>
        forall n: Mapping :: b.IsSet(n) ==> n.Flat() < m.Flat()
  {
    if m.fl < LEVELS {
      var s := FirstSet(b.sl[m.fl], m.sl);
      if s == LEVELS {
        var f := FirstSet(b.fl, m.fl + 1);
        if f < LEVELS {
          assert b.fl[f];
          assert FirstSet(b.sl[f], 0) < LEVELS;
        }
        forall n: Mapping | b.IsSet(n) && n.Flat() >= m.Flat()
          ensures f < LEVELS && n.Flat() >= f * 32 + FirstSet(b.sl[f], 0)
        {
          assert b.sl[n.fl][n.sl];
          assert b.fl[n.fl];
        }
      }
    }
  }
}
