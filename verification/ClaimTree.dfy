/**
 The claim tree (zIndexDistributor.inline.hpp): threads share out the indices below a count by
 claiming segments of segments, and finish by stealing what others have not claimed yet.  One thread
 runs the code below while any others, whatever they do, claim in between as a schedule says.
 */
module ClaimTree {
  import opened Powers

  const N: nat := 4
  const CLAIM_LEVELS: nat := 3
  const PADDING: nat := 16

  function LevelMultiplier(level: nat): nat
    requires level < CLAIM_LEVELS
  {
    16
  }

  // The claim variables

  function ClaimLevelSize(level: nat): nat
    requires level <= CLAIM_LEVELS
  {
    if level == 0 then 1 else LevelMultiplier(level - 1) * ClaimLevelSize(level - 1)
  }

  function ClaimLevelEnd(level: nat): nat
    requires level <= CLAIM_LEVELS
  {
    if level == 0 then PADDING else ClaimLevelSize(level) + ClaimLevelEnd(level - 1)
  }

  function Accumulate(ix: seq<nat>, level: nat, acc: nat): nat
    requires level < CLAIM_LEVELS && |ix| == N
  {
    if level == 0 then acc * ix[level]
    else acc * ix[level] + Accumulate(ix, level - 1, acc * LevelMultiplier(level))
  }

  /** The variable from which the next position at `level` is claimed, inside the segment `ix` names. */
  function ClaimIndex(ix: seq<nat>, level: nat): nat
    requires level < N && |ix| == N
  {
    if level == 0 then 0 else ClaimLevelEnd(level - 1) + Accumulate(ix, level - 1, 1)
  }

  lemma ClaimIndexIs(ix: seq<nat>)
    requires |ix| == N
    ensures ClaimIndex(ix, 0) == 0
    ensures ClaimIndex(ix, 1) == 16 + ix[0]
    ensures ClaimIndex(ix, 2) == 32 + 16 * ix[0] + ix[1]
    ensures ClaimIndex(ix, 3) == 288 + 256 * ix[0] + 16 * ix[1] + ix[2]
    ensures ClaimLevelEnd(CLAIM_LEVELS) == 288 + 4096
  {
    assert ClaimLevelSize(1) == 16 && ClaimLevelSize(2) == 256 && ClaimLevelSize(3) == 4096;
    assert ClaimLevelEnd(1) == 32 && ClaimLevelEnd(2) == 288;
    assert Accumulate(ix, 0, 16) == 16 * ix[0] && Accumulate(ix, 0, 256) == 256 * ix[0];
    assert Accumulate(ix, 1, 16) == 16 * ix[1] + 256 * ix[0];
  }

  /** The first `level` positions lie in their segments. */
  predicate InRange(ix: seq<nat>, level: nat) {
    |ix| == N && level <= CLAIM_LEVELS && forall k :: 0 <= k < level ==> ix[k] < 16
  }

  /** Different segments, of the same level or of different ones, have different variables. */
  lemma SlotsDistinct(ix: seq<nat>, l: nat, jx: seq<nat>, m: nat)
    requires InRange(ix, l) && InRange(jx, m)
    ensures ClaimIndex(ix, l) == ClaimIndex(jx, m) <==> l == m && ix[..l] == jx[..l]
    ensures ClaimIndex(ix, l) < ClaimLevelEnd(CLAIM_LEVELS)
  {
    SlotRange(ix, l);
    SlotRange(jx, m);
    if l == m {
      SlotsOfLevel(ix, jx, l);
    }
  }

  function LevelStart(l: nat): nat {
    if l == 0 then 0 else if l == 1 then 16 else if l == 2 then 32 else 288
  }

  lemma SlotRange(ix: seq<nat>, l: nat)
    requires InRange(ix, l)
    ensures LevelStart(l) <= ClaimIndex(ix, l) < if l == 3 then 288 + 4096 else LevelStart(l + 1)
    ensures ClaimLevelEnd(CLAIM_LEVELS) == 288 + 4096
  {
    ClaimIndexIs(ix);
    assert l == 0 || l == 1 || l == 2 || l == 3;
  }

  lemma SlotsOfLevel(ix: seq<nat>, jx: seq<nat>, l: nat)
    requires InRange(ix, l) && InRange(jx, l)
    ensures ClaimIndex(ix, l) == ClaimIndex(jx, l) <==> ix[..l] == jx[..l]
  {
    ClaimIndexIs(ix);
    ClaimIndexIs(jx);
    assert l == 0 || l == 1 || l == 2 || l == 3;
    if ix[..l] == jx[..l] {
      assert forall k :: 0 <= k < l ==> ix[k] == ix[..l][k] == jx[..l][k];
    }
  }

  // The indices

  function LevelsSize(level: nat): (n: nat)
    requires level < CLAIM_LEVELS
    ensures n > 0
  {
    if level == 0 then LevelMultiplier(0) else LevelMultiplier(level) * LevelsSize(level - 1)
  }

  function Coverage(level: nat): nat
    requires level < CLAIM_LEVELS
  {
    Quot(LevelsSize(CLAIM_LEVELS - 1), LevelsSize(level))
  }

  function LastLevelCount(ix: seq<nat>, level: nat): nat
    requires |ix| == N && level < N
    decreases N - level
  {
    if level == N - 1 then 0 else ix[level] * Coverage(level) + LastLevelCount(ix, level + 1)
  }

  function CalculateIndex(ix: seq<nat>, shift: nat): nat
    requires |ix| == N
  {
    Shl(LastLevelCount(ix, 0), shift) + ix[N - 1]
  }

  function SegmentSize(level: nat, shift: nat): nat
    requires level < N
  {
    if level == CLAIM_LEVELS then Pow2(shift) else LevelMultiplier(level)
  }

  /** The number of indices. */
  function Count(shift: nat): nat {
    Shl(LevelsSize(CLAIM_LEVELS - 1), shift)
  }

  lemma CoverageIs()
    ensures LevelsSize(0) == 16 && LevelsSize(1) == 256 && LevelsSize(2) == 4096
    ensures Coverage(0) == 256 && Coverage(1) == 16 && Coverage(2) == 1
  {
    assert LevelsSize(0) == 16;
    assert LevelsSize(1) == 256;
    assert LevelsSize(2) == 4096;
  }

  lemma LastLevelCountIs(ix: seq<nat>)
    requires |ix| == N
    ensures LastLevelCount(ix, 0) == 256 * ix[0] + 16 * ix[1] + ix[2]
    ensures ClaimIndex(ix, 3) == 288 + LastLevelCount(ix, 0)
  {
    CoverageIs();
    ClaimIndexIs(ix);
    assert LastLevelCount(ix, 3) == 0;
    assert LastLevelCount(ix, 2) == ix[2];
    assert LastLevelCount(ix, 1) == 16 * ix[1] + ix[2];
  }

  predicate Claimed(ix: seq<nat>, shift: nat) {
    InRange(ix, CLAIM_LEVELS) && ix[3] < Pow2(shift)
  }

  /**
     The four positions are a mixed-radix numeral: each stands for an index below the count, and each such
     index has exactly one.
   */
  lemma IndexBijection(shift: nat, x: nat) returns (ix: seq<nat>)
    requires x < Count(shift)
    ensures Claimed(ix, shift) && CalculateIndex(ix, shift) == x
    ensures forall jx :: Claimed(jx, shift) && CalculateIndex(jx, shift) == x ==> jx == ix
    ensures forall jx :: Claimed(jx, shift) ==> CalculateIndex(jx, shift) < Count(shift)
  {
    CoverageIs();
    var p := Shr(x, shift);
    ShlShrBelow(x, shift);
    if p >= 4096 {
      ShlMono(4096, p, shift);
    }
    var a, b, c := Digits(p);
    ix := [a, b, c, x - Shl(p, shift)];
    LastLevelCountIs(ix);
    forall jx | Claimed(jx, shift) && CalculateIndex(jx, shift) == x
      ensures jx == ix
    {
      LastLevelCountIs(jx);
      ShrRange(x, shift, LastLevelCount(jx, 0));
      DigitsUnique(jx[0], jx[1], jx[2], a, b, c);
    }
    forall jx | Claimed(jx, shift)
      ensures CalculateIndex(jx, shift) < Count(shift)
    {
      IndexBelow(jx, shift);
    }
  }

  lemma Digits(p: nat) returns (a: nat, b: nat, c: nat)
    requires p < 4096
    ensures a < 16 && b < 16 && c < 16 && p == 256 * a + 16 * b + c
  {
    var h := p / 16;
    a, b, c := h / 16, h % 16, p % 16;
  }

  lemma DigitsUnique(a: nat, b: nat, c: nat, d: nat, e: nat, f: nat)
    requires a < 16 && b < 16 && c < 16 && d < 16 && e < 16 && f < 16
    requires 256 * a + 16 * b + c == 256 * d + 16 * e + f
    ensures a == d && b == e && c == f
  {
  }

  lemma IndexBelow(ix: seq<nat>, shift: nat)
    requires Claimed(ix, shift)
    ensures CalculateIndex(ix, shift) < Count(shift)
  {
    LastLevelCountIs(ix);
    CoverageIs();
    ShlMono(LastLevelCount(ix, 0) + 1, 4096, shift);
    ShlMono(LastLevelCount(ix, 0), LastLevelCount(ix, 0), shift);
  }

  /** The index that value `j` of the last level's variable number `p` stands for. */
  function IndexAt(p: nat, j: nat, shift: nat): nat {
    Shl(p, shift) + j
  }

  lemma IndexAtInjective(p: nat, j: nat, q: nat, k: nat, shift: nat)
    requires j < Pow2(shift) && k < Pow2(shift)
    ensures IndexAt(p, j, shift) == IndexAt(q, k, shift) <==> p == q && j == k
  {
    ShrRange(IndexAt(p, j, shift), shift, p);
    ShrRange(IndexAt(q, k, shift), shift, q);
  }

  const LEAVES: nat := 4096
  const FIRST_LEAF: nat := 288

  /** An index has been handed out exactly when its segment's variable has passed it. */
  ghost predicate Exact(vars: seq<nat>, handed: set<nat>, shift: nat) {
    |vars| == FIRST_LEAF + LEAVES &&
    forall p: nat, j: nat {:trigger IndexAt(p, j, shift)} :: p < LEAVES && j < Pow2(shift) ==>
      (IndexAt(p, j, shift) in handed <==> j < vars[FIRST_LEAF + p])
  }

  function IsLeaf(slot: nat, value: nat, shift: nat): bool {
    FIRST_LEAF <= slot < FIRST_LEAF + LEAVES && value < Pow2(shift)
  }

  /** What one claim hands out. */
  ghost function HandedBy(slot: nat, value: nat, shift: nat): set<nat> {
    if IsLeaf(slot, value, shift) then {IndexAt(slot - FIRST_LEAF, value, shift)} else {}
  }

  /** A claim hands out at most one index, and never one that has been handed out before. */
  lemma ClaimIsNew(vars: seq<nat>, handed: set<nat>, shift: nat, slot: nat)
    requires Exact(vars, handed, shift) && slot < |vars|
    ensures HandedBy(slot, vars[slot], shift) !! handed
    ensures Exact(vars[slot := vars[slot] + 1], handed + HandedBy(slot, vars[slot], shift), shift)
  {
    var vars' := vars[slot := vars[slot] + 1];
    var more := HandedBy(slot, vars[slot], shift);
    forall p: nat, j: nat | p < LEAVES && j < Pow2(shift)
      ensures IndexAt(p, j, shift) in handed + more <==> j < vars'[FIRST_LEAF + p]
    {
      if IsLeaf(slot, vars[slot], shift) {
        IndexAtInjective(p, j, slot - FIRST_LEAF, vars[slot], shift);
      }
    }
  }

  /** Claim variables only grow. */
  ghost predicate AtLeast(vars: seq<nat>, vars': seq<nat>) {
    |vars'| == |vars| && forall i :: 0 <= i < |vars| ==> vars[i] <= vars'[i]
  }

  /** The segment that the positions `jx` name has been handed out to the end. */
  ghost predicate LeafDone(vars: seq<nat>, jx: seq<nat>, shift: nat) {
    InRange(jx, CLAIM_LEVELS) && ClaimIndex(jx, CLAIM_LEVELS) < |vars| &&
      vars[ClaimIndex(jx, CLAIM_LEVELS)] >= Pow2(shift)
  }

  /**
     So has every segment below the first `level` positions of `ix`, or, with a bound, those of them whose
     next position is below it.
   */
  ghost predicate Finished(vars: seq<nat>, ix: seq<nat>, level: nat, bound: nat, shift: nat)
    requires |ix| == N && level < CLAIM_LEVELS
  {
    forall jx {:trigger LeafDone(vars, jx, shift)} ::
      InRange(jx, CLAIM_LEVELS) && jx[..level] == ix[..level] && jx[level] < bound ==> LeafDone(vars, jx, shift)
  }

  lemma FinishedStays(vars: seq<nat>, vars': seq<nat>, ix: seq<nat>, ix': seq<nat>, level: nat, bound: nat, shift: nat)
    requires |ix| == N == |ix'| && level < CLAIM_LEVELS && Finished(vars, ix, level, bound, shift)
    requires AtLeast(vars, vars') && ix'[..level] == ix[..level]
    ensures Finished(vars', ix', level, bound, shift)
  {
    forall jx | InRange(jx, CLAIM_LEVELS) && jx[..level] == ix'[..level] && jx[level] < bound
      ensures LeafDone(vars', jx, shift)
    {
      assert LeafDone(vars, jx, shift);
    }
  }

  /** One more position finished, either as a leaf or because all below it is. */
  lemma FinishedNext(vars: seq<nat>, ix: seq<nat>, level: nat, shift: nat)
    requires InRange(ix, level) && level < CLAIM_LEVELS && ix[level] < 16
    requires Finished(vars, ix, level, ix[level], shift)
    requires if level + 1 == CLAIM_LEVELS then LeafDone(vars, ix, shift) else Finished(vars, ix, level + 1, 16, shift)
    ensures Finished(vars, ix, level, ix[level] + 1, shift)
  {
    forall jx | InRange(jx, CLAIM_LEVELS) && jx[..level] == ix[..level] && jx[level] < ix[level] + 1
      ensures LeafDone(vars, jx, shift)
    {
      if jx[level] < ix[level] {
        assert LeafDone(vars, jx, shift) <==> LeafDone(vars, jx, shift);
      } else {
        assert jx[..level + 1] == jx[..level] + [jx[level]];
        assert ix[..level + 1] == ix[..level] + [ix[level]];
        SlotsOfLevel(ix, jx, level + 1);
      }
    }
  }

  /** When every segment is exhausted, every index has been handed out. */
  lemma AllHanded(vars: seq<nat>, handed: set<nat>, ix: seq<nat>, shift: nat, x: nat)
    requires Exact(vars, handed, shift) && |ix| == N && Finished(vars, ix, 0, 16, shift)
    requires x < Count(shift)
    ensures x in handed
  {
    var jx := IndexBijection(shift, x);
    assert jx[..0] == ix[..0];
    assert LeafDone(vars, jx, shift);
    LastLevelCountIs(jx);
    var p := LastLevelCount(jx, 0);
    assert IndexAt(p, jx[3], shift) == x;
  }

  ghost predicate Distinct(s: seq<nat>) {
    forall i, j :: 0 <= i < j < |s| ==> s[i] != s[j]
  }

  lemma SameSlot(ix: seq<nat>, jx: seq<nat>, level: nat)
    requires InRange(ix, level) && |jx| == N && jx[..level] == ix[..level]
    ensures InRange(jx, level) && ClaimIndex(jx, level) == ClaimIndex(ix, level)
  {
    assert forall k :: 0 <= k < level ==> jx[k] == jx[..level][k] == ix[..level][k];
    SlotsOfLevel(ix, jx, level);
  }

  /** The index that a claim at the last level hands out is the one calculated from the positions. */
  lemma PositionClaimed(ix: seq<nat>, level: nat, shift: nat)
    requires InRange(ix, level)
    ensures HandedBy(ClaimIndex(ix, level), ix[level], shift) ==
      if level == CLAIM_LEVELS && ix[level] < Pow2(shift) then {CalculateIndex(ix, shift)} else {}
  {
    SlotRange(ix, level);
    LastLevelCountIs(ix);
  }

  lemma PositionInRange(ix: seq<nat>, jx: seq<nat>, level: nat, shift: nat)
    requires InRange(ix, level) && |jx| == N && jx[..level] == ix[..level] && jx[level] < SegmentSize(level, shift)
    ensures if level == CLAIM_LEVELS then Claimed(jx, shift) else InRange(jx, level + 1)
  {
    SameSlot(ix, jx, level);
  }

  lemma StealStep(vars: seq<nat>, vars': seq<nat>, jx: seq<nat>, kx: seq<nat>, level: nat, shift: nat)
    requires level < CLAIM_LEVELS && InRange(jx, level + 1) && |kx| == N && kx[..level + 1] == jx[..level + 1]
    requires AtLeast(vars, vars') && Finished(vars, jx, level, jx[level], shift)
    requires if level + 1 == CLAIM_LEVELS then
      ClaimIndex(jx, level + 1) < |vars'| && vars'[ClaimIndex(jx, level + 1)] >= Pow2(shift)
      else Finished(vars', kx, level + 1, 16, shift)
    ensures Finished(vars', jx, level, jx[level] + 1, shift)
  {
    FinishedStays(vars, vars', jx, jx, level, jx[level], shift);
    if level + 1 < CLAIM_LEVELS {
      FinishedStays(vars', vars', kx, jx, level + 1, 16, shift);
    }
    FinishedNext(vars', jx, level, shift);
  }

  class ClaimTree {
    const shift: nat
    const claimArray: array<nat>
    /** What the other threads claim, in order, before each claim of this thread. */
    const schedule: nat -> seq<nat>
    var tick: nat
    /** The indices this thread has called the function with. */
    var done: seq<nat>
    ghost var owned: set<nat>
    ghost var others: set<nat>

    ghost predicate Valid()
      reads this, claimArray
    {
      Exact(claimArray[..], owned + others, shift) && owned !! others
    }

    /** Every index this thread was handed has been processed, once. */
    ghost predicate Settled()
      reads this
    {
      Distinct(done) && forall x :: x in done <==> x in owned
    }

    /** The same, but for the one index just claimed. */
    ghost predicate Pending(index: nat)
      reads this
    {
      Distinct(done) && index !in done && forall x :: x in owned <==> x in done || x == index
    }

    constructor (shift: nat, schedule: nat -> seq<nat>)
      ensures Valid() && Settled() && fresh(claimArray)
      ensures this.shift == shift && this.schedule == schedule && owned == {} && others == {}
    {
      this.shift := shift;
      this.schedule := schedule;
      claimArray := new nat[FIRST_LEAF + LEAVES](i => 0);
      tick, done, owned, others := 0, [], {}, {};
    }

    /** The other threads' claims. */
    method Interfere()
      requires Valid()
      modifies this`tick, this`others, claimArray
      ensures Valid() && AtLeast(old(claimArray[..]), claimArray[..])
    {
      var slots := schedule(tick);
      tick := tick + 1;
      var i := 0;
      while i < |slots|
        invariant i <= |slots|
        invariant Valid() && AtLeast(old(claimArray[..]), claimArray[..])
      {
        if slots[i] < claimArray.Length {
          ClaimIsNew(claimArray[..], owned + others, shift, slots[i]);
          ghost var was := claimArray[..];
          ghost var more := HandedBy(slots[i], claimArray[slots[i]], shift);
          claimArray[slots[i]] := claimArray[slots[i]] + 1;
          assert claimArray[..] == was[slots[i] := was[slots[i]] + 1];
          assert owned + (others + more) == owned + others + more;
          others := others + more;
        }
        i := i + 1;
      }
    }

    /** Fetches a variable and adds one to it, in one step. */
    method Claim(slot: nat) returns (value: nat)
      requires Valid() && slot < claimArray.Length
      modifies this`tick, this`others, this`owned, claimArray
      ensures Valid() && AtLeast(old(claimArray[..]), claimArray[..])
      ensures old(claimArray[slot]) <= value < claimArray[slot]
      ensures owned == old(owned) + HandedBy(slot, value, shift) && HandedBy(slot, value, shift) !! old(owned)
    {
      Interfere();
      value := claimArray[slot];
      ClaimIsNew(claimArray[..], owned + others, shift, slot);
      ghost var was := claimArray[..];
      ghost var more := HandedBy(slot, value, shift);
      claimArray[slot] := value + 1;
      assert claimArray[..] == was[slot := was[slot] + 1];
      assert owned + more + others == owned + others + more;
      owned := owned + more;
    }

    method DoIt(indices: array<nat>)
      requires Valid() && indices.Length == N && Pending(CalculateIndex(indices[..], shift))
      modifies this`done
      ensures Settled()
      ensures done == old(done) + [CalculateIndex(indices[..], shift)]
    {
      var index := CalculateIndex(indices[..], shift);
      done := done + [index];
    }

    /** The state after a claim at `level`: a position below the segment's size is this thread's alone. */
    ghost predicate Holding(ix: seq<nat>, level: nat)
      requires |ix| == N && level < N
      reads this
    {
      if level == CLAIM_LEVELS && ix[level] < Pow2(shift) then Pending(CalculateIndex(ix, shift)) else Settled()
    }

    /** `claim_at`, with the position stored. */
    method ClaimAt(indices: array<nat>, level: nat, ghost ix: seq<nat>)
      requires Valid() && Settled() && indices != claimArray && indices.Length == N && level < N
      requires InRange(ix, level) && indices[..level] == ix[..level]
      modifies this`tick, this`others, this`owned, claimArray, indices
      ensures Valid() && AtLeast(old(claimArray[..]), claimArray[..])
      ensures indices[..level] == ix[..level] && ClaimIndex(ix, level) < claimArray.Length
      ensures old(claimArray[ClaimIndex(ix, level)]) <= indices[level] < claimArray[ClaimIndex(ix, level)]
      ensures Holding(indices[..], level)
    {
      SlotRange(ix, level);
      SameSlot(ix, indices[..], level);
      var value := Claim(ClaimIndex(indices[..], level));
      indices[level] := value;
      ghost var jx := indices[..];
      assert jx[..level] == ix[..level];
      SameSlot(ix, jx, level);
      PositionClaimed(jx, level, shift);
      assert forall x :: x in HandedBy(ClaimIndex(jx, level), value, shift) ==> x !in old(owned);
    }

    /** Claims positions at `level` until none is left, and does all that can be claimed below each. */
    method ClaimAndDo(indices: array<nat>, level: nat)
      requires Valid() && indices != claimArray && indices.Length == N && level <= N
      requires level < N ==> Settled() && InRange(indices[..], level)
      requires level == N ==> Claimed(indices[..], shift) && Pending(CalculateIndex(indices[..], shift))
      modifies this`tick, this`others, this`owned, this`done, claimArray, indices
      ensures Valid() && Settled() && AtLeast(old(claimArray[..]), claimArray[..])
      ensures indices[..level] == old(indices[..level])
      ensures level < N ==> ClaimIndex(old(indices[..]), level) < claimArray.Length
      ensures level < N ==> claimArray[ClaimIndex(old(indices[..]), level)] >= SegmentSize(level, shift)
      decreases N - level
    {
      if level == N {
        DoIt(indices);
        return;
      }
      ghost var ix := indices[..];
      ghost var ci := ClaimIndex(ix, level);
      ClaimAt(indices, level, ix);
      while indices[level] < SegmentSize(level, shift)
        invariant Valid() && AtLeast(old(claimArray[..]), claimArray[..])
        invariant indices[..level] == ix[..level]
        invariant ci < claimArray.Length && indices[level] < claimArray[ci]
        invariant Holding(indices[..], level)
        decreases SegmentSize(level, shift) - indices[level]
      {
        PositionInRange(ix, indices[..], level, shift);
        ghost var jx := indices[..];
        ClaimAndDo(indices, level + 1);
        assert indices[..level] == indices[..level + 1][..level] == jx[..level + 1][..level];
        ClaimAt(indices, level, ix);
      }
    }

    /** Visits every position at `level`, whoever claimed it, and claims what is left below. */
    method StealAndDo(indices: array<nat>, level: nat)
      requires Valid() && Settled() && indices != claimArray && indices.Length == N
      requires level < CLAIM_LEVELS && InRange(indices[..], level)
      modifies this`tick, this`others, this`owned, this`done, claimArray, indices
      ensures Valid() && Settled() && AtLeast(old(claimArray[..]), claimArray[..])
      ensures indices[..level] == old(indices[..level])
      ensures Finished(claimArray[..], old(indices[..]), level, 16, shift)
      decreases CLAIM_LEVELS - level
    {
      ghost var ix := indices[..];
      indices[level] := 0;
      assert indices[..level] == ix[..level];
      while indices[level] < SegmentSize(level, shift)
        invariant Valid() && Settled() && AtLeast(old(claimArray[..]), claimArray[..])
        invariant indices[..level] == ix[..level] && indices[level] <= 16
        invariant Finished(claimArray[..], indices[..], level, indices[level], shift)
        decreases 16 - indices[level]
      {
        ghost var jx := indices[..];
        ghost var vars := claimArray[..];
        PositionInRange(ix, jx, level, shift);
        var nextLevel := level + 1;
        ClaimAndDo(indices, nextLevel);
        ghost var kx := indices[..];
        if nextLevel < CLAIM_LEVELS {
          SameSlot(jx, kx, nextLevel);
          StealAndDo(indices, nextLevel);
        }
        StealStep(vars, claimArray[..], jx, kx, level, shift);
        assert indices[..level] == indices[..level + 1][..level] == jx[..level + 1][..level];
        assert indices[level] == indices[..level + 1][level] == jx[..level + 1][level];
        indices[level] := indices[level] + 1;
        FinishedStays(claimArray[..], claimArray[..], jx, indices[..], level, indices[level], shift);
      }
    }

    /**
     When this returns, every index below the count has been handed out to exactly one thread, and this
     thread has processed exactly those it was handed, each once.
     */
    method DoIndices()
      requires Valid() && Settled()
      modifies this`tick, this`others, this`owned, this`done, claimArray
      ensures Valid() && Settled()
      ensures forall x: nat :: x < Count(shift) ==> (x in owned) != (x in others)
      ensures Distinct(done) && forall x :: x in done <==> x in owned
    {
      var indices := new nat[N];
      ClaimAndDo(indices, 0);
      StealAndDo(indices, 0);
      forall x: nat | x < Count(shift)
        ensures (x in owned) != (x in others)
      {
        FinishedStays(claimArray[..], claimArray[..], indices[..], indices[..], 0, 16, shift);
        AllHanded(claimArray[..], owned + others, indices[..], shift, x);
      }
    }
  }
}
