/** Powers of two and shifts, all defined by halving and doubling. */
module Powers {

  function Pow2(n: nat): (p: nat)
    ensures p >= 1
  {
    if n == 0 then 1 else 2 * Pow2(n - 1)
  }

  /** `c >> k`. */
  function Shr(c: nat, k: nat): nat {
    if k == 0 then c else Shr(c, k - 1) / 2
  }

  /** `c << k`. */
  function Shl(c: nat, k: nat): nat {
    if k == 0 then c else 2 * Shl(c, k - 1)
  }

  lemma {:induction false} Pow2Add(a: nat, b: nat)
    ensures Pow2(a + b) == Shl(Pow2(a), b)
    ensures Shl(1, b) == Pow2(b)
  {
    if b > 0 {
      Pow2Add(a, b - 1);
    }
  }

  lemma {:induction false} Pow2Mono(a: nat, b: nat)
    requires a <= b
    ensures Pow2(a) <= Pow2(b)
    ensures a < b ==> 2 * Pow2(a) <= Pow2(b)
    decreases b
  {
    if a < b {
      Pow2Mono(a, b - 1);
    }
  }

  lemma {:induction false} ShlMono(a: nat, b: nat, k: nat)
    requires a <= b
    ensures Shl(a, k) <= Shl(b, k)
    ensures a < b ==> Shl(a, k) + Pow2(k) <= Shl(b, k)
    ensures Shl(a + 1, k) == Shl(a, k) + Pow2(k)
  {
    if k > 0 {
      ShlMono(a, b, k - 1);
    }
  }

  lemma {:induction false} ShlAdd(a: nat, b: nat, k: nat)
    ensures Shl(a + b, k) == Shl(a, k) + Shl(b, k)
  {
    if k > 0 {
      ShlAdd(a, b, k - 1);
    }
  }

  lemma {:induction false} ShlShl(c: nat, a: nat, b: nat)
    ensures Shl(Shl(c, a), b) == Shl(c, a + b)
  {
    if b > 0 {
      ShlShl(c, a, b - 1);
    }
  }

  lemma {:induction false} ShrShr(c: nat, a: nat, b: nat)
    ensures Shr(Shr(c, a), b) == Shr(c, a + b)
  {
    if b > 0 {
      ShrShr(c, a, b - 1);
    }
  }

  /** Shifting right rounds down: `c >> k` is the place of the stretch of length `2^k` that holds `c`. */
  lemma {:induction false} ShrRange(c: nat, k: nat, j: nat)
    ensures Shr(c, k) == j <==> Shl(j, k) <= c < Shl(j, k) + Pow2(k)
  {
    if k > 0 {
      ShrRange(c, k - 1, 2 * j);
      ShrRange(c, k - 1, 2 * j + 1);
      ShlShl(j, 1, k - 1);
      ShlMono(2 * j, 2 * j, k - 1);
      assert Shl(j, 1) == 2 * j;
    }
  }

  lemma ShrShl(j: nat, k: nat)
    ensures Shr(Shl(j, k), k) == j
  {
    ShrRange(Shl(j, k), k, j);
  }

  /** Clearing the low bits. */
  lemma ShlShrBelow(c: nat, k: nat)
    ensures Shl(Shr(c, k), k) <= c < Shl(Shr(c, k), k) + Pow2(k)
  {
    ShrRange(c, k, Shr(c, k));
  }

  /** Shifts are multiplication by a power of two and the division that undoes it. */
  lemma {:induction false} ShlIsMul(c: nat, k: nat)
    ensures Shl(c, k) == c * Pow2(k)
  {
    if k > 0 {
      ShlIsMul(c, k - 1);
    }
  }

  lemma ShrIsDiv(c: nat, k: nat)
    ensures Shr(c, k) == c / Pow2(k)
  {
    var p := Pow2(k);
    var j := Shr(c, k);
    ShrRange(c, k, j);
    ShlIsMul(j, k);
    assert c == j * p + (c - j * p);
    DivUnique(c, p, j, c - j * p);
  }

  lemma DivUnique(c: int, d: int, q: int, r: int)
    requires d > 0
    requires c == q * d + r && 0 <= r < d
    ensures c / d == q && c % d == r
  {
    var k := c / d - q;
    assert k * d == r - c % d;
    assert -d < k * d < d;
    assert k == 0 by {
      SmallMultiple(k, d);
    }
  }

  lemma SmallMultiple(k: int, d: int)
    requires -d < k * d < d
    ensures k == 0
  {
    if k >= 1 {
      MulMono(1, k, d);
    } else if k <= -1 {
      MulMono(k, -1, d);
    }
  }

  lemma MulMono(a: int, b: int, s: int)
    requires a <= b && s >= 0
    ensures a * s <= b * s
  {
  }

  /** Truncating division of natural numbers. */
  function Quot(c: nat, s: nat): (q: nat)
    requires s > 0
  {
    QuotNat(c, s);
    c / s
  }

  lemma QuotNat(c: nat, s: nat)
    requires s > 0
    ensures c / s >= 0
  {
    var q := c / s;
    assert q * s + c % s >= 0;
    if q <= -1 {
      MulMono(q, -1, s);
    }
  }

  /** The least power of two that is at least `size`, searched upwards from `p`. */
  function PowerFrom(p: nat, size: nat): (q: nat)
    requires p >= 1
    ensures q >= size && q >= p
    decreases size - p
  {
    if size <= p then p else PowerFrom(2 * p, size)
  }

  function RoundUpPow2(size: nat): (p: nat)
    ensures p >= size
  {
    PowerFrom(1, size)
  }

  lemma {:induction false} PowerFromReaches(e: nat, size: nat, k: nat)
    requires e <= k && size <= Pow2(k) && (e < k ==> Pow2(k - 1) < size)
    ensures PowerFrom(Pow2(e), size) == Pow2(k)
    decreases k - e
  {
    if e < k {
      Pow2Mono(e, k - 1);
      PowerFromReaches(e + 1, size, k);
    }
  }

  /** Rounding up gives a power of two, and a smaller power of two would be too small. */
  lemma RoundUpIsPower(size: nat) returns (k: nat)
    ensures RoundUpPow2(size) == Pow2(k)
    ensures k > 0 ==> Pow2(k - 1) < size
  {
    assert Pow2(0) == 1;
    k := PowerFromIsPower(0, size);
  }

  lemma {:induction false} PowerFromIsPower(e: nat, size: nat) returns (k: nat)
    requires e > 0 ==> Pow2(e - 1) < size
    ensures PowerFrom(Pow2(e), size) == Pow2(k)
    ensures k > 0 ==> Pow2(k - 1) < size
    decreases size - Pow2(e)
  {
    if size <= Pow2(e) {
      k := e;
    } else {
      k := PowerFromIsPower(e + 1, size);
    }
  }
}
